/** Interface management of the network back end: spreading interfaces
    over the worker groups, bringing an interface up and down with its
    carrier, the device's MTU and offload switches, and connecting an
    interface to the rings its front end has granted. */
module Interface {
  import opened Kernel
  import opened NetifIo
  import opened NetifState

  /** The worker groups (xen_netbk[]): how many interfaces each serves
      (group_domain_nr) and the list of those interfaces
      (group_domain_list). */
  class Groups {
    const domainNr: array<nat>
    var domainList: seq<seq<Netif>>

    /** There is at least one group, no more than a group index can name,
        and each count is the length of its list. */
    ghost predicate Valid()
      reads this, domainNr
    {
      && 1 <= domainNr.Length < UINT_MAX
      && |domainList| == domainNr.Length
      && forall g :: 0 <= g < domainNr.Length ==> domainNr[g] == |domainList[g]|
    }

    /** netif is served by the group it records, listed there exactly once
        and in no other group's list. */
    ghost predicate Attached(netif: Netif)
      reads this, netif`group
    {
      && netif.group < |domainList|
      && multiset(domainList[netif.group])[netif] == 1
      && forall g :: 0 <= g < |domainList| && g != netif.group ==> netif !in domainList[g]
    }

    /** netif records no group and is in no group's list. */
    ghost predicate Detached(netif: Netif)
      reads this, netif`group
    {
      && netif.group == UINT_MAX
      && forall g :: 0 <= g < |domainList| ==> netif !in domainList[g]
    }

    /** An interface is in a group exactly while its device is open and its
        carrier is on. */
    ghost predicate Consistent(netif: Netif)
      reads this, netif`group, netif`carrierOk, netif`running
    {
      if netif.carrierOk && netif.running then Attached(netif) else Detached(netif)
    }

    constructor (nrGroups: nat)
      requires 1 <= nrGroups < UINT_MAX
      ensures Valid() && domainNr.Length == nrGroups
      ensures forall g :: 0 <= g < nrGroups ==> domainNr[g] == 0
    {
      domainNr := new nat[nrGroups](_ => 0);
      domainList := seq(nrGroups, _ => []);
    }

    /** The scan at the top of __netif_up: the group serving the fewest
        interfaces, the lowest-numbered one on a tie. */
    method LeastLoaded() returns (group: nat)
      requires 1 <= domainNr.Length
      ensures LeastLoadedIn(domainNr[..], group)
    {
      group := 0;
      var minDomains := domainNr[0];
      var i := 1;
      while i < domainNr.Length
        invariant 1 <= i <= domainNr.Length && group < i && minDomains == domainNr[group]
        invariant forall j :: 0 <= j < i ==> minDomains <= domainNr[j]
        invariant forall j :: 0 <= j < group ==> minDomains < domainNr[j]
      {
        if domainNr[i] < minDomains {
          group := i;
          minDomains := domainNr[i];
        }
        i := i + 1;
      }
    }

    /** __netif_up: netif joins the tail of the least loaded group's list
        and that group's count goes up by one. */
    method NetifUp(netif: Netif)
      requires Valid() && Detached(netif)
      modifies domainNr, this`domainList, netif`group
      ensures Valid() && Attached(netif)
      ensures LeastLoadedIn(old(domainNr[..]), netif.group)
      ensures domainNr[..] == old(domainNr[..])[netif.group := old(domainNr[..])[netif.group] + 1]
      ensures domainList == Join(old(domainList), netif.group, netif)
    {
      var group := LeastLoaded();
      domainList := Join(domainList, group, netif);
      domainNr[group] := domainNr[group] + 1;
      netif.group := group;
    }

    /** __netif_down: netif leaves its group's list, that group's count
        goes down by one and netif records no group. */
    method NetifDown(netif: Netif)
      requires Valid() && Attached(netif)
      modifies domainNr, this`domainList, netif`group
      ensures Valid() && Detached(netif)
      ensures var g := old(netif.group);
              && domainNr[..] == old(domainNr[..])[g := old(domainNr[g]) - 1]
              && domainList == Leave(old(domainList), g, netif)
    {
      var g := netif.group;
      netif.group := UINT_MAX;
      RemoveOnly(domainList[g], netif);
      domainList := Leave(domainList, g, netif);
      domainNr[g] := domainNr[g] - 1;
    }

    /** netback_carrier_on in netif_map, followed by __netif_up when the
        device is open. */
    method CarrierOn(netif: Netif)
      requires Valid() && Consistent(netif) && !netif.carrierOk
      modifies domainNr, this`domainList, netif`group, netif`carrierOk
      ensures Valid() && Consistent(netif) && netif.carrierOk
      ensures netif.running ==> LeastLoadedIn(old(domainNr[..]), netif.group)
                                && domainList == Join(old(domainList), netif.group, netif)
      ensures !netif.running ==> domainNr[..] == old(domainNr[..]) && domainList == old(domainList)
    {
      netif.carrierOk := true;
      if netif.running {
        NetifUp(netif);
      }
    }

    /** net_open, entered with the device already marked running: with
        the carrier on the interface is brought up and its queue started;
        with it off nothing else happens. */
    method NetOpen(netif: Netif)
      requires Valid() && Consistent(netif) && !netif.running
      modifies domainNr, this`domainList, netif`group, netif`running, netif`queueStopped
      ensures Valid() && Consistent(netif) && netif.running
      ensures old(netif.carrierOk) ==> !netif.queueStopped && LeastLoadedIn(old(domainNr[..]), netif.group)
                                       && domainList == Join(old(domainList), netif.group, netif)
      ensures !old(netif.carrierOk) ==> netif.queueStopped == old(netif.queueStopped)
                                        && domainNr[..] == old(domainNr[..]) && domainList == old(domainList)
    {
      netif.running := true;
      if netif.carrierOk {
        NetifUp(netif);
        netif.queueStopped := false;
      }
    }

    /** net_close, entered with the device already marked stopped: with
        the carrier on the interface is brought down; the queue is stopped
        either way. */
    method NetClose(netif: Netif)
      requires Valid() && Consistent(netif) && netif.running
      modifies domainNr, this`domainList, netif`group, netif`running, netif`queueStopped
      ensures Valid() && Consistent(netif) && !netif.running && netif.queueStopped
      ensures old(netif.carrierOk) ==> domainList == Leave(old(domainList), old(netif.group), netif)
      ensures !old(netif.carrierOk) ==> domainNr[..] == old(domainNr[..]) && domainList == old(domainList)
    {
      netif.running := false;
      if netif.carrierOk {
        NetifDown(netif);
      }
      netif.queueStopped := true;
    }
  }

  /** group is a group serving no more interfaces than any other and
      strictly fewer than every group numbered below it. */
  ghost predicate LeastLoadedIn(nr: seq<nat>, group: nat)
  {
    && group < |nr|
    && (forall j :: 0 <= j < |nr| ==> nr[group] <= nr[j])
    && forall j :: 0 <= j < group ==> nr[group] < nr[j]
  }

  /** At most one group is the least loaded one. */
  lemma LeastLoadedUnique(nr: seq<nat>, g1: nat, g2: nat)
    requires LeastLoadedIn(nr, g1) && LeastLoadedIn(nr, g2)
    ensures g1 == g2
  {
    assert nr[g1] <= nr[g2] && nr[g2] <= nr[g1];
  }

  /** list_add_tail on group g's list. */
  function Join(lists: seq<seq<Netif>>, g: nat, netif: Netif): (r: seq<seq<Netif>>)
    requires g < |lists|
    ensures |r| == |lists| && multiset(r[g]) == multiset(lists[g]) + multiset{netif}
    ensures forall h :: 0 <= h < |lists| && h != g ==> r[h] == lists[h]
  {
    lists[g := lists[g] + [netif]]
  }

  /** list_del of netif from group g's list. */
  function Leave(lists: seq<seq<Netif>>, g: nat, netif: Netif): (r: seq<seq<Netif>>)
    requires g < |lists|
    ensures |r| == |lists| && forall h :: 0 <= h < |lists| && h != g ==> r[h] == lists[h]
  {
    lists[g := Remove(lists[g], netif)]
  }

  /** s without its first occurrence of x. */
  function Remove(s: seq<Netif>, x: Netif): (r: seq<Netif>)
    ensures x in s ==> multiset(r) == multiset(s) - multiset{x}
    ensures x !in s ==> r == s
  {
    if |s| == 0 then s
    else
      assert s == [s[0]] + s[1..];
      if s[0] == x then s[1..] else [s[0]] + Remove(s[1..], x)
  }

  /** Removing an element listed once leaves it unlisted and shortens the
      list by one. */
  lemma RemoveOnly(s: seq<Netif>, x: Netif)
    requires multiset(s)[x] == 1
    ensures x !in Remove(s, x) && |Remove(s, x)| == |s| - 1
  {
    assert x in multiset(s);
    assert |multiset(Remove(s, x))| == |multiset(s)| - 1;
  }

  /** Leaving a group right after joining it restores every list, so a
      __netif_up followed by a __netif_down restores every count. */
  lemma {:induction false} LeaveUndoesJoin(lists: seq<seq<Netif>>, g: nat, netif: Netif)
    requires g < |lists| && netif !in lists[g]
    ensures Leave(Join(lists, g, netif), g, netif) == lists
  {
    RemoveAppended(lists[g], netif);
  }

  lemma {:induction false} RemoveAppended(s: seq<Netif>, x: Netif)
    requires x !in s
    ensures Remove(s + [x], x) == s
  {
    if |s| > 0 {
      assert (s + [x])[1..] == s[1..] + [x];
      RemoveAppended(s[1..], x);
    }
  }

  /** The largest MTU netbk_change_mtu accepts: a whole 64 kB frame less
      its Ethernet header when scatter-gather is usable, else a standard
      Ethernet payload.  netbk_can_sg (common.h, not part of this model)
      reads the features the front end negotiated, netif->features, the
      same field netbk_set_sg consults; dev->features is not involved. */
  function MaxMtu(features: bv32): (m: int)
    ensures features & NETIF_F_SG != 0 ==> m == 65535 - ETH_HLEN
    ensures features & NETIF_F_SG == 0 ==> m == ETH_DATA_LEN
  {
    if features & NETIF_F_SG != 0 then 65535 - ETH_HLEN else ETH_DATA_LEN
  }

  /** netbk_change_mtu: a new MTU above the maximum is refused with
      -EINVAL and the MTU is left as it was; any other is taken. */
  method ChangeMtu(netif: Netif, mtu: int) returns (r: int)
    modifies netif`mtu
    ensures r == 0 <==> mtu <= MaxMtu(netif.features)
    ensures r != 0 ==> r == -EINVAL && netif.mtu == old(netif.mtu)
    ensures r == 0 ==> netif.mtu == mtu
  {
    var max := if netif.features & NETIF_F_SG != 0 then 65535 - ETH_HLEN else ETH_DATA_LEN;
    if mtu > max {
      return -EINVAL;
    }
    netif.mtu := mtu;
    r := 0;
  }

  /** dev->features with bit turned on, as ethtool_op_set_sg and
      ethtool_op_set_tso leave it when enabling. */
  function FeatureOn(features: bv32, bit: bv32): (r: bv32)
    ensures r & bit == bit && r & !bit == features & !bit
  {
    features | bit
  }

  /** dev->features with bit turned off. */
  function FeatureOff(features: bv32, bit: bv32): (r: bv32)
    ensures r & bit == 0 && r & !bit == features & !bit
  {
    features & !bit
  }

  /** netbk_set_sg and netbk_set_tso: turning the offload on is refused
      with -ENOSYS unless the front end negotiated it; turning it off, or
      on once negotiated, is passed to the generic ethtool handler. */
  method SetOffload(netif: Netif, bit: bv32, data: u32) returns (r: int)
    requires bit == NETIF_F_SG || bit == NETIF_F_TSO
    modifies netif`devFeatures
    ensures r == 0 <==> data == 0 || netif.features & bit != 0
    ensures r != 0 ==> r == -ENOSYS && netif.devFeatures == old(netif.devFeatures)
    ensures r == 0 && data != 0 ==> netif.devFeatures == FeatureOn(old(netif.devFeatures), bit)
    ensures data == 0 ==> netif.devFeatures == FeatureOff(old(netif.devFeatures), bit)
  {
    if data != 0 {
      if netif.features & bit == 0 {
        return -ENOSYS;
      }
      netif.devFeatures := FeatureOn(netif.devFeatures, bit);
    } else {
      netif.devFeatures := FeatureOff(netif.devFeatures, bit);
    }
    r := 0;
  }

  /** The statuses successive attempts of one grant-map hypercall return,
      ending with one that is not GNTST_eagain. */
  predicate Settles(attempts: seq<int>)
  {
    |attempts| > 0 && attempts[|attempts| - 1] != GNTST_eagain
  }

  /** How many attempts a retry loop on GNTST_eagain makes: up to and
      including the first answer that is not GNTST_eagain. */
  function Tries(attempts: seq<int>): (n: nat)
    requires Settles(attempts)
    ensures 1 <= n <= |attempts| && attempts[n - 1] != GNTST_eagain
    ensures forall k :: 0 <= k < n - 1 ==> attempts[k] == GNTST_eagain
  {
    TriesFrom(attempts, 0)
  }

  function TriesFrom(attempts: seq<int>, i: nat): (n: nat)
    requires Settles(attempts) && i < |attempts|
    requires forall k :: 0 <= k < i ==> attempts[k] == GNTST_eagain
    ensures i < n <= |attempts| && attempts[n - 1] != GNTST_eagain
    ensures forall k :: 0 <= k < n - 1 ==> attempts[k] == GNTST_eagain
    decreases |attempts| - i
  {
    if attempts[i] != GNTST_eagain then i + 1 else TriesFrom(attempts, i + 1)
  }

  /** The status a retry loop on GNTST_eagain ends with. */
  function Settled(attempts: seq<int>): (st: int)
    requires Settles(attempts)
    ensures st != GNTST_eagain && st in attempts
  {
    attempts[Tries(attempts) - 1]
  }

  /** One of map_frontend_pages' do/while loops: map the grant, again
      while the hypervisor answers GNTST_eagain. */
  method MapGrant(attempts: seq<int>) returns (status: int, tries: nat)
    requires Settles(attempts)
    ensures tries == Tries(attempts) && status == Settled(attempts)
  {
    status := attempts[0];
    tries := 1;
    while status == GNTST_eagain
      invariant 1 <= tries <= Tries(attempts) && status == attempts[tries - 1]
      decreases |attempts| - tries
    {
      status := attempts[tries];
      tries := tries + 1;
    }
  }

  /** map_frontend_pages: map the transmit ring, then the receive ring.
      The first failing map's status is returned, and a failure on the
      receive ring unmaps the transmit ring again, so on failure neither
      ring is left mapped. */
  method MapFrontendPages(netif: Netif, txRingRef: u32, rxRingRef: u32, txAttempts: seq<int>, rxAttempts: seq<int>,
                          txHandle: nat, rxHandle: nat) returns (r: int)
    requires Settles(txAttempts) && Settles(rxAttempts)
    requires !netif.txMapped && !netif.rxMapped
    modifies netif`txShmemRef, netif`txShmemHandle, netif`txMapped
    modifies netif`rxShmemRef, netif`rxShmemHandle, netif`rxMapped
    ensures r == MapStatus(txAttempts, rxAttempts)
    ensures r == 0 <==> netif.txMapped
    ensures netif.rxMapped == netif.txMapped
    ensures r == 0 ==> netif.txShmemRef == txRingRef && netif.txShmemHandle == txHandle
                       && netif.rxShmemRef == rxRingRef && netif.rxShmemHandle == rxHandle
  {
    var st, tries := MapGrant(txAttempts);
    if st != 0 {
      return st;
    }
    netif.txShmemRef := txRingRef;
    netif.txShmemHandle := txHandle;
    netif.txMapped := true;
    st, tries := MapGrant(rxAttempts);
    if st != 0 {
      netif.txMapped := false;
      return st;
    }
    netif.rxShmemRef := rxRingRef;
    netif.rxShmemHandle := rxHandle;
    netif.rxMapped := true;
    r := 0;
  }

  /** What map_frontend_pages returns: the transmit ring's failure if any,
      else the receive ring's status. */
  function MapStatus(txAttempts: seq<int>, rxAttempts: seq<int>): (r: int)
    requires Settles(txAttempts) && Settles(rxAttempts)
    ensures r != GNTST_eagain
    ensures r == 0 <==> Settled(txAttempts) == 0 && Settled(rxAttempts) == 0
  {
    if Settled(txAttempts) != 0 then Settled(txAttempts) else Settled(rxAttempts)
  }

  /** What netif_map returns: 0 at once for an interface already
      connected; otherwise -ENOMEM when either ring area cannot be
      allocated, then the ring mapping's failure, then the event channel
      binding's failure, and 0 once all of them succeed. */
  function MapResult(irq: nat, txVmOk: bool, rxVmOk: bool, txAttempts: seq<int>, rxAttempts: seq<int>,
                     bindResult: int): (r: int)
    requires Settles(txAttempts) && Settles(rxAttempts)
    ensures r == 0 <==> irq != 0 || (txVmOk && rxVmOk && MapStatus(txAttempts, rxAttempts) == 0 && bindResult >= 0)
    ensures irq == 0 && !(txVmOk && rxVmOk) ==> r == -ENOMEM
  {
    if irq != 0 then 0
    else if !txVmOk || !rxVmOk then -ENOMEM
    else if MapStatus(txAttempts, rxAttempts) != 0 then MapStatus(txAttempts, rxAttempts)
    else if bindResult < 0 then bindResult
    else 0
  }

  /** netif_map: connect an interface to the rings its front end granted.
      An interface that already has an interrupt is left alone. Otherwise
      each step that fails undoes the ones before it, so a failed connect
      leaves nothing allocated or mapped; a successful one resets the ring
      cursors, takes a reference, turns the carrier on and, when the
      device is open, brings the interface up. The outcomes of
      alloc_vm_area, of the grant-map hypercalls and of binding the event
      channel are parameters. */
  method NetifMap(groups: Groups, netif: Netif, txRingRef: u32, rxRingRef: u32, txVmOk: bool, rxVmOk: bool,
                  txAttempts: seq<int>, rxAttempts: seq<int>, txHandle: nat, rxHandle: nat, bindResult: int)
    returns (err: int)
    requires groups.Valid() && groups.Consistent(netif) && netif.Valid()
    requires Settles(txAttempts) && Settles(rxAttempts) && bindResult != 0
    requires netif.irq == 0 ==> !netif.carrierOk && !netif.txMapped && !netif.rxMapped
                                && !netif.txAreaAllocated && !netif.rxAreaAllocated
    modifies netif`txAreaAllocated, netif`rxAreaAllocated
    modifies netif`txShmemRef, netif`txShmemHandle, netif`txMapped
    modifies netif`rxShmemRef, netif`rxShmemHandle, netif`rxMapped
    modifies netif`irq, netif`txReqCons, netif`txRspProdPvt, netif`txRsp
    modifies netif`rxReqCons, netif`rxRspProdPvt, netif`rxRsp, netif`rxReqConsPeek
    modifies netif`refcnt, netif`carrierOk, netif`group, groups.domainNr, groups`domainList
    ensures groups.Valid() && groups.Consistent(netif) && netif.Valid()
    ensures err == MapResult(old(netif.irq), txVmOk, rxVmOk, txAttempts, rxAttempts, bindResult)
    ensures old(netif.irq) != 0 ==> unchanged(netif) && unchanged(groups) && unchanged(groups.domainNr)
    ensures old(netif.irq) == 0 && err != 0 ==>
              && netif.irq == 0 && !netif.carrierOk && netif.refcnt == old(netif.refcnt)
              && !netif.txMapped && !netif.rxMapped && !netif.txAreaAllocated && !netif.rxAreaAllocated
              && unchanged(groups) && unchanged(groups.domainNr)
    ensures old(netif.irq) == 0 && err == 0 ==>
              && netif.irq == bindResult && netif.carrierOk && netif.refcnt == old(netif.refcnt) + 1
              && netif.txMapped && netif.rxMapped && netif.txAreaAllocated && netif.rxAreaAllocated
              && netif.txShmemRef == txRingRef && netif.rxShmemRef == rxRingRef
              && netif.txReqCons == 0 && netif.txRspProdPvt == 0 && netif.rxReqCons == 0
              && netif.rxRspProdPvt == 0 && netif.rxReqConsPeek == 0
  {
    if netif.irq != 0 {
      return 0;
    }
    err := AllocAndMap(netif, txRingRef, rxRingRef, txVmOk, rxVmOk, txAttempts, rxAttempts, txHandle, rxHandle);
    if err == 0 {
      if bindResult < 0 {
        netif.txMapped, netif.rxMapped := false, false;
        netif.rxAreaAllocated, netif.txAreaAllocated := false, false;
        err := bindResult;
      } else {
        StartRings(groups, netif, bindResult);
      }
    }
  }

  /** The allocation and mapping steps of netif_map, each failure undoing
      the steps before it. */
  method AllocAndMap(netif: Netif, txRingRef: u32, rxRingRef: u32, txVmOk: bool, rxVmOk: bool,
                     txAttempts: seq<int>, rxAttempts: seq<int>, txHandle: nat, rxHandle: nat) returns (err: int)
    requires Settles(txAttempts) && Settles(rxAttempts)
    requires !netif.txMapped && !netif.rxMapped && !netif.txAreaAllocated && !netif.rxAreaAllocated
    modifies netif`txAreaAllocated, netif`rxAreaAllocated
    modifies netif`txShmemRef, netif`txShmemHandle, netif`txMapped
    modifies netif`rxShmemRef, netif`rxShmemHandle, netif`rxMapped
    ensures err == MapResult(0, txVmOk, rxVmOk, txAttempts, rxAttempts, 1)
    ensures err != 0 ==> !netif.txMapped && !netif.rxMapped && !netif.txAreaAllocated && !netif.rxAreaAllocated
    ensures err == 0 ==> && netif.txMapped && netif.rxMapped && netif.txAreaAllocated && netif.rxAreaAllocated
                         && netif.txShmemRef == txRingRef && netif.rxShmemRef == rxRingRef
  {
    if !txVmOk {
      return -ENOMEM;
    }
    netif.txAreaAllocated := true;
    if !rxVmOk {
      netif.txAreaAllocated := false;
      return -ENOMEM;
    }
    netif.rxAreaAllocated := true;
    err := MapFrontendPages(netif, txRingRef, rxRingRef, txAttempts, rxAttempts, txHandle, rxHandle);
    if err != 0 {
      netif.rxAreaAllocated, netif.txAreaAllocated := false, false;
    }
  }

  /** The end of a successful netif_map: record the interrupt, reset both
      rings' private cursors, take a reference for the connection and turn
      the carrier on. */
  method StartRings(groups: Groups, netif: Netif, irq: nat)
    requires groups.Valid() && groups.Consistent(netif) && netif.Valid() && !netif.carrierOk
    modifies netif`irq, netif`txReqCons, netif`txRspProdPvt, netif`txRsp
    modifies netif`rxReqCons, netif`rxRspProdPvt, netif`rxRsp, netif`rxReqConsPeek
    modifies netif`refcnt, netif`carrierOk, netif`group, groups.domainNr, groups`domainList
    ensures groups.Valid() && groups.Consistent(netif) && netif.Valid()
    ensures netif.irq == irq && netif.carrierOk && netif.refcnt == old(netif.refcnt) + 1
    ensures netif.txReqCons == 0 && netif.txRspProdPvt == 0 && netif.rxReqCons == 0
    ensures netif.rxRspProdPvt == 0 && netif.rxReqConsPeek == 0
  {
    netif.irq := irq;
    netif.ResetRings();
    netif.refcnt := netif.refcnt + 1;
    groups.CarrierOn(netif);
  }
}
