/** The back end's view of one virtual interface (netif_t): the cursors of
    its transmit and receive shared rings, the responses it has produced,
    its credit-based rate limiter and its device state, together with the
    per-interface steps of the transmit and receive paths that read or
    advance those cursors. */
module NetifState {
  import opened Kernel
  import opened NetifIo

  // Device feature bits (dev->features) and GSO type bits.
  const NETIF_F_SG: bv32 := 1
  const NETIF_F_IP_CSUM: bv32 := 2
  const NETIF_F_TSO: bv32 := 0x1_0000
  const SKB_GSO_TCPV4: bv32 := 1
  const SKB_GSO_DODGY: bv32 := 4

  /** Upper bound on a transmit burst allowance: 128 kB. */
  const MAX_BURST: nat := 131072

  /** Length of the default device transmit queue (netbk_queue_length). */
  const NETBK_QUEUE_LENGTH: nat := 32

  class Netif {
    var domid: nat
    var handle: nat
    /** Index of the worker group serving this interface, or UINT_MAX. */
    var group: nat
    var refcnt: int
    var irq: nat

    /** Request side of the transmit ring: 256 slots, indexed modulo 256.
        The front end fills it; the back end only reads it. */
    var txRing: seq<TxSlot>
    /** Producer index the front end has published for transmit requests. */
    var txReqProd: nat
    var txReqCons: nat
    /** Every transmit response slot written so far, in ring order. */
    var txRsp: seq<TxRspSlot>
    var txRspProdPvt: nat

    var rxReqProd: nat
    var rxReqCons: nat
    /** Receive request slots already reserved for queued packets. */
    var rxReqConsPeek: nat
    var rxRsp: seq<RxResponse>
    var rxRspProdPvt: nat

    // Transmit rate limiter: credit_bytes per credit_usec microseconds.
    var remainingCredit: nat
    var creditBytes: nat
    var creditUsec: nat
    var creditTimeoutExpires: int

    /** Offload features negotiated with the front end (netif->features). */
    var features: bv32
    /** Features the network device advertises (dev->features). */
    var devFeatures: bv32
    var mtu: int
    var txQueueLen: nat
    var devAddr: seq<bv8>
    var carrierOk: bool
    var running: bool
    var queueStopped: bool
    var onScheduleList: bool

    // Shared-ring pages mapped from the front end.
    var txShmemRef: u32
    var rxShmemRef: u32
    var txShmemHandle: nat
    var rxShmemHandle: nat
    var txMapped: bool
    var rxMapped: bool
    var txAreaAllocated: bool
    var rxAreaAllocated: bool

    /** rsp_prod_pvt counts the transmit responses written. */
    ghost predicate TxRspCounted()
      reads this`txRsp, this`txRspProdPvt
    {
      |txRsp| == txRspProdPvt
    }

    ghost predicate Valid()
      reads this`txRing, this`txRsp, this`txRspProdPvt, this`rxRsp, this`rxRspProdPvt
      reads this`remainingCredit, this`creditBytes
    {
      && |txRing| == NET_TX_RING_SIZE
      && TxRspCounted()
      && |rxRsp| == rxRspProdPvt
      && remainingCredit <= ULONG_MAX
      && creditBytes <= ULONG_MAX
    }

    /** netif_alloc: a zero-filled interface with one reference, no group,
        carrier off, unlimited credit, checksum offload advertised, a
        32-packet queue and the dummy hardware address. */
    constructor Alloc(domid: nat, handle: nat, jiffies: int)
      ensures Valid()
      ensures this.domid == domid && this.handle == handle
      ensures group == UINT_MAX && refcnt == 1 && irq == 0
      ensures !carrierOk && !running && !onScheduleList
      ensures creditBytes == ULONG_MAX && remainingCredit == ULONG_MAX
      ensures creditUsec == 0 && creditTimeoutExpires == jiffies
      ensures features == 0 && devFeatures == NETIF_F_IP_CSUM
      ensures mtu == ETH_DATA_LEN as int && txQueueLen == NETBK_QUEUE_LENGTH
      ensures devAddr == DummyMac()
      ensures txReqProd == 0 && txReqCons == 0 && txRsp == [] && txRspProdPvt == 0
      ensures rxReqProd == 0 && rxReqCons == 0 && rxReqConsPeek == 0 && rxRsp == [] && rxRspProdPvt == 0
      ensures !txMapped && !rxMapped && !txAreaAllocated && !rxAreaAllocated
    {
      this.domid := domid;
      this.handle := handle;
      group := UINT_MAX;
      refcnt := 1;
      irq := 0;
      txRing := seq(NET_TX_RING_SIZE, _ => TxSlot(TxRequest(0, 0, 0, 0, 0), ExtraInfo(0, 0, GsoInfo(0, 0, 0, 0))));
      txReqProd, txReqCons, txRsp, txRspProdPvt := 0, 0, [], 0;
      rxReqProd, rxReqCons, rxReqConsPeek, rxRsp, rxRspProdPvt := 0, 0, 0, [], 0;
      creditBytes := ULONG_MAX;
      remainingCredit := ULONG_MAX;
      creditUsec := 0;
      creditTimeoutExpires := jiffies;
      features := 0;
      devFeatures := NETIF_F_IP_CSUM;
      mtu := ETH_DATA_LEN;
      txQueueLen := NETBK_QUEUE_LENGTH;
      carrierOk := false;
      running := false;
      queueStopped := false;
      onScheduleList := false;
      txShmemRef, rxShmemRef, txShmemHandle, rxShmemHandle := 0, 0, 0, 0;
      txMapped, rxMapped, txAreaAllocated, rxAreaAllocated := false, false, false, false;
      var mac := seq(ETH_ALEN, _ => 0xFF as bv8);
      devAddr := mac[0 := mac[0] & !1];
    }

    /** BACK_RING_INIT on both rings and the reset of rx_req_cons_peek in
        netif_map: nothing consumed, nothing answered, nothing reserved. */
    method ResetRings()
      requires Valid()
      modifies this`txReqCons, this`txRspProdPvt, this`txRsp
      modifies this`rxReqCons, this`rxRspProdPvt, this`rxRsp, this`rxReqConsPeek
      ensures Valid()
      ensures txReqCons == 0 && txRspProdPvt == 0 && txRsp == []
      ensures rxReqCons == 0 && rxRspProdPvt == 0 && rxRsp == [] && rxReqConsPeek == 0
    {
      txReqCons, txRspProdPvt, txRsp := 0, 0, [];
      rxReqCons, rxRspProdPvt, rxRsp := 0, 0, [];
      rxReqConsPeek := 0;
    }

    /** RING_GET_REQUEST on the transmit ring: index i modulo the ring size. */
    function TxSlotAt(i: nat): (s: TxSlot)
      requires |txRing| == NET_TX_RING_SIZE
      reads this`txRing
      ensures s == txRing[i % NET_TX_RING_SIZE]
    {
      txRing[i % NET_TX_RING_SIZE]
    }

    /** The requests in ring slots [a, b). */
    function RequestsBetween(a: nat, b: nat): (reqs: seq<TxRequest>)
      requires |txRing| == NET_TX_RING_SIZE
      reads this`txRing
      ensures |reqs| == if a <= b then b - a else 0
    {
      RingRequests(txRing, a, b)
    }

    /** The MAX_SKB_FRAGS ring slots following the request at txReqCons. */
    function FragWindow(): (w: seq<TxRequest>)
      requires |txRing| == NET_TX_RING_SIZE
      reads this`txRing, this`txReqCons
      ensures |w| == MAX_SKB_FRAGS
    {
      RingRequests(txRing, txReqCons, txReqCons + MAX_SKB_FRAGS)
    }

    /** make_tx_response: one response carrying the request's id, followed by
        a NULL response for the extra-info slot when the request had one. */
    method MakeTxResponse(txp: TxRequest, st: int)
      requires TxRspCounted()
      modifies this`txRsp, this`txRspProdPvt
      ensures TxRspCounted()
      ensures txRsp == old(txRsp) + ResponseSlots(txp, st)
      ensures txRspProdPvt == old(txRspProdPvt) + (if HasExtraInfo(txp) then 2 else 1)
    {
      txRsp := txRsp + [TxRsp(txp.id, st)];
      txRspProdPvt := txRspProdPvt + 1;
      if HasExtraInfo(txp) {
        txRsp := txRsp + [TxRspNull];
        txRspProdPvt := txRspProdPvt + 1;
      }
    }

    /** netbk_tx_err: answer the rejected request and every request up to the
        ring index `end` with an error, consume them, and drop the
        reference the transmit path held. */
    method TxErr(txp: TxRequest, end: nat)
      requires Valid()
      modifies this`txRsp, this`txRspProdPvt, this`txReqCons, this`refcnt
      ensures Valid()
      ensures txReqCons == Max(old(txReqCons), end)
      ensures txRsp == AppendResponses(old(txRsp), [txp] + RequestsBetween(old(txReqCons), end), NETIF_RSP_ERROR)
      ensures refcnt == old(refcnt) - 1
      ensures old(txReqCons) <= end < old(txReqCons) + 0x1_0000_0000 ==>
                |RequestsBetween(old(txReqCons), end)| == TxErrSteps(U32(old(txReqCons)), U32(end))
    {
      var cons := txReqCons;
      if cons <= end < cons + 0x1_0000_0000 {
        TxErrStepsCount(cons, end - cons);
      }
      ghost var all := [txp] + RequestsBetween(cons, end);
      assert all[0] == txp && all[1..] == RequestsBetween(cons, end);
      MakeTxResponse(txp, NETIF_RSP_ERROR);
      while cons < end
        invariant Valid() && txReqCons == old(txReqCons) && refcnt == old(refcnt)
        invariant txReqCons <= cons && (cons > end ==> cons == txReqCons)
        invariant AppendResponses(txRsp, RequestsBetween(cons, end), NETIF_RSP_ERROR)
                  == AppendResponses(old(txRsp), all, NETIF_RSP_ERROR)
        decreases end - cons
      {
        var next := TxSlotAt(cons).req;
        ghost var rest := RequestsBetween(cons, end);
        assert rest[0] == next && rest[1..] == RequestsBetween(cons + 1, end);
        MakeTxResponse(next, NETIF_RSP_ERROR);
        cons := cons + 1;
      }
      txReqCons := cons;
      refcnt := refcnt - 1;
    }

    /** netbk_count_requests: walk the fragment chain that follows `first`,
        returning what CountSpec prescribes, the size left for the first
        request once the fragments' sizes are taken off, and the fragment
        requests read.  Reads the ring only. */
    method CountRequests(first: TxRequest, workToDo: int)
      returns (ret: int, firstSize: int, txfrags: seq<TxRequest>)
      requires Valid()
      ensures ret == CountSpec(first, FragWindow(), workToDo)
      ensures !MoreData(first) ==> firstSize == first.size && txfrags == []
      ensures ret > 0 ==>
                txfrags == FragWindow()[..ret] && firstSize == first.size - SumSizes(FragWindow(), ret) >= 0
    {
      if !MoreData(first) {
        return 0, first.size, [];
      }
      var ring, cons := txRing, txReqCons;
      ghost var w := RingRequests(ring, cons, cons + MAX_SKB_FRAGS);
      var frags := 0;
      var size: int := first.size;
      var done := false;
      ret, txfrags := 0, [];
      while !done
        invariant Counting(first, w, workToDo, frags, size, txfrags)
        invariant !done ==> CountFrom(first, w, workToDo, frags, size) == CountSpec(first, w, workToDo)
        invariant done ==> ret == CountSpec(first, w, workToDo) && (ret > 0 ==> ret == frags)
        decreases MAX_SKB_FRAGS - frags, !done
      {
        if frags < MAX_SKB_FRAGS {
          RingRequestsAt(ring, cons, cons + MAX_SKB_FRAGS, frags);
        }
        done, ret, frags, size, txfrags := CountStep(first, ring, cons, w, workToDo, frags, size, txfrags);
      }
      firstSize := size;
    }

    /** netbk_get_extras: consume the chain of extra-info records that
        follows a request flagged NETTXF_extra_info, storing each record by
        type into `extras`.  Returns the remaining work, -EBADR when the ring
        runs out, or -EINVAL for a record of unknown type. */
    method GetExtras(extras: array<ExtraInfo>, workToDo: int) returns (r: int)
      requires Valid() && extras.Length == XEN_NETIF_EXTRA_TYPE_MAX - 1
      modifies this`txReqCons, extras
      ensures Valid()
      ensures old(txReqCons) <= txReqCons
      ensures r >= 0 || r == -EINVAL || r == -EBADR
      ensures var recs := ExtrasBetween(old(txReqCons), txReqCons);
              && (forall k :: 0 <= k < |recs| - 1 ==> ExtraChains(recs[k]))
              && (r >= 0 ==>
                    && 1 <= |recs| <= workToDo && r == workToDo - |recs|
                    && ExtraKnown(recs[|recs| - 1]) && !ExtraMore(recs[|recs| - 1])
                    && extras[..] == StoreExtras(old(extras[..]), recs))
              && (r == -EINVAL ==>
                    && 1 <= |recs| <= workToDo && !ExtraKnown(recs[|recs| - 1])
                    && extras[..] == StoreExtras(old(extras[..]), recs[..|recs| - 1]))
              && (r == -EBADR ==>
                    && |recs| == Max(workToDo, 0)
                    && (forall k :: 0 <= k < |recs| ==> ExtraChains(recs[k]))
                    && extras[..] == StoreExtras(old(extras[..]), recs))
    {
      var ring, cons := txRing, txReqCons;
      var wtd := workToDo;
      ghost var recs: seq<ExtraInfo> := [];
      while true
        invariant old(txReqCons) <= cons
        invariant recs == RingExtras(ring, old(txReqCons), cons)
        invariant |recs| == workToDo - wtd <= Max(workToDo, 0)
        invariant forall k :: 0 <= k < |recs| ==> ExtraChains(recs[k])
        invariant extras[..] == StoreExtras(old(extras[..]), recs)
        decreases wtd
      {
        if wtd <= 0 {
          r := -EBADR;
          break;
        }
        wtd := wtd - 1;
        var extra := ring[cons % NET_TX_RING_SIZE].extra;
        assert (recs + [extra])[..|recs|] == recs;
        cons := cons + 1;
        if !ExtraKnown(extra) {
          recs := recs + [extra];
          r := -EINVAL;
          break;
        }
        extras[extra.extraType - 1] := extra;
        recs := recs + [extra];
        if !ExtraMore(extra) {
          r := wtd;
          break;
        }
      }
      txReqCons := cons;
    }

    /** The extra-info readings of ring slots [a, b). */
    function ExtrasBetween(a: nat, b: nat): (exs: seq<ExtraInfo>)
      requires |txRing| == NET_TX_RING_SIZE
      reads this`txRing
      ensures |exs| == if a <= b then b - a else 0
    {
      RingExtras(txRing, a, b)
    }

    /** tx_add_credit: top up the remaining credit for the request waiting at
        txReqCons. */
    method TxAddCredit()
      requires Valid()
      modifies this`remainingCredit
      ensures Valid()
      ensures remainingCredit == NewCredit(old(remainingCredit), creditBytes, TxSlotAt(txReqCons).req.size)
    {
      remainingCredit := NewCredit(remainingCredit, creditBytes, TxSlotAt(txReqCons).req.size);
    }

    /** make_rx_response. */
    method MakeRxResponse(id: u16, st: int, offset: u16, size: u16, flags: bv16)
      requires Valid()
      modifies this`rxRsp, this`rxRspProdPvt
      ensures Valid()
      ensures rxRsp == old(rxRsp) + [RxResponse(id, offset, flags, RxStatus(st, size))]
      ensures rxRspProdPvt == old(rxRspProdPvt) + 1
    {
      rxRsp := rxRsp + [RxResponse(id, offset, flags, RxStatus(st, size))];
      rxRspProdPvt := rxRspProdPvt + 1;
    }

    /** netbk_add_frag_responses: one receive response per fragment. */
    method AddFragResponses(status: int, meta: seq<RxMeta>, nrFrags: nat)
      requires Valid() && nrFrags <= |meta|
      modifies this`rxRsp, this`rxRspProdPvt
      ensures Valid()
      ensures rxRsp == old(rxRsp) + FragResponses(status, meta[..nrFrags])
      ensures rxRspProdPvt == old(rxRspProdPvt) + nrFrags
    {
      ghost var all := FragResponses(status, meta[..nrFrags]);
      var i := 0;
      while i < nrFrags
        invariant Valid() && 0 <= i <= nrFrags
        invariant rxRsp == old(rxRsp) + all[..i]
        invariant rxRspProdPvt == old(rxRspProdPvt) + i
      {
        var flags: bv16 := if i == nrFrags - 1 then 0 else NETRXF_more_data;
        var offset: u16 := if meta[i].copy then 0 else meta[i].pageOffset;
        MakeRxResponse(meta[i].id, status, offset, meta[i].size, flags);
        assert all[..i + 1] == all[..i] + [all[i]];
        i := i + 1;
      }
      assert all[..nrFrags] == all;
    }

    /** netbk_queue_full for this interface. */
    predicate RxQueueFull()
      reads this
    {
      QueueFull(rxReqProd, rxReqConsPeek, rxRspProdPvt, MaxRequiredRxSlots(features))
    }

    /** The reservation netif_be_start_xmit makes for a queued packet. */
    method ReserveRxSlots(nrFrags: nat, gsoSize: nat)
      requires Valid()
      modifies this`rxReqConsPeek, this`refcnt
      ensures Valid()
      ensures rxReqConsPeek == old(rxReqConsPeek) + RxSlotsFor(nrFrags, gsoSize)
      ensures refcnt == old(refcnt) + 1
    {
      rxReqConsPeek := rxReqConsPeek + nrFrags + 1 + (if gsoSize != 0 then 1 else 0);
      refcnt := refcnt + 1;
    }

    /** netbk_gop_skb's use of the receive ring: the request slot each
        fragment is written to (head first), and the advance of rxReqCons. */
    method GopSkb(nrFrags: nat, gsoSize: nat) returns (slots: seq<nat>)
      requires Valid()
      modifies this`rxReqCons
      ensures Valid()
      ensures rxReqCons == old(rxReqCons) + RxSlotsFor(nrFrags, gsoSize)
      ensures |slots| == nrFrags + 1 && slots[0] == old(rxReqCons)
      ensures forall i :: 0 <= i < |slots| ==> old(rxReqCons) <= slots[i] < rxReqCons
      ensures forall i, j :: 0 <= i < j < |slots| ==> slots[i] < slots[j]
      ensures gsoSize != 0 ==> forall i :: 0 <= i < |slots| ==> slots[i] != old(rxReqCons) + 1
    {
      var extra := (if gsoSize != 0 then 1 else 0) + 1;
      var fragSlots: seq<nat> := [];
      var i := 0;
      while i < nrFrags
        invariant 0 <= i <= nrFrags && |fragSlots| == i
        invariant forall k :: 0 <= k < i ==> fragSlots[k] == rxReqCons + k + extra
      {
        fragSlots := fragSlots + [rxReqCons + i + extra];
        i := i + 1;
      }
      slots := [rxReqCons] + fragSlots;
      rxReqCons := rxReqCons + nrFrags + extra;
    }
  }

  /** The requests in slots [a, b) of a 256-slot ring, indexed modulo 256. */
  function RingRequests(ring: seq<TxSlot>, a: nat, b: nat): (reqs: seq<TxRequest>)
    requires |ring| == NET_TX_RING_SIZE
    ensures |reqs| == if a <= b then b - a else 0
    decreases b - a
  {
    if b <= a then [] else [ring[a % NET_TX_RING_SIZE].req] + RingRequests(ring, a + 1, b)
  }

  /** The extra-info readings of slots [a, b) of a 256-slot ring. */
  function RingExtras(ring: seq<TxSlot>, a: nat, b: nat): (exs: seq<ExtraInfo>)
    requires |ring| == NET_TX_RING_SIZE
    ensures |exs| == if a <= b then b - a else 0
    decreases b
  {
    if b <= a then [] else RingExtras(ring, a, b - 1) + [ring[(b - 1) % NET_TX_RING_SIZE].extra]
  }

  lemma {:induction false} RingRequestsAt(ring: seq<TxSlot>, a: nat, b: nat, k: nat)
    requires |ring| == NET_TX_RING_SIZE && a + k < b
    ensures RingRequests(ring, a, b)[k] == ring[(a + k) % NET_TX_RING_SIZE].req
    decreases k
  {
    if k > 0 {
      RingRequestsAt(ring, a + 1, b, k - 1);
    }
  }

  /** The response slots make_tx_response writes for one request: its id
      and status, then a NULL slot when it carried extra info. */
  function ResponseSlots(r: TxRequest, st: int): (rsps: seq<TxRspSlot>)
    ensures |rsps| == if HasExtraInfo(r) then 2 else 1
    ensures rsps[0] == TxRsp(r.id, st)
    ensures forall k :: 1 <= k < |rsps| ==> rsps[k] == TxRspNull
  {
    [TxRsp(r.id, st)] + (if HasExtraInfo(r) then [TxRspNull] else [])
  }

  /** The response stream after make_tx_response has answered each request
      of reqs in turn, all with status st, starting from the stream rsps. */
  function AppendResponses(rsps: seq<TxRspSlot>, reqs: seq<TxRequest>, st: int): (out: seq<TxRspSlot>)
    decreases |reqs|
  {
    if |reqs| == 0 then rsps
    else AppendResponses(rsps + ResponseSlots(reqs[0], st), reqs[1..], st)
  }

  lemma AppendOneResponse(rsps: seq<TxRspSlot>, r: TxRequest, st: int)
    ensures AppendResponses(rsps, [r], st) == rsps + ResponseSlots(r, st)
  {
    assert [r][1..] == [];
  }

  /** Answering one run of requests and then another is answering their
      concatenation. */
  lemma {:induction false} AppendResponsesConcat(rsps: seq<TxRspSlot>, a: seq<TxRequest>, b: seq<TxRequest>, st: int)
    ensures AppendResponses(rsps, a + b, st) == AppendResponses(AppendResponses(rsps, a, st), b, st)
    decreases |a|
  {
    if |a| == 0 {
      assert a + b == b;
    } else {
      assert (a + b)[0] == a[0] && (a + b)[1..] == a[1..] + b;
      AppendResponsesConcat(rsps + ResponseSlots(a[0], st), a[1..], b, st);
    }
  }

  /** The ids carried by the non-NULL responses, in order. */
  function ResponseIds(rsps: seq<TxRspSlot>): (ids: seq<u16>)
    ensures |ids| <= |rsps|
  {
    if |rsps| == 0 then []
    else (match rsps[0] case TxRsp(id, _) => [id] case TxRspNull => []) + ResponseIds(rsps[1..])
  }

  lemma {:induction false} ResponseIdsAppend(a: seq<TxRspSlot>, b: seq<TxRspSlot>)
    ensures ResponseIds(a + b) == ResponseIds(a) + ResponseIds(b)
    decreases |a|
  {
    if |a| == 0 {
      assert a + b == b;
    } else {
      var head := match a[0] case TxRsp(id, _) => [id] case TxRspNull => [];
      assert (a + b)[0] == a[0] && (a + b)[1..] == a[1..] + b;
      ResponseIdsAppend(a[1..], b);
      calc {
        ResponseIds(a + b);
        head + ResponseIds(a[1..] + b);
        head + (ResponseIds(a[1..]) + ResponseIds(b));
        (head + ResponseIds(a[1..])) + ResponseIds(b);
      }
    }
  }

  function CountExtraInfo(reqs: seq<TxRequest>): (n: nat)
    ensures n <= |reqs|
  {
    if |reqs| == 0 then 0
    else (if HasExtraInfo(reqs[0]) then 1 else 0) + CountExtraInfo(reqs[1..])
  }

  function Ids(reqs: seq<TxRequest>): (ids: seq<u16>)
    ensures |ids| == |reqs|
    ensures forall k :: 0 <= k < |reqs| ==> ids[k] == reqs[k].id
  {
    seq(|reqs|, k requires 0 <= k < |reqs| => reqs[k].id)
  }

  /** Answering a run of requests leaves the responses already written
      alone and adds exactly one id-carrying response per request, in
      request order, all with the run's status, plus one NULL slot for
      each request that carried extra info. */
  lemma {:induction false} AppendResponsesAnswersEach(rsps: seq<TxRspSlot>, reqs: seq<TxRequest>, st: int)
    ensures var out := AppendResponses(rsps, reqs, st);
            && |out| == |rsps| + |reqs| + CountExtraInfo(reqs)
            && out[..|rsps|] == rsps
            && ResponseIds(out) == ResponseIds(rsps) + Ids(reqs)
            && (forall k :: |rsps| <= k < |out| && out[k].TxRsp? ==> out[k].status == st)
    decreases |reqs|
  {
    if |reqs| > 0 {
      var r := reqs[0];
      var next := rsps + ResponseSlots(r, st);
      AppendResponsesAnswersEach(next, reqs[1..], st);
      var out := AppendResponses(next, reqs[1..], st);
      assert out[..|rsps|] == rsps by {
        assert out[..|next|][..|rsps|] == out[..|rsps|];
      }
      ResponseIdsAppend(rsps, ResponseSlots(r, st));
      assert ResponseIds(ResponseSlots(r, st)) == [r.id] by {
        var one := [TxRsp(r.id, st)];
        assert ResponseIds(one) == [r.id] by { assert one[1..] == []; }
        if HasExtraInfo(r) {
          assert (one + [TxRspNull])[1..] == [TxRspNull];
          assert ResponseIds([TxRspNull]) == [] by { assert [TxRspNull][1..] == []; }
        }
      }
      assert Ids(reqs) == [r.id] + Ids(reqs[1..]);
      forall k | |rsps| <= k < |out| && out[k].TxRsp?
        ensures out[k].status == st
      {
        if k < |next| {
          assert out[k] == out[..|next|][k] == next[k];
        }
      }
    }
  }

  /** Sum of the sizes of the first n requests of a run. */
  function SumSizes(reqs: seq<TxRequest>, n: nat): (total: nat)
    requires n <= |reqs|
  {
    if n == 0 then 0 else SumSizes(reqs, n - 1) + reqs[n - 1].size
  }

  /** Fragment k of the window fits what is left of the first request's
      size and lies within one page. */
  ghost predicate FragFits(first: TxRequest, w: seq<TxRequest>, k: nat)
    requires k < |w|
  {
    && w[k].size <= first.size - SumSizes(w, k)
    && w[k].offset + w[k].size <= PAGE_SIZE
  }

  /** The fragment chain after `first` is well formed and n fragments long:
      fragments 0..n-2 carry more_data and fragment n-1 does not, each fits
      the remaining size and its page, n is within the pending work and
      within MAX_SKB_FRAGS. */
  ghost predicate ChainOk(first: TxRequest, w: seq<TxRequest>, workToDo: int, n: int)
    requires |w| == MAX_SKB_FRAGS
  {
    && 1 <= n <= MAX_SKB_FRAGS && n <= workToDo
    && (forall k :: 0 <= k < n - 1 ==> MoreData(w[k]))
    && !MoreData(w[n - 1])
    && (forall k :: 0 <= k < n ==> FragFits(first, w, k))
  }

  /** The checks netbk_count_requests makes, one fragment at a time from
      fragment f on, with `size` bytes of the first request unaccounted
      for: 0 when `first` has no fragments, the fragment count when the
      chain ends well, otherwise minus the fragments read so far. */
  function CountFrom(first: TxRequest, w: seq<TxRequest>, workToDo: int, f: nat, size: int): (r: int)
    requires |w| == MAX_SKB_FRAGS && f <= MAX_SKB_FRAGS
    ensures -(MAX_SKB_FRAGS as int) <= r <= MAX_SKB_FRAGS
    decreases MAX_SKB_FRAGS - f
  {
    if f >= workToDo || f >= MAX_SKB_FRAGS then -(f as int)
    else if w[f].size > size then -(f as int)
    else if w[f].offset + w[f].size > PAGE_SIZE then -(f + 1)
    else if !MoreData(w[f]) then f + 1
    else CountFrom(first, w, workToDo, f + 1, size - w[f].size)
  }

  function CountSpec(first: TxRequest, w: seq<TxRequest>, workToDo: int): (r: int)
    requires |w| == MAX_SKB_FRAGS
    ensures -(MAX_SKB_FRAGS as int) <= r <= MAX_SKB_FRAGS
  {
    if !MoreData(first) then 0 else CountFrom(first, w, workToDo, 0, first.size)
  }

  /** The loop state of netbk_count_requests after f fragments: txfrags
      holds them and size is what is left of the first request's size. */
  ghost predicate Counting(first: TxRequest, w: seq<TxRequest>, workToDo: int, f: int, size: int, txfrags: seq<TxRequest>)
  {
    && |w| == MAX_SKB_FRAGS && 0 <= f <= MAX_SKB_FRAGS && MoreData(first)
    && txfrags == w[..f] && size == first.size - SumSizes(w, f) >= 0
  }

  /** One pass of netbk_count_requests' loop over the ring from cons: it
      either stops with the count, or takes fragment f and goes on. */
  method CountStep(first: TxRequest, ring: seq<TxSlot>, cons: nat, ghost w: seq<TxRequest>, workToDo: int,
                   f: nat, size: int, txfrags: seq<TxRequest>)
    returns (done: bool, ret: int, f': nat, size': int, txfrags': seq<TxRequest>)
    requires |ring| == NET_TX_RING_SIZE && Counting(first, w, workToDo, f, size, txfrags)
    requires CountFrom(first, w, workToDo, f, size) == CountSpec(first, w, workToDo)
    requires f < MAX_SKB_FRAGS ==> w[f] == ring[(cons + f) % NET_TX_RING_SIZE].req
    ensures Counting(first, w, workToDo, f', size', txfrags')
    ensures done ==> ret == CountSpec(first, w, workToDo) && (ret > 0 ==> ret == f')
    ensures f <= f' <= f + 1
    ensures !done ==> f' == f + 1 && CountFrom(first, w, workToDo, f', size') == CountSpec(first, w, workToDo)
  {
    if f >= workToDo || f >= MAX_SKB_FRAGS {
      return true, -(f as int), f, size, txfrags;
    }
    var txp := ring[(cons + f) % NET_TX_RING_SIZE].req;
    if txp.size > size {
      return true, -(f as int), f, size, txfrags;
    }
    PrefixStep(w, f);
    assert SumSizes(w, f + 1) == SumSizes(w, f) + txp.size;
    f', size', txfrags' := f + 1, size - txp.size, txfrags + [txp];
    if txp.offset + txp.size > PAGE_SIZE {
      return true, -(f' as int), f', size', txfrags';
    }
    if !MoreData(txp) {
      return true, f', f', size', txfrags';
    }
    done, ret := false, 0;
  }

  /** From a prefix of f fragments that all passed the checks and announced
      more data, the count is positive exactly for a well-formed chain, and
      is then that chain's length. */
  lemma {:induction false} CountFromMeaning(first: TxRequest, w: seq<TxRequest>, workToDo: int, f: nat, size: int)
    requires |w| == MAX_SKB_FRAGS && f <= MAX_SKB_FRAGS
    requires size == first.size - SumSizes(w, f) >= 0
    requires forall k :: 0 <= k < f ==> MoreData(w[k]) && FragFits(first, w, k)
    ensures CountFrom(first, w, workToDo, f, size) > 0 ==> ChainOk(first, w, workToDo, CountFrom(first, w, workToDo, f, size))
    ensures CountFrom(first, w, workToDo, f, size) <= 0 ==> forall n :: !ChainOk(first, w, workToDo, n)
    ensures f > 0 ==> CountFrom(first, w, workToDo, f, size) != 0
    decreases MAX_SKB_FRAGS - f
  {
    if f >= workToDo || f >= MAX_SKB_FRAGS {
      NoChainPastWork(first, w, workToDo, f);
    } else if w[f].size > size {
      NoChainPastUnfit(first, w, workToDo, f);
    } else if w[f].offset + w[f].size > PAGE_SIZE {
      NoChainPastUnfit(first, w, workToDo, f);
    } else if !MoreData(w[f]) {
      assert FragFits(first, w, f);
    } else {
      assert FragFits(first, w, f);
      CountFromMeaning(first, w, workToDo, f + 1, size - w[f].size);
    }
  }

  /** What netbk_count_requests' result means: positive exactly for a
      well-formed chain, and then its length.  Zero also reports a chain that fails
      at its very first fragment. */
  lemma CountSpecMeaning(first: TxRequest, w: seq<TxRequest>, workToDo: int)
    requires |w| == MAX_SKB_FRAGS
    ensures !MoreData(first) ==> CountSpec(first, w, workToDo) == 0
    ensures CountSpec(first, w, workToDo) > 0 ==> MoreData(first) && ChainOk(first, w, workToDo, CountSpec(first, w, workToDo))
    ensures MoreData(first) && CountSpec(first, w, workToDo) <= 0 ==> forall n :: !ChainOk(first, w, workToDo, n)
    ensures MoreData(first) ==> (CountSpec(first, w, workToDo) == 0 <==> workToDo <= 0 || w[0].size > first.size)
  {
    if MoreData(first) {
      CountFromMeaning(first, w, workToDo, 0, first.size);
      if workToDo > 0 && w[0].size <= first.size {
        assert CountFrom(first, w, workToDo, 0, first.size) != 0 by {
          if w[0].offset + w[0].size <= PAGE_SIZE && MoreData(w[0]) {
            CountFromMeaning(first, w, workToDo, 1, first.size - w[0].size);
          }
        }
      }
    }
  }

  /** Once every fragment read so far announced more data, a chain that
      would need to read past the work limit or MAX_SKB_FRAGS is bad. */
  lemma NoChainPastWork(first: TxRequest, w: seq<TxRequest>, workToDo: int, f: nat)
    requires |w| == MAX_SKB_FRAGS && f <= MAX_SKB_FRAGS
    requires forall k :: 0 <= k < f ==> MoreData(w[k])
    requires f >= workToDo || f >= MAX_SKB_FRAGS
    ensures forall n :: !ChainOk(first, w, workToDo, n)
  {
  }

  /** Once every fragment before f announced more data, a fragment f that
      does not fit makes the chain bad. */
  lemma NoChainPastUnfit(first: TxRequest, w: seq<TxRequest>, workToDo: int, f: nat)
    requires |w| == MAX_SKB_FRAGS && f < MAX_SKB_FRAGS
    requires forall k :: 0 <= k < f ==> MoreData(w[k])
    requires !FragFits(first, w, f)
    ensures forall n :: !ChainOk(first, w, workToDo, n)
  {
  }

  /** A well-formed chain has exactly one length. */
  lemma ChainLengthUnique(first: TxRequest, w: seq<TxRequest>, workToDo: int, n: int, n': int)
    requires |w| == MAX_SKB_FRAGS
    requires ChainOk(first, w, workToDo, n) && ChainOk(first, w, workToDo, n')
    ensures n == n'
  {
  }

  /** The fragments of a well-formed chain add up to no more than the
      first request's size. */
  lemma {:induction false} ChainSizeBound(first: TxRequest, w: seq<TxRequest>, workToDo: int, n: int)
    requires |w| == MAX_SKB_FRAGS && ChainOk(first, w, workToDo, n)
    ensures SumSizes(w, n) <= first.size
  {
    assert FragFits(first, w, n - 1);
  }

  predicate ExtraKnown(e: ExtraInfo)
  {
    1 <= e.extraType < XEN_NETIF_EXTRA_TYPE_MAX
  }

  /** An extra-info record that get_extras accepts and that announces more. */
  predicate ExtraChains(e: ExtraInfo)
  {
    ExtraKnown(e) && ExtraMore(e)
  }

  /** Store each accepted record at its type's slot, later records winning. */
  function StoreExtras(extras: seq<ExtraInfo>, recs: seq<ExtraInfo>): (r: seq<ExtraInfo>)
    requires |extras| == XEN_NETIF_EXTRA_TYPE_MAX - 1
    requires forall k :: 0 <= k < |recs| ==> ExtraKnown(recs[k])
    ensures |r| == |extras|
  {
    if |recs| == 0 then extras
    else
      var last := recs[|recs| - 1];
      assert ExtraKnown(last);
      StoreExtras(extras, recs[..|recs| - 1])[last.extraType - 1 := last]
  }

  /** Where the last record of type t + 1 sits in recs, if any. */
  function LastOfType(recs: seq<ExtraInfo>, t: nat): (i: int)
    ensures -1 <= i < |recs|
    ensures i >= 0 ==> recs[i].extraType == t + 1
    ensures forall j :: i < j < |recs| ==> recs[j].extraType != t + 1
  {
    if |recs| == 0 then -1
    else if recs[|recs| - 1].extraType == t + 1 then |recs| - 1
    else LastOfType(recs[..|recs| - 1], t)
  }

  /** After storing, each type's slot holds the last record of that type,
      or its previous contents when no record of that type was seen. */
  lemma {:induction false} StoreExtrasLastWins(extras: seq<ExtraInfo>, recs: seq<ExtraInfo>, t: nat)
    requires |extras| == XEN_NETIF_EXTRA_TYPE_MAX - 1 && t < |extras|
    requires forall k :: 0 <= k < |recs| ==> ExtraKnown(recs[k])
    ensures StoreExtras(extras, recs)[t]
            == if LastOfType(recs, t) < 0 then extras[t] else recs[LastOfType(recs, t)]
    decreases |recs|
  {
    if |recs| > 0 {
      var init := recs[..|recs| - 1];
      StoreExtrasLastWins(extras, init, t);
    }
  }

  /** The GSO fields of a packet buffer's shared info. */
  datatype SkbGso = SkbGso(gsoSize: nat, gsoType: bv32, gsoSegs: nat)

  /** netbk_set_skb_gso: a GSO extra record is refused with -EINVAL,
      leaving the buffer as it was, when its size is zero or its type is
      not TCPv4; otherwise the buffer takes its size, is marked TCPv4 and
      untrusted (so its header is checked) and has its segment count reset
      for the stack to compute. */
  function SetSkbGso(sh: SkbGso, gso: GsoInfo): (r: (int, SkbGso))
    ensures r.0 == 0 || r.0 == -EINVAL
    ensures r.0 == 0 <==> gso.size != 0 && gso.gsoType == XEN_NETIF_GSO_TYPE_TCPV4
    ensures r.0 != 0 ==> r.1 == sh
    ensures r.0 == 0 ==> r.1.gsoSize == gso.size > 0 && r.1.gsoSegs == 0
    ensures r.0 == 0 ==> r.1.gsoType & SKB_GSO_TCPV4 != 0 && r.1.gsoType & SKB_GSO_DODGY != 0
    ensures r.0 == 0 ==> r.1.gsoType & !(SKB_GSO_TCPV4 | SKB_GSO_DODGY) == 0
  {
    if gso.size == 0 then (-EINVAL, sh)
    else if gso.gsoType != XEN_NETIF_GSO_TYPE_TCPV4 then (-EINVAL, sh)
    else
      var typ := SKB_GSO_TCPV4;
      (0, SkbGso(gso.size, typ | SKB_GSO_DODGY, 0))
  }

  /** tx_add_credit's new allowance, computed as the C code does on 64-bit
      unsigned longs: the burst allowance is the request size capped at
      128 kB but never below credit_bytes, and remaining + credit_bytes
      saturates at ULONG_MAX instead of wrapping. */
  function NewCredit(remaining: nat, creditBytes: nat, reqSize: u16): (r: nat)
    requires remaining <= ULONG_MAX && creditBytes <= ULONG_MAX
    ensures r == Min(remaining + creditBytes, Max(Min(reqSize, MAX_BURST), creditBytes))
    ensures r <= ULONG_MAX
  {
    var maxBurst := Max(Min(reqSize, MAX_BURST), creditBytes);
    var sum := (remaining + creditBytes) % (ULONG_MAX + 1);
    var maxCredit := if sum < remaining then ULONG_MAX else sum;
    Min(maxCredit, maxBurst)
  }

  /** Per-fragment bookkeeping of the receive path (struct netbk_rx_meta). */
  datatype RxMeta = RxMeta(id: u16, copy: bool, pageOffset: u16, size: u16)

  /** The status make_rx_response writes: the error code, or the size. */
  function RxStatus(st: int, size: u16): (r: int)
    ensures st < 0 ==> r == st
    ensures st >= 0 && size <= PAGE_SIZE ==> r == size
  {
    if st < 0 then st else S16(size)
  }

  function FragResponse(status: int, m: RxMeta, last: bool): RxResponse
  {
    RxResponse(m.id, if m.copy then 0 else m.pageOffset,
               if last then 0 else NETRXF_more_data, RxStatus(status, m.size))
  }

  /** The responses for a packet's fragments: every one but the last
      announces more data, copied fragments start at offset 0. */
  function FragResponses(status: int, meta: seq<RxMeta>): (rsps: seq<RxResponse>)
    ensures |rsps| == |meta|
    ensures forall i :: 0 <= i < |meta| ==> rsps[i].id == meta[i].id
    ensures forall i :: 0 <= i < |meta| ==> (rsps[i].flags & NETRXF_more_data != 0 <==> i < |meta| - 1)
    ensures forall i :: 0 <= i < |meta| && meta[i].copy ==> rsps[i].offset == 0
  {
    seq(|meta|, i requires 0 <= i < |meta| => FragResponse(status, meta[i], i == |meta| - 1))
  }

  /** Receive slots a packet may need: header, GSO extra info and every
      fragment when scatter-gather or TSO is on, else one. */
  function MaxRequiredRxSlots(features: bv32): (n: nat)
    ensures features & (NETIF_F_SG | NETIF_F_TSO) == 0 ==> n == 1
    ensures features & (NETIF_F_SG | NETIF_F_TSO) != 0 ==> n == MAX_SKB_FRAGS + 2
  {
    if features & (NETIF_F_SG | NETIF_F_TSO) != 0 then MAX_SKB_FRAGS + 2 else 1
  }

  function U32(x: int): (r: u32)
  {
    x % 0x1_0000_0000
  }

  /** How many requests netbk_tx_err answers after the rejected one on
      32-bit ring indices, as netback.c:1026 is written: the walk stops
      once cons >= end, an ordered compare that an `end` which wrapped
      past 2^32 satisfies at once. */
  function TxErrStepsAsWritten(cons: u32, end: u32): (n: nat)
    ensures n == if cons < end then end - cons else 0
    decreases end - cons
  {
    if cons >= end then 0 else 1 + TxErrStepsAsWritten(cons + 1, end)
  }

  /** The distance from cons forward to end on 32-bit ring indices. */
  function Ahead(cons: u32, end: u32): (d: nat)
    ensures d < 0x1_0000_0000
  {
    if cons <= end then end - cons else end + 0x1_0000_0000 - cons
  }

  /** The same walk stopping once cons == end, as evidently intended. */
  function TxErrSteps(cons: u32, end: u32): (n: nat)
    decreases Ahead(cons, end)
  {
    if cons == end then 0 else 1 + TxErrSteps(U32(cons + 1), end)
  }

  /** When end lies n < 2^32 requests past cons, the walk stopping at
      cons == end answers exactly those n requests, whether or not the
      indices wrap. */
  lemma {:induction false} TxErrStepsCount(cons: nat, n: nat)
    requires n < 0x1_0000_0000
    ensures TxErrSteps(U32(cons), U32(cons + n)) == n
    decreases n
  {
    if n > 0 {
      TxErrStepsCount(cons + 1, n - 1);
      U32Step(cons, n);
    }
  }

  lemma U32Step(cons: nat, n: nat)
    requires 0 < n < 0x1_0000_0000
    ensures U32(cons) != U32(cons + n)
    ensures U32(U32(cons) + 1) == U32(cons + 1)
  {
    var q, r := cons / 0x1_0000_0000, cons % 0x1_0000_0000;
    assert cons == q * 0x1_0000_0000 + r;
    if r + n < 0x1_0000_0000 {
      assert cons + n == q * 0x1_0000_0000 + (r + n);
    } else {
      assert cons + n == (q + 1) * 0x1_0000_0000 + (r + n - 0x1_0000_0000);
    }
    if r + 1 < 0x1_0000_0000 {
      assert cons + 1 == q * 0x1_0000_0000 + (r + 1);
    } else {
      assert cons + 1 == (q + 1) * 0x1_0000_0000;
    }
  }

  /** With req_cons at 0xFFFFFFFE and a packet of three further requests,
      `end` wraps to 1: as written netbk_tx_err answers none of the three
      and leaves them to be consumed as new requests; stopping at
      cons == end answers all three. */
  lemma TxErrWrapSkipsRequests()
    ensures TxErrStepsAsWritten(0xFFFF_FFFE, U32(0xFFFF_FFFE + 3)) == 0
    ensures TxErrSteps(0xFFFF_FFFE, U32(0xFFFF_FFFE + 3)) == 3
  {
    TxErrStepsCount(0xFFFF_FFFE, 3);
  }

  /** netbk_queue_full on 32-bit ring indices: fewer than `needed` posted
      requests beyond the reservation point, or fewer than `needed` free
      response slots. */
  predicate QueueFull(reqProd: nat, peek: nat, rspProdPvt: nat, needed: nat)
  {
    U32(reqProd - peek) < needed || U32(rspProdPvt + NET_RX_RING_SIZE - peek) < needed
  }

  /** With consistent cursors, the queue is full exactly when the front end
      has not posted `needed` further requests or the ring lacks `needed`
      free response slots beyond those already reserved. */
  lemma QueueFullMeansShortOfSlots(reqProd: nat, peek: nat, rspProdPvt: nat, needed: nat)
    requires peek <= reqProd < peek + 0x1_0000_0000
    requires rspProdPvt <= peek <= rspProdPvt + NET_RX_RING_SIZE
    ensures QueueFull(reqProd, peek, rspProdPvt, needed)
            <==> (reqProd < peek + needed || rspProdPvt + NET_RX_RING_SIZE < peek + needed)
  {
  }

  /** Slots a queued packet takes on the receive ring. */
  function RxSlotsFor(nrFrags: nat, gsoSize: nat): (n: nat)
    ensures n == nrFrags + 1 || (gsoSize != 0 && n == nrFrags + 2)
    ensures n <= MAX_SKB_FRAGS + 2 <== nrFrags <= MAX_SKB_FRAGS
  {
    nrFrags + 1 + (if gsoSize != 0 then 1 else 0)
  }

  /** Number of copy (rather than transfer) operations among the metas. */
  function CopyCount(meta: seq<RxMeta>): (n: nat)
    ensures n <= |meta|
  {
    if |meta| == 0 then 0
    else CopyCount(meta[..|meta| - 1]) + (if meta[|meta| - 1].copy then 1 else 0)
  }

  /** netbk_check_gop: walk the nrFrags + 1 operations of one packet, the
      copy and transfer results each in their own queue.  The packet's
      status is OKAY exactly when every operation consulted succeeded; the
      eagain flag is set exactly when one of them asked to be retried. */
  method CheckGop(nrFrags: nat, meta: seq<RxMeta>, metaCons: nat,
                  copyStatus: seq<int>, copyCons: nat,
                  transStatus: seq<int>, transCons: nat,
                  autoTranslated: bool, mclResult: seq<int>, mclCons: nat)
    returns (status: int, eagain: bool, copyCons': nat, transCons': nat, mclCons': nat)
    requires metaCons + nrFrags + 1 <= |meta|
    requires copyCons + CopyCount(meta[metaCons..metaCons + nrFrags + 1]) <= |copyStatus|
    requires transCons + (nrFrags + 1 - CopyCount(meta[metaCons..metaCons + nrFrags + 1])) <= |transStatus|
    requires forall i :: transCons <= i < transCons + (nrFrags + 1 - CopyCount(meta[metaCons..metaCons + nrFrags + 1]))
               ==> transStatus[i] != GNTST_bad_page
    requires !autoTranslated ==>
               mclCons + (nrFrags + 1 - CopyCount(meta[metaCons..metaCons + nrFrags + 1])) <= |mclResult|
               && forall i :: mclCons <= i < mclCons + (nrFrags + 1 - CopyCount(meta[metaCons..metaCons + nrFrags + 1]))
                    ==> mclResult[i] == 0
    ensures var copies := CopyCount(meta[metaCons..metaCons + nrFrags + 1]);
            && copyCons' == copyCons + copies
            && transCons' == transCons + (nrFrags + 1 - copies)
            && mclCons' == mclCons + (if autoTranslated then 0 else nrFrags + 1 - copies)
    ensures status == NETIF_RSP_OKAY || status == NETIF_RSP_ERROR
    ensures status == NETIF_RSP_ERROR <==>
              SomeFailed(copyStatus, copyCons, copyCons') || SomeFailed(transStatus, transCons, transCons')
    ensures eagain <==>
              SomeEagain(copyStatus, copyCons, copyCons') || SomeEagain(transStatus, transCons, transCons')
  {
    ghost var ms := meta[metaCons..metaCons + nrFrags + 1];
    assert ms[..0] == [];
    status := NETIF_RSP_OKAY;
    eagain := false;
    copyCons', transCons', mclCons' := copyCons, transCons, mclCons;
    var i := 0;
    while i <= nrFrags
      invariant 0 <= i <= nrFrags + 1
      invariant CopyCount(ms[..i]) <= CopyCount(ms)
      invariant i - CopyCount(ms[..i]) <= |ms| - CopyCount(ms)
      invariant copyCons' == copyCons + CopyCount(ms[..i])
      invariant transCons' == transCons + (i - CopyCount(ms[..i]))
      invariant mclCons' == mclCons + (if autoTranslated then 0 else i - CopyCount(ms[..i]))
      invariant status == NETIF_RSP_OKAY || status == NETIF_RSP_ERROR
      invariant status == NETIF_RSP_ERROR <==>
                  SomeFailed(copyStatus, copyCons, copyCons') || SomeFailed(transStatus, transCons, transCons')
      invariant eagain <==>
                  SomeEagain(copyStatus, copyCons, copyCons') || SomeEagain(transStatus, transCons, transCons')
    {
      CopyCountPrefixBound(ms, i + 1);
      assert ms[..i + 1][..i] == ms[..i];
      if meta[metaCons + i].copy {
        var st := copyStatus[copyCons'];
        StatusRunStep(copyStatus, copyCons, copyCons');
        copyCons' := copyCons' + 1;
        if st != GNTST_okay {
          status := NETIF_RSP_ERROR;
          if st == GNTST_eagain {
            eagain := true;
          }
        }
      } else {
        if !autoTranslated {
          mclCons' := mclCons' + 1;
        }
        var st := transStatus[transCons'];
        StatusRunStep(transStatus, transCons, transCons');
        transCons' := transCons' + 1;
        if st != 0 {
          if st == GNTST_eagain {
            eagain := true;
          }
          status := NETIF_RSP_ERROR;
        }
      }
      i := i + 1;
    }
    assert ms[..nrFrags + 1] == ms;
  }

  /** Some grant operation status in positions [a, b) reports a failure. */
  ghost predicate SomeFailed(st: seq<int>, a: nat, b: nat)
    requires a <= b <= |st|
  {
    exists k :: a <= k < b && st[k] != GNTST_okay
  }

  /** Some grant operation status in positions [a, b) asks for a retry. */
  ghost predicate SomeEagain(st: seq<int>, a: nat, b: nat)
    requires a <= b <= |st|
  {
    exists k :: a <= k < b && st[k] == GNTST_eagain
  }

  lemma StatusRunStep(st: seq<int>, a: nat, b: nat)
    requires a <= b < |st|
    ensures SomeFailed(st, a, b + 1) <==> SomeFailed(st, a, b) || st[b] != GNTST_okay
    ensures SomeEagain(st, a, b + 1) <==> SomeEagain(st, a, b) || st[b] == GNTST_eagain
  {
    if SomeFailed(st, a, b + 1) && st[b] == GNTST_okay {
      var k :| a <= k < b + 1 && st[k] != GNTST_okay;
      assert k < b;
    }
    if SomeEagain(st, a, b + 1) && st[b] != GNTST_eagain {
      var k :| a <= k < b + 1 && st[k] == GNTST_eagain;
      assert k < b;
    }
  }

  lemma {:induction false} CopyCountPrefixBound(ms: seq<RxMeta>, i: nat)
    requires i <= |ms|
    ensures CopyCount(ms[..i]) <= CopyCount(ms)
    ensures i - CopyCount(ms[..i]) <= |ms| - CopyCount(ms)
    decreases |ms| - i
  {
    if i < |ms| {
      CopyCountPrefixBound(ms, i + 1);
      assert ms[..i + 1][..i] == ms[..i];
    } else {
      assert ms[..i] == ms;
    }
  }

  /** The hardware address every back-end device starts with. */
  function DummyMac(): (mac: seq<bv8>)
    ensures |mac| == ETH_ALEN
  {
    [0xFE, 0xFF, 0xFF, 0xFF, 0xFF, 0xFF]
  }

  /** An address is unicast when the group bit of its first byte is clear. */
  predicate Unicast(mac: seq<bv8>)
    requires |mac| == ETH_ALEN
  {
    mac[0] & 1 == 0
  }

  /** a is lexicographically at most b. */
  predicate LexLe(a: seq<bv8>, b: seq<bv8>)
    requires |a| == |b|
  {
    forall k :: 0 <= k < |a| && a[k] != b[k] ==>
      (exists j :: 0 <= j < k && a[j] != b[j]) || a[k] < b[k]
  }

  /** The dummy address is the numerically largest unicast address, so it
      is never the broadcast address and never a multicast group. */
  lemma DummyMacLargestUnicast(mac: seq<bv8>)
    requires |mac| == ETH_ALEN && Unicast(mac)
    ensures Unicast(DummyMac())
    ensures LexLe(mac, DummyMac())
  {
    var d := DummyMac();
    forall k | 0 <= k < ETH_ALEN && mac[k] != d[k]
      ensures (exists j :: 0 <= j < k && mac[j] != d[j]) || mac[k] < d[k]
    {
    }
  }
}
