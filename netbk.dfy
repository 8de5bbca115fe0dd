/** The per-group back-end state (struct xen_netbk): the pool of pending
    slots that track transmit requests whose pages are mapped from a front
    end, the dealloc ring through which finished slots come back, and the
    pool of machine frames used by the page-flipping receive path. */
module Netbk {
  import opened Kernel
  import opened NetifIo
  import opened NetifState

  /** Slots in the pending pool; a power of two. */
  const MAX_PENDING_REQS: nat := 256
  /** Capacity of the machine-frame list. */
  const MAX_MFN_ALLOC: nat := 64

  /** A pending slot index (pending_idx, stored as a u16 but always below
      MAX_PENDING_REQS). */
  type Slot = x: int | 0 <= x < 256

  /** MASK_PEND_IDX on a free-running counter.  The 32-bit counters wrap at
      a multiple of 256, so masking the unbounded counter gives the same slot. */
  function MaskPendIdx(i: nat): (r: nat)
    ensures r < MAX_PENDING_REQS
  {
    i % MAX_PENDING_REQS
  }

  /** The entries of a 256-slot ring between the free-running counters a
      (inclusive) and b (exclusive), oldest first. */
  function Window(ring: seq<Slot>, a: nat, b: nat): (w: seq<Slot>)
    requires |ring| == MAX_PENDING_REQS
    ensures |w| == if a <= b then b - a else 0
    ensures forall k :: 0 <= k < |w| ==> w[k] == ring[MaskPendIdx(a + k)]
  {
    if b <= a then [] else seq(b - a, k requires 0 <= k < b - a => ring[MaskPendIdx(a + k)])
  }

  /** Counters less than a ring's length apart name different slots. */
  lemma MaskDistinct(x: nat, y: nat)
    requires x < y < x + MAX_PENDING_REQS
    ensures MaskPendIdx(x) != MaskPendIdx(y)
  {
  }

  /** Writing the slot of counter b and advancing b appends to the window,
      provided the window was not already full. */
  lemma WindowPush(ring: seq<Slot>, a: nat, b: nat, v: Slot)
    requires |ring| == MAX_PENDING_REQS && a <= b < a + MAX_PENDING_REQS
    ensures Window(ring[MaskPendIdx(b) := v], a, b + 1) == Window(ring, a, b) + [v]
  {
    var ring' := ring[MaskPendIdx(b) := v];
    forall k | 0 <= k <= b - a
      ensures Window(ring', a, b + 1)[k] == (Window(ring, a, b) + [v])[k]
    {
      if k < b - a {
        MaskDistinct(a + k, b);
      }
    }
  }

  /** Consuming the oldest entry drops it from the window. */
  lemma WindowPop(ring: seq<Slot>, a: nat, b: nat)
    requires |ring| == MAX_PENDING_REQS && a < b
    ensures Window(ring, a, b) == [ring[MaskPendIdx(a)]] + Window(ring, a + 1, b)
  {
    var w, t := Window(ring, a, b), Window(ring, a + 1, b);
    forall k | 0 <= k < b - a
      ensures w[k] == ([ring[MaskPendIdx(a)]] + t)[k]
    {
      if 0 < k {
        assert t[k - 1] == ring[MaskPendIdx(a + 1 + (k - 1))];
      }
    }
  }

  /** A 256-slot ring read from counter 0 to counter 256 is the ring. */
  lemma WindowWhole(ring: seq<Slot>, a: nat, b: nat)
    requires |ring| == MAX_PENDING_REQS && a == 0 && b == MAX_PENDING_REQS
    ensures Window(ring, a, b) == ring
  {
  }

  /** The slot indices 0, 1, ..., n-1. */
  function Iota(n: nat): (s: seq<Slot>)
    requires n <= MAX_PENDING_REQS
    ensures |s| == n
    ensures forall k :: 0 <= k < n ==> s[k] == k
  {
    seq(n, i requires 0 <= i < n => i)
  }

  lemma {:induction false} IotaCount(n: nat, x: Slot)
    requires n <= MAX_PENDING_REQS
    ensures multiset(Iota(n))[x] == if x < n then 1 else 0
  {
    if n > 0 {
      IotaCount(n - 1, x);
      assert Iota(n) == Iota(n - 1) + [(n - 1) as Slot];
    }
  }

  /** Every pending slot index exactly once. */
  ghost function AllSlots(): (m: multiset<Slot>)
    ensures |m| == MAX_PENDING_REQS
  {
    multiset(Iota(MAX_PENDING_REQS))
  }

  class Netbk {
    /** Free slot indices between pendingCons and pendingProd. */
    var pendingRing: array<Slot>
    var pendingProd: nat
    var pendingCons: nat
    /** Slots whose transmit request is finished, between deallocCons and
        deallocProd, waiting to be unmapped and answered. */
    var deallocRing: array<Slot>
    var deallocProd: nat
    var deallocCons: nat
    /** The request each pending slot carries (pending_tx_info[].req). */
    var pendingTxReq: seq<TxRequest>
    /** State of the generator that permute_dealloc_ring keeps in a static
        variable (a 32-bit unsigned value). */
    var randomSrc: u32
    /** Slots taken from the pool and not yet handed back to either ring. */
    ghost var inFlight: multiset<Slot>

    /** Machine frames available to the page-flipping receive path. */
    var mfnList: array<nat>
    var allocIndex: nat

    /** Interfaces with transmit work, in service order. */
    var scheduleList: seq<Netif>

    /** The free slots, oldest first. */
    function FreeWindow(): (w: seq<Slot>)
      requires pendingRing.Length == MAX_PENDING_REQS
      reads this`pendingRing, pendingRing, this`pendingCons, this`pendingProd
    {
      Window(pendingRing[..], pendingCons, pendingProd)
    }

    /** The slots queued for deallocation, oldest first. */
    function DeallocWindow(): (w: seq<Slot>)
      requires deallocRing.Length == MAX_PENDING_REQS
      reads this`deallocRing, deallocRing, this`deallocCons, this`deallocProd
    {
      Window(deallocRing[..], deallocCons, deallocProd)
    }

    /** The two rings and the request table have MAX_PENDING_REQS entries. */
    ghost predicate Tables()
      reads this`pendingRing, this`deallocRing, this`pendingTxReq
    {
      pendingRing.Length == deallocRing.Length == |pendingTxReq| == MAX_PENDING_REQS
    }

    /** The rings and counters are consistent, and the free slots, the
        queued ones and those in flight number MAX_PENDING_REQS. */
    ghost predicate Shape()
      reads this`pendingRing, this`deallocRing, this`pendingTxReq
      reads this`pendingCons, this`pendingProd, this`deallocCons, this`deallocProd, this`inFlight
    {
      && Tables()
      && pendingRing != deallocRing
      && pendingCons <= pendingProd
      && deallocCons <= deallocProd
      && (pendingProd - pendingCons) + (deallocProd - deallocCons) + |inFlight| == MAX_PENDING_REQS
    }

    /** Shape, and every slot index is exactly once free, queued for
        deallocation or in flight. */
    ghost predicate PoolValid()
      reads this`pendingRing, this`deallocRing, this`pendingTxReq, pendingRing, deallocRing
      reads this`pendingCons, this`pendingProd, this`deallocCons, this`deallocProd, this`inFlight
    {
      Shape() && Partition(FreeWindow(), DeallocWindow(), inFlight)
    }

    ghost predicate MfnValid()
      reads this`mfnList, this`allocIndex
    {
      mfnList.Length == MAX_MFN_ALLOC && allocIndex <= MAX_MFN_ALLOC
    }

    /** The state netback_init sets up for a group: pending_ring[i] = i,
        pending_prod = MAX_PENDING_REQS, both consumers and the dealloc
        producer 0, so every slot is free. */
    constructor Init()
      ensures PoolValid() && MfnValid()
      ensures FreeWindow() == Iota(MAX_PENDING_REQS) && DeallocWindow() == []
      ensures inFlight == multiset{} && NrPendingReqs() == 0
      ensures fresh(pendingRing) && fresh(deallocRing) && fresh(mfnList)
      ensures allocIndex == 0 && scheduleList == []
    {
      var ring := new Slot[MAX_PENDING_REQS];
      var i := 0;
      while i < MAX_PENDING_REQS
        invariant 0 <= i <= MAX_PENDING_REQS
        invariant forall k :: 0 <= k < i ==> ring[k] == k
      {
        ring[i] := i;
        i := i + 1;
      }
      pendingRing := ring;
      pendingProd, pendingCons := MAX_PENDING_REQS, 0;
      deallocRing := new Slot[MAX_PENDING_REQS];
      deallocProd, deallocCons := 0, 0;
      pendingTxReq := seq(MAX_PENDING_REQS, _ => TxRequest(0, 0, 0, 0, 0));
      randomSrc := 0x1234_5678;
      inFlight := multiset{};
      mfnList := new nat[MAX_MFN_ALLOC];
      allocIndex := 0;
      scheduleList := [];
      new;
      assert pendingRing[..] == Iota(MAX_PENDING_REQS);
      WindowWhole(pendingRing[..], pendingCons, pendingProd);
    }

    /** nr_pending_reqs: slots not free, which are the slots in flight and
        those waiting on the dealloc ring. */
    function NrPendingReqs(): (n: int)
      requires PoolValid()
      reads this, pendingRing, deallocRing
      ensures 0 <= n <= MAX_PENDING_REQS
      ensures n == |inFlight| + |DeallocWindow()|
    {
      MAX_PENDING_REQS - pendingProd + pendingCons
    }

    /** The condition under which net_tx_action starts a new packet. */
    predicate CanStartPacket()
      requires PoolValid()
      reads this, pendingRing, deallocRing
    {
      NrPendingReqs() + MAX_SKB_FRAGS < MAX_PENDING_REQS
    }

    /** Once net_tx_action's guard holds there are free slots for a header
        and MAX_SKB_FRAGS fragments. */
    lemma CanStartPacketLeavesRoom()
      requires PoolValid() && CanStartPacket()
      ensures |FreeWindow()| >= 1 + MAX_SKB_FRAGS
    {
    }

    /** Take the oldest free slot (pending_ring[MASK_PEND_IDX(pending_cons++)])
        into flight. */
    method AcquireSlot() returns (idx: Slot)
      requires Shape() && pendingCons < pendingProd
      modifies this`pendingCons, this`inFlight
      ensures Shape()
      ensures idx == old(FreeWindow())[0] && FreeWindow() == old(FreeWindow())[1..]
      ensures inFlight == old(inFlight) + multiset{idx}
    {
      idx := PopFree();
      inFlight := inFlight + multiset{idx};
    }

    method PopFree() returns (idx: Slot)
      requires pendingRing.Length == MAX_PENDING_REQS && pendingCons < pendingProd
      modifies this`pendingCons
      ensures pendingCons == old(pendingCons) + 1
      ensures idx == old(FreeWindow())[0] && FreeWindow() == old(FreeWindow())[1..]
    {
      idx := pendingRing[MaskPendIdx(pendingCons)];
      WindowPop(pendingRing[..], pendingCons, pendingProd);
      pendingCons := pendingCons + 1;
    }

    /** Put a slot back on the free ring. */
    method ReleaseToPending(idx: Slot)
      requires Shape() && idx in inFlight
      modifies pendingRing, this`pendingProd, this`inFlight
      ensures Shape()
      ensures FreeWindow() == old(FreeWindow()) + [idx]
      ensures inFlight == old(inFlight) - multiset{idx}
    {
      PushFree(idx);
      inFlight := inFlight - multiset{idx};
    }

    /** pending_ring[MASK_PEND_IDX(pending_prod++)] = idx. */
    method PushFree(idx: Slot)
      requires pendingRing.Length == MAX_PENDING_REQS
      requires pendingCons <= pendingProd < pendingCons + MAX_PENDING_REQS
      modifies pendingRing, this`pendingProd
      ensures pendingProd == old(pendingProd) + 1
      ensures FreeWindow() == old(FreeWindow()) + [idx]
    {
      ghost var ring := pendingRing[..];
      pendingRing[MaskPendIdx(pendingProd)] := idx;
      assert pendingRing[..] == ring[MaskPendIdx(pendingProd) := idx];
      WindowPush(ring, pendingCons, pendingProd, idx);
      pendingProd := pendingProd + 1;
    }

    /** netif_idx_release: queue a finished slot on the dealloc ring. */
    method IdxRelease(idx: Slot)
      requires Shape() && idx in inFlight
      modifies deallocRing, this`deallocProd, this`inFlight
      ensures Shape()
      ensures DeallocWindow() == old(DeallocWindow()) + [idx] && FreeWindow() == old(FreeWindow())
      ensures inFlight == old(inFlight) - multiset{idx}
    {
      PushDealloc(idx);
      inFlight := inFlight - multiset{idx};
    }

    /** dealloc_ring[MASK_PEND_IDX(dealloc_prod)] = idx; dealloc_prod++. */
    method PushDealloc(idx: Slot)
      requires deallocRing.Length == MAX_PENDING_REQS
      requires deallocCons <= deallocProd < deallocCons + MAX_PENDING_REQS
      modifies deallocRing, this`deallocProd
      ensures deallocProd == old(deallocProd) + 1
      ensures DeallocWindow() == old(DeallocWindow()) + [idx]
    {
      ghost var ring := deallocRing[..];
      deallocRing[MaskPendIdx(deallocProd)] := idx;
      assert deallocRing[..] == ring[MaskPendIdx(deallocProd) := idx];
      WindowPush(ring, deallocCons, deallocProd, idx);
      deallocProd := deallocProd + 1;
    }

    /** permute_dealloc_ring: walk the counters from dc to dp, swapping the
        entry at each position with one the generator picks at or after it,
        and stepping the generator once per position.  The entries between
        dc and dp end up as the shuffle Permuted describes; the rest of the
        ring is left alone. */
    method PermuteDeallocRing(dc: nat, dp: nat)
      requires deallocRing.Length == MAX_PENDING_REQS && dc <= dp <= dc + MAX_PENDING_REQS
      modifies deallocRing, this`randomSrc
      ensures Window(deallocRing[..], dc, dp) == Permuted(old(Window(deallocRing[..], dc, dp)), old(randomSrc)).slots
      ensures randomSrc == Permuted(old(Window(deallocRing[..], dc, dp)), old(randomSrc)).src
      ensures Window(deallocRing[..], dp, dc + MAX_PENDING_REQS) == old(Window(deallocRing[..], dp, dc + MAX_PENDING_REQS))
    {
      ghost var ring0, src0 := deallocRing[..], randomSrc;
      var c: nat, src: u32 := dc, randomSrc;
      while c != dp
        invariant dc <= c <= dp
        invariant ShuffleFrom(deallocRing[..], c, dp, src) == ShuffleFrom(ring0, dc, dp, src0)
        decreases dp - c
      {
        src := PermuteStep(c, dp, src);
        c := c + 1;
      }
      ShuffleFromMeaning(ring0, dc, dc, dp, src0);
      assert Window(ring0, dc, dc) == [];
      randomSrc := src;
    }

    /** One pass of permute_dealloc_ring's loop at counter c. */
    method PermuteStep(c: nat, dp: nat, src: u32) returns (src': u32)
      requires deallocRing.Length == MAX_PENDING_REQS && c < dp <= c + MAX_PENDING_REQS
      modifies deallocRing
      ensures ShuffleFrom(deallocRing[..], c + 1, dp, src') == old(ShuffleFrom(deallocRing[..], c, dp, src))
    {
      var dstOffset := (src / 256) % (dp - c);
      RemIsMod(src / 256, dp - c);
      var dest := c + dstOffset;
      SwapDealloc(MaskPendIdx(dest), MaskPendIdx(c));
      src' := NextRandom(src);
    }

    /** Exchange two entries of the dealloc ring through a temporary. */
    method SwapDealloc(i: nat, j: nat)
      requires i < deallocRing.Length && j < deallocRing.Length
      modifies deallocRing
      ensures deallocRing[..] == old(deallocRing[..])[i := old(deallocRing[j])][j := old(deallocRing[i])]
    {
      var tmp := deallocRing[i];
      deallocRing[i] := deallocRing[j];
      deallocRing[j] := tmp;
    }

    /** net_tx_action_dealloc: take every slot queued on the dealloc ring
        (shuffled first when permuteReturns is set), advance dealloc_cons
        past them, and hand each back to the free ring in that order.
        answered lists the slots whose requests are answered OKAY, in
        response order. */
    method TxActionDealloc(permuteReturns: bool) returns (answered: seq<Slot>)
      requires PoolValid()
      modifies pendingRing, deallocRing, this`pendingProd, this`deallocCons, this`randomSrc
      ensures PoolValid()
      ensures permuteReturns ==>
                answered == Permuted(old(DeallocWindow()), old(randomSrc)).slots
                && randomSrc == Permuted(old(DeallocWindow()), old(randomSrc)).src
      ensures !permuteReturns ==> answered == old(DeallocWindow()) && randomSrc == old(randomSrc)
      ensures multiset(answered) == multiset(old(DeallocWindow()))
      ensures DeallocWindow() == [] && FreeWindow() == old(FreeWindow()) + answered
    {
      ghost var free0, dealloc0 := FreeWindow(), DeallocWindow();
      PermuteIfAsked(permuteReturns);
      answered := ReturnAllDealloc();
      PartitionDrain(free0, dealloc0, answered, inFlight);
    }

    /** The optional shuffle of the dealloc window that precedes the walk. */
    method PermuteIfAsked(permuteReturns: bool)
      requires Shape()
      modifies deallocRing, this`randomSrc
      ensures Shape() && FreeWindow() == old(FreeWindow())
      ensures permuteReturns ==>
                DeallocWindow() == Permuted(old(DeallocWindow()), old(randomSrc)).slots
                && randomSrc == Permuted(old(DeallocWindow()), old(randomSrc)).src
      ensures !permuteReturns ==> DeallocWindow() == old(DeallocWindow()) && randomSrc == old(randomSrc)
      ensures multiset(DeallocWindow()) == multiset(old(DeallocWindow()))
    {
      if permuteReturns {
        ghost var dealloc0 := DeallocWindow();
        PermuteDeallocRing(deallocCons, deallocProd);
        PermutedIsPermutation(dealloc0, old(randomSrc));
      }
    }

    /** Every queued slot goes back to the free window, oldest first. */
    method ReturnAllDealloc() returns (list: seq<Slot>)
      requires Shape()
      modifies pendingRing, this`pendingProd, this`deallocCons
      ensures Shape() && list == old(DeallocWindow())
      ensures DeallocWindow() == [] && FreeWindow() == old(FreeWindow()) + list
    {
      list := TakeDealloc();
      ReturnSlots(list);
    }

    /** The walk of net_tx_action_dealloc from dealloc_cons to dealloc_prod:
        the slots queued, oldest first, after which dealloc_cons catches up. */
    method TakeDealloc() returns (list: seq<Slot>)
      requires deallocRing.Length == MAX_PENDING_REQS && deallocCons <= deallocProd
      modifies this`deallocCons
      ensures list == old(DeallocWindow()) && deallocCons == deallocProd
    {
      var dc := deallocCons;
      var dp := deallocProd;
      list := [];
      while dc != dp
        invariant deallocCons == old(deallocCons) <= dc <= dp
        invariant list == Window(deallocRing[..], deallocCons, dc)
        decreases dp - dc
      {
        WindowSnoc(deallocRing[..], deallocCons, dc);
        list := list + [deallocRing[MaskPendIdx(dc)]];
        dc := dc + 1;
      }
      assert list == DeallocWindow();
      deallocCons := dc;
    }

    /** Put each slot of a run back on the free ring, in order. */
    method ReturnSlots(list: seq<Slot>)
      requires pendingRing.Length == MAX_PENDING_REQS && pendingCons <= pendingProd
      requires pendingProd + |list| <= pendingCons + MAX_PENDING_REQS
      modifies pendingRing, this`pendingProd
      ensures pendingProd == old(pendingProd) + |list| && FreeWindow() == old(FreeWindow()) + list
    {
      ghost var free0, prod0 := FreeWindow(), pendingProd;
      assert list[0..] == list;
      var i := 0;
      while i < |list|
        invariant i <= |list| && ReturningFrom(list, i, free0, prod0)
      {
        ReturnNext(list, i, free0, prod0);
        i := i + 1;
      }
      assert list[i..] == [];
      AppendNothing(FreeWindow());
    }

    /** Part way through ReturnSlots, with list[i..] still to return. */
    ghost predicate ReturningFrom(list: seq<Slot>, i: nat, free0: seq<Slot>, prod0: nat)
      requires i <= |list|
      reads this`pendingRing, pendingRing, this`pendingCons, this`pendingProd
    {
      && pendingRing.Length == MAX_PENDING_REQS && pendingCons <= pendingProd == prod0 + i
      && pendingProd + (|list| - i) <= pendingCons + MAX_PENDING_REQS
      && FreeWindow() + list[i..] == free0 + list
    }

    /** One pass of ReturnSlots' loop. */
    method ReturnNext(list: seq<Slot>, i: nat, ghost free0: seq<Slot>, ghost prod0: nat)
      requires i < |list| && ReturningFrom(list, i, free0, prod0)
      modifies pendingRing, this`pendingProd
      ensures ReturningFrom(list, i + 1, free0, prod0)
    {
      assert list[i..] == [list[i]] + list[i + 1..];
      Assoc(FreeWindow(), [list[i]], list[i + 1..]);
      PushFree(list[i]);
    }

    /** The pool state netbk_tx_check_mop works on, with netif the
        interface the packet came from. */
    ghost function View(netif: Netif): (v: PoolView)
      requires Tables()
      reads this`pendingRing, this`deallocRing, this`pendingTxReq, pendingRing, deallocRing
      reads this`pendingCons, this`pendingProd, this`deallocCons, this`deallocProd, this`inFlight
      reads netif`txRsp, netif`refcnt
      ensures |v.reqs| == MAX_PENDING_REQS
    {
      PoolView(FreeWindow(), DeallocWindow(), inFlight, pendingTxReq, netif.txRsp, netif.refcnt)
    }

    /** The error path for one slot in netbk_tx_check_mop: answer its
        request with an error, put the slot straight back on the free ring
        and drop the interface reference it held. */
    method FailSlot(netif: Netif, idx: Slot)
      requires Shape() && netif.Valid() && idx in inFlight
      modifies pendingRing, this`pendingProd, this`inFlight, netif`txRsp, netif`txRspProdPvt, netif`refcnt
      ensures Shape() && netif.Valid() && inFlight == old(inFlight) - multiset{idx}
      ensures View(netif) == Apply(old(View(netif)), MopOutcome(0, [idx], []))
    {
      ghost var v0 := View(netif);
      assert ReqsAt(pendingTxReq, [idx]) == [pendingTxReq[idx]];
      AppendOneResponse(netif.txRsp, pendingTxReq[idx], NETIF_RSP_ERROR);
      AppendNothing(DeallocWindow());
      ReleasedFree(0, idx);
      netif.MakeTxResponse(pendingTxReq[idx], NETIF_RSP_ERROR);
      ReleaseToPending(idx);
      netif.refcnt := netif.refcnt - 1;
      Applied(v0, MopOutcome(0, [idx], []), FreeWindow(), DeallocWindow(), inFlight, netif.txRsp, netif.refcnt);
    }

    /** netif_idx_release for each slot of a run, in order. */
    method IdxReleaseAll(slots: seq<Slot>)
      requires Shape() && multiset(slots) <= inFlight
      modifies deallocRing, this`deallocProd, this`inFlight
      ensures Shape()
      ensures DeallocWindow() == old(DeallocWindow()) + slots && FreeWindow() == old(FreeWindow())
      ensures inFlight == old(inFlight) - multiset(slots)
    {
      ghost var free0, dealloc0, inFlight0 := FreeWindow(), DeallocWindow(), inFlight;
      assert slots[0..] == slots;
      var k := 0;
      while k < |slots|
        invariant k <= |slots|
        invariant ReleasingFrom(slots, k, free0, dealloc0, inFlight0)
      {
        IdxReleaseNext(slots, k, free0, dealloc0, inFlight0);
        k := k + 1;
      }
      assert slots[k..] == [];
      AppendNothing(DeallocWindow());
      DiffNothing(inFlight);
    }

    /** Part way through IdxReleaseAll, with slots[k..] still to release:
        releasing them reaches the state the whole run should. */
    ghost predicate ReleasingFrom(slots: seq<Slot>, k: nat, free0: seq<Slot>, dealloc0: seq<Slot>, inFlight0: multiset<Slot>)
      requires k <= |slots|
      reads this`pendingRing, this`deallocRing, this`pendingTxReq, pendingRing, deallocRing
      reads this`pendingCons, this`pendingProd, this`deallocCons, this`deallocProd, this`inFlight
    {
      && Shape() && multiset(slots[k..]) <= inFlight
      && FreeWindow() == free0
      && DeallocWindow() + slots[k..] == dealloc0 + slots
      && inFlight - multiset(slots[k..]) == inFlight0 - multiset(slots)
    }

    /** One pass of IdxReleaseAll's loop. */
    method IdxReleaseNext(slots: seq<Slot>, k: nat, ghost free0: seq<Slot>, ghost dealloc0: seq<Slot>,
                          ghost inFlight0: multiset<Slot>)
      requires k < |slots| && ReleasingFrom(slots, k, free0, dealloc0, inFlight0)
      modifies deallocRing, this`deallocProd, this`inFlight
      ensures ReleasingFrom(slots, k + 1, free0, dealloc0, inFlight0)
    {
      assert slots[k..] == [slots[k]] + slots[k + 1..];
      ReleaseNext(inFlight, slots[k], slots[k + 1..]);
      Assoc(DeallocWindow(), [slots[k]], slots[k + 1..]);
      DiffDiff(inFlight, multiset{slots[k]}, multiset(slots[k + 1..]));
      IdxRelease(slots[k]);
    }

    /** IdxReleaseAll as a step of netbk_tx_check_mop, seen through View. */
    method QueueSlots(ghost netif: Netif, slots: seq<Slot>)
      requires Shape() && netif.Valid() && multiset(slots) <= inFlight
      modifies deallocRing, this`deallocProd, this`inFlight
      ensures Shape() && netif.Valid()
      ensures View(netif) == Apply(old(View(netif)), MopOutcome(0, [], slots))
    {
      ghost var v0 := View(netif);
      assert ReqsAt(pendingTxReq, []) == [];
      AppendNothing(FreeWindow());
      ReleasedQueue(0, slots);
      IdxReleaseAll(slots);
      Applied(v0, MopOutcome(0, [], slots), FreeWindow(), DeallocWindow(), inFlight, netif.txRsp, netif.refcnt);
    }

    /** The header check at the top of netbk_tx_check_mop: a failed header
        mapping is answered with an error, its slot freed and its reference
        dropped, as MopHead says. */
    method CheckHeader(netif: Netif, hdr: Slot, hdrStatus: int, ghost o: MopOutcome) returns (newErr: int)
      requires o == MopHead(hdr, hdrStatus)
      requires Shape() && netif.Valid() && Released(o) <= inFlight
      modifies pendingRing, this`pendingProd, deallocRing, this`deallocProd, this`inFlight
      modifies netif`txRsp, netif`txRspProdPvt, netif`refcnt
      ensures Shape() && netif.Valid()
      ensures newErr == o.err && View(netif) == Apply(old(View(netif)), o)
    {
      if hdrStatus != 0 {
        newErr := FailAlone(netif, hdr, hdrStatus, o);
      } else {
        newErr := hdrStatus;
        ApplyNothing(View(netif), hdrStatus);
      }
    }

    /** One pass of netbk_tx_check_mop's fragment loop, for fragment i with
        err the error so far, doing what MopFrag says. */
    method CheckFrag(netif: Netif, hdr: Slot, frags: seq<Slot>, st: seq<int>, i: nat, err: int, ghost o: MopOutcome)
      returns (newErr: int)
      requires |st| == |frags| && i < |frags| && o == MopFrag(hdr, frags, st, i, err, false)
      requires Shape() && netif.Valid() && Released(o) <= inFlight
      modifies pendingRing, this`pendingProd, deallocRing, this`deallocProd, this`inFlight
      modifies netif`txRsp, netif`txRspProdPvt, netif`refcnt
      ensures Shape() && netif.Valid()
      ensures newErr == o.err && View(netif) == Apply(old(View(netif)), o)
    {
      if st[i] == GNTST_okay {
        newErr := CheckMappedFrag(netif, frags[i], err, o);
      } else if err != 0 {
        newErr := FailAlone(netif, frags[i], err, o);
      } else {
        newErr := FailFirstFrag(netif, frags[i], [hdr] + frags[..i], st[i], o);
      }
    }

    /** A fragment whose mapping succeeded: it is queued for deallocation
        if an earlier mapping failed, and kept otherwise. */
    method CheckMappedFrag(netif: Netif, idx: Slot, err: int, ghost o: MopOutcome) returns (newErr: int)
      requires o == MopOutcome(err, [], if err != 0 then [idx] else [])
      requires Shape() && netif.Valid() && Released(o) <= inFlight
      modifies pendingRing, this`pendingProd, deallocRing, this`deallocProd, this`inFlight
      modifies netif`txRsp, netif`txRspProdPvt, netif`refcnt
      ensures Shape() && netif.Valid()
      ensures newErr == o.err && View(netif) == Apply(old(View(netif)), o)
    {
      newErr := err;
      if err != 0 {
        ApplyAnyErr(View(netif), 0, err, [], [idx]);
        QueueSlots(netif, [idx]);
      } else {
        ApplyNothing(View(netif), err);
      }
    }

    /** A failed mapping after the packet's first error (or of the header):
        answer it with an error, free its slot and drop its reference. */
    method FailAlone(netif: Netif, idx: Slot, err: int, ghost o: MopOutcome) returns (newErr: int)
      requires o == MopOutcome(err, [idx], [])
      requires Shape() && netif.Valid() && Released(o) <= inFlight
      modifies pendingRing, this`pendingProd, deallocRing, this`deallocProd, this`inFlight
      modifies netif`txRsp, netif`txRspProdPvt, netif`refcnt
      ensures Shape() && netif.Valid()
      ensures newErr == o.err && View(netif) == Apply(old(View(netif)), o)
    {
      ApplyAnyErr(View(netif), 0, err, [idx], []);
      FailSlot(netif, idx);
      newErr := err;
    }

    /** A fragment whose mapping is the packet's first failure: answer it,
        free its slot, and queue the header and the earlier fragments for
        deallocation. */
    method FailFirstFrag(netif: Netif, idx: Slot, earlier: seq<Slot>, status: int, ghost o: MopOutcome)
      returns (newErr: int)
      requires o == MopOutcome(status, [idx], earlier)
      requires Shape() && netif.Valid() && Released(o) <= inFlight
      modifies pendingRing, this`pendingProd, deallocRing, this`deallocProd, this`inFlight
      modifies netif`txRsp, netif`txRspProdPvt, netif`refcnt
      ensures Shape() && netif.Valid()
      ensures newErr == o.err && View(netif) == Apply(old(View(netif)), o)
    {
      FirstFailSplit(View(netif), idx, earlier, status);
      FailSlot(netif, idx);
      QueueSlots(netif, earlier);
      newErr := status;
    }

    /** What is left of netbk_tx_check_mop's fragment loop once err is the
        error after fragments before i, having started from err0: the pool
        and netif are consistent, the slots the rest of the loop releases
        are in flight, carrying the rest out reaches target, and the rest
        ends with the error the whole loop ends with. */
    ghost predicate MopLoopState(netif: Netif, hdr: Slot, frags: seq<Slot>, st: seq<int>, i: nat, err: int,
                                 err0: int, target: PoolView)
      reads this, pendingRing, deallocRing, netif
    {
      && |st| == |frags| && i <= |frags|
      && var rest := MopFrom(hdr, frags, st, i, err, false);
      && Shape() && netif.Valid()
      && Released(rest) <= inFlight
      && Apply(View(netif), rest) == target
      && rest.err == MopFrom(hdr, frags, st, 0, err0, false).err
    }

    /** netbk_tx_check_mop with the release loop as evidently intended
        (releasing frags[j]): the first failed mapping's status is returned
        and the pool and the interface end up as carrying out MopPlan
        leaves them. */
    method TxCheckMop(netif: Netif, hdr: Slot, hdrStatus: int, frags: seq<Slot>, fragStatus: seq<int>) returns (err: int)
      requires PoolValid() && netif.Valid()
      requires |fragStatus| == |frags|
      requires multiset([hdr] + frags) <= inFlight
      modifies pendingRing, this`pendingProd, deallocRing, this`deallocProd, this`inFlight
      modifies netif`txRsp, netif`txRspProdPvt, netif`refcnt
      ensures PoolValid() && netif.Valid()
      ensures err == MopPlan(hdr, hdrStatus, frags, fragStatus, false).err
      ensures View(netif) == Apply(old(View(netif)), MopPlan(hdr, hdrStatus, frags, fragStatus, false))
    {
      MopPlanStart(View(netif), hdr, hdrStatus, frags, fragStatus);
      err := CheckMopRun(netif, hdr, hdrStatus, frags, fragStatus);
    }

    /** The header check and the fragment loop of netbk_tx_check_mop. */
    method CheckMopRun(netif: Netif, hdr: Slot, hdrStatus: int, frags: seq<Slot>, st: seq<int>) returns (err: int)
      requires |st| == |frags| && Shape() && netif.Valid()
      requires var head, rest := MopHead(hdr, hdrStatus), MopFrom(hdr, frags, st, 0, hdrStatus, false);
               && Released(head) <= inFlight && Released(rest) <= inFlight - Released(head)
               && Apply(Apply(View(netif), head), rest) == Apply(View(netif), MopPlan(hdr, hdrStatus, frags, st, false))
               && head.err == hdrStatus && rest.err == MopPlan(hdr, hdrStatus, frags, st, false).err
      modifies pendingRing, this`pendingProd, deallocRing, this`deallocProd, this`inFlight
      modifies netif`txRsp, netif`txRspProdPvt, netif`refcnt
      ensures Shape() && netif.Valid()
      ensures err == MopPlan(hdr, hdrStatus, frags, st, false).err
      ensures View(netif) == Apply(old(View(netif)), MopPlan(hdr, hdrStatus, frags, st, false))
    {
      ghost var target := Apply(View(netif), MopPlan(hdr, hdrStatus, frags, st, false));
      err := CheckHeader(netif, hdr, hdrStatus, MopHead(hdr, hdrStatus));
      err := CheckMopFrags(netif, hdr, frags, st, err, target);
      MopPlanEnd(View(netif), hdr, frags, st, err);
    }

    /** netbk_tx_check_mop's fragment loop, started with the header's
        status as the error so far. */
    method CheckMopFrags(netif: Netif, hdr: Slot, frags: seq<Slot>, st: seq<int>, err0: int,
                         ghost target: PoolView) returns (err: int)
      requires MopLoopState(netif, hdr, frags, st, 0, err0, err0, target)
      modifies pendingRing, this`pendingProd, deallocRing, this`deallocProd, this`inFlight
      modifies netif`txRsp, netif`txRspProdPvt, netif`refcnt
      ensures MopLoopState(netif, hdr, frags, st, |frags|, err, err0, target)
    {
      err := err0;
      var i := 0;
      while i < |frags|
        invariant MopLoopState(netif, hdr, frags, st, i, err, err0, target)
      {
        err := CheckMopStep(netif, hdr, frags, st, i, err, err0, target);
        i := i + 1;
      }
      assert i == |frags|;
    }

    /** One pass of the fragment loop, keeping MopLoopState. */
    method CheckMopStep(netif: Netif, hdr: Slot, frags: seq<Slot>, st: seq<int>, i: nat, err: int,
                        ghost err0: int, ghost target: PoolView) returns (newErr: int)
      requires i < |frags| && MopLoopState(netif, hdr, frags, st, i, err, err0, target)
      modifies pendingRing, this`pendingProd, deallocRing, this`deallocProd, this`inFlight
      modifies netif`txRsp, netif`txRspProdPvt, netif`refcnt
      ensures MopLoopState(netif, hdr, frags, st, i + 1, newErr, err0, target)
    {
      ghost var o := MopFrag(hdr, frags, st, i, err, false);
      ghost var rest' := MopFrom(hdr, frags, st, i + 1, o.err, false);
      assert MopFrom(hdr, frags, st, i, err, false) == Then(o, rest');
      ReleasedSplit(o, rest', inFlight);
      ApplyThen(View(netif), o, rest');
      newErr := CheckFrag(netif, hdr, frags, st, i, err, o);
    }

    /** netbk_get_requests: give each fragment request the next free slot,
        oldest first, record the request in the slot and take an interface
        reference for it. */
    method GetRequests(netif: Netif, txfrags: seq<TxRequest>) returns (slots: seq<Slot>)
      requires PoolValid() && |txfrags| <= |FreeWindow()|
      modifies this`pendingCons, this`inFlight, this`pendingTxReq, netif`refcnt
      ensures PoolValid()
      ensures slots == old(FreeWindow())[..|txfrags|] && FreeWindow() == old(FreeWindow())[|txfrags|..]
      ensures inFlight == old(inFlight) + multiset(slots)
      ensures forall k :: 0 <= k < |slots| ==> pendingTxReq[slots[k]] == txfrags[k]
      ensures forall s: Slot :: s !in slots ==> pendingTxReq[s] == old(pendingTxReq[s])
      ensures netif.refcnt == old(netif.refcnt) + |txfrags|
    {
      ghost var free0, dealloc0, fl0 := FreeWindow(), DeallocWindow(), inFlight;
      FreeSlotsDistinct(free0, dealloc0, fl0);
      slots := [];
      var i := 0;
      while i < |txfrags|
        invariant Distinct(free0)
        invariant Granting(netif, txfrags, i, slots, free0, fl0, old(pendingTxReq), old(netif.refcnt))
      {
        slots := GrantNext(netif, txfrags, i, slots, free0, fl0, old(pendingTxReq), old(netif.refcnt));
        i := i + 1;
      }
      PartitionTake(free0, dealloc0, fl0, i);
    }

    /** The loop state of netbk_get_requests after i fragment requests. */
    ghost predicate Granting(netif: Netif, txfrags: seq<TxRequest>, i: nat, slots: seq<Slot>,
                             free0: seq<Slot>, fl0: multiset<Slot>, reqs0: seq<TxRequest>, rc0: int)
      reads this`pendingRing, this`deallocRing, this`pendingTxReq, pendingRing
      reads this`pendingCons, this`pendingProd, this`deallocCons, this`deallocProd, this`inFlight
      reads netif`refcnt
    {
      && Shape() && i <= |txfrags| <= |free0| && |reqs0| == MAX_PENDING_REQS
      && slots == free0[..i] && FreeWindow() == free0[i..]
      && inFlight == fl0 + multiset(slots)
      && (forall k :: 0 <= k < i ==> pendingTxReq[slots[k]] == txfrags[k])
      && (forall s: Slot :: s !in slots ==> pendingTxReq[s] == reqs0[s])
      && netif.refcnt == rc0 + i
    }

    /** One pass of netbk_get_requests: the next free slot takes the next
        fragment request. */
    method GrantNext(netif: Netif, txfrags: seq<TxRequest>, i: nat, slots: seq<Slot>, ghost free0: seq<Slot>,
                     ghost fl0: multiset<Slot>, ghost reqs0: seq<TxRequest>, ghost rc0: int) returns (slots': seq<Slot>)
      requires Distinct(free0) && i < |txfrags| && Granting(netif, txfrags, i, slots, free0, fl0, reqs0, rc0)
      modifies this`pendingCons, this`inFlight, this`pendingTxReq, netif`refcnt
      ensures Granting(netif, txfrags, i + 1, slots', free0, fl0, reqs0, rc0)
    {
      var idx := AcquireSlot();
      assert idx == free0[i] && free0[i..][1..] == free0[i + 1..];
      assert idx !in slots by {
        assert forall k :: 0 <= k < i ==> slots[k] != idx;
      }
      GrantTable(pendingTxReq, reqs0, slots, txfrags, idx);
      pendingTxReq := pendingTxReq[idx := txfrags[i]];
      netif.refcnt := netif.refcnt + 1;
      assert free0[..i + 1] == free0[..i] + [idx];
      slots' := slots + [idx];
    }

    /** The slot work net_tx_action does for one accepted packet: the
        header request takes the oldest free slot, then each fragment
        request the next one.  The loop guard on nr_pending_reqs is what
        guarantees there is a slot for each of them. */
    method StartPacket(netif: Netif, txreq: TxRequest, txfrags: seq<TxRequest>) returns (hdr: Slot, frags: seq<Slot>)
      requires PoolValid() && CanStartPacket() && |txfrags| <= MAX_SKB_FRAGS
      modifies this`pendingCons, this`inFlight, this`pendingTxReq, netif`refcnt
      ensures PoolValid()
      ensures [hdr] + frags == old(FreeWindow())[..1 + |txfrags|]
      ensures FreeWindow() == old(FreeWindow())[1 + |txfrags|..]
      ensures inFlight == old(inFlight) + multiset([hdr] + frags)
      ensures pendingTxReq[hdr] == txreq
      ensures forall k :: 0 <= k < |frags| ==> pendingTxReq[frags[k]] == txfrags[k]
      ensures netif.refcnt == old(netif.refcnt) + |txfrags|
    {
      ghost var free0 := FreeWindow();
      CanStartPacketLeavesRoom();
      FreeSlotsDistinct(free0, DeallocWindow(), inFlight);
      hdr := TakeHeaderSlot(txreq);
      frags := GetRequests(netif, txfrags);
      HeaderThenFrags(free0, frags, |txfrags|);
    }

    /** The header request takes the oldest free slot, which records it. */
    method TakeHeaderSlot(txreq: TxRequest) returns (hdr: Slot)
      requires PoolValid() && pendingCons < pendingProd
      modifies this`pendingCons, this`inFlight, this`pendingTxReq
      ensures PoolValid()
      ensures hdr == old(FreeWindow())[0] && FreeWindow() == old(FreeWindow())[1..]
      ensures inFlight == old(inFlight) + multiset{hdr}
      ensures pendingTxReq == old(pendingTxReq)[hdr := txreq]
    {
      PartitionFromFree(FreeWindow(), DeallocWindow(), inFlight);
      hdr := AcquireSlot();
      pendingTxReq := pendingTxReq[hdr := txreq];
    }

    /** alloc_mfn: hand out the frame most recently added to the list. */
    method AllocMfn() returns (mfn: nat)
      requires MfnValid() && allocIndex > 0
      modifies this`allocIndex
      ensures MfnValid()
      ensures allocIndex == old(allocIndex) - 1 && mfn == mfnList[allocIndex]
    {
      allocIndex := allocIndex - 1;
      mfn := mfnList[allocIndex];
    }

    /** check_mfn: make sure at least nr frames are on the list.  When
        fewer are, the hypervisor is asked to fill the unused part of the
        list; granted is the run of frames it returns (empty when the call
        fails).  The result is 0 exactly when nr frames are now available,
        so that nr calls of AllocMfn may follow. */
    method CheckMfn(nr: nat, granted: seq<nat>) returns (r: int)
      requires MfnValid() && |granted| <= MAX_MFN_ALLOC - allocIndex
      modifies mfnList, this`allocIndex
      ensures MfnValid()
      ensures old(allocIndex) >= nr ==> allocIndex == old(allocIndex) && mfnList[..] == old(mfnList[..])
      ensures old(allocIndex) < nr ==>
                && allocIndex == old(allocIndex) + |granted|
                && mfnList[..] == old(mfnList[..allocIndex]) + granted + old(mfnList[allocIndex + |granted|..])
      ensures r == 0 <==> allocIndex >= nr
      ensures r == 0 || r == -ENOMEM
    {
      if allocIndex >= nr {
        return 0;
      }
      forall k | 0 <= k < |granted| {
        mfnList[allocIndex + k] := granted[k];
      }
      assert mfnList[..] == old(mfnList[..allocIndex]) + granted + old(mfnList[allocIndex + |granted|..]);
      allocIndex := allocIndex + |granted|;
      r := if allocIndex >= nr then 0 else -ENOMEM;
    }

    /** The schedule list holds distinct interfaces, each marked as listed. */
    ghost predicate ScheduleValid()
      reads this`scheduleList, scheduleList
    {
      && (forall i, j :: 0 <= i < j < |scheduleList| ==> scheduleList[i] != scheduleList[j])
      && (forall i :: 0 <= i < |scheduleList| ==> scheduleList[i].onScheduleList)
    }

    /** add_to_net_schedule_list_tail: queue a schedulable interface that
        is not yet listed at the tail, taking a reference for the list;
        otherwise change nothing.  Adding twice is adding once. */
    method AddToScheduleListTail(netif: Netif)
      requires ScheduleValid() && (netif.onScheduleList <==> netif in scheduleList)
      modifies this`scheduleList, netif`onScheduleList, netif`refcnt
      ensures ScheduleValid() && (netif.onScheduleList <==> netif in scheduleList)
      ensures netif.onScheduleList <==> old(netif.onScheduleList) || Schedulable(netif)
      ensures !old(netif.onScheduleList) && Schedulable(netif) ==>
                scheduleList == old(scheduleList) + [netif] && netif.refcnt == old(netif.refcnt) + 1
      ensures old(netif.onScheduleList) || !Schedulable(netif) ==>
                scheduleList == old(scheduleList) && netif.refcnt == old(netif.refcnt)
    {
      if netif.onScheduleList {
        return;
      }
      if Schedulable(netif) {
        scheduleList := scheduleList + [netif];
        netif.onScheduleList := true;
        netif.refcnt := netif.refcnt + 1;
      }
    }

    /** remove_from_net_schedule_list: unlink a listed interface and drop
        the list's reference; an unlisted interface is left alone. */
    method RemoveFromScheduleList(netif: Netif)
      requires ScheduleValid() && (netif.onScheduleList <==> netif in scheduleList)
      modifies this`scheduleList, netif`onScheduleList, netif`refcnt
      ensures ScheduleValid() && !netif.onScheduleList && netif !in scheduleList
      ensures old(netif.onScheduleList) ==>
                && netif.refcnt == old(netif.refcnt) - 1
                && exists k :: 0 <= k < |old(scheduleList)| && old(scheduleList)[k] == netif
                               && scheduleList == old(scheduleList)[..k] + old(scheduleList)[k + 1..]
      ensures !old(netif.onScheduleList) ==> scheduleList == old(scheduleList) && netif.refcnt == old(netif.refcnt)
    {
      if netif.onScheduleList {
        var k :| 0 <= k < |scheduleList| && scheduleList[k] == netif;
        ghost var before := scheduleList;
        scheduleList := scheduleList[..k] + scheduleList[k + 1..];
        assert forall i :: 0 <= i < |scheduleList| ==> scheduleList[i] == before[if i < k then i else i + 1];
        netif.onScheduleList := false;
        netif.refcnt := netif.refcnt - 1;
      }
    }

    /** tx_work_todo: there are finished slots to return, or there is room
        for another packet and an interface waiting to send. */
    predicate TxWorkTodo()
      requires PoolValid()
      reads this, pendingRing, deallocRing
    {
      deallocCons != deallocProd || (CanStartPacket() && |scheduleList| > 0)
    }

    /** The transmit worker has something to do exactly when the dealloc
        ring is not empty, or more than MAX_SKB_FRAGS slots are free and
        some interface is listed. */
    lemma TxWorkTodoMeaning()
      requires PoolValid()
      ensures TxWorkTodo() <==> DeallocWindow() != [] || (|FreeWindow()| > MAX_SKB_FRAGS && scheduleList != [])
    {
    }
  }

  /** Every slot index occurs exactly once among the free slots, the slots
      queued for deallocation and the slots in flight. */
  ghost predicate Partition(free: seq<Slot>, dealloc: seq<Slot>, inFlight: multiset<Slot>)
  {
    multiset(free) + multiset(dealloc) + inFlight == AllSlots()
  }

  /** Taking the oldest free slot into flight keeps the partition. */
  lemma PartitionFromFree(free: seq<Slot>, dealloc: seq<Slot>, inFlight: multiset<Slot>)
    requires Partition(free, dealloc, inFlight) && |free| > 0
    ensures Partition(free[1..], dealloc, inFlight + multiset{free[0]})
  {
    assert free == [free[0]] + free[1..];
  }

  /** Recording the next request in a slot not yet used keeps what the
      earlier slots hold and leaves the untouched slots alone. */
  lemma GrantTable(table: seq<TxRequest>, reqs0: seq<TxRequest>, slots: seq<Slot>, txfrags: seq<TxRequest>, idx: Slot)
    requires |table| == |reqs0| == MAX_PENDING_REQS && |slots| < |txfrags| && idx !in slots
    requires forall k :: 0 <= k < |slots| ==> table[slots[k]] == txfrags[k]
    requires forall s: Slot :: s !in slots ==> table[s] == reqs0[s]
    ensures var t := table[idx := txfrags[|slots|]];
            && (forall k :: 0 <= k < |slots| + 1 ==> t[(slots + [idx])[k]] == txfrags[k])
            && (forall s: Slot :: s !in slots + [idx] ==> t[s] == reqs0[s])
  {
  }

  /** The header slot taken first and the n fragment slots taken after it
      are the n + 1 oldest free slots, and the header is none of the others. */
  lemma HeaderThenFrags(free: seq<Slot>, frags: seq<Slot>, n: nat)
    requires Distinct(free) && n < |free| && frags == free[1..][..n]
    ensures [free[0]] + frags == free[..1 + n] && free[1..][n..] == free[1 + n..]
    ensures free[0] !in frags
  {
    assert forall k :: 0 <= k < |frags| ==> frags[k] == free[k + 1];
  }

  /** Taking the n oldest free slots into flight keeps the partition. */
  lemma PartitionTake(free: seq<Slot>, dealloc: seq<Slot>, inFlight: multiset<Slot>, n: nat)
    requires Partition(free, dealloc, inFlight) && n <= |free|
    ensures Partition(free[n..], dealloc, inFlight + multiset(free[..n]))
  {
    assert free == free[..n] + free[n..];
  }

  /** No slot occurs twice. */
  ghost predicate Distinct(s: seq<Slot>)
  {
    forall j, k :: 0 <= j < k < |s| ==> s[j] != s[k]
  }

  /** Under the pool invariant the free slots are distinct, and none of
      them is queued for deallocation or in flight. */
  lemma FreeSlotsDistinct(free: seq<Slot>, dealloc: seq<Slot>, inFlight: multiset<Slot>)
    requires Partition(free, dealloc, inFlight)
    ensures Distinct(free)
    ensures forall k :: 0 <= k < |free| ==> free[k] !in dealloc && free[k] !in inFlight
  {
    forall k | 0 <= k < |free|
      ensures free[k] !in dealloc && free[k] !in inFlight
    {
      IotaCount(MAX_PENDING_REQS, free[k]);
    }
    forall j, k | 0 <= j < k < |free|
      ensures free[j] != free[k]
    {
      IotaCount(MAX_PENDING_REQS, free[k]);
      CountWithEarlier(free, j, k);
    }
  }

  /** An entry occurs in a sequence once more for each earlier equal entry. */
  lemma CountWithEarlier(s: seq<Slot>, j: nat, k: nat)
    requires j < k < |s|
    ensures multiset(s)[s[k]] >= 1 + (if s[j] == s[k] then 1 else 0)
  {
    assert s == s[..k] + [s[k]] + s[k + 1..];
    assert s[..k][j] == s[j];
  }

  /** netif_schedulable: the device is running and its carrier is on. */
  predicate Schedulable(netif: Netif)
    reads netif
  {
    netif.running && netif.carrierOk
  }

  /** Reading the ring from a to c + 1 extends the window by slot c. */
  lemma WindowSnoc(ring: seq<Slot>, a: nat, c: nat)
    requires |ring| == MAX_PENDING_REQS && a <= c
    ensures Window(ring, a, c + 1) == Window(ring, a, c) + [ring[MaskPendIdx(c)]]
  {
    assert Window(ring, a, c + 1)[c - a] == ring[MaskPendIdx(c)];
  }

  /** Writing a slot outside a window (at most one ring length away from
      it) leaves the window alone. */
  lemma WindowUnaffected(ring: seq<Slot>, a: nat, b: nat, p: nat, v: Slot)
    requires |ring| == MAX_PENDING_REQS && a <= b
    requires (b <= p < a + MAX_PENDING_REQS) || (p < a && b <= p + MAX_PENDING_REQS)
    ensures Window(ring[MaskPendIdx(p) := v], a, b) == Window(ring, a, b)
  {
    forall k | 0 <= k < b - a
      ensures Window(ring[MaskPendIdx(p) := v], a, b)[k] == Window(ring, a, b)[k]
    {
      if p < a {
        MaskDistinct(p, a + k);
      } else {
        MaskDistinct(a + k, p);
      }
    }
  }

  /** One step of the generator permute_dealloc_ring keeps in a static
      variable: multiplication by 68389 in 32-bit unsigned arithmetic. */
  function NextRandom(src: u32): (r: u32)
  {
    (src * 68389) % 0x1_0000_0000
  }

  /** A shuffled run of slots and the generator state after shuffling. */
  datatype Shuffled = Shuffled(slots: seq<Slot>, src: u32)

  /** x % n as repeated subtraction. Being recursive, it is unfolded only
      where a proof needs it, which keeps the remainder of a variable
      divisor out of the shuffle proofs; RemIsMod shows it is x % n. */
  function Rem(x: nat, n: nat): (r: nat)
    requires n > 0
    ensures r < n
    decreases x
  {
    if x < n then x else Rem(x - n, n)
  }

  lemma MulAtLeast(d: int, n: nat)
    requires d >= 1
    ensures d * n >= n
  {
    var e := d - 1;
    assert d * n == e * n + n;
  }

  /** The remainder is the only r in [0, n) that leaves a multiple of n. */
  lemma ModUnique(x: nat, n: nat, q: int, r: int)
    requires 0 <= r < n && x == q * n + r
    ensures x % n == r
  {
    var q', r' := x / n, x % n;
    assert x == q' * n + r';
    assert q * n - q' * n == r' - r;
    if q > q' {
      assert (q - q') * n == q * n - q' * n;
      MulAtLeast(q - q', n);
    } else if q < q' {
      assert (q' - q) * n == q' * n - q * n;
      MulAtLeast(q' - q, n);
    }
  }

  lemma ModStep(x: nat, n: nat)
    requires 0 < n <= x
    ensures (x - n) % n == x % n
  {
    var q, r := (x - n) / n, (x - n) % n;
    assert x == (q + 1) * n + r;
    ModUnique(x, n, q + 1, r);
  }

  lemma {:induction false} RemIsMod(x: nat, n: nat)
    requires n > 0
    ensures Rem(x, n) == x % n
    decreases x
  {
    if x >= n {
      RemIsMod(x - n, n);
      ModStep(x, n);
    }
  }

  /** Exchange the first entry with the entry at off. */
  function SwapFirst(w: seq<Slot>, off: nat): (s: seq<Slot>)
    requires off < |w|
    ensures |s| == |w|
  {
    w[off := w[0]][0 := w[off]]
  }

  lemma SwapFirstPermutes(w: seq<Slot>, off: nat)
    requires off < |w|
    ensures multiset(SwapFirst(w, off)) == multiset(w)
  {
  }

  /** The shuffle permute_dealloc_ring performs on the run of slots w with
      generator state src: the first slot changes places with the one
      (src / 256) % |w| further on, and the rest of the run is shuffled
      with the next generator state. */
  function Permuted(w: seq<Slot>, src: u32): (r: Shuffled)
    ensures |r.slots| == |w|
    decreases |w|
  {
    if |w| == 0 then Shuffled(w, src)
    else
      var s := SwapFirst(w, Rem(src / 256, |w|));
      var rest := Permuted(s[1..], NextRandom(src));
      Shuffled([s[0]] + rest.slots, rest.src)
  }

  /** The shuffle only reorders: every slot stays queued exactly as often
      as before. */
  lemma {:induction false} PermutedIsPermutation(w: seq<Slot>, src: u32)
    ensures multiset(Permuted(w, src).slots) == multiset(w)
    decreases |w|
  {
    if |w| > 0 {
      var s := SwapFirst(w, Rem(src / 256, |w|));
      var rest := Permuted(s[1..], NextRandom(src));
      assert Permuted(w, src).slots == [s[0]] + rest.slots;
      PermutedIsPermutation(s[1..], NextRandom(src));
      calc {
        multiset(Permuted(w, src).slots);
        multiset([s[0]]) + multiset(rest.slots);
        multiset([s[0]]) + multiset(s[1..]);
        { assert s == [s[0]] + s[1..]; }
        multiset(s);
        { SwapFirstPermutes(w, Rem(src / 256, |w|)); }
        multiset(w);
      }
    }
  }

  /** Swapping the entries at counters c and dest swaps the first entry of
      the window [c, b) with its entry at dest - c. */
  lemma SwapWindow(ring: seq<Slot>, ring': seq<Slot>, c: nat, b: nat, dest: nat)
    requires |ring| == MAX_PENDING_REQS && c <= dest < b <= c + MAX_PENDING_REQS
    requires ring' == ring[MaskPendIdx(dest) := ring[MaskPendIdx(c)]][MaskPendIdx(c) := ring[MaskPendIdx(dest)]]
    ensures Window(ring', c, b) == SwapFirst(Window(ring, c, b), dest - c)
  {
    var w, w' := Window(ring, c, b), Window(ring', c, b);
    var s := SwapFirst(w, dest - c);
    forall j | 0 <= j < b - c
      ensures w'[j] == s[j]
    {
      if 0 < j {
        MaskDistinct(c, c + j);
      }
      if c + j < dest {
        MaskDistinct(c + j, dest);
      } else if dest < c + j {
        MaskDistinct(dest, c + j);
      }
    }
  }

  /** The same swap leaves the ring outside [c, b) alone, both the part
      before c back to a and the part from b up to a ring length past a. */
  lemma SwapOutside(ring: seq<Slot>, ring': seq<Slot>, a: nat, c: nat, b: nat, dest: nat)
    requires |ring| == MAX_PENDING_REQS && a <= c <= dest < b <= a + MAX_PENDING_REQS
    requires ring' == ring[MaskPendIdx(dest) := ring[MaskPendIdx(c)]][MaskPendIdx(c) := ring[MaskPendIdx(dest)]]
    ensures Window(ring', a, c) == Window(ring, a, c)
    ensures Window(ring', b, a + MAX_PENDING_REQS) == Window(ring, b, a + MAX_PENDING_REQS)
  {
    var ring1 := ring[MaskPendIdx(dest) := ring[MaskPendIdx(c)]];
    WindowUnaffected(ring, a, c, dest, ring[MaskPendIdx(c)]);
    WindowUnaffected(ring1, a, c, c, ring[MaskPendIdx(dest)]);
    WindowUnaffected(ring, b, a + MAX_PENDING_REQS, dest, ring[MaskPendIdx(c)]);
    WindowUnaffected(ring1, b, a + MAX_PENDING_REQS, c, ring[MaskPendIdx(dest)]);
  }

  /** One iteration of permute_dealloc_ring's loop at counter c, between
      the counters a and b, as seen on the ring: the entries fixed so far
      grow by the first entry of the swapped window [c, b), the rest of that
      window is still to be shuffled, and the ring outside [a, b) is
      untouched. */
  lemma WindowSwapStep(ring: seq<Slot>, ring': seq<Slot>, a: nat, c: nat, b: nat, dest: nat)
    requires |ring| == MAX_PENDING_REQS && a <= c <= dest < b <= a + MAX_PENDING_REQS
    requires ring' == ring[MaskPendIdx(dest) := ring[MaskPendIdx(c)]][MaskPendIdx(c) := ring[MaskPendIdx(dest)]]
    ensures Window(ring', a, c + 1) == Window(ring, a, c) + [SwapFirst(Window(ring, c, b), dest - c)[0]]
    ensures Window(ring', c + 1, b) == SwapFirst(Window(ring, c, b), dest - c)[1..]
    ensures Window(ring', b, a + MAX_PENDING_REQS) == Window(ring, b, a + MAX_PENDING_REQS)
  {
    SwapWindow(ring, ring', c, b, dest);
    SwapOutside(ring, ring', a, c, b, dest);
    WindowPop(ring', c, b);
    WindowSnoc(ring', a, c);
  }

  /** The same iteration as seen on the shuffle: fixing the swapped first
      entry x after the entries pre and shuffling the remainder t with the
      next generator state is shuffling the whole run w. */
  lemma PermutedStep(pre: seq<Slot>, w: seq<Slot>, src: u32, x: Slot, t: seq<Slot>)
    requires 0 < |w|
    requires x == SwapFirst(w, Rem(src / 256, |w|))[0] && t == SwapFirst(w, Rem(src / 256, |w|))[1..]
    ensures (pre + [x]) + Permuted(t, NextRandom(src)).slots == pre + Permuted(w, src).slots
    ensures Permuted(t, NextRandom(src)).src == Permuted(w, src).src
  {
    assert Permuted(w, src).slots == [x] + Permuted(t, NextRandom(src)).slots;
  }

  /** permute_dealloc_ring's loop, from counter c up to counter b, as a
      function of the whole ring and the generator state. */
  function ShuffleFrom(ring: seq<Slot>, c: nat, b: nat, src: u32): (r: Shuffled)
    requires |ring| == MAX_PENDING_REQS
    ensures |r.slots| == MAX_PENDING_REQS
    decreases b - c
  {
    if b <= c then Shuffled(ring, src)
    else
      var dest := c + Rem(src / 256, b - c);
      ShuffleFrom(ring[MaskPendIdx(dest) := ring[MaskPendIdx(c)]][MaskPendIdx(c) := ring[MaskPendIdx(dest)]],
                  c + 1, b, NextRandom(src))
  }

  /** Running the loop from c to b leaves the entries from a to c as they
      were, shuffles those from c to b as Permuted describes, and leaves the
      rest of the ring alone. */
  lemma {:induction false} ShuffleFromMeaning(ring: seq<Slot>, a: nat, c: nat, b: nat, src: u32)
    requires |ring| == MAX_PENDING_REQS && a <= c <= b <= a + MAX_PENDING_REQS
    ensures Window(ShuffleFrom(ring, c, b, src).slots, a, b) == Window(ring, a, c) + Permuted(Window(ring, c, b), src).slots
    ensures ShuffleFrom(ring, c, b, src).src == Permuted(Window(ring, c, b), src).src
    ensures Window(ShuffleFrom(ring, c, b, src).slots, b, a + MAX_PENDING_REQS) == Window(ring, b, a + MAX_PENDING_REQS)
    decreases b - c
  {
    if c < b {
      var dest := c + Rem(src / 256, b - c);
      var ring' := ring[MaskPendIdx(dest) := ring[MaskPendIdx(c)]][MaskPendIdx(c) := ring[MaskPendIdx(dest)]];
      assert ShuffleFrom(ring, c, b, src) == ShuffleFrom(ring', c + 1, b, NextRandom(src));
      ShuffleFromMeaning(ring', a, c + 1, b, NextRandom(src));
      ShuffleCombine(ring, ring', a, c, b, src, dest, ShuffleFrom(ring', c + 1, b, NextRandom(src)));
    } else {
      assert Window(ring, c, b) == [];
      assert Window(ring, a, c) + [] == Window(ring, a, b);
    }
  }

  /** One swap at counter c followed by a run of the loop that behaves as
      Permuted describes from c + 1 on behaves so from c on. */
  lemma ShuffleCombine(ring: seq<Slot>, ring': seq<Slot>, a: nat, c: nat, b: nat, src: u32, dest: nat, r: Shuffled)
    requires |ring| == |r.slots| == MAX_PENDING_REQS && a <= c < b <= a + MAX_PENDING_REQS
    requires dest == c + Rem(src / 256, b - c)
    requires ring' == ring[MaskPendIdx(dest) := ring[MaskPendIdx(c)]][MaskPendIdx(c) := ring[MaskPendIdx(dest)]]
    requires Window(r.slots, a, b) == Window(ring', a, c + 1) + Permuted(Window(ring', c + 1, b), NextRandom(src)).slots
    requires r.src == Permuted(Window(ring', c + 1, b), NextRandom(src)).src
    requires Window(r.slots, b, a + MAX_PENDING_REQS) == Window(ring', b, a + MAX_PENDING_REQS)
    ensures Window(r.slots, a, b) == Window(ring, a, c) + Permuted(Window(ring, c, b), src).slots
    ensures r.src == Permuted(Window(ring, c, b), src).src
    ensures Window(r.slots, b, a + MAX_PENDING_REQS) == Window(ring, b, a + MAX_PENDING_REQS)
  {
    var w := Window(ring, c, b);
    WindowSwapStep(ring, ring', a, c, b, dest);
    PermutedStep(Window(ring, a, c), w, src, SwapFirst(w, dest - c)[0], SwapFirst(w, dest - c)[1..]);
  }

  /** Moving every queued slot, in any order, from the dealloc ring to the
      free ring keeps the partition. */
  lemma PartitionDrain(free: seq<Slot>, dealloc: seq<Slot>, moved: seq<Slot>, inFlight: multiset<Slot>)
    requires Partition(free, dealloc, inFlight) && multiset(moved) == multiset(dealloc)
    ensures Partition(free + moved, [], inFlight)
  {
  }

  /** What netbk_tx_check_mop does with one packet's slots: the error it
      returns, the slots it answers with an error and puts straight back
      on the free ring, and the slots it queues for deallocation. */
  datatype MopOutcome = MopOutcome(err: int, toFree: seq<Slot>, toDealloc: seq<Slot>)

  /** pending_tx_info[idx].req for each slot idx of a run, in order. */
  function ReqsAt(table: seq<TxRequest>, slots: seq<Slot>): (reqs: seq<TxRequest>)
    requires |table| == MAX_PENDING_REQS
    ensures |reqs| == |slots|
    ensures forall k :: 0 <= k < |slots| ==> reqs[k] == table[slots[k]]
  {
    seq(|slots|, k requires 0 <= k < |slots| => table[slots[k]])
  }

  lemma ReqsAtConcat(table: seq<TxRequest>, x: seq<Slot>, y: seq<Slot>)
    requires |table| == MAX_PENDING_REQS
    ensures ReqsAt(table, x + y) == ReqsAt(table, x) + ReqsAt(table, y)
  {
    assert forall k :: 0 <= k < |x| + |y| ==> (x + y)[k] == if k < |x| then x[k] else y[k - |x|];
  }

  /** The outcome of an earlier part followed by that of a later part. */
  function Then(done: MopOutcome, rest: MopOutcome): (o: MopOutcome)
  {
    MopOutcome(rest.err, done.toFree + rest.toFree, done.toDealloc + rest.toDealloc)
  }

  /** The fragments released on the first fragment error at i: those
      before i; or, as netback.c:1174 reads frags[i] where frags[j] is
      meant, fragment i once for each fragment before it. */
  function EarlierFrags(frags: seq<Slot>, i: nat, asWritten: bool): (s: seq<Slot>)
    requires i < |frags|
    ensures |s| == i
  {
    if asWritten then seq(i, _ => frags[i]) else frags[..i]
  }

  /** What netbk_tx_check_mop does for fragment i, with err the error so
      far: a mapped fragment is queued for deallocation if an earlier
      mapping failed; a failed one is answered and freed, and if it is the
      first failure the header and the earlier fragments are queued for
      deallocation. */
  function MopFrag(hdr: Slot, frags: seq<Slot>, st: seq<int>, i: nat, err: int, asWritten: bool): (o: MopOutcome)
    requires |st| == |frags| && i < |frags|
  {
    if st[i] == GNTST_okay then MopOutcome(err, [], if err != 0 then [frags[i]] else [])
    else if err != 0 then MopOutcome(err, [frags[i]], [])
    else MopOutcome(st[i], [frags[i]], [hdr] + EarlierFrags(frags, i, asWritten))
  }

  /** netbk_tx_check_mop from fragment i on, with err the error so far. */
  function MopFrom(hdr: Slot, frags: seq<Slot>, st: seq<int>, i: nat, err: int, asWritten: bool): (o: MopOutcome)
    requires |st| == |frags| && i <= |frags|
    decreases |frags| - i
  {
    if i == |frags| then MopOutcome(err, [], [])
    else
      var step := MopFrag(hdr, frags, st, i, err, asWritten);
      Then(step, MopFrom(hdr, frags, st, i + 1, step.err, asWritten))
  }

  /** The slots released by an outcome followed by another. */
  lemma ThenReleased(x: MopOutcome, y: MopOutcome)
    ensures Released(Then(x, y)) == Released(x) + Released(y)
  {
  }

  lemma Assoc<T>(a: seq<T>, b: seq<T>, c: seq<T>)
    ensures a + b + c == a + (b + c)
  {
  }

  lemma AppendNothing<T>(s: seq<T>)
    ensures s + [] == s
  {
  }

  /** Taking the first slot of a run out of flight leaves the rest in flight. */
  lemma ReleaseNext(inFlight: multiset<Slot>, x: Slot, rest: seq<Slot>)
    requires multiset([x] + rest) <= inFlight
    ensures x in inFlight && multiset(rest) <= inFlight - multiset{x}
  {
    assert multiset([x] + rest) == multiset{x} + multiset(rest);
  }

  lemma DiffNothing(m: multiset<Slot>)
    ensures m - multiset([]) == m
  {
  }

  lemma DiffDiff(m: multiset<Slot>, x: multiset<Slot>, y: multiset<Slot>)
    ensures m - x - y == m - (x + y)
  {
  }

  /** The slots an outcome releases, to either ring. */
  function Released(o: MopOutcome): (m: multiset<Slot>)
    ensures |m| == |o.toFree| + |o.toDealloc|
  {
    multiset(o.toFree + o.toDealloc)
  }

  /** The part of a group's state that netbk_tx_check_mop works on: the
      free ring, the dealloc ring, the slots in flight and the request each
      slot carries, and the interface's transmit responses and reference
      count. */
  datatype PoolView = PoolView(free: seq<Slot>, dealloc: seq<Slot>, inFlight: multiset<Slot>,
                               reqs: seq<TxRequest>, rsp: seq<TxRspSlot>, refcnt: int)

  /** The state after carrying out outcome o: the freed slots are appended
      to the free ring and their requests answered with an error, costing
      a reference each, and the others are queued for deallocation. */
  ghost function Apply(v: PoolView, o: MopOutcome): (v': PoolView)
    requires |v.reqs| == MAX_PENDING_REQS
  {
    PoolView(v.free + o.toFree, v.dealloc + o.toDealloc, v.inFlight - Released(o), v.reqs,
             AppendResponses(v.rsp, ReqsAt(v.reqs, o.toFree), NETIF_RSP_ERROR), v.refcnt - |o.toFree|)
  }

  /** A state whose parts are those Apply gives is Apply's result. */
  lemma Applied(v: PoolView, o: MopOutcome, free: seq<Slot>, dealloc: seq<Slot>, inFlight: multiset<Slot>,
                rsp: seq<TxRspSlot>, refcnt: int)
    requires |v.reqs| == MAX_PENDING_REQS
    requires free == v.free + o.toFree && dealloc == v.dealloc + o.toDealloc
    requires inFlight == v.inFlight - Released(o)
    requires rsp == AppendResponses(v.rsp, ReqsAt(v.reqs, o.toFree), NETIF_RSP_ERROR)
    requires refcnt == v.refcnt - |o.toFree|
    ensures PoolView(free, dealloc, inFlight, v.reqs, rsp, refcnt) == Apply(v, o)
  {
  }

  /** The error an outcome reports does not affect its effect. */
  lemma ApplyAnyErr(v: PoolView, e1: int, e2: int, toFree: seq<Slot>, toDealloc: seq<Slot>)
    requires |v.reqs| == MAX_PENDING_REQS
    ensures Apply(v, MopOutcome(e1, toFree, toDealloc)) == Apply(v, MopOutcome(e2, toFree, toDealloc))
  {
  }

  /** The slots released by an outcome that frees one slot. */
  lemma ReleasedFree(err: int, idx: Slot)
    ensures Released(MopOutcome(err, [idx], [])) == multiset{idx}
  {
    assert [idx] + [] == [idx];
  }

  /** The slots released by an outcome that only queues slots. */
  lemma ReleasedQueue(err: int, slots: seq<Slot>)
    ensures Released(MopOutcome(err, [], slots)) == multiset(slots)
  {
    assert [] + slots == slots;
  }

  /** Carrying out an outcome that releases only slots in flight keeps
      every slot exactly once free, queued or in flight. */
  lemma ApplyPartition(v: PoolView, o: MopOutcome)
    requires |v.reqs| == MAX_PENDING_REQS
    requires Partition(v.free, v.dealloc, v.inFlight) && Released(o) <= v.inFlight
    ensures Partition(Apply(v, o).free, Apply(v, o).dealloc, Apply(v, o).inFlight)
  {
    assert Released(o) == multiset(o.toFree) + multiset(o.toDealloc);
    assert (v.inFlight - Released(o)) + Released(o) == v.inFlight;
  }

  /** Carrying out two outcomes one after the other is carrying out their
      composition. */
  lemma ApplyThen(v: PoolView, o: MopOutcome, r: MopOutcome)
    requires |v.reqs| == MAX_PENDING_REQS
    ensures Apply(Apply(v, o), r) == Apply(v, Then(o, r))
  {
    ThenReleased(o, r);
    Assoc(v.free, o.toFree, r.toFree);
    Assoc(v.dealloc, o.toDealloc, r.toDealloc);
    DiffDiff(v.inFlight, Released(o), Released(r));
    AppendResponsesConcat(v.rsp, ReqsAt(v.reqs, o.toFree), ReqsAt(v.reqs, r.toFree), NETIF_RSP_ERROR);
    ReqsAtConcat(v.reqs, o.toFree, r.toFree);
  }

  /** An outcome that releases nothing changes nothing. */
  lemma ApplyNothing(v: PoolView, err: int)
    requires |v.reqs| == MAX_PENDING_REQS
    ensures Apply(v, MopOutcome(err, [], [])) == v
  {
    AppendNothing(v.free);
    AppendNothing(v.dealloc);
    DiffNothing(v.inFlight);
    assert ReqsAt(v.reqs, []) == [];
  }

  /** The first failed fragment's outcome is answering and freeing its own
      slot, then queueing the earlier slots, each step releasing slots in
      flight. */
  lemma FirstFailSplit(v: PoolView, idx: Slot, earlier: seq<Slot>, status: int)
    requires |v.reqs| == MAX_PENDING_REQS && Released(MopOutcome(status, [idx], earlier)) <= v.inFlight
    ensures idx in v.inFlight && multiset(earlier) <= v.inFlight - multiset{idx}
    ensures Apply(Apply(v, MopOutcome(0, [idx], [])), MopOutcome(0, [], earlier))
            == Apply(v, MopOutcome(status, [idx], earlier))
  {
    var first, second := MopOutcome(0, [idx], []), MopOutcome(status, [], earlier);
    assert Then(first, second) == MopOutcome(status, [idx], earlier) by { AppendNothing([idx]); }
    ReleasedSplit(first, second, v.inFlight);
    ReleasedFree(0, idx);
    ReleasedQueue(status, earlier);
    ApplyAnyErr(Apply(v, first), 0, status, [], earlier);
    ApplyThen(v, first, second);
  }

  /** Before netbk_tx_check_mop: the header's outcome releases slots in
      flight, the fragment loop's outcome releases slots still in flight
      after it, the two make up the whole plan, and carrying the plan out
      keeps the partition. */
  lemma MopPlanStart(v: PoolView, hdr: Slot, hdrStatus: int, frags: seq<Slot>, st: seq<int>)
    requires |v.reqs| == MAX_PENDING_REQS && |st| == |frags|
    requires Partition(v.free, v.dealloc, v.inFlight) && multiset([hdr] + frags) <= v.inFlight
    ensures var head, rest := MopHead(hdr, hdrStatus), MopFrom(hdr, frags, st, 0, hdrStatus, false);
            && Released(head) <= v.inFlight && Released(rest) <= v.inFlight - Released(head)
            && Apply(Apply(v, head), rest) == Apply(v, MopPlan(hdr, hdrStatus, frags, st, false))
            && head.err == hdrStatus && rest.err == MopPlan(hdr, hdrStatus, frags, st, false).err
    ensures var after := Apply(v, MopPlan(hdr, hdrStatus, frags, st, false));
            Partition(after.free, after.dealloc, after.inFlight)
  {
    var head, rest := MopHead(hdr, hdrStatus), MopFrom(hdr, frags, st, 0, hdrStatus, false);
    MopPlanInFlight(hdr, hdrStatus, frags, st, v.inFlight);
    ReleasedSplit(head, rest, v.inFlight);
    ApplyThen(v, head, rest);
    ApplyPartition(v, MopPlan(hdr, hdrStatus, frags, st, false));
  }

  /** After the fragment loop nothing is left to do. */
  lemma MopPlanEnd(v: PoolView, hdr: Slot, frags: seq<Slot>, st: seq<int>, err: int)
    requires |v.reqs| == MAX_PENDING_REQS && |st| == |frags|
    ensures Apply(v, MopFrom(hdr, frags, st, |frags|, err, false)) == v
    ensures MopFrom(hdr, frags, st, |frags|, err, false).err == err
  {
    ApplyNothing(v, err);
  }

  /** If all the slots two outcomes release are in flight, those of the
      first are, and those of the second are still in flight after it. */
  lemma ReleasedSplit(o: MopOutcome, r: MopOutcome, fl: multiset<Slot>)
    requires Released(Then(o, r)) <= fl
    ensures Released(o) <= fl && Released(r) <= fl - Released(o)
  {
    ThenReleased(o, r);
  }

  /** What netbk_tx_check_mop does with the header: a failed mapping is
      answered and freed. */
  function MopHead(hdr: Slot, hdrStatus: int): (o: MopOutcome)
  {
    MopOutcome(hdrStatus, if hdrStatus != 0 then [hdr] else [], [])
  }

  /** netbk_tx_check_mop for a header slot and the fragment slots mapped
      after it, given the status of each mapping. */
  function MopPlan(hdr: Slot, hdrStatus: int, frags: seq<Slot>, st: seq<int>, asWritten: bool): (o: MopOutcome)
    requires |st| == |frags|
  {
    Then(MopHead(hdr, hdrStatus), MopFrom(hdr, frags, st, 0, hdrStatus, asWritten))
  }

  /** The first non-zero status of a run, or 0 when all are zero. */
  function FirstError(st: seq<int>): (e: int)
    ensures e == 0 <==> forall k :: 0 <= k < |st| ==> st[k] == 0
  {
    if |st| == 0 then 0 else if st[0] != 0 then st[0] else FirstError(st[1..])
  }

  /** The slots whose own status is non-zero, in order. */
  function FailedSlots(slots: seq<Slot>, st: seq<int>): (f: seq<Slot>)
    requires |st| == |slots|
    ensures |f| <= |slots|
  {
    if |slots| == 0 then []
    else (if st[0] != 0 then [slots[0]] else []) + FailedSlots(slots[1..], st[1..])
  }

  lemma {:induction false} MopFromErr(hdr: Slot, frags: seq<Slot>, st: seq<int>, i: nat, err: int, asWritten: bool)
    requires |st| == |frags| && i <= |frags|
    ensures MopFrom(hdr, frags, st, i, err, asWritten).err == if err != 0 then err else FirstError(st[i..])
    ensures MopFrom(hdr, frags, st, i, err, asWritten).toFree == FailedSlots(frags[i..], st[i..])
    decreases |frags| - i
  {
    if i < |frags| {
      MopFromErr(hdr, frags, st, i + 1, if err == 0 && st[i] != GNTST_okay then st[i] else err, asWritten);
      assert st[i..][1..] == st[i + 1..] && frags[i..][1..] == frags[i + 1..];
    }
  }

  /** netbk_tx_check_mop returns the first failed mapping's status, header
      first, and answers with an error exactly the slots whose own mapping
      failed; both hold as the code is written. */
  lemma MopErrorAndFailures(hdr: Slot, hdrStatus: int, frags: seq<Slot>, st: seq<int>, asWritten: bool)
    requires |st| == |frags|
    ensures var o := MopPlan(hdr, hdrStatus, frags, st, asWritten);
            && o.err == FirstError([hdrStatus] + st)
            && o.toFree == FailedSlots([hdr] + frags, [hdrStatus] + st)
  {
    MopFromErr(hdr, frags, st, 0, hdrStatus, asWritten);
    assert ([hdrStatus] + st)[1..] == st && ([hdr] + frags)[1..] == frags;
    assert st[0..] == st && frags[0..] == frags;
  }

  /** After an error, each remaining fragment is released exactly once and
      the error stays. */
  lemma {:induction false} MopFromAfterError(hdr: Slot, frags: seq<Slot>, st: seq<int>, i: nat, err: int)
    requires |st| == |frags| && i <= |frags| && err != 0
    ensures var o := MopFrom(hdr, frags, st, i, err, false);
            o.err == err && Released(o) == multiset(frags[i..])
    decreases |frags| - i
  {
    if i < |frags| {
      var step := MopFrag(hdr, frags, st, i, err, false);
      assert step.err == err && Released(step) == multiset{frags[i]};
      MopFromAfterError(hdr, frags, st, i + 1, err);
      ThenReleased(step, MopFrom(hdr, frags, st, i + 1, err, false));
      MultisetFrom(frags, i);
    }
  }

  lemma MultisetAround(hdr: Slot, frags: seq<Slot>, i: nat)
    requires i < |frags|
    ensures multiset([hdr] + frags) == multiset([frags[i]] + ([hdr] + frags[..i])) + multiset(frags[i + 1..])
  {
    assert [hdr] + frags == [hdr] + frags[..i] + [frags[i]] + frags[i + 1..];
  }

  lemma MultisetFrom(s: seq<Slot>, i: nat)
    requires i < |s|
    ensures multiset(s[i..]) == multiset{s[i]} + multiset(s[i + 1..])
  {
    assert s[i..] == [s[i]] + s[i + 1..];
  }

  /** Before any error, the run releases nothing if no mapping fails, and
      otherwise the header and every fragment exactly once. */
  lemma {:induction false} MopFromReleases(hdr: Slot, frags: seq<Slot>, st: seq<int>, i: nat)
    requires |st| == |frags| && i <= |frags|
    ensures CleanRun(hdr, frags, MopFrom(hdr, frags, st, i, 0, false))
    decreases |frags| - i, 1
  {
    if i < |frags| {
      if st[i] == GNTST_okay {
        MopCleanFrag(hdr, frags, st, i);
      } else {
        MopFailFrag(hdr, frags, st, i);
      }
    }
  }

  lemma MopFailFrag(hdr: Slot, frags: seq<Slot>, st: seq<int>, i: nat)
    requires |st| == |frags| && i < |frags| && st[i] != GNTST_okay
    ensures CleanRun(hdr, frags, MopFrom(hdr, frags, st, i, 0, false))
  {
    MopFromAfterError(hdr, frags, st, i + 1, st[i]);
    MopReleaseStep(hdr, frags, st, i);
  }

  /** The same from a fragment that mapped. */
  lemma {:induction false} MopCleanFrag(hdr: Slot, frags: seq<Slot>, st: seq<int>, i: nat)
    requires |st| == |frags| && i < |frags| && st[i] == GNTST_okay
    ensures CleanRun(hdr, frags, MopFrom(hdr, frags, st, i, 0, false))
    decreases |frags| - i, 0
  {
    MopFromReleases(hdr, frags, st, i + 1);
    MopReleaseStep(hdr, frags, st, i);
  }

  /** What a run started before any error releases: nothing if no mapping
      fails, and otherwise the header and every fragment exactly once. */
  ghost predicate CleanRun(hdr: Slot, frags: seq<Slot>, o: MopOutcome)
  {
    && (o.err == 0 ==> o.toFree == [] && o.toDealloc == [])
    && (o.err != 0 ==> Released(o) == multiset([hdr] + frags))
  }

  /** Fragment i before any error: if it mapped, it adds nothing to what the
      rest of the run releases; if it is the first failure, it releases
      itself, the header and the fragments before it, and the rest of the run
      releases the ones after. */
  lemma MopReleaseStep(hdr: Slot, frags: seq<Slot>, st: seq<int>, i: nat)
    requires |st| == |frags| && i < |frags|
    requires st[i] == GNTST_okay ==> CleanRun(hdr, frags, MopFrom(hdr, frags, st, i + 1, 0, false))
    requires st[i] != GNTST_okay ==>
               var r := MopFrom(hdr, frags, st, i + 1, st[i], false);
               r.err == st[i] && Released(r) == multiset(frags[i + 1..])
    ensures CleanRun(hdr, frags, MopFrom(hdr, frags, st, i, 0, false))
  {
    var step := MopFrag(hdr, frags, st, i, 0, false);
    var r := MopFrom(hdr, frags, st, i + 1, step.err, false);
    assert MopFrom(hdr, frags, st, i, 0, false) == Then(step, r);
    if st[i] == GNTST_okay {
      assert step == MopOutcome(0, [], []);
      assert r.toFree == [] + r.toFree && r.toDealloc == [] + r.toDealloc;
    } else {
      ThenReleased(step, r);
      assert step.toFree + step.toDealloc == [frags[i]] + ([hdr] + frags[..i]);
      MultisetAround(hdr, frags, i);
    }
  }

  /** With the release loop as intended, a packet with any failed mapping
      gives every one of its slots back exactly once, either to the free
      ring or to the dealloc ring; a packet whose mappings all succeeded
      keeps all its slots. */
  lemma MopReleasesEachOnce(hdr: Slot, hdrStatus: int, frags: seq<Slot>, st: seq<int>)
    requires |st| == |frags|
    ensures var o := MopPlan(hdr, hdrStatus, frags, st, false);
            && (o.err != 0 ==> multiset(o.toFree + o.toDealloc) == multiset([hdr] + frags))
            && (o.err == 0 ==> o.toFree == [] && o.toDealloc == [])
  {
    var o := MopPlan(hdr, hdrStatus, frags, st, false);
    if hdrStatus != 0 {
      MopFromAfterError(hdr, frags, st, 0, hdrStatus);
      ThenReleased(MopHead(hdr, hdrStatus), MopFrom(hdr, frags, st, 0, hdrStatus, false));
      assert frags[0..] == frags;
    } else {
      MopFromReleases(hdr, frags, st, 0);
      var rest := MopFrom(hdr, frags, st, 0, 0, false);
      assert o.toFree == [] + rest.toFree && o.toDealloc == [] + rest.toDealloc;
    }
  }

  /** The slots netbk_tx_check_mop releases for a packet whose slots are
      all in flight are in flight. */
  lemma MopPlanInFlight(hdr: Slot, hdrStatus: int, frags: seq<Slot>, st: seq<int>, fl: multiset<Slot>)
    requires |st| == |frags| && multiset([hdr] + frags) <= fl
    ensures Released(MopPlan(hdr, hdrStatus, frags, st, false)) <= fl
  {
    MopReleasesEachOnce(hdr, hdrStatus, frags, st);
  }

  /** As netback.c:1174 is written, a packet whose second fragment fails
      after the first succeeded never releases the first fragment's slot
      and releases the second one twice, to both rings. */
  lemma MopAsWrittenLeaks()
    ensures var o := MopPlan(0, GNTST_okay, [1, 2], [GNTST_okay, GNTST_general_error], true);
            && o == MopOutcome(GNTST_general_error, [2], [0, 2])
            && multiset(o.toFree + o.toDealloc) != multiset([0, 1, 2])
            && MopPlan(0, GNTST_okay, [1, 2], [GNTST_okay, GNTST_general_error], false)
               == MopOutcome(GNTST_general_error, [2], [0, 1])
  {
    LeakRun(true);
    LeakRun(false);
    var o := MopPlan(0, GNTST_okay, [1, 2], [GNTST_okay, GNTST_general_error], true);
    assert o.toFree + o.toDealloc == [2, 0, 2];
    assert multiset(o.toFree + o.toDealloc)[1] == 0;
  }

  /** The fragment walk of that two-fragment packet, step by step. */
  lemma LeakRun(asWritten: bool)
    ensures MopPlan(0, GNTST_okay, [1, 2], [GNTST_okay, GNTST_general_error], asWritten)
            == MopOutcome(GNTST_general_error, [2], if asWritten then [0, 2] else [0, 1])
  {
    var frags, st := [1, 2], [GNTST_okay, GNTST_general_error];
    var last := MopFrom(0, frags, st, 2, GNTST_general_error, asWritten);
    assert last == MopOutcome(GNTST_general_error, [], []);
    assert EarlierFrags(frags, 1, asWritten) == if asWritten then [2] else [1] by {
      assert frags[..1] == [1];
    }
    var second := MopFrag(0, frags, st, 1, 0, asWritten);
    assert second == MopOutcome(GNTST_general_error, [2], if asWritten then [0, 2] else [0, 1]);
    assert MopFrom(0, frags, st, 1, 0, asWritten) == Then(second, last);
    assert MopFrag(0, frags, st, 0, 0, asWritten) == MopOutcome(0, [], []);
  }
}
