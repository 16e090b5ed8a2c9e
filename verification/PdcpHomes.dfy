/** Arrivals at any distance: as long as no SN is split between ring and overflow list, the two
    together behave as one map, for segmented frames, any ring size and any number of frames. */
module PdcpHomes {
  import opened Bytes
  import opened PdcpSegment
  import opened PdcpSender
  import opened PdcpReceiver
  import opened Reassembly
  import opened PdcpLedger
  import opened PdcpWindow
  import U = PdcpUnsegmented

  /** What is held for an SN: its ring slot's state or, failing that, its overflow entry's. */
  function Stored(rx: Receiver, sn: word): State {
    if U.InSlot(rx, sn) then rx.ring[rx.SlotIndex(sn)].state
    else
      var i := FirstPending(rx.overflow, sn);
      if i < |rx.overflow| then rx.overflow[i].state else FRESH
  }

  ghost predicate DistinctSns(list: seq<Pending>) {
    forall a, b :: 0 <= a < b < |list| ==> list[a].sn != list[b].sn
  }

  /** Some piece has been taken in. */
  ghost predicate Begun(st: State) {
    exists o :: o in st.received
  }

  /** Every SN is held in at most one place, and overflow entries hold something. */
  ghost predicate OneHome(rx: Receiver) {
    && (forall a :: 0 <= a < |rx.overflow| ==> Begun(rx.overflow[a].state))
    && (forall i :: 0 <= i < |rx.ring| && rx.ring[i].valid ==> rx.ring[i].sn % |rx.ring| == i)
    && DistinctSns(rx.overflow)
    && (forall i, a :: 0 <= i < |rx.ring| && rx.ring[i].valid && 0 <= a < |rx.overflow| ==>
          rx.ring[i].sn != rx.overflow[a].sn)
  }

  /** A piece with this SN joins what is held for it already: it does not find its ring slot free
      while earlier pieces wait in the overflow list. */
  predicate Joins(rx: Receiver, sn: word) {
    rx.FitsRing(sn) ==> !U.InOverflow(rx, sn)
  }

  lemma LookupStored(rx: Receiver, sn: word)
    requires Joins(rx, sn)
    ensures rx.Lookup(sn) == Stored(rx, sn)
  {}

  lemma PutHome(rx: Receiver, sn: word, st: State, rx': Receiver)
    requires OneHome(rx) && Joins(rx, sn) && rx' == rx.Put(sn, st) && Begun(st)
    ensures OneHome(rx')
  {}

  lemma PutStored(rx: Receiver, sn: word, st: State, rx': Receiver, sn': word)
    requires OneHome(rx) && Joins(rx, sn) && rx' == rx.Put(sn, st)
    ensures Stored(rx', sn') == if sn' == sn then st else Stored(rx, sn')
  {
    if !rx.FitsRing(sn) {
      PutPending(rx.overflow, sn, st, rx'.overflow, sn');
    }
  }

  /** Replacing or appending an entry for `sn` in the list. */
  lemma PutPending(list: seq<Pending>, sn: word, st: State, list': seq<Pending>, sn': word)
    requires var i := FirstPending(list, sn);
             list' == if i < |list| then list[i := Pending(sn, st)] else list + [Pending(sn, st)]
    ensures var i, j := FirstPending(list, sn'), FirstPending(list', sn');
            if sn' == sn then j < |list'| && list'[j].state == st
            else if i < |list| then j == i && list'[j] == list[i]
            else j == |list'|
  {}

  lemma EraseFirst(list: seq<Pending>, j: nat, sn: word)
    requires DistinctSns(list) && j < |list| && list[j].sn != sn
    ensures DistinctSns(Erase(list, j))
    ensures var i, i' := FirstPending(list, sn), FirstPending(Erase(list, j), sn);
            && (i < |list| <==> i' < |list| - 1)
            && (i < |list| ==> Erase(list, j)[i'] == list[i])
  {
    var list' := Erase(list, j);
    assert forall a :: 0 <= a < |list'| ==> list'[a] == list[if a < j then a else a + 1];
    var i := FirstPending(list, sn);
    if i < |list| {
      assert list'[if i < j then i else i - 1] == list[i];
    }
  }

  /** The next SN has been delivered: nothing is held for it, and all else is as it was. */
  ghost predicate Delivered(rx: Receiver, rx': Receiver) {
    && OneHome(rx') && !U.InSlot(rx', rx.next) && !U.InOverflow(rx', rx.next)
    && forall sn :: sn != rx.next ==> Stored(rx', sn) == Stored(rx, sn)
  }

  lemma RingDelivered(rx: Receiver)
    requires OneHome(rx) && rx.RingReady()
    ensures Delivered(rx, rx.AdvanceRing()) && Stored(rx, rx.next).complete
  {}

  lemma OverflowHome(rx: Receiver, rx': Receiver)
    requires OneHome(rx) && rx.OverflowReady() && rx' == rx.AdvanceOverflow()
    ensures OneHome(rx') && !U.InOverflow(rx', rx.next)
  {
    var j := FirstComplete(rx.overflow, rx.next);
    assert forall a :: 0 <= a < |rx'.overflow| ==> rx'.overflow[a] == rx.overflow[if a < j then a else a + 1];
  }

  lemma OverflowNext(rx: Receiver)
    requires OneHome(rx) && rx.OverflowReady()
    ensures !U.InSlot(rx, rx.next) && Stored(rx, rx.next).complete
  {
    assert FirstPending(rx.overflow, rx.next) == FirstComplete(rx.overflow, rx.next);
  }

  lemma OverflowDelivered(rx: Receiver)
    requires OneHome(rx) && rx.OverflowReady()
    ensures Delivered(rx, rx.AdvanceOverflow()) && Stored(rx, rx.next).complete
  {
    hide OneHome;
    var rx' := rx.AdvanceOverflow();
    OverflowHome(rx, rx');
    OverflowNext(rx);
    forall sn | sn != rx.next ensures Stored(rx', sn) == Stored(rx, sn) {
      OverflowOther(rx, sn);
    }
  }

  lemma OverflowOther(rx: Receiver, sn: word)
    requires OneHome(rx) && rx.OverflowReady() && sn != rx.next
    ensures Stored(rx.AdvanceOverflow(), sn) == Stored(rx, sn)
  {
    EraseFirst(rx.overflow, FirstComplete(rx.overflow, rx.next), sn);
  }

  // ---- what has arrived, and what is held ----

  /** `fed[k]` is what has arrived of frame k: all of it below n, what is held for its SN within one
      SN cycle, nothing above. */
  ghost predicate FedAny(frames: seq<Frame>, cuts: Ledger, fed: Ledger, n: nat, rx: Receiver) {
    && |fed| == |cuts| == |frames|
    && (forall k :: 0 <= k < |fed| ==> fed[k] <= cuts[k])
    && (forall k :: 0 <= k < n && k < |fed| ==> Covers(frames[k], fed[k]))
    && (forall k :: n <= k < n + SN_COUNT && k < |fed| ==> Got(cuts[k], Stored(rx, k % SN_COUNT)) == fed[k])
    && (forall k :: n + SN_COUNT <= k < |fed| ==> fed[k] == {})
  }

  ghost predicate InAny(f: Flags, frames: seq<Frame>, cuts: Ledger, fed: Ledger, n: nat, popped: seq<seq<Cell>>,
                        rx: Receiver) {
    && f.reordering && LedgerOk(f, frames, cuts)
    && RxSafe(frames, cuts, n, n, popped, rx)
    && OneHome(rx)
    && FedAny(frames, cuts, fed, n, rx)
  }

  /** The piece is of a frame within one SN cycle of the next one, and joins what is held. */
  ghost predicate PieceJoins(cuts: Ledger, n: nat, rx: Receiver, p: Piece) {
    n <= p.frame < n + SN_COUNT && p.frame < |cuts| && p.seg in cuts[p.frame] && Joins(rx, p.seg.sn)
  }

  lemma TakeFedAny(frames: seq<Frame>, cuts: Ledger, fed: Ledger, n: nat, rx: Receiver, k: nat, s: Segment,
                   st: State, rx': Receiver)
    requires FedAny(frames, cuts, fed, n, rx) && OneHome(rx) && Joins(rx, k % SN_COUNT)
    requires n <= k < n + SN_COUNT && k < |cuts| && s in cuts[k] && Got(cuts[k], st) == fed[k] + {s}
    requires rx' == rx.Put(k % SN_COUNT, st)
    ensures FedAny(frames, cuts, fed[k := fed[k] + {s}], n, rx')
  {
    var fed' := fed[k := fed[k] + {s}];
    forall k' | n <= k' < n + SN_COUNT && k' < |fed| ensures Got(cuts[k'], Stored(rx', k' % SN_COUNT)) == fed'[k'] {
      PutStored(rx, k % SN_COUNT, st, rx', k' % SN_COUNT);
      if k' != k { U.SnDiffers(n, k, k'); }
    }
  }

  /** A piece that joins is recorded, and nothing else changes. */
  lemma TakeAny(f: Flags, frames: seq<Frame>, cuts: Ledger, fed: Ledger, n: nat, popped: seq<seq<Cell>>,
                rx: Receiver, p: Piece, rx': Receiver)
    requires InAny(f, frames, cuts, fed, n, popped, rx) && PieceJoins(cuts, n, rx, p) && rx' == rx.Take(f, p.seg)
    ensures InAny(f, frames, cuts, fed[p.frame := fed[p.frame] + {p.seg}], n, popped, rx')
  {
    var k, s := p.frame, p.seg;
    LookupStored(rx, s.sn);
    var was, st := TakeSafe(f, frames, cuts, n, n, popped, rx, k, s, rx');
    assert s.offset in st.received;
    PutHome(rx, s.sn, st, rx');
    TakeFedAny(frames, cuts, fed, n, rx, k, s, st, rx');
  }

  lemma IndexShift(n: nat, sn: word)
    requires sn != n % SN_COUNT
    ensures Index(n + 1, sn) == Index(n, sn)
  {
    IndexUnique(n + 1, Index(n, sn));
  }

  /** Once nothing is held for frame n, the states held can be counted from the next frame. */
  lemma Rebase(frames: seq<Frame>, cuts: Ledger, n: nat, popped: seq<seq<Cell>>, rx: Receiver)
    requires RxSafe(frames, cuts, n, n + 1, popped, rx)
    requires OneHome(rx) && !U.InSlot(rx, n % SN_COUNT) && !U.InOverflow(rx, n % SN_COUNT)
    ensures RxSafe(frames, cuts, n + 1, n + 1, popped, rx)
  {
    forall i | 0 <= i < |rx.ring| && rx.ring[i].valid
      ensures StateOk(frames, cuts, Index(n + 1, rx.ring[i].sn), rx.ring[i].state)
    {
      IndexShift(n, rx.ring[i].sn);
    }
    forall i | 0 <= i < |rx.overflow|
      ensures StateOk(frames, cuts, Index(n + 1, rx.overflow[i].sn), rx.overflow[i].state)
    {
      IndexShift(n, rx.overflow[i].sn);
    }
  }

  lemma DeliveredFed(frames: seq<Frame>, cuts: Ledger, fed: Ledger, n: nat, rx: Receiver, rx': Receiver)
    requires FedAny(frames, cuts, fed, n, rx) && Delivered(rx, rx') && rx.next == n % SN_COUNT
    requires n < |fed| && Covers(frames[n], fed[n])
    ensures FedAny(frames, cuts, fed, n + 1, rx')
  {
    forall k | n + 1 <= k < n + 1 + SN_COUNT && k < |fed| ensures Got(cuts[k], Stored(rx', k % SN_COUNT)) == fed[k] {
      if k < n + SN_COUNT {
        U.SnDiffers(n, n, k);
      } else {
        assert k % SN_COUNT == n % SN_COUNT;
        FreshHolds(frames[k], cuts[k]);
      }
    }
  }

  lemma DeliverAny(f: Flags, frames: seq<Frame>, cuts: Ledger, fed: Ledger, n: nat, popped: seq<seq<Cell>>,
                   rx: Receiver, rx': Receiver)
    requires InAny(f, frames, cuts, fed, n, popped, rx) && RxSafe(frames, cuts, n, n + 1, popped, rx')
    requires Delivered(rx, rx') && Stored(rx, rx.next).complete
    ensures InAny(f, frames, cuts, fed, n + 1, popped, rx')
  {
    StoredOk(frames, cuts, n, rx, n);
    CompleteIff(frames[n], cuts[n], Stored(rx, rx.next));
    DeliveredFed(frames, cuts, fed, n, rx, rx');
    Rebase(frames, cuts, n, popped, rx');
  }

  lemma StoredOk(frames: seq<Frame>, cuts: Ledger, n: nat, rx: Receiver, k: nat)
    requires StoreOk(frames, cuts, n, rx) && n <= k < n + SN_COUNT && k < |frames| == |cuts|
    ensures Holds(frames[k], cuts[k], Stored(rx, k % SN_COUNT))
  {
    IndexUnique(n, k);
    FreshHolds(frames[k], cuts[k]);
  }

  lemma RingAny(f: Flags, frames: seq<Frame>, cuts: Ledger, fed: Ledger, n: nat, popped: seq<seq<Cell>>, rx: Receiver)
    requires InAny(f, frames, cuts, fed, n, popped, rx) && rx.RingReady()
    ensures InAny(f, frames, cuts, fed, n + 1, popped, rx.AdvanceRing())
  {
    AdvanceRingSafe(f, frames, cuts, n, n, popped, rx);
    RingDelivered(rx);
    DeliverAny(f, frames, cuts, fed, n, popped, rx, rx.AdvanceRing());
  }

  lemma OverflowAny(f: Flags, frames: seq<Frame>, cuts: Ledger, fed: Ledger, n: nat, popped: seq<seq<Cell>>,
                    rx: Receiver)
    requires InAny(f, frames, cuts, fed, n, popped, rx) && rx.OverflowReady()
    ensures InAny(f, frames, cuts, fed, n + 1, popped, rx.AdvanceOverflow())
  {
    AdvanceOverflowSafe(f, frames, cuts, n, n, popped, rx);
    OverflowDelivered(rx);
    DeliverAny(f, frames, cuts, fed, n, popped, rx, rx.AdvanceOverflow());
  }

  /** When neither place has a complete entry for the next frame, that frame has not fully arrived. */
  lemma StoppedAny(f: Flags, frames: seq<Frame>, cuts: Ledger, fed: Ledger, n: nat, popped: seq<seq<Cell>>,
                   rx: Receiver)
    requires InAny(f, frames, cuts, fed, n, popped, rx) && !rx.RingReady() && !rx.OverflowReady()
    ensures n <= |frames| == |fed| && (n < |frames| ==> !Covers(frames[n], fed[n]))
  {
    if n < |frames| {
      StoredOk(frames, cuts, n, rx, n);
      CompleteIff(frames[n], cuts[n], Stored(rx, n % SN_COUNT));
    }
  }

  /** The flush loop stops at the first frame that has not fully arrived. */
  lemma {:induction false} FlushAny(f: Flags, frames: seq<Frame>, cuts: Ledger, fed: Ledger, n: nat,
                                    popped: seq<seq<Cell>>, rx: Receiver) returns (n': nat)
    requires InAny(f, frames, cuts, fed, n, popped, rx)
    ensures n <= n' <= |frames| == |fed| && InAny(f, frames, cuts, fed, n', popped, rx.Flush())
    ensures n' < |frames| ==> !Covers(frames[n'], fed[n'])
    decreases rx.Held()
  {
    hide InAny, Delivered, Covers, Stored, OneHome, RxSafe;
    HeldDecreases(rx);
    if rx.RingReady() {
      RingAny(f, frames, cuts, fed, n, popped, rx);
      n' := FlushAny(f, frames, cuts, fed, n + 1, popped, rx.AdvanceRing());
    } else if rx.OverflowReady() {
      OverflowAny(f, frames, cuts, fed, n, popped, rx);
      n' := FlushAny(f, frames, cuts, fed, n + 1, popped, rx.AdvanceOverflow());
    } else {
      n' := n;
      StoppedAny(f, frames, cuts, fed, n, popped, rx);
    }
  }

  // ---- runs ----

  /** Each piece of the PDU joins when its turn comes. */
  ghost predicate PduJoins(f: Flags, cuts: Ledger, n: nat, rx: Receiver, p: Pdu)
    decreases |p|
  {
    |p| > 0 ==> PieceJoins(cuts, n, rx, p[0]) && PduJoins(f, cuts, n, rx.Take(f, p[0].seg), p[1..])
  }

  /** Every piece of every PDU joins when it arrives. */
  ghost predicate AllJoin(f: Flags, cuts: Ledger, rx: Receiver, pdus: seq<Pdu>)
    decreases |pdus|
  {
    |pdus| > 0 ==>
      var before := pdus[..|pdus| - 1];
      && AllJoin(f, cuts, rx, before)
      && JoinsAt(f, cuts, ReceiveAll(f, rx, before), pdus[|pdus| - 1])
  }

  ghost predicate JoinsAt(f: Flags, cuts: Ledger, rx: Receiver, p: Pdu) {
    PduJoins(f, cuts, |rx.completed|, rx, p)
  }

  lemma {:induction false} JoinsKnown(f: Flags, cuts: Ledger, n: nat, rx: Receiver, p: Pdu)
    requires PduJoins(f, cuts, n, rx, p)
    ensures forall j :: 0 <= j < |p| ==> p[j].frame < |cuts|
    decreases |p|
  {
    if |p| > 0 {
      JoinsKnown(f, cuts, n, rx.Take(f, p[0].seg), p[1..]);
      assert forall j :: 0 < j < |p| ==> p[j] == p[1..][j - 1];
    }
  }

  lemma {:induction false} TakeAllAny(f: Flags, frames: seq<Frame>, cuts: Ledger, fed: Ledger, n: nat,
                                      popped: seq<seq<Cell>>, rx: Receiver, p: Pdu)
    requires InAny(f, frames, cuts, fed, n, popped, rx) && PduJoins(f, cuts, n, rx, p)
    ensures (forall j :: 0 <= j < |p| ==> p[j].frame < |fed|)
    ensures InAny(f, frames, cuts, Feed(fed, p), n, popped, TakeAll(f, rx, Segments(p)))
    decreases |p|
  {
    JoinsKnown(f, cuts, n, rx, p);
    if |p| > 0 {
      var rx1, fed1 := rx.Take(f, p[0].seg), fed[p[0].frame := fed[p[0].frame] + {p[0].seg}];
      TakeAny(f, frames, cuts, fed, n, popped, rx, p[0], rx1);
      TakeAllAny(f, frames, cuts, fed1, n, popped, rx1, p[1..]);
      SegmentsTail(p);
      assert Feed(fed, p) == Feed(fed1, p[1..]);
      assert TakeAll(f, rx, Segments(p)) == TakeAll(f, rx1, Segments(p[1..]));
    }
  }

  lemma InitialAny(f: Flags, frames: seq<Frame>, cuts: Ledger, r: nat)
    requires f.reordering && LedgerOk(f, frames, cuts)
    ensures InAny(f, frames, cuts, seq(|cuts|, i => {}), 0, [], Initial(r))
  {
    forall k | 0 <= k < |frames| ensures Got(cuts[k], Stored(Initial(r), k % SN_COUNT)) == {} {
      FreshHolds(frames[k], cuts[k]);
    }
    assert AllOctets(frames[..0]) == [];
  }

  /** One more PDU whose pieces join. */
  lemma AnyStep(f: Flags, frames: seq<Frame>, cuts: Ledger, fed0: Ledger, n0: nat, rx: Receiver, p: Pdu, rx': Receiver)
      returns (fed: Ledger, n: nat)
    requires InAny(f, frames, cuts, fed0, n0, [], rx)
    requires JoinsAt(f, cuts, rx, p) && rx' == Receive(f, rx, Segments(p))
    ensures |fed0| == |cuts| == |frames| && (forall j :: 0 <= j < |p| ==> p[j].frame < |cuts|) && fed == Feed(fed0, p)
    ensures n0 <= n && InAny(f, frames, cuts, fed, n, [], rx')
    ensures n < |frames| ==> !Covers(frames[n], fed[n])
  {
    DeliveredCount(frames, n0, rx);
    TakeAllAny(f, frames, cuts, fed0, n0, [], rx, p);
    fed := Feed(fed0, p);
    n := FlushAny(f, frames, cuts, fed, n0, [], TakeAll(f, rx, Segments(p)));
  }

  lemma DeliveredCount(frames: seq<Frame>, n: nat, rx: Receiver)
    requires OutputOk(frames, n, [], rx)
    ensures |rx.completed| == n && rx.completed == AllOctets(frames[..n])
  {
    assert [] + rx.completed == rx.completed;
  }

  lemma {:induction false} AnyRun(f: Flags, frames: seq<Frame>, cuts: Ledger, r: nat, pdus: seq<Pdu>)
      returns (fed: Ledger, n: nat)
    requires f.reordering && LedgerOk(f, frames, cuts) && AllJoin(f, cuts, Initial(r), pdus)
    ensures InAny(f, frames, cuts, fed, n, [], ReceiveAll(f, Initial(r), pdus))
    ensures FedBy(cuts, fed, pdus) && |frames| == |cuts|
    ensures n < |frames| ==> !Covers(frames[n], fed[n])
    decreases |pdus|
  {
    hide InAny, FedBy, JoinsAt, Covers;
    if |pdus| == 0 {
      fed, n := seq(|cuts|, i => {}), 0;
      InitialAny(f, frames, cuts, r);
      NothingFed(frames, cuts, fed);
    } else {
      var before, p := pdus[..|pdus| - 1], pdus[|pdus| - 1];
      var fed0, n0 := AnyRun(f, frames, cuts, r, before);
      fed, n := AnyStep(f, frames, cuts, fed0, n0, ReceiveAll(f, Initial(r), before), p,
                        ReceiveAll(f, Initial(r), pdus));
      FeedLast(cuts, fed0, pdus, p);
    }
  }

  /** After any PDUs whose pieces join, for any ring size and any number of frames, across as many SN
      wraparounds as these take, the output is exactly the frames before the first one with a piece
      still missing. */
  lemma JoinedDelivery(f: Flags, frames: seq<Frame>, cuts: Ledger, r: nat, pdus: seq<Pdu>)
    requires f.reordering && LedgerOk(f, frames, cuts) && AllJoin(f, cuts, Initial(r), pdus)
    requires forall k :: 0 <= k < |frames| ==> Covers(frames[k], cuts[k])
    ensures var rx := ReceiveAll(f, Initial(r), pdus);
            var n := |rx.completed|;
            && n <= |frames| && rx.completed == AllOctets(frames[..n])
            && (forall k :: 0 <= k < n ==> AllArrived(cuts, pdus, k))
            && (n < |frames| ==> !AllArrived(cuts, pdus, n))
  {
    var fed, n := AnyRun(f, frames, cuts, r, pdus);
    DeliveredCount(frames, n, ReceiveAll(f, Initial(r), pdus));
    FirstMissing(f, frames, cuts, fed, n, pdus);
  }
}
