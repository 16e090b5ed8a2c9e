/** Reordering within the ring: when arrivals stay within `reorder_size` frames of the next
    expected one and `reorder_size` divides the number of SNs, no frame is ever lost or parked
    in the overflow list, across any number of SN wraparounds. */
module PdcpWindow {
  import opened Arith
  import opened Bytes
  import opened PdcpSegment
  import opened PdcpSender
  import opened PdcpReceiver
  import opened Reassembly
  import opened PdcpLedger

  ghost predicate RingSize(r: nat) {
    0 < r && SN_COUNT % r == 0
  }

  /** The ring index of a frame depends only on its number when the ring size divides 65536. */
  lemma RingIndexOfFrame(r: nat, k: nat)
    requires RingSize(r)
    ensures k % SN_COUNT % r == k % r
  {
    var m := SN_COUNT / r;
    var q := k / SN_COUNT;
    assert SN_COUNT == m * r;
    assert k == (q * m) * r + k % SN_COUNT by {
      assert q * (m * r) == (q * m) * r;
    }
    MulMod(q * m, r, k % SN_COUNT);
  }

  lemma RingSizeSmall(r: nat)
    requires RingSize(r)
    ensures r <= SN_COUNT
  {
    if r > SN_COUNT {
      DivModUnique(SN_COUNT, r, 0, SN_COUNT);
    }
  }

  /** Slots hold only frames of the window, each in its own slot. */
  ghost predicate SlotsInWindow(n: nat, rx: Receiver) {
    forall i :: 0 <= i < |rx.ring| && rx.ring[i].valid ==>
      rx.ring[i].sn % |rx.ring| == i && Index(n, rx.ring[i].sn) < n + |rx.ring|
  }

  /** `fed[k]` is what has arrived of frame k: all of it below n, what the slot holds within the
      window, nothing above. */
  ghost predicate FedOk(frames: seq<Frame>, cuts: Ledger, fed: Ledger, n: nat, rx: Receiver) {
    && |fed| == |cuts| == |frames|
    && (forall k :: 0 <= k < |fed| ==> fed[k] <= cuts[k])
    && (forall k :: 0 <= k < n && k < |fed| ==> Covers(frames[k], fed[k]))
    && (forall k :: n <= k < n + |rx.ring| && k < |fed| ==> Got(cuts[k], rx.Lookup(k % SN_COUNT)) == fed[k])
    && (forall k :: n + |rx.ring| <= k < |fed| ==> fed[k] == {})
  }

  ghost predicate InStep(f: Flags, frames: seq<Frame>, cuts: Ledger, fed: Ledger, n: nat, popped: seq<seq<Cell>>,
                         rx: Receiver)
  {
    && f.reordering && LedgerOk(f, frames, cuts) && RingSize(|rx.ring|)
    && |rx.overflow| == 0
    && RxSafe(frames, cuts, n, n, popped, rx)
    && SlotsInWindow(n, rx)
    && FedOk(frames, cuts, fed, n, rx)
  }

  /** Every frame of the window finds its slot free or already its own. */
  lemma WindowFits(n: nat, rx: Receiver, k: nat)
    requires RingSize(|rx.ring|) && SlotsInWindow(n, rx) && n <= k < n + |rx.ring|
    ensures rx.FitsRing(k % SN_COUNT) && rx.SlotIndex(k % SN_COUNT) == k % |rx.ring|
    ensures Index(n, k % SN_COUNT) == k
  {
    var r := |rx.ring|;
    RingSizeSmall(r);
    IndexUnique(n, k);
    RingIndexOfFrame(r, k);
    var slot := rx.ring[k % r];
    if slot.valid {
      var k' := Index(n, slot.sn);
      RingIndexOfFrame(r, k');
      SameResidue(r, n, k, k');
    }
  }

  lemma OtherSlot(n: nat, rx: Receiver, k: nat, k': nat, st: State)
    requires RingSize(|rx.ring|) && SlotsInWindow(n, rx)
    requires n <= k < n + |rx.ring| && n <= k' < n + |rx.ring| && k != k'
    ensures rx.Put(k % SN_COUNT, st).Lookup(k' % SN_COUNT) == rx.Lookup(k' % SN_COUNT)
  {
    var r := |rx.ring|;
    WindowFits(n, rx, k);
    WindowFits(n, rx, k');
    if k % r == k' % r { SameResidue(r, n, k, k'); }
  }

  lemma PutSlots(n: nat, rx: Receiver, k: nat, st: State)
    requires RingSize(|rx.ring|) && SlotsInWindow(n, rx) && n <= k < n + |rx.ring|
    ensures var rx' := rx.Put(k % SN_COUNT, st);
            |rx'.ring| == |rx.ring| && rx'.overflow == rx.overflow && SlotsInWindow(n, rx')
  {
    WindowFits(n, rx, k);
  }

  lemma TakeFed(f: Flags, frames: seq<Frame>, cuts: Ledger, fed: Ledger, n: nat, rx: Receiver, k: nat, s: Segment,
                st: State)
    requires RingSize(|rx.ring|) && SlotsInWindow(n, rx) && FedOk(frames, cuts, fed, n, rx)
    requires n <= k < n + |rx.ring| && k < |cuts| && s in cuts[k] && Got(cuts[k], st) == fed[k] + {s}
    ensures FedOk(frames, cuts, fed[k := fed[k] + {s}], n, rx.Put(k % SN_COUNT, st))
  {
    var rx' := rx.Put(k % SN_COUNT, st);
    var fed' := fed[k := fed[k] + {s}];
    PutSlots(n, rx, k, st);
    PutLaws(rx, k % SN_COUNT, st, st);
    forall k' | n <= k' < n + |rx.ring| && k' < |fed| ensures Got(cuts[k'], rx'.Lookup(k' % SN_COUNT)) == fed'[k'] {
      if k' != k { OtherSlot(n, rx, k, k', st); }
    }
  }

  /** A piece that arrives within the window is recorded, and nothing else changes. */
  lemma TakeInStep(f: Flags, frames: seq<Frame>, cuts: Ledger, fed: Ledger, n: nat, popped: seq<seq<Cell>>,
                   rx: Receiver, k: nat, s: Segment)
    requires InStep(f, frames, cuts, fed, n, popped, rx)
    requires n <= k < n + |rx.ring| && k < |cuts| && s in cuts[k]
    ensures InStep(f, frames, cuts, fed[k := fed[k] + {s}], n, popped, rx.Take(f, s))
    ensures |rx.Take(f, s).ring| == |rx.ring|
  {
    RingSizeSmall(|rx.ring|);
    var was, st := TakeSafe(f, frames, cuts, n, n, popped, rx, k, s, rx.Take(f, s));
    PutSlots(n, rx, k, st);
    TakeFed(f, frames, cuts, fed, n, rx, k, s, st);
  }

  lemma AdvanceSlots(n: nat, rx: Receiver)
    requires RingSize(|rx.ring|) && SlotsInWindow(n, rx) && rx.RingReady() && rx.next == n % SN_COUNT
    ensures SlotsInWindow(n + 1, rx.AdvanceRing())
    ensures forall i :: 0 <= i < |rx.ring| && rx.AdvanceRing().ring[i].valid ==>
              Index(n + 1, rx.ring[i].sn) == Index(n, rx.ring[i].sn)
  {
    var r := |rx.ring|;
    var rx' := rx.AdvanceRing();
    WindowFits(n, rx, n);
    RingSizeSmall(r);
    RingIndexOfFrame(r, n);
    forall i | 0 <= i < r && rx'.ring[i].valid
      ensures Index(n + 1, rx'.ring[i].sn) == Index(n, rx.ring[i].sn) < n + r
    {
      var k := Index(n, rx.ring[i].sn);
      IndexUnique(n + 1, k);
    }
  }

  lemma AdvanceFed(frames: seq<Frame>, cuts: Ledger, fed: Ledger, n: nat, rx: Receiver)
    requires RingSize(|rx.ring|) && SlotsInWindow(n, rx) && rx.RingReady() && rx.next == n % SN_COUNT
    requires FedOk(frames, cuts, fed, n, rx) && n < |fed| && Covers(frames[n], fed[n])
    ensures FedOk(frames, cuts, fed, n + 1, rx.AdvanceRing())
  {
    var r := |rx.ring|;
    var rx' := rx.AdvanceRing();
    WindowFits(n, rx, n);
    forall k | n + 1 <= k < n + 1 + r && k < |fed| ensures Got(cuts[k], rx'.Lookup(k % SN_COUNT)) == fed[k] {
      if k < n + r {
        WindowFits(n, rx, k);
        if k % r == n % r { SameResidue(r, n, k, n); }
      } else {
        MulMod(1, r, n);
        RingIndexOfFrame(r, k);
        FreshHolds(frames[k], cuts[k]);
      }
    }
  }

  /** Delivering frame n moves the window up by one. */
  lemma AdvanceInStep(f: Flags, frames: seq<Frame>, cuts: Ledger, fed: Ledger, n: nat, popped: seq<seq<Cell>>,
                      rx: Receiver)
    requires InStep(f, frames, cuts, fed, n, popped, rx) && rx.RingReady()
    ensures InStep(f, frames, cuts, fed, n + 1, popped, rx.AdvanceRing())
  {
    AdvanceRingSafe(f, frames, cuts, n, n, popped, rx);
    AdvanceSlots(n, rx);
    WindowFits(n, rx, n);
    CompleteIff(frames[n], cuts[n], rx.Lookup(n % SN_COUNT));
    AdvanceFed(frames, cuts, fed, n, rx);
  }

  /** When the flush loop stops, the next frame is one that has not fully arrived. */
  lemma {:induction false} FlushInStep(f: Flags, frames: seq<Frame>, cuts: Ledger, fed: Ledger, n: nat,
                                       popped: seq<seq<Cell>>, rx: Receiver) returns (n': nat)
    requires InStep(f, frames, cuts, fed, n, popped, rx)
    ensures n <= n' <= |frames| && InStep(f, frames, cuts, fed, n', popped, rx.Flush())
    ensures n' < |frames| ==> !Covers(frames[n'], fed[n'])
    ensures |rx.Flush().ring| == |rx.ring|
    decreases rx.Held()
  {
    HeldDecreases(rx);
    if rx.RingReady() {
      AdvanceInStep(f, frames, cuts, fed, n, popped, rx);
      n' := FlushInStep(f, frames, cuts, fed, n + 1, popped, rx.AdvanceRing());
    } else {
      n' := n;
      if n < |frames| {
        WindowFits(n, rx, n);
        var st := rx.Lookup(n % SN_COUNT);
        LookupOk(frames, cuts, n, rx, n % SN_COUNT);
        CompleteIff(frames[n], cuts[n], st);
      }
    }
  }

  // ---- runs of arriving PDUs ----

  /** A segment together with the number of the frame it was cut from. */
  datatype Piece = Piece(frame: nat, seg: Segment)

  type Pdu = seq<Piece>

  function Segments(p: Pdu): seq<Segment> {
    seq(|p|, i requires 0 <= i < |p| => p[i].seg)
  }

  lemma SegmentsTail(p: Pdu)
    requires |p| > 0
    ensures |Segments(p)| > 0 && Segments(p)[0] == p[0].seg && Segments(p)[1..] == Segments(p[1..])
  {}

  /** What a receiver that reorders does with the segments of one PDU. */
  function Receive(f: Flags, rx: Receiver, segs: seq<Segment>): Receiver {
    TakeAll(f, rx, segs).Flush()
  }

  /** It is what on_pdcp_data does with the printed PDU. */
  lemma ReceiveIsOnData(f: Flags, rx: Receiver, segs: seq<Segment>)
    requires f.reordering && AllPrintable(f, segs) && |segs| != 0
    ensures var b := PrintAll(f, segs);
            SizesCoverHeaders(f, b) && OnData(f, rx, b) == (Receive(f, rx, segs), PdcpReceiver.Success)
  {
    ConsumePrinted(f, rx, segs);
    assert |PrintAll(f, segs)| >= |Print(f, segs[0])| > 0;
  }

  function ReceiveAll(f: Flags, rx: Receiver, pdus: seq<Pdu>): Receiver
    decreases |pdus|
  {
    if |pdus| == 0 then rx
    else Receive(f, ReceiveAll(f, rx, pdus[..|pdus| - 1]), Segments(pdus[|pdus| - 1]))
  }

  /** Every PDU holds pieces cut from frames within `reorder_size` of the first frame not yet
      delivered when the PDU arrives. */
  ghost predicate ArriveInWindow(f: Flags, frames: seq<Frame>, cuts: Ledger, rx: Receiver, pdus: seq<Pdu>) {
    forall i :: 0 <= i < |pdus| ==>
      InWindow(cuts, |ReceiveAll(f, rx, pdus[..i]).completed|, |rx.ring|, pdus[i])
  }

  ghost predicate Arrived(pdus: seq<Pdu>, k: nat, s: Segment) {
    exists i :: 0 <= i < |pdus| && Piece(k, s) in pdus[i]
  }

  ghost predicate AllArrived(cuts: Ledger, pdus: seq<Pdu>, k: nat)
    requires k < |cuts|
  {
    forall s :: s in cuts[k] ==> Arrived(pdus, k, s)
  }

  function Feed(fed: Ledger, p: Pdu): Ledger
    requires forall j :: 0 <= j < |p| ==> p[j].frame < |fed|
    ensures |Feed(fed, p)| == |fed|
    decreases |p|
  {
    if |p| == 0 then fed else Feed(fed[p[0].frame := fed[p[0].frame] + {p[0].seg}], p[1..])
  }

  lemma {:induction false} FeedContents(fed: Ledger, p: Pdu, k: nat)
    requires (forall j :: 0 <= j < |p| ==> p[j].frame < |fed|) && k < |fed|
    ensures forall s :: s in Feed(fed, p)[k] <==> s in fed[k] || Piece(k, s) in p
    decreases |p|
  {
    if |p| != 0 {
      var fed1 := fed[p[0].frame := fed[p[0].frame] + {p[0].seg}];
      assert forall j :: 0 <= j < |p| - 1 ==> p[1..][j] == p[j + 1];
      FeedContents(fed1, p[1..], k);
      assert forall x :: x in p <==> x == p[0] || x in p[1..];
    }
  }

  /** All of a PDU's pieces come from frames within the window starting at n. */
  ghost predicate InWindow(cuts: Ledger, n: nat, r: nat, p: Pdu) {
    forall j :: 0 <= j < |p| ==> n <= p[j].frame < n + r && p[j].frame < |cuts| && p[j].seg in cuts[p[j].frame]
  }

  lemma PduTail(cuts: Ledger, n: nat, r: nat, p: Pdu)
    requires InWindow(cuts, n, r, p) && |p| > 0
    ensures InWindow(cuts, n, r, p[1..]) && Segments(p)[1..] == Segments(p[1..])
  {
    assert forall j :: 0 <= j < |p| - 1 ==> p[1..][j] == p[j + 1];
  }

  lemma {:induction false} TakeAllInStep(f: Flags, frames: seq<Frame>, cuts: Ledger, fed: Ledger, n: nat,
                                         popped: seq<seq<Cell>>, rx: Receiver, p: Pdu)
    requires InStep(f, frames, cuts, fed, n, popped, rx) && InWindow(cuts, n, |rx.ring|, p)
    ensures InStep(f, frames, cuts, Feed(fed, p), n, popped, TakeAll(f, rx, Segments(p)))
    ensures |TakeAll(f, rx, Segments(p)).ring| == |rx.ring|
    decreases |p|
  {
    if |p| != 0 {
      var k, s := p[0].frame, p[0].seg;
      TakeInStep(f, frames, cuts, fed, n, popped, rx, k, s);
      PduTail(cuts, n, |rx.ring|, p);
      TakeAllInStep(f, frames, cuts, fed[k := fed[k] + {s}], n, popped, rx.Take(f, s), p[1..]);
    }
  }

  lemma InitialInStep(f: Flags, frames: seq<Frame>, cuts: Ledger, r: nat)
    requires f.reordering && LedgerOk(f, frames, cuts) && RingSize(r)
    ensures InStep(f, frames, cuts, seq(|cuts|, i => {}), 0, [], Initial(r))
  {
    forall k | 0 <= k < |frames| ensures Got(cuts[k], Initial(r).Lookup(k % SN_COUNT)) == {} {
      FreshHolds(frames[k], cuts[k]);
    }
    assert AllOctets(frames[..0]) == [];
  }

  /** `fed` is exactly what the PDUs have brought. */
  ghost predicate FedBy(cuts: Ledger, fed: Ledger, pdus: seq<Pdu>) {
    |fed| == |cuts| && forall k, s :: 0 <= k < |cuts| ==> (s in fed[k] <==> Arrived(pdus, k, s))
  }

  lemma NothingFed(frames: seq<Frame>, cuts: Ledger, fed: Ledger)
    requires |frames| == |cuts| && fed == seq(|cuts|, i => {}) && forall k :: 0 <= k < |frames| ==> 0 < |frames[k]|
    ensures FedBy(cuts, fed, []) && (0 < |frames| ==> !Covers(frames[0], fed[0]))
  {
    assert 0 < |frames| ==> !Covered(fed[0], 0);
  }

  lemma FeedLast(cuts: Ledger, fed: Ledger, pdus: seq<Pdu>, p: Pdu)
    requires |pdus| > 0 && FedBy(cuts, fed, pdus[..|pdus| - 1]) && p == pdus[|pdus| - 1]
    requires forall j :: 0 <= j < |p| ==> p[j].frame < |cuts|
    ensures FedBy(cuts, Feed(fed, p), pdus)
  {
    forall k, s | 0 <= k < |cuts| ensures s in Feed(fed, p)[k] <==> Arrived(pdus, k, s) {
      FeedContents(fed, p, k);
      ArrivedLast(pdus, k, s);
    }
  }

  /** One more PDU that arrives within the window. */
  lemma WindowStep(f: Flags, frames: seq<Frame>, cuts: Ledger, fed0: Ledger, n0: nat, rx: Receiver, p: Pdu,
                   rx': Receiver)
      returns (fed: Ledger, n: nat)
    requires f.reordering && InStep(f, frames, cuts, fed0, n0, [], rx)
    requires InWindow(cuts, n0, |rx.ring|, p) && rx' == Receive(f, rx, Segments(p))
    ensures |frames| == |fed0| == |cuts| && (forall j :: 0 <= j < |p| ==> p[j].frame < |cuts|) && fed == Feed(fed0, p)
    ensures InStep(f, frames, cuts, fed, n, [], rx') && |rx'.ring| == |rx.ring| && n == |rx'.completed|
    ensures n < |frames| ==> !Covers(frames[n], fed[n])
  {
    TakeAllInStep(f, frames, cuts, fed0, n0, [], rx, p);
    fed := Feed(fed0, p);
    n := FlushInStep(f, frames, cuts, fed, n0, [], TakeAll(f, rx, Segments(p)));
    assert [] + rx'.completed == rx'.completed;
  }

  lemma ArriveBefore(f: Flags, frames: seq<Frame>, cuts: Ledger, rx: Receiver, pdus: seq<Pdu>)
    requires |pdus| > 0 && ArriveInWindow(f, frames, cuts, rx, pdus)
    ensures ArriveInWindow(f, frames, cuts, rx, pdus[..|pdus| - 1])
    ensures InWindow(cuts, |ReceiveAll(f, rx, pdus[..|pdus| - 1]).completed|, |rx.ring|, pdus[|pdus| - 1])
  {
    var before := pdus[..|pdus| - 1];
    forall i | 0 <= i < |before|
      ensures InWindow(cuts, |ReceiveAll(f, rx, before[..i]).completed|, |rx.ring|, before[i])
    {
      assert before[..i] == pdus[..i] && before[i] == pdus[i];
    }
  }

  lemma {:induction false} WindowRun(f: Flags, frames: seq<Frame>, cuts: Ledger, r: nat, pdus: seq<Pdu>)
      returns (fed: Ledger, n: nat)
    requires f.reordering && LedgerOk(f, frames, cuts) && RingSize(r)
    requires ArriveInWindow(f, frames, cuts, Initial(r), pdus)
    ensures InStep(f, frames, cuts, fed, n, [], ReceiveAll(f, Initial(r), pdus))
    ensures |ReceiveAll(f, Initial(r), pdus).ring| == r
    ensures FedBy(cuts, fed, pdus) && n == |ReceiveAll(f, Initial(r), pdus).completed|
    ensures n < |frames| ==> !Covers(frames[n], fed[n])
    decreases |pdus|
  {
    hide InStep, FedBy, ArriveInWindow, InWindow, RingSize, Covers;
    if |pdus| == 0 {
      fed, n := seq(|cuts|, i => {}), 0;
      InitialInStep(f, frames, cuts, r);
      NothingFed(frames, cuts, fed);
    } else {
      var before, p := pdus[..|pdus| - 1], pdus[|pdus| - 1];
      ArriveBefore(f, frames, cuts, Initial(r), pdus);
      var fed0, n0 := WindowRun(f, frames, cuts, r, before);
      fed, n := WindowStep(f, frames, cuts, fed0, n0, ReceiveAll(f, Initial(r), before), p,
                           ReceiveAll(f, Initial(r), pdus));
      FeedLast(cuts, fed0, pdus, p);
    }
  }

  lemma ArrivedLast(pdus: seq<Pdu>, k: nat, s: Segment)
    requires |pdus| > 0
    ensures Arrived(pdus, k, s) <==> Arrived(pdus[..|pdus| - 1], k, s) || Piece(k, s) in pdus[|pdus| - 1]
  {
    var before := pdus[..|pdus| - 1];
    if Arrived(before, k, s) {
      var i :| 0 <= i < |before| && Piece(k, s) in before[i];
      assert Piece(k, s) in pdus[i];
    }
    if Arrived(pdus, k, s) {
      var i :| 0 <= i < |pdus| && Piece(k, s) in pdus[i];
      if i < |before| { assert Piece(k, s) in before[i]; }
    }
  }

  /** After any PDUs that arrive within the window, the output is exactly the frames before the
      first one with a piece still missing, and the overflow list has not been used. */
  lemma WindowDelivery(f: Flags, frames: seq<Frame>, cuts: Ledger, r: nat, pdus: seq<Pdu>)
    requires f.reordering && LedgerOk(f, frames, cuts) && RingSize(r)
    requires forall k :: 0 <= k < |frames| ==> Covers(frames[k], cuts[k])
    requires ArriveInWindow(f, frames, cuts, Initial(r), pdus)
    ensures var rx := ReceiveAll(f, Initial(r), pdus);
            var n := |rx.completed|;
            && |rx.overflow| == 0
            && n <= |frames| && rx.completed == AllOctets(frames[..n])
            && (forall k :: 0 <= k < n ==> AllArrived(cuts, pdus, k))
            && (n < |frames| ==> !AllArrived(cuts, pdus, n))
  {
    var fed, n := WindowRun(f, frames, cuts, r, pdus);
    var rx := ReceiveAll(f, Initial(r), pdus);
    assert rx.completed == [] + rx.completed;
    FirstMissing(f, frames, cuts, fed, n, pdus);
  }

  /** What has arrived of the frames delivered is all of them, and something of the next is missing. */
  lemma FirstMissing(f: Flags, frames: seq<Frame>, cuts: Ledger, fed: Ledger, n: nat, pdus: seq<Pdu>)
    requires LedgerOk(f, frames, cuts) && FedBy(cuts, fed, pdus) && n <= |frames|
    requires forall k :: 0 <= k < |frames| ==> Covers(frames[k], cuts[k]) && fed[k] <= cuts[k]
    requires forall k :: 0 <= k < n ==> Covers(frames[k], fed[k])
    requires n < |frames| ==> !Covers(frames[n], fed[n])
    ensures forall k :: 0 <= k < n ==> AllArrived(cuts, pdus, k)
    ensures n < |frames| ==> !AllArrived(cuts, pdus, n)
  {
    forall k | 0 <= k < |frames| ensures AllArrived(cuts, pdus, k) <==> fed[k] == cuts[k] {}
    forall k | 0 <= k < |frames| ensures Covers(frames[k], fed[k]) <==> fed[k] == cuts[k] {
      CoversAllPieces(frames[k], cuts[k], fed[k]);
    }
  }

  lemma CoversAllPieces(f: seq<byte>, cut: set<Segment>, fed: set<Segment>)
    requires CutOf(f, cut) && Covers(f, cut) && fed <= cut
    ensures Covers(f, fed) <==> fed == cut
  {
    if Covers(f, fed) {
      forall s | s in cut ensures s in fed {
        assert PieceOf(f, s) && Covered(fed, s.offset);
        var t :| t in fed && Within(t, s.offset);
        assert Overlap(s, t);
      }
    }
  }

  /** Liveness: once every piece has arrived at least once, all frames are out, in order. */
  lemma WindowLiveness(f: Flags, frames: seq<Frame>, cuts: Ledger, r: nat, pdus: seq<Pdu>)
    requires f.reordering && LedgerOk(f, frames, cuts) && RingSize(r)
    requires forall k :: 0 <= k < |frames| ==> Covers(frames[k], cuts[k])
    requires ArriveInWindow(f, frames, cuts, Initial(r), pdus)
    requires forall k :: 0 <= k < |frames| ==> AllArrived(cuts, pdus, k)
    ensures ReceiveAll(f, Initial(r), pdus).completed == AllOctets(frames)
  {
    WindowDelivery(f, frames, cuts, r, pdus);
    assert frames[..|frames|] == frames;
  }
}
