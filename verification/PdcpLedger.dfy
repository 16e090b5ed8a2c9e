/** What connects the two ends of a PDCP link: the record of which pieces have been cut from
    which frame, kept as one set of segments per queued frame. */
module PdcpLedger {
  import opened Bytes
  import opened PdcpSegment
  import opened PdcpSender
  import opened PdcpReceiver
  import opened Reassembly

  const SN_COUNT: nat := 0x1_0000

  type Ledger = seq<set<Segment>>

  /** The configuration of both ends. */
  datatype Setup = Setup(flags: Flags, minCommit: nat, reorderSize: nat)

  /** The SN printed in the segments of frame number `k`. */
  function SnFor(f: Flags, k: nat): word {
    if f.reordering then k % SN_COUNT else 0
  }

  ghost predicate LedgerOk(f: Flags, frames: seq<Frame>, cuts: Ledger) {
    && |cuts| == |frames|
    && (forall k :: 0 <= k < |frames| ==> 0 < |frames[k]| && CutOf(frames[k], cuts[k]))
    && (forall k, s :: 0 <= k < |cuts| && s in cuts[k] ==> s.sn == SnFor(f, k))
  }

  ghost predicate InLedger(cuts: Ledger, s: Segment) {
    exists k :: 0 <= k < |cuts| && s in cuts[k]
  }

  ghost predicate Grows(cuts: Ledger, cuts': Ledger) {
    |cuts| <= |cuts'| && forall k :: 0 <= k < |cuts| ==> cuts[k] <= cuts'[k]
  }

  // ---- the sender's side ----

  /** The number of frames sent completely. */
  function Sent(frames: seq<Frame>, tx: Sender): int {
    |frames| - |tx.queue|
  }

  /** The sender's queue is the unsent rest of the frames, and the ledger records exactly what
      lies before its position. */
  ghost predicate TxOk(frames: seq<Frame>, cuts: Ledger, tx: Sender) {
    var j := Sent(frames, tx);
    && tx.Valid() && 0 <= j && |cuts| == |frames|
    && tx.queue == frames[j..] && tx.sn == j % SN_COUNT
    && (forall k :: 0 <= k < j ==> Covers(frames[k], cuts[k]))
    && (forall k :: j < k < |cuts| ==> cuts[k] == {})
    && (j < |cuts| ==>
          && (forall s :: s in cuts[j] ==> s.offset + |s.payload| <= tx.dataOffset)
          && (forall p: nat :: p < tx.dataOffset ==> Covered(cuts[j], p)))
  }

  /** Offsets fit their 16-bit field. */
  predicate OffsetsFit(f: Flags, frames: seq<Frame>) {
    f.segmentation ==> forall k :: 0 <= k < |frames| ==> |frames[k]| <= 0x1_0000
  }

  /** Without segmentation the sender is always at the start of a frame. */
  predicate WholeFrames(f: Flags, tx: Sender) {
    !f.segmentation ==> tx.dataOffset == 0
  }

  /** What holds of the sender at all times. */
  ghost predicate TxInv(f: Flags, frames: seq<Frame>, cuts: Ledger, tx: Sender) {
    LedgerOk(f, frames, cuts) && TxOk(frames, cuts, tx) && WholeFrames(f, tx) && OffsetsFit(f, frames)
  }

  function AfterLedger(frames: seq<Frame>, cuts: Ledger, tx: Sender, s: Segment): Ledger
    requires 0 <= Sent(frames, tx) < |cuts|
  {
    cuts[Sent(frames, tx) := cuts[Sent(frames, tx)] + {s}]
  }

  /** A newly queued frame has no pieces yet. */
  lemma QueueLedgerOk(f: Flags, frames: seq<Frame>, cuts: Ledger, frame: Frame)
    requires LedgerOk(f, frames, cuts) && 0 < |frame|
    ensures LedgerOk(f, frames + [frame], cuts + [{}])
  {}

  lemma QueueTxOk(frames: seq<Frame>, cuts: Ledger, tx: Sender, frame: Frame)
    requires TxOk(frames, cuts, tx) && 0 < |frame|
    ensures TxOk(frames + [frame], cuts + [{}], tx.Accept(frame))
  {
    var frames', cuts' := frames + [frame], cuts + [{}];
    assert forall k :: 0 <= k < |cuts| ==> frames'[k] == frames[k] && cuts'[k] == cuts[k];
    assert tx.queue + [frame] == frames'[Sent(frames, tx)..];
  }

  lemma CutPiece(f: Flags, frames: seq<Frame>, cuts: Ledger, tx: Sender, room: nat)
    requires LedgerOk(f, frames, cuts) && TxOk(frames, cuts, tx)
    requires OffsetsFit(f, frames) && WholeFrames(f, tx) && tx.CanCut(f, room)
    ensures var j := Sent(frames, tx);
            var s := tx.Cut(f, room);
            && 0 <= j < |frames| && frames[j] == tx.queue[0]
            && s.sn == SnFor(f, j) && s.offset == tx.dataOffset && PieceOf(frames[j], s)
            && s !in cuts[j] && CutOf(frames[j], cuts[j] + {s})
  {
    var j := Sent(frames, tx);
    var s := tx.Cut(f, room);
    assert tx.queue[0] == frames[j];
    assert s.offset == tx.dataOffset;
    assert PieceOf(frames[j], s);
    assert forall t :: t in cuts[j] ==> !Overlap(s, t) && !Overlap(t, s);
  }

  lemma CoveredUpTo(cut: set<Segment>, start: nat, s: Segment)
    requires s.offset == start && forall p: nat :: p < start ==> Covered(cut, p)
    ensures forall p: nat :: p < start + |s.payload| ==> Covered(cut + {s}, p)
  {
    forall p: nat | p < start + |s.payload| ensures Covered(cut + {s}, p) {
      if p < start {
        assert Covered(cut, p);
        var t :| t in cut && Within(t, p);
        assert t in cut + {s};
      } else {
        assert s in cut + {s} && Within(s, p);
      }
    }
  }

  /** Cutting one more segment extends the ledger by exactly that segment. */
  lemma CutStep(f: Flags, frames: seq<Frame>, cuts: Ledger, tx: Sender, room: nat)
    requires LedgerOk(f, frames, cuts) && TxOk(frames, cuts, tx)
    requires OffsetsFit(f, frames) && WholeFrames(f, tx) && tx.CanCut(f, room)
    ensures 0 <= Sent(frames, tx) < |cuts|
    ensures var s := tx.Cut(f, room);
            var cuts' := AfterLedger(frames, cuts, tx, s);
            && LedgerOk(f, frames, cuts') && TxOk(frames, cuts', tx.AfterCut(f, room))
            && WholeFrames(f, tx.AfterCut(f, room))
            && Grows(cuts, cuts') && InLedger(cuts', s)
  {
    CutPiece(f, frames, cuts, tx, room);
    var j := Sent(frames, tx);
    var s := tx.Cut(f, room);
    var cuts' := AfterLedger(frames, cuts, tx, s);
    assert s in cuts'[j];
    CutTx(f, frames, cuts, tx, room, j, s, cuts');
  }

  lemma CutTx(f: Flags, frames: seq<Frame>, cuts: Ledger, tx: Sender, room: nat, j: nat, s: Segment, cuts': Ledger)
    requires LedgerOk(f, frames, cuts) && TxOk(frames, cuts, tx)
    requires OffsetsFit(f, frames) && WholeFrames(f, tx) && tx.CanCut(f, room)
    requires j == Sent(frames, tx) < |cuts| && s == tx.Cut(f, room) && cuts' == AfterLedger(frames, cuts, tx, s)
    ensures TxOk(frames, cuts', tx.AfterCut(f, room)) && WholeFrames(f, tx.AfterCut(f, room))
  {
    hide LedgerOk, CutOf, OffsetsFit;
    CutPiece(f, frames, cuts, tx, room);
    var tx' := tx.AfterCut(f, room);
    CoveredUpTo(cuts[j], tx.dataOffset, s);
    if s.last {
      assert tx'.queue == frames[j + 1..];
      assert Covers(frames[j], cuts'[j]);
    } else {
      assert tx'.queue == tx.queue;
    }
  }

  // ---- the receiver's side ----

  /** The frame number in the window of all SNs starting at `lo` that carries this SN. */
  function Index(lo: nat, sn: word): (k: nat)
    ensures lo <= k < lo + SN_COUNT && k % SN_COUNT == sn
  {
    lo + (sn - lo) % SN_COUNT
  }

  lemma IndexUnique(lo: nat, k: nat)
    requires lo <= k < lo + SN_COUNT
    ensures Index(lo, k % SN_COUNT) == k
  {}

  ghost predicate StateOk(frames: seq<Frame>, cuts: Ledger, k: nat, st: State) {
    k < |frames| == |cuts| && Holds(frames[k], cuts[k], st)
  }

  function AllOctets(frames: seq<Frame>): seq<seq<Cell>> {
    seq(|frames|, i requires 0 <= i < |frames| => Octets(frames[i]))
  }

  function TotalCells(xs: seq<seq<Cell>>): nat {
    if |xs| == 0 then 0 else TotalCells(xs[..|xs| - 1]) + |xs[|xs| - 1]|
  }

  /** Every stored reassembly state belongs to the frame its SN denotes, counted from `lo`. */
  ghost predicate StoreOk(frames: seq<Frame>, cuts: Ledger, lo: nat, rx: Receiver) {
    && (forall i :: 0 <= i < |rx.ring| && rx.ring[i].valid ==>
          rx.ring[i].sn % |rx.ring| == i && StateOk(frames, cuts, Index(lo, rx.ring[i].sn), rx.ring[i].state))
    && (forall i :: 0 <= i < |rx.overflow| ==>
          StateOk(frames, cuts, Index(lo, rx.overflow[i].sn), rx.overflow[i].state))
  }

  /** After `n` deliveries the frames handed out are the first `n`, and the byte count is exact. */
  ghost predicate OutputOk(frames: seq<Frame>, n: nat, popped: seq<seq<Cell>>, rx: Receiver) {
    && n <= |frames|
    && popped + rx.completed == AllOctets(frames[..n])
    && rx.outstanding == TotalCells(rx.completed)
  }

  ghost predicate RxSafe(frames: seq<Frame>, cuts: Ledger, lo: nat, n: nat, popped: seq<seq<Cell>>, rx: Receiver) {
    && lo <= n && rx.next == n % SN_COUNT
    && StoreOk(frames, cuts, lo, rx)
    && OutputOk(frames, n, popped, rx)
  }

  lemma LookupOk(frames: seq<Frame>, cuts: Ledger, lo: nat, rx: Receiver, sn: word)
    requires StoreOk(frames, cuts, lo, rx) && Index(lo, sn) < |frames| == |cuts|
    ensures StateOk(frames, cuts, Index(lo, sn), rx.Lookup(sn))
  {
    FreshHolds(frames[Index(lo, sn)], cuts[Index(lo, sn)]);
  }

  lemma PutOk(frames: seq<Frame>, cuts: Ledger, lo: nat, rx: Receiver, sn: word, st: State)
    requires StoreOk(frames, cuts, lo, rx) && StateOk(frames, cuts, Index(lo, sn), st)
    ensures StoreOk(frames, cuts, lo, rx.Put(sn, st))
    ensures var rx' := rx.Put(sn, st);
            rx'.next == rx.next && rx'.completed == rx.completed && rx'.outstanding == rx.outstanding
  {}

  lemma PutSafe(frames: seq<Frame>, cuts: Ledger, lo: nat, n: nat, popped: seq<seq<Cell>>, rx: Receiver,
                k: nat, st: State, rx': Receiver)
    requires RxSafe(frames, cuts, lo, n, popped, rx) && lo <= k < lo + SN_COUNT && StateOk(frames, cuts, k, st)
    requires rx' == rx.Put(k % SN_COUNT, st)
    ensures RxSafe(frames, cuts, lo, n, popped, rx')
  {
    IndexUnique(lo, k);
    PutOk(frames, cuts, lo, rx, k % SN_COUNT, st);
  }

  /** A segment taken in: the state it was added to and the state put back. */
  ghost predicate Takes(cut: set<Segment>, rx: Receiver, s: Segment, was: State, st: State, rx': Receiver) {
    && was == rx.Lookup(s.sn) && rx' == rx.Put(s.sn, st)
    && Got(cut, st) == Got(cut, was) + {s} && s.offset in st.received
  }

  lemma Taken(f: Flags, frame: Frame, cut: set<Segment>, rx: Receiver, s: Segment, was: State, rx': Receiver)
      returns (st: State)
    requires f.reordering && CutOf(frame, cut) && s in cut && was == rx.Lookup(s.sn) && Holds(frame, cut, was)
    requires rx' == rx.Take(f, s)
    ensures Takes(cut, rx, s, was, st, rx') && Holds(frame, cut, st)
  {
    st := Absorb(was, s);
    AbsorbHolds(frame, cut, was, s);
  }

  lemma TakeStored(f: Flags, frames: seq<Frame>, cuts: Ledger, lo: nat, rx: Receiver, k: nat, s: Segment, rx': Receiver)
      returns (was: State, st: State)
    requires f.reordering && StoreOk(frames, cuts, lo, rx) && k < |cuts| == |frames| && lo <= k < lo + SN_COUNT
    requires s in cuts[k] && s.sn == k % SN_COUNT && CutOf(frames[k], cuts[k]) && rx' == rx.Take(f, s)
    ensures Takes(cuts[k], rx, s, was, st, rx') && Holds(frames[k], cuts[k], st)
  {
    IndexUnique(lo, k);
    LookupOk(frames, cuts, lo, rx, s.sn);
    was := rx.Lookup(s.sn);
    st := Taken(f, frames[k], cuts[k], rx, s, was, rx');
  }

  /** A segment from the ledger, repeated or late, leaves every stored state in step with its frame. */
  lemma TakeSafe(f: Flags, frames: seq<Frame>, cuts: Ledger, lo: nat, n: nat, popped: seq<seq<Cell>>,
                 rx: Receiver, k: nat, s: Segment, rx': Receiver) returns (was: State, st: State)
    requires f.reordering && LedgerOk(f, frames, cuts) && RxSafe(frames, cuts, lo, n, popped, rx)
    requires k < |cuts| && s in cuts[k] && lo <= k < lo + SN_COUNT && rx' == rx.Take(f, s)
    ensures RxSafe(frames, cuts, lo, n, popped, rx')
    ensures s.sn == k % SN_COUNT && Takes(cuts[k], rx, s, was, st, rx') && Holds(frames[k], cuts[k], st)
  {
    was, st := TakeStored(f, frames, cuts, lo, rx, k, s, rx');
    PutSafe(frames, cuts, lo, n, popped, rx, k, st, rx');
  }

  lemma {:induction false} TotalCellsSnoc(xs: seq<seq<Cell>>, x: seq<Cell>)
    ensures TotalCells(xs + [x]) == TotalCells(xs) + |x|
  {
    assert (xs + [x])[..|xs + [x]| - 1] == xs;
  }

  /** Delivering the complete state of frame `n` keeps the output a prefix of the frames. */
  lemma DeliverNext(frames: seq<Frame>, cuts: Ledger, n: nat, popped: seq<seq<Cell>>, rx: Receiver, st: State)
    requires OutputOk(frames, n, popped, rx) && StateOk(frames, cuts, n, st) && st.complete
    requires 0 < |frames[n]| && CutOf(frames[n], cuts[n])
    ensures OutputOk(frames, n + 1, popped, rx.Deliver(st))
  {
    CompleteIff(frames[n], cuts[n], st);
    TotalCellsSnoc(rx.completed, st.buffer);
    assert AllOctets(frames[..n + 1]) == AllOctets(frames[..n]) + [Octets(frames[n])];
    assert popped + (rx.completed + [st.buffer]) == (popped + rx.completed) + [st.buffer];
  }

  /** The state handed out is that of frame n. */
  lemma RingNextOk(f: Flags, frames: seq<Frame>, cuts: Ledger, lo: nat, n: nat, rx: Receiver) returns (st: State)
    requires LedgerOk(f, frames, cuts) && StoreOk(frames, cuts, lo, rx)
    requires lo <= n < lo + SN_COUNT && rx.next == n % SN_COUNT && rx.RingReady()
    ensures st.complete && StateOk(frames, cuts, n, st) && 0 < |frames[n]| && CutOf(frames[n], cuts[n])
    ensures var rx' := rx.AdvanceRing();
            && rx'.next == (n + 1) % SN_COUNT
            && rx'.completed == rx.Deliver(st).completed && rx'.outstanding == rx.Deliver(st).outstanding
  {
    hide Holds, CutOf;
    IndexUnique(lo, n);
    st := rx.ring[rx.SlotIndex(rx.next)].state;
  }

  lemma AdvanceRingSafe(f: Flags, frames: seq<Frame>, cuts: Ledger, lo: nat, n: nat, popped: seq<seq<Cell>>,
                        rx: Receiver)
    requires LedgerOk(f, frames, cuts) && RxSafe(frames, cuts, lo, n, popped, rx)
    requires n < lo + SN_COUNT && rx.RingReady()
    ensures n < |frames| && RxSafe(frames, cuts, lo, n + 1, popped, rx.AdvanceRing())
  {
    hide StoreOk, LedgerOk, CutOf, Holds, OutputOk, Receiver.AdvanceRing, Receiver.Deliver;
    var st := RingNextOk(f, frames, cuts, lo, n, rx);
    DeliverNext(frames, cuts, n, popped, rx, st);
    OutputSame(frames, n + 1, popped, rx.Deliver(st), rx.AdvanceRing());
    AdvanceRingStore(frames, cuts, lo, rx, rx.AdvanceRing());
  }

  lemma OutputSame(frames: seq<Frame>, n: nat, popped: seq<seq<Cell>>, a: Receiver, b: Receiver)
    requires OutputOk(frames, n, popped, a) && a.completed == b.completed && a.outstanding == b.outstanding
    ensures OutputOk(frames, n, popped, b)
  {}

  lemma AdvanceRingStore(frames: seq<Frame>, cuts: Ledger, lo: nat, rx: Receiver, rx': Receiver)
    requires StoreOk(frames, cuts, lo, rx) && rx.RingReady() && rx' == rx.AdvanceRing()
    ensures StoreOk(frames, cuts, lo, rx')
  {}

  lemma AdvanceOverflowStore(frames: seq<Frame>, cuts: Ledger, lo: nat, rx: Receiver, rx': Receiver)
    requires StoreOk(frames, cuts, lo, rx) && rx.OverflowReady() && rx' == rx.AdvanceOverflow()
    ensures StoreOk(frames, cuts, lo, rx')
  {
    var j := FirstComplete(rx.overflow, rx.next);
    forall i | 0 <= i < |rx'.overflow| ensures rx'.overflow[i] == rx.overflow[if i < j then i else i + 1] {}
  }

  /** The state handed out is that of frame n. */
  lemma OverflowNextOk(f: Flags, frames: seq<Frame>, cuts: Ledger, lo: nat, n: nat, rx: Receiver) returns (st: State)
    requires LedgerOk(f, frames, cuts) && StoreOk(frames, cuts, lo, rx)
    requires lo <= n < lo + SN_COUNT && rx.next == n % SN_COUNT && rx.OverflowReady()
    ensures st.complete && StateOk(frames, cuts, n, st) && 0 < |frames[n]| && CutOf(frames[n], cuts[n])
    ensures var rx' := rx.AdvanceOverflow();
            && rx'.next == (n + 1) % SN_COUNT
            && rx'.completed == rx.Deliver(st).completed && rx'.outstanding == rx.Deliver(st).outstanding
  {
    hide Holds, CutOf;
    IndexUnique(lo, n);
    st := rx.overflow[FirstComplete(rx.overflow, rx.next)].state;
  }

  lemma AdvanceOverflowSafe(f: Flags, frames: seq<Frame>, cuts: Ledger, lo: nat, n: nat, popped: seq<seq<Cell>>,
                            rx: Receiver)
    requires LedgerOk(f, frames, cuts) && RxSafe(frames, cuts, lo, n, popped, rx)
    requires n < lo + SN_COUNT && rx.OverflowReady()
    ensures n < |frames| && RxSafe(frames, cuts, lo, n + 1, popped, rx.AdvanceOverflow())
  {
    hide StoreOk, LedgerOk, CutOf, Holds, OutputOk, Receiver.AdvanceOverflow, Receiver.Deliver;
    var st := OverflowNextOk(f, frames, cuts, lo, n, rx);
    DeliverNext(frames, cuts, n, popped, rx, st);
    OutputSame(frames, n + 1, popped, rx.Deliver(st), rx.AdvanceOverflow());
    AdvanceOverflowStore(frames, cuts, lo, rx, rx.AdvanceOverflow());
  }

  /** When all frame numbers lie within one SN cycle from `lo`, flushing only ever appends the
      next frames. */
  lemma {:induction false} FlushSafe(f: Flags, frames: seq<Frame>, cuts: Ledger, lo: nat, n: nat,
                                     popped: seq<seq<Cell>>, rx: Receiver) returns (n': nat)
    requires LedgerOk(f, frames, cuts) && RxSafe(frames, cuts, lo, n, popped, rx)
    requires |frames| < lo + SN_COUNT
    ensures n <= n' && RxSafe(frames, cuts, lo, n', popped, rx.Flush())
    decreases rx.Held()
  {
    HeldDecreases(rx);
    if rx.RingReady() {
      AdvanceRingSafe(f, frames, cuts, lo, n, popped, rx);
      n' := FlushSafe(f, frames, cuts, lo, n + 1, popped, rx.AdvanceRing());
    } else if rx.OverflowReady() {
      AdvanceOverflowSafe(f, frames, cuts, lo, n, popped, rx);
      n' := FlushSafe(f, frames, cuts, lo, n + 1, popped, rx.AdvanceOverflow());
    } else {
      n' := n;
    }
  }

  lemma {:induction false} TotalCellsHead(xs: seq<seq<Cell>>)
    requires |xs| > 0
    ensures TotalCells(xs) == |xs[0]| + TotalCells(xs[1..])
  {
    if |xs| > 1 {
      TotalCellsHead(xs[..|xs| - 1]);
      assert xs[..|xs| - 1][1..] == xs[1..][..|xs| - 2];
    }
  }

  /** Popping moves the oldest frame out; the byte count stays exact, so its clamp is not used. */
  lemma PopSafe(frames: seq<Frame>, cuts: Ledger, lo: nat, n: nat, popped: seq<seq<Cell>>, rx: Receiver)
    requires RxSafe(frames, cuts, lo, n, popped, rx) && |rx.completed| > 0
    ensures RxSafe(frames, cuts, lo, n, popped + [rx.completed[0]], rx.Pop())
    ensures rx.Pop().outstanding == rx.outstanding - |rx.completed[0]|
  {
    TotalCellsHead(rx.completed);
    assert popped + [rx.completed[0]] + rx.completed[1..] == popped + rx.completed;
  }

  /** A new frame at the sender, with nothing cut from it yet, changes nothing here. */
  lemma QueueSafe(frames: seq<Frame>, cuts: Ledger, lo: nat, n: nat, popped: seq<seq<Cell>>, rx: Receiver, frame: Frame)
    requires RxSafe(frames, cuts, lo, n, popped, rx) && |cuts| == |frames|
    ensures RxSafe(frames + [frame], cuts + [{}], lo, n, popped, rx)
  {
    assert (frames + [frame])[..n] == frames[..n];
    assert forall k :: 0 <= k < |frames| ==> (frames + [frame])[k] == frames[k] && (cuts + [{}])[k] == cuts[k];
  }

  /** A newly cut segment changes nothing at the receiver. */
  lemma CutSafe(f: Flags, frames: seq<Frame>, cuts: Ledger, tx: Sender, room: nat,
                lo: nat, n: nat, popped: seq<seq<Cell>>, rx: Receiver)
    requires LedgerOk(f, frames, cuts) && TxOk(frames, cuts, tx)
    requires OffsetsFit(f, frames) && WholeFrames(f, tx) && tx.CanCut(f, room)
    requires RxSafe(frames, cuts, lo, n, popped, rx) && 0 <= Sent(frames, tx) < |cuts|
    ensures RxSafe(frames, AfterLedger(frames, cuts, tx, tx.Cut(f, room)), lo, n, popped, rx)
  {
    CutPiece(f, frames, cuts, tx, room);
    var j := Sent(frames, tx);
    var s := tx.Cut(f, room);
    var cuts' := AfterLedger(frames, cuts, tx, s);
    forall k, st | 0 <= k < |frames| && Holds(frames[k], cuts[k], st) ensures Holds(frames[k], cuts'[k], st) {
      if k == j { CutGrows(frames[j], cuts[j], s, st); }
    }
  }
}
