/** A PDCP sender and receiver joined by a channel that loses, repeats and reorders whole PDUs. */
module PdcpLink {
  import opened Bytes
  import opened PdcpSegment
  import opened PdcpSender
  import opened PdcpReceiver
  import opened Reassembly
  import opened PdcpLedger

  /** Both ends, every frame ever accepted, every PDU ever written and every frame popped. */
  datatype World = World(tx: Sender, rx: Receiver, queued: seq<Frame>, pdus: seq<seq<byte>>, popped: seq<seq<Cell>>)

  /** Arrive(i) hands PDU number i to the receiver: any PDU, at any time, any number of times. */
  datatype Event = Queue(frame: Frame) | Transmit(room: nat) | Arrive(i: nat) | Pop

  ghost predicate IsPdu(f: Flags, b: seq<byte>) {
    exists segs :: AllPrintable(f, segs) && b == PrintAll(f, segs)
  }

  lemma PduParses(f: Flags, b: seq<byte>)
    requires IsPdu(f, b)
    ensures SizesCoverHeaders(f, b)
  {
    var segs :| AllPrintable(f, segs) && b == PrintAll(f, segs);
    ConsumePrinted(f, Initial(0), segs);
  }

  ghost predicate Consistent(f: Flags, w: World) {
    w.tx.Valid() && forall i :: 0 <= i < |w.pdus| ==> IsPdu(f, w.pdus[i])
  }

  /** Output buffers fit the 15-bit SIZE. */
  predicate Usable(e: Event) {
    e.Transmit? ==> e.room <= MAX_SIZE
  }

  ghost function Step(c: Setup, w: World, e: Event): (w': World)
    requires Consistent(c.flags, w) && Usable(e)
    ensures Consistent(c.flags, w')
  {
    match e
    case Queue(frame) =>
      if |frame| == 0 then w else w.(tx := w.tx.Accept(frame), queued := w.queued + [frame])
    case Transmit(room) =>
      var (tx, segs) := Write(c.flags, c.minCommit, w.tx, room);
      assert IsPdu(c.flags, PrintAll(c.flags, segs));
      if WriteStatus(c.flags, c.minCommit, w.tx, room) == PdcpSender.Success
      then w.(tx := tx, pdus := w.pdus + [PrintAll(c.flags, segs)]) else w.(tx := tx)
    case Arrive(i) =>
      if i >= |w.pdus| then w
      else PduParses(c.flags, w.pdus[i]); w.(rx := OnData(c.flags, w.rx, w.pdus[i]).0)
    case Pop =>
      if |w.rx.completed| == 0 then w else w.(rx := w.rx.Pop(), popped := w.popped + [w.rx.completed[0]])
  }

  function Start(c: Setup): World {
    World(Sender([], 0, 0), Initial(c.reorderSize), [], [], [])
  }

  predicate AllUsable(events: seq<Event>) {
    forall i :: 0 <= i < |events| ==> Usable(events[i])
  }

  /** The state after the events, from reset. */
  ghost function Run(c: Setup, events: seq<Event>): (w: World)
    requires AllUsable(events)
    ensures Consistent(c.flags, w)
    decreases |events|
  {
    if |events| == 0 then Start(c)
    else Step(c, Run(c, events[..|events| - 1]), events[|events| - 1])
  }

  /** All frames handed to the receiver's user so far, popped or waiting. */
  function Output(w: World): seq<seq<Cell>> {
    w.popped + w.rx.completed
  }

  // ---- the invariant of the link ----

  ghost predicate FromLedger(f: Flags, cuts: Ledger, b: seq<byte>) {
    exists segs :: AllPrintable(f, segs) && b == PrintAll(f, segs) && SegmentsIn(cuts, segs)
  }

  ghost predicate SegmentsIn(cuts: Ledger, segs: seq<Segment>) {
    forall i :: 0 <= i < |segs| ==> InLedger(cuts, segs[i])
  }

  lemma SegmentsStayIn(cuts: Ledger, cuts': Ledger, segs: seq<Segment>)
    requires Grows(cuts, cuts') && SegmentsIn(cuts, segs)
    ensures SegmentsIn(cuts', segs)
  {
    forall i | 0 <= i < |segs| ensures InLedger(cuts', segs[i]) {
      assert InLedger(cuts, segs[i]);
      var k :| 0 <= k < |cuts| && segs[i] in cuts[k];
      assert segs[i] in cuts'[k];
    }
  }

  lemma PdusStayIn(f: Flags, cuts: Ledger, cuts': Ledger, pdus: seq<seq<byte>>)
    requires Grows(cuts, cuts') && forall i :: 0 <= i < |pdus| ==> FromLedger(f, cuts, pdus[i])
    ensures forall i :: 0 <= i < |pdus| ==> FromLedger(f, cuts', pdus[i])
  {
    forall i | 0 <= i < |pdus| ensures FromLedger(f, cuts', pdus[i]) {
      assert FromLedger(f, cuts, pdus[i]);
      var segs :| AllPrintable(f, segs) && pdus[i] == PrintAll(f, segs) && SegmentsIn(cuts, segs);
      SegmentsStayIn(cuts, cuts', segs);
    }
  }

  ghost predicate Inv(c: Setup, w: World, cuts: Ledger, n: nat) {
    && TxInv(c.flags, w.queued, cuts, w.tx)
    && (forall i :: 0 <= i < |w.pdus| ==> FromLedger(c.flags, cuts, w.pdus[i]))
    && RxSafe(w.queued, cuts, 0, n, w.popped, w.rx)
  }

  lemma FirstSegmentIn(cuts: Ledger, cuts': Ledger, s: Segment, rest: seq<Segment>)
    requires Grows(cuts, cuts') && InLedger(cuts, s) && SegmentsIn(cuts', rest)
    ensures SegmentsIn(cuts', [s] + rest)
  {
    SegmentsStayIn(cuts, cuts', [s]);
    assert InLedger(cuts', [s][0]);
    assert forall i :: 0 < i <= |rest| ==> ([s] + rest)[i] == rest[i - 1];
  }

  lemma GrowsTransitive(a: Ledger, b: Ledger, c: Ledger)
    requires Grows(a, b) && Grows(b, c)
    ensures Grows(a, c)
  {
    assert forall k :: 0 <= k < |a| ==> a[k] <= b[k] && b[k] <= c[k];
  }

  lemma CutInv(f: Flags, frames: seq<Frame>, cuts: Ledger, tx: Sender, room: nat,
               lo: nat, n: nat, popped: seq<seq<Cell>>, rx: Receiver) returns (cuts': Ledger)
    requires TxInv(f, frames, cuts, tx) && RxSafe(frames, cuts, lo, n, popped, rx) && tx.CanCut(f, room)
    ensures TxInv(f, frames, cuts', tx.AfterCut(f, room)) && RxSafe(frames, cuts', lo, n, popped, rx)
    ensures Grows(cuts, cuts') && InLedger(cuts', tx.Cut(f, room))
  {
    CutStep(f, frames, cuts, tx, room);
    CutSafe(f, frames, cuts, tx, room, lo, n, popped, rx);
    cuts' := AfterLedger(frames, cuts, tx, tx.Cut(f, room));
  }

  /** One buffer's worth of segments: the ledger gains them, and the receiver's side is unmoved. */
  lemma {:induction false} FillInv(f: Flags, frames: seq<Frame>, cuts: Ledger, tx: Sender, room: nat,
                                   lo: nat, n: nat, popped: seq<seq<Cell>>, rx: Receiver) returns (cuts': Ledger)
    requires TxInv(f, frames, cuts, tx) && RxSafe(frames, cuts, lo, n, popped, rx) && room <= MAX_SIZE
    ensures TxInv(f, frames, cuts', tx.Fill(f, room).0) && RxSafe(frames, cuts', lo, n, popped, rx)
    ensures Grows(cuts, cuts') && SegmentsIn(cuts', tx.Fill(f, room).1)
    decreases room
  {
    if tx.CanCut(f, room) {
      var s := tx.Cut(f, room);
      var cuts1 := CutInv(f, frames, cuts, tx, room, lo, n, popped, rx);
      var tx1, left, rest := FillFirst(f, tx, room);
      cuts' := FillInv(f, frames, cuts1, tx1, left, lo, n, popped, rx);
      FirstSegmentIn(cuts1, cuts', s, rest);
      GrowsTransitive(cuts, cuts1, cuts');
    } else {
      cuts' := cuts;
    }
  }

  lemma {:induction false} TakeAllSafe(f: Flags, frames: seq<Frame>, cuts: Ledger, lo: nat, n: nat,
                                       popped: seq<seq<Cell>>, rx: Receiver, segs: seq<Segment>)
    requires f.reordering && LedgerOk(f, frames, cuts) && RxSafe(frames, cuts, lo, n, popped, rx)
    requires SegmentsIn(cuts, segs) && lo == 0 && |frames| < SN_COUNT
    ensures RxSafe(frames, cuts, lo, n, popped, TakeAll(f, rx, segs))
    decreases |segs|
  {
    if |segs| != 0 {
      assert InLedger(cuts, segs[0]);
      var k :| 0 <= k < |cuts| && segs[0] in cuts[k];
      var was, st := TakeSafe(f, frames, cuts, lo, n, popped, rx, k, segs[0], rx.Take(f, segs[0]));
      assert forall i :: 0 <= i < |segs| - 1 ==> segs[1..][i] == segs[i + 1];
      TakeAllSafe(f, frames, cuts, lo, n, popped, rx.Take(f, segs[0]), segs[1..]);
    }
  }

  lemma QueueInv(c: Setup, w: World, cuts: Ledger, n: nat, frame: Frame)
    requires Inv(c, w, cuts, n) && Consistent(c.flags, w) && 0 < |frame|
    requires OffsetsFit(c.flags, [frame])
    ensures Inv(c, Step(c, w, Queue(frame)), cuts + [{}], n)
  {
    hide TxOk, LedgerOk, RxSafe, FromLedger;
    var w' := Step(c, w, Queue(frame));
    var cuts' := cuts + [{}];
    assert [frame][0] == frame;
    QueueLedgerOk(c.flags, w.queued, cuts, frame);
    QueueTxOk(w.queued, cuts, w.tx, frame);
    QueueSafe(w.queued, cuts, 0, n, w.popped, w.rx, frame);
    PdusStayIn(c.flags, cuts, cuts', w.pdus);
  }

  lemma TransmitInv(c: Setup, w: World, cuts: Ledger, n: nat, room: nat) returns (cuts': Ledger)
    requires Inv(c, w, cuts, n) && Consistent(c.flags, w) && room <= MAX_SIZE
    ensures Inv(c, Step(c, w, Transmit(room)), cuts', n)
  {
    hide TxInv, RxSafe;
    if WriteStatus(c.flags, c.minCommit, w.tx, room) == PdcpSender.Success {
      cuts' := FillInv(c.flags, w.queued, cuts, w.tx, room, 0, n, w.popped, w.rx);
      PdusStayIn(c.flags, cuts, cuts', w.pdus);
      assert FromLedger(c.flags, cuts', PrintAll(c.flags, w.tx.Fill(c.flags, room).1));
    } else {
      cuts' := cuts;
    }
  }

  lemma ArriveInv(c: Setup, w: World, cuts: Ledger, n: nat, i: nat) returns (n': nat)
    requires c.flags.reordering && Inv(c, w, cuts, n) && Consistent(c.flags, w) && |w.queued| < SN_COUNT
    ensures Inv(c, Step(c, w, Arrive(i)), cuts, n')
  {
    hide StoreOk, OutputOk, TxOk, LedgerOk;
    n' := n;
    if i < |w.pdus| && |w.pdus[i]| != 0 {
      assert FromLedger(c.flags, cuts, w.pdus[i]);
      var segs :| AllPrintable(c.flags, segs) && w.pdus[i] == PrintAll(c.flags, segs) && SegmentsIn(cuts, segs);
      ConsumePrinted(c.flags, w.rx, segs);
      TakeAllSafe(c.flags, w.queued, cuts, 0, n, w.popped, w.rx, segs);
      n' := FlushSafe(c.flags, w.queued, cuts, 0, n, w.popped, TakeAll(c.flags, w.rx, segs));
    }
  }

  // ---- the theorem ----

  /** The frame an event queues; an empty one is not accepted. */
  function Queued(e: Event): seq<Frame> {
    if e.Queue? && 0 < |e.frame| then [e.frame] else []
  }

  function Frames(events: seq<Event>): seq<Frame> {
    if |events| == 0 then [] else Frames(events[..|events| - 1]) + Queued(events[|events| - 1])
  }

  lemma OffsetsFitParts(f: Flags, a: seq<Frame>, b: seq<Frame>)
    requires OffsetsFit(f, a + b)
    ensures OffsetsFit(f, a) && OffsetsFit(f, b)
  {
    assert forall k :: 0 <= k < |a| ==> (a + b)[k] == a[k];
    assert forall k :: 0 <= k < |b| ==> (a + b)[|a| + k] == b[k];
  }

  lemma StepInv(c: Setup, w: World, cuts: Ledger, n: nat, e: Event) returns (cuts': Ledger, n': nat)
    requires c.flags.reordering && Usable(e) && Inv(c, w, cuts, n) && Consistent(c.flags, w)
    requires |w.queued| < SN_COUNT && OffsetsFit(c.flags, Queued(e))
    ensures Inv(c, Step(c, w, e), cuts', n') && Step(c, w, e).queued == w.queued + Queued(e)
  {
    hide TxInv, StoreOk, OutputOk, FromLedger;
    cuts', n' := cuts, n;
    match e
    case Queue(frame) =>
      if 0 < |frame| {
        QueueInv(c, w, cuts, n, frame);
        cuts' := cuts + [{}];
      }
    case Transmit(room) =>
      cuts' := TransmitInv(c, w, cuts, n, room);
    case Arrive(i) =>
      n' := ArriveInv(c, w, cuts, n, i);
    case Pop =>
      if |w.rx.completed| > 0 {
        PopSafe(w.queued, cuts, 0, n, w.popped, w.rx);
      }
  }

  lemma StartInv(c: Setup)
    ensures Inv(c, Start(c), [], 0) && Start(c).queued == []
  {
    assert AllOctets([][..0]) == [];
  }

  lemma {:induction false} RunInv(c: Setup, events: seq<Event>) returns (cuts: Ledger, n: nat)
    requires c.flags.reordering && AllUsable(events)
    requires |Frames(events)| < SN_COUNT && OffsetsFit(c.flags, Frames(events))
    ensures Run(c, events).queued == Frames(events)
    ensures Inv(c, Run(c, events), cuts, n)
    decreases |events|
  {
    hide Inv, Step, Consistent, OffsetsFit, Queued, Start;
    if |events| == 0 {
      cuts, n := [], 0;
      StartInv(c);
    } else {
      var before, e := events[..|events| - 1], events[|events| - 1];
      OffsetsFitParts(c.flags, Frames(before), Queued(e));
      cuts, n := RunInv(c, before);
      cuts, n := StepInv(c, Run(c, before), cuts, n, e);
    }
  }

  /** Whatever the channel does to PDUs, with fewer than 65536 frames queued the receiver's
      output is a prefix, octet for octet and in order, of what was queued at the sender, and
      its byte count is exactly the size of the frames waiting to be popped. */
  lemma PrefixSafety(c: Setup, events: seq<Event>)
    requires c.flags.reordering && AllUsable(events)
    requires |Frames(events)| < SN_COUNT && OffsetsFit(c.flags, Frames(events))
    ensures var w := Run(c, events);
            && |Output(w)| <= |Frames(events)|
            && Output(w) == AllOctets(Frames(events)[..|Output(w)|])
            && w.rx.outstanding == TotalCells(w.rx.completed)
  {
    hide Run, Frames, TxInv, StoreOk, FromLedger;
    var cuts, n := RunInv(c, events);
  }
}
