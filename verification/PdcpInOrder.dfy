/** Sender and receiver over a channel that delivers every PDU once and in order: together they
    are the identity on frames, for all four settings of the two flags. */
module PdcpInOrder {
  import opened Bytes
  import opened PdcpSegment
  import opened PdcpSender
  import opened PdcpReceiver
  import opened Reassembly
  import opened PdcpLedger
  import opened PdcpWindow
  import opened PdcpUnsegmented

  datatype Pipe = Pipe(tx: Sender, rx: Receiver, queued: seq<Frame>)

  datatype Event = Queue(frame: Frame) | Relay(room: nat)

  /** The number of frames a PDU carries pieces of; only its final segment can end mid-frame. */
  function FramesIn(segs: seq<Segment>): nat {
    if |segs| == 0 then 0
    else if |segs| == 1 then 1
    else (if segs[0].last then 1 else 0) + FramesIn(segs[1..])
  }

  /** What the identity asks of a write: the buffer fits the 15-bit SIZE and, with both flags
      on, the ring divides the SN space and holds every frame of the PDU. */
  predicate EventOk(c: Setup, w: Pipe, e: Event)
    requires w.tx.Valid()
  {
    match e
    case Queue(frame) => OffsetsFit(c.flags, [frame])
    case Relay(room) =>
      && room <= MAX_SIZE
      && (c.flags.reordering && c.flags.segmentation ==>
            && 0 < c.reorderSize && SN_COUNT % c.reorderSize == 0
            && FramesIn(Write(c.flags, c.minCommit, w.tx, room).1) <= c.reorderSize)
  }

  function Step(c: Setup, w: Pipe, e: Event): (w': Pipe)
    requires w.tx.Valid() && EventOk(c, w, e)
    ensures w'.tx.Valid()
  {
    match e
    case Queue(frame) =>
      if |frame| == 0 then w else w.(tx := w.tx.Accept(frame), queued := w.queued + [frame])
    case Relay(room) =>
      var (tx, segs) := Write(c.flags, c.minCommit, w.tx, room);
      if |segs| == 0 then w.(tx := tx)
      else
        ConsumePrinted(c.flags, w.rx, segs);
        w.(tx := tx, rx := OnData(c.flags, w.rx, PrintAll(c.flags, segs)).0)
  }

  ghost predicate Runs(c: Setup, events: seq<Event>, w: Pipe)
    decreases |events|
  {
    if |events| == 0 then w == Pipe(Sender([], 0, 0), Initial(c.reorderSize), [])
    else
      exists before: Pipe ::
        && Runs(c, events[..|events| - 1], before) && before.tx.Valid()
        && EventOk(c, before, events[|events| - 1]) && w == Step(c, before, events[|events| - 1])
  }

  // ---- what holds between events ----

  /** Without reordering all segments share SN 0 and there is one reassembly state. */
  ghost predicate OneState(rx: Receiver) {
    if |rx.ring| > 0 then
      && |rx.overflow| == 0
      && (forall i :: 0 <= i < |rx.ring| && rx.ring[i].valid ==> i == 0 && rx.ring[i].sn == 0)
    else |rx.overflow| <= 1 && forall i :: 0 <= i < |rx.overflow| ==> rx.overflow[i].sn == 0
  }

  /** That state holds exactly what has been sent of the frame being sent. */
  ghost predicate Sharing(frames: seq<Frame>, cuts: Ledger, tx: Sender, rx: Receiver) {
    var j := Sent(frames, tx);
    && OneState(rx)
    && (tx.dataOffset == 0 ==> rx.Lookup(0) == FRESH)
    && (0 <= j < |frames| == |cuts| ==>
          Holds(frames[j], cuts[j], rx.Lookup(0)) && Got(cuts[j], rx.Lookup(0)) == cuts[j])
  }

  ghost predicate InPlace(c: Setup, frames: seq<Frame>, cuts: Ledger, tx: Sender, rx: Receiver) {
    var f, n := c.flags, Sent(frames, tx);
    && TxInv(f, frames, cuts, tx)
    && 0 <= n && OutputOk(frames, n, [], rx)
    && (!f.reordering ==> Sharing(frames, cuts, tx, rx))
    && (f.reordering && !f.segmentation ==> rx.Held() == 0 && rx.next == n % SN_COUNT)
    && (f.reordering && f.segmentation && RingSize(c.reorderSize) ==>
          |rx.ring| == c.reorderSize && InStep(f, frames, cuts, cuts, n, [], rx))
  }

  // ---- no reordering ----

  /** Writing and taking in segment by segment. */
  lemma FillUnfold(f: Flags, tx: Sender, room: nat, rx: Receiver, tx1: Sender, rx1: Receiver) returns (left: nat)
    requires tx.Valid() && tx.CanCut(f, room)
    requires tx1 == tx.AfterCut(f, room) && rx1 == rx.Take(f, tx.Cut(f, room))
    ensures left == room - HeaderSize(f) - |tx.Cut(f, room).payload| && left < room
    ensures tx.Fill(f, room).0 == tx1.Fill(f, left).0
    ensures TakeAll(f, rx, tx.Fill(f, room).1) == TakeAll(f, rx1, tx1.Fill(f, left).1)
  {
    var s := tx.Cut(f, room);
    left := room - HeaderSize(f) - |s.payload|;
    var rest := tx1.Fill(f, left).1;
    assert ([s] + rest)[1..] == rest;
  }

  /** The shared state after one more segment: finished exactly at the frame's last segment. */
  lemma ShareAbsorb(f: seq<byte>, cut: set<Segment>, s: Segment, st: State)
    requires f != [] && CutOf(f, cut + {s}) && s !in cut
    requires Holds(f, cut, st) && Got(cut, st) == cut
    requires forall t :: t in cut ==> t.offset + |t.payload| < |f|
    requires s.last ==> Covers(f, cut + {s})
    ensures var st' := Absorb(st, s);
            && Holds(f, cut + {s}, st') && Got(cut + {s}, st') == cut + {s}
            && (s.last ==> st'.complete)
            && (s.last <==> st'.hasExpected && st'.accumulated == st'.expected)
  {
    CutGrows(f, cut, s, st);
    AbsorbHolds(f, cut + {s}, st, s);
    CompleteIff(f, cut + {s}, Absorb(st, s));
    assert forall t :: t in cut ==> PieceOf(f, t) && !t.last;
  }

  lemma ShareDone(f: Flags, frames: seq<Frame>, cuts: Ledger, n: nat, rx: Receiver, st: State)
    requires LedgerOk(f, frames, cuts) && OneState(rx) && OutputOk(frames, n, [], rx)
    requires StateOk(frames, cuts, n, st) && st.complete && (n + 1 < |frames| ==> cuts[n + 1] == {})
    ensures var rx' := rx.Release(0).Deliver(st);
            && OutputOk(frames, n + 1, [], rx')
            && OneState(rx') && rx'.Lookup(0) == FRESH
            && (n + 1 < |frames| ==> Holds(frames[n + 1], cuts[n + 1], FRESH) && Got(cuts[n + 1], FRESH) == {})
  {
    ReleaseOne(rx);
    DeliverNext(frames, cuts, n, [], rx.Release(0), st);
    if n + 1 < |frames| { FreshHolds(frames[n + 1], cuts[n + 1]); }
  }

  lemma ShareCut(f: Flags, frames: seq<Frame>, cuts: Ledger, tx: Sender, room: nat, rx: Receiver)
    requires !f.reordering && TxInv(f, frames, cuts, tx) && tx.CanCut(f, room)
    requires Sharing(frames, cuts, tx, rx) && OutputOk(frames, Sent(frames, tx), [], rx)
    ensures 0 <= Sent(frames, tx) < |cuts|
    ensures var s := tx.Cut(f, room);
            var cuts' := AfterLedger(frames, cuts, tx, s);
            var tx' := tx.AfterCut(f, room);
            && TxInv(f, frames, cuts', tx')
            && Sharing(frames, cuts', tx', rx.Take(f, s))
            && OutputOk(frames, Sent(frames, tx'), [], rx.Take(f, s))
  {
    CutPiece(f, frames, cuts, tx, room);
    CutStep(f, frames, cuts, tx, room);
    var j, s := Sent(frames, tx), tx.Cut(f, room);
    var cuts' := AfterLedger(frames, cuts, tx, s);
    var st' := Absorb(rx.Lookup(0), s);
    ShareAbsorb(frames[j], cuts[j], s, rx.Lookup(0));
    assert s.sn == 0;
    if s.last {
      ShareLast(f, frames, cuts', j, tx.AfterCut(f, room), rx, st');
    } else {
      ShareMore(frames, cuts', j, tx.AfterCut(f, room), rx, st');
    }
  }

  lemma ShareMore(frames: seq<Frame>, cuts: Ledger, j: nat, tx: Sender, rx: Receiver, st: State)
    requires OneState(rx) && OutputOk(frames, j, [], rx) && Sent(frames, tx) == j < |frames| == |cuts|
    requires tx.dataOffset > 0
    requires Holds(frames[j], cuts[j], st) && Got(cuts[j], st) == cuts[j]
    ensures Sharing(frames, cuts, tx, rx.Put(0, st)) && OutputOk(frames, j, [], rx.Put(0, st))
  {
    PutOne(rx, st);
  }

  lemma ShareLast(f: Flags, frames: seq<Frame>, cuts: Ledger, j: nat, tx: Sender, rx: Receiver, st: State)
    requires LedgerOk(f, frames, cuts) && OneState(rx) && OutputOk(frames, j, [], rx)
    requires StateOk(frames, cuts, j, st) && st.complete && (j + 1 < |frames| ==> cuts[j + 1] == {})
    requires Sent(frames, tx) == j + 1
    ensures var rx' := rx.Release(0).Deliver(st); Sharing(frames, cuts, tx, rx') && OutputOk(frames, j + 1, [], rx')
  {
    ShareDone(f, frames, cuts, j, rx, st);
  }

  lemma ReleaseOne(rx: Receiver)
    requires OneState(rx)
    ensures OneState(rx.Release(0)) && rx.Release(0).Lookup(0) == FRESH
    ensures rx.Release(0).completed == rx.completed && rx.Release(0).outstanding == rx.outstanding
  {}

  lemma PutOne(rx: Receiver, st: State)
    requires OneState(rx)
    ensures OneState(rx.Put(0, st)) && rx.Put(0, st).Lookup(0) == st
    ensures rx.Put(0, st).completed == rx.completed && rx.Put(0, st).outstanding == rx.outstanding
  {
    PutLaws(rx, 0, st, st);
  }

  lemma ShareCutAs(f: Flags, frames: seq<Frame>, cuts: Ledger, tx: Sender, room: nat, rx: Receiver)
      returns (cuts1: Ledger, tx1: Sender, rx1: Receiver)
    requires !f.reordering && TxInv(f, frames, cuts, tx) && tx.CanCut(f, room)
    requires Sharing(frames, cuts, tx, rx) && OutputOk(frames, Sent(frames, tx), [], rx)
    ensures tx1 == tx.AfterCut(f, room) && rx1 == rx.Take(f, tx.Cut(f, room))
    ensures TxInv(f, frames, cuts1, tx1) && Sharing(frames, cuts1, tx1, rx1)
    ensures OutputOk(frames, Sent(frames, tx1), [], rx1)
  {
    ShareCut(f, frames, cuts, tx, room, rx);
    var s := tx.Cut(f, room);
    cuts1, tx1, rx1 := AfterLedger(frames, cuts, tx, s), tx.AfterCut(f, room), rx.Take(f, s);
  }

  lemma {:induction false} ShareFill(f: Flags, frames: seq<Frame>, cuts: Ledger, tx: Sender, room: nat, rx: Receiver)
      returns (cuts': Ledger, tx': Sender, rx': Receiver)
    requires !f.reordering && TxInv(f, frames, cuts, tx)
    requires Sharing(frames, cuts, tx, rx) && OutputOk(frames, Sent(frames, tx), [], rx)
    ensures tx' == tx.Fill(f, room).0 && rx' == TakeAll(f, rx, tx.Fill(f, room).1)
    ensures TxInv(f, frames, cuts', tx') && Sharing(frames, cuts', tx', rx')
    ensures OutputOk(frames, Sent(frames, tx'), [], rx')
    decreases room
  {
    if tx.CanCut(f, room) {
      var cuts1, tx1, rx1 := ShareCutAs(f, frames, cuts, tx, room, rx);
      var left := FillUnfold(f, tx, room, rx, tx1, rx1);
      cuts', tx', rx' := ShareFill(f, frames, cuts1, tx1, left, rx1);
    } else {
      cuts', tx', rx' := cuts, tx, rx;
    }
  }

  // ---- reordering of segments ----

  lemma StepCut(f: Flags, frames: seq<Frame>, cuts: Ledger, tx: Sender, room: nat, n: nat, rx: Receiver)
    requires TxInv(f, frames, cuts, tx) && tx.CanCut(f, room)
    requires InStep(f, frames, cuts, cuts, n, [], rx) && n <= Sent(frames, tx) < n + |rx.ring|
    ensures 0 <= Sent(frames, tx) < |cuts|
    ensures var s := tx.Cut(f, room);
            var cuts' := AfterLedger(frames, cuts, tx, s);
            && TxInv(f, frames, cuts', tx.AfterCut(f, room))
            && InStep(f, frames, cuts', cuts', n, [], rx.Take(f, s))
            && |rx.Take(f, s).ring| == |rx.ring|
  {
    CutPiece(f, frames, cuts, tx, room);
    CutStep(f, frames, cuts, tx, room);
    CutSafe(f, frames, cuts, tx, room, n, n, [], rx);
    var j := Sent(frames, tx);
    var s := tx.Cut(f, room);
    var cuts' := AfterLedger(frames, cuts, tx, s);
    forall k | n <= k < n + |rx.ring| && k < |cuts| ensures Got(cuts'[k], rx.Lookup(k % SN_COUNT)) == cuts[k] {
      if k == j {
        WindowFits(n, rx, k);
        LookupOk(frames, cuts, n, rx, k % SN_COUNT);
        CutGrows(frames[j], cuts[j], s, rx.Lookup(k % SN_COUNT));
      }
    }
    TakeInStep(f, frames, cuts', cuts, n, [], rx, j, s);
  }

  /** The frames a PDU still has room for in the window shrink with each frame finished. */
  lemma FramesInStep(frames: seq<Frame>, f: Flags, tx: Sender, room: nat, tx1: Sender, left: nat)
    requires tx.Valid() && tx.CanCut(f, room) && tx1 == tx.AfterCut(f, room)
    requires left == room - HeaderSize(f) - |tx.Cut(f, room).payload|
    ensures Sent(frames, tx1) + FramesIn(tx1.Fill(f, left).1) <= Sent(frames, tx) + FramesIn(tx.Fill(f, room).1)
  {
    var s := tx.Cut(f, room);
    var rest := tx1.Fill(f, left).1;
    assert tx.Fill(f, room).1 == [s] + rest;
    assert ([s] + rest)[1..] == rest;
    if |rest| > 0 { FramesInPositive(rest); }
  }

  lemma {:induction false} FramesInPositive(segs: seq<Segment>)
    requires |segs| > 0
    ensures FramesIn(segs) >= 1
  {
    if |segs| > 1 { FramesInPositive(segs[1..]); }
  }

  lemma StepCutAs(f: Flags, frames: seq<Frame>, cuts: Ledger, tx: Sender, room: nat, n: nat, rx: Receiver)
      returns (cuts1: Ledger, tx1: Sender, rx1: Receiver)
    requires TxInv(f, frames, cuts, tx) && tx.CanCut(f, room)
    requires InStep(f, frames, cuts, cuts, n, [], rx) && n <= Sent(frames, tx) < n + |rx.ring|
    ensures tx1 == tx.AfterCut(f, room) && rx1 == rx.Take(f, tx.Cut(f, room)) && |rx1.ring| == |rx.ring|
    ensures TxInv(f, frames, cuts1, tx1) && InStep(f, frames, cuts1, cuts1, n, [], rx1)
  {
    StepCut(f, frames, cuts, tx, room, n, rx);
    var s := tx.Cut(f, room);
    cuts1, tx1, rx1 := AfterLedger(frames, cuts, tx, s), tx.AfterCut(f, room), rx.Take(f, s);
  }

  lemma {:induction false} StepFill(f: Flags, frames: seq<Frame>, cuts: Ledger, tx: Sender, room: nat, n: nat,
                                    rx: Receiver)
      returns (cuts': Ledger, tx': Sender, rx': Receiver)
    requires TxInv(f, frames, cuts, tx) && InStep(f, frames, cuts, cuts, n, [], rx)
    requires n <= Sent(frames, tx) && Sent(frames, tx) - n + FramesIn(tx.Fill(f, room).1) <= |rx.ring|
    ensures tx' == tx.Fill(f, room).0 && rx' == TakeAll(f, rx, tx.Fill(f, room).1)
    ensures TxInv(f, frames, cuts', tx') && InStep(f, frames, cuts', cuts', n, [], rx') && |rx'.ring| == |rx.ring|
    decreases room
  {
    if tx.CanCut(f, room) {
      FramesInPositive(tx.Fill(f, room).1);
      var cuts1, tx1, rx1 := StepCutAs(f, frames, cuts, tx, room, n, rx);
      var left := FillUnfold(f, tx, room, rx, tx1, rx1);
      FramesInStep(frames, f, tx, room, tx1, left);
      cuts', tx', rx' := StepFill(f, frames, cuts1, tx1, left, n, rx1);
    } else {
      cuts', tx', rx' := cuts, tx, rx;
    }
  }

  /** The first frame not fully received is the one being sent. */
  lemma CaughtUp(f: Flags, frames: seq<Frame>, cuts: Ledger, tx: Sender, n: nat, rx: Receiver)
    requires TxInv(f, frames, cuts, tx) && InStep(f, frames, cuts, cuts, n, [], rx)
    requires n <= |frames| && (n < |frames| ==> !Covers(frames[n], cuts[n]))
    ensures n == Sent(frames, tx)
  {
    if Sent(frames, tx) < |frames| {
      FrontOpen(f, frames, cuts, tx);
    }
  }

  /** The last octet of the frame being sent has not been cut yet. */
  lemma FrontOpen(f: Flags, frames: seq<Frame>, cuts: Ledger, tx: Sender)
    requires TxInv(f, frames, cuts, tx) && 0 <= Sent(frames, tx) < |frames| == |cuts|
    ensures var j := Sent(frames, tx); 0 < |frames[j]| && !Covered(cuts[j], |frames[j]| - 1)
  {
    assert tx.queue[0] == frames[Sent(frames, tx)];
  }

  // ---- reordering of whole frames ----

  function Range(a: nat, b: nat): (ks: seq<nat>)
    requires a <= b
    ensures |ks| == b - a
  {
    seq(b - a, i requires 0 <= i => a + i)
  }

  lemma WholeCons(f: Flags, frames: seq<Frame>, j: nat, j': nat)
    requires j < j' <= |frames|
    ensures WholeSegments(f, frames, Range(j, j')) ==
            [Whole(f, frames[j], j)] + WholeSegments(f, frames, Range(j + 1, j'))
  {
    assert Range(j, j') == [j] + Range(j + 1, j');
  }

  lemma CutIsWhole(f: Flags, frames: seq<Frame>, cuts: Ledger, tx: Sender, room: nat) returns (cuts': Ledger)
    requires !f.segmentation && f.reordering && TxInv(f, frames, cuts, tx) && tx.CanCut(f, room)
    ensures TxInv(f, frames, cuts', tx.AfterCut(f, room))
    ensures 0 <= Sent(frames, tx) < |frames| && Sent(frames, tx.AfterCut(f, room)) == Sent(frames, tx) + 1
    ensures tx.Cut(f, room) == Whole(f, frames[Sent(frames, tx)], Sent(frames, tx))
  {
    CutPiece(f, frames, cuts, tx, room);
    CutStep(f, frames, cuts, tx, room);
    cuts' := AfterLedger(frames, cuts, tx, tx.Cut(f, room));
  }

  lemma {:induction false} FillIsWhole(f: Flags, frames: seq<Frame>, cuts: Ledger, tx: Sender, room: nat)
      returns (cuts': Ledger)
    requires !f.segmentation && f.reordering && TxInv(f, frames, cuts, tx)
    ensures var (tx', segs) := tx.Fill(f, room);
            && TxInv(f, frames, cuts', tx')
            && 0 <= Sent(frames, tx) <= Sent(frames, tx') <= |frames|
            && segs == WholeSegments(f, frames, Range(Sent(frames, tx), Sent(frames, tx')))
    decreases room
  {
    if tx.CanCut(f, room) {
      var cuts1 := CutIsWhole(f, frames, cuts, tx, room);
      var tx1, left, rest := FillFirst(f, tx, room);
      cuts' := FillIsWhole(f, frames, cuts1, tx1, left);
      WholeCons(f, frames, Sent(frames, tx), Sent(frames, tx1.Fill(f, left).0));
    } else {
      cuts' := cuts;
    }
  }

  lemma {:induction false} PrintedLength(f: Flags, segs: seq<Segment>)
    requires AllPrintable(f, segs)
    ensures |segs| <= |PrintAll(f, segs)|
    decreases |segs|
  {
    if |segs| != 0 { PrintedLength(f, segs[1..]); }
  }

  lemma {:induction false} FillSlot(ring: seq<Slot>, i: nat, slot: Slot)
    requires i < |ring|
    ensures ValidSlots(ring[i := slot]) <= ValidSlots(ring) + 1
  {
    if i == 0 {
      assert ring[i := slot][1..] == ring[1..];
    } else {
      assert ring[i := slot][1..] == ring[1..][i - 1 := slot];
      FillSlot(ring[1..], i - 1, slot);
    }
  }

  lemma {:induction false} TakeAllHeld(f: Flags, rx: Receiver, segs: seq<Segment>)
    requires f.reordering
    ensures TakeAll(f, rx, segs).Held() <= rx.Held() + |segs|
    decreases |segs|
  {
    if |segs| != 0 {
      var s := segs[0];
      if rx.FitsRing(s.sn) {
        FillSlot(rx.ring, rx.SlotIndex(s.sn), Slot(true, s.sn, Absorb(rx.Lookup(s.sn), s)));
      }
      TakeAllHeld(f, rx.Take(f, s), segs[1..]);
    }
  }

  lemma {:induction false} NoneValid(ring: seq<Slot>, i: nat)
    requires ValidSlots(ring) == 0 && i < |ring|
    ensures !ring[i].valid
  {
    if i > 0 { NoneValid(ring[1..], i - 1); }
  }

  lemma EmptyMapInv(f: Flags, frames: seq<Frame>, n: nat, rx: Receiver)
    requires f.reordering && NonEmpty(frames) && n <= |frames| < n + SN_COUNT
    requires rx.Held() == 0 && rx.next == n % SN_COUNT && OutputOk(frames, n, [], rx)
    ensures MapInv(f, frames, n, n, {}, [], rx)
  {
    forall i | 0 <= i < |rx.ring| ensures !rx.ring[i].valid {
      NoneValid(rx.ring, i);
    }
  }

  lemma RangeContains(n: nat, j: nat, k: nat)
    requires n <= k < j
    ensures k in Range(n, j)
  {
    assert Range(n, j)[k - n] == k;
  }

  lemma PrefixFrames(f: Flags, frames: seq<Frame>, n: nat, j: nat, rx: Receiver)
    requires n <= j <= |frames| && OutputOk(frames, n, [], rx)
    ensures OutputOk(frames[..j], n, [], rx)
    ensures WholeSegments(f, frames[..j], Range(n, j)) == WholeSegments(f, frames, Range(n, j))
  {
    assert frames[..j][..n] == frames[..n];
  }

  /** One PDU of whole frames passes through completely, whatever the ring size. */
  lemma RelayWhole(f: Flags, frames: seq<Frame>, n: nat, j: nat, rx: Receiver)
    requires f.reordering && NonEmpty(frames) && n <= j <= |frames| && j - n < SN_COUNT
    requires rx.Held() == 0 && rx.next == n % SN_COUNT && OutputOk(frames, n, [], rx)
    ensures var rx' := Receive(f, rx, WholeSegments(f, frames, Range(n, j)));
            rx'.Held() == 0 && rx'.next == j % SN_COUNT && OutputOk(frames, j, [], rx')
  {
    var part := frames[..j];
    var ks := Range(n, j);
    PrefixFrames(f, frames, n, j, rx);
    EmptyMapInv(f, part, n, rx);
    TakeAllWhole(f, part, n, n, {}, [], rx, ks);
    var mid := TakeAll(f, rx, WholeSegments(f, part, ks));
    var n' := FlushWhole(f, part, n, n, {} + Elements(ks), [], mid);
    if n' < j { RangeContains(n, j, n'); }
    assert n' == j;
    TakeAllHeld(f, rx, WholeSegments(f, part, ks));
    assert part[..j] == frames[..j];
    assert Receive(f, rx, WholeSegments(f, frames, ks)) == mid.Flush();
  }

  // ---- events ----

  lemma QueueSending(f: Flags, frames: seq<Frame>, cuts: Ledger, tx: Sender, frame: Frame)
    requires TxInv(f, frames, cuts, tx) && 0 < |frame| && OffsetsFit(f, [frame])
    ensures TxInv(f, frames + [frame], cuts + [{}], tx.Accept(frame))
  {
    assert [frame][0] == frame;
    QueueLedgerOk(f, frames, cuts, frame);
    QueueTxOk(frames, cuts, tx, frame);
  }

  lemma QueueInPlace(c: Setup, w: Pipe, cuts: Ledger, frame: Frame)
    requires InPlace(c, w.queued, cuts, w.tx, w.rx) && 0 < |frame| && OffsetsFit(c.flags, [frame])
    ensures InPlace(c, w.queued + [frame], cuts + [{}], w.tx.Accept(frame), w.rx)
  {
    var n := Sent(w.queued, w.tx);
    QueueSending(c.flags, w.queued, cuts, w.tx, frame);
    assert (w.queued + [frame])[..n] == w.queued[..n];
    if !c.flags.reordering && n == |w.queued| {
      FreshHolds(frame, {});
    }
    if c.flags.reordering && c.flags.segmentation && RingSize(c.reorderSize) {
      QueueSafe(w.queued, cuts, n, n, [], w.rx, frame);
      NewFrameUnfed(c.flags, w.queued, cuts, n, w.rx, frame);
    }
  }

  /** A frame that has just been queued has nothing in the ring, even when the window reaches it. */
  lemma NewFrameUnfed(f: Flags, frames: seq<Frame>, cuts: Ledger, n: nat, rx: Receiver, frame: Frame)
    requires InStep(f, frames, cuts, cuts, n, [], rx)
    ensures FedOk(frames + [frame], cuts + [{}], cuts + [{}], n, rx)
  {
    var frames', cuts' := frames + [frame], cuts + [{}];
    forall k | n <= k < n + |rx.ring| && k < |cuts'| ensures Got(cuts'[k], rx.Lookup(k % SN_COUNT)) == cuts'[k] {
      assert k < |cuts| ==> cuts'[k] == cuts[k];
    }
    assert forall k :: 0 <= k < |cuts| ==> cuts'[k] == cuts[k] && frames'[k] == frames[k];
  }

  lemma RelayShared(c: Setup, frames: seq<Frame>, cuts: Ledger, tx: Sender, rx: Receiver, room: nat, tx': Sender,
                    rx': Receiver)
      returns (cuts': Ledger)
    requires !c.flags.reordering && InPlace(c, frames, cuts, tx, rx)
    requires tx' == tx.Fill(c.flags, room).0 && rx' == TakeAll(c.flags, rx, tx.Fill(c.flags, room).1)
    ensures InPlace(c, frames, cuts', tx', rx')
  {
    hide TxInv, Sharing, OutputOk;
    var tx1, rx1;
    cuts', tx1, rx1 := ShareFill(c.flags, frames, cuts, tx, room, rx);
    NotBeyond(c.flags, frames, cuts', tx');
  }

  lemma NotBeyond(f: Flags, frames: seq<Frame>, cuts: Ledger, tx: Sender)
    requires TxInv(f, frames, cuts, tx)
    ensures 0 <= Sent(frames, tx) <= |frames|
  {}

  lemma RelayFrames(c: Setup, frames: seq<Frame>, cuts: Ledger, tx: Sender, rx: Receiver, room: nat, tx': Sender,
                    rx': Receiver)
      returns (cuts': Ledger)
    requires c.flags.reordering && !c.flags.segmentation && InPlace(c, frames, cuts, tx, rx) && room <= MAX_SIZE
    requires tx' == tx.Fill(c.flags, room).0 && rx' == Receive(c.flags, rx, tx.Fill(c.flags, room).1)
    ensures InPlace(c, frames, cuts', tx', rx')
  {
    cuts' := FillIsWhole(c.flags, frames, cuts, tx, room);
    PrintedLength(c.flags, tx.Fill(c.flags, room).1);
    RelayWhole(c.flags, frames, Sent(frames, tx), Sent(frames, tx'), rx);
  }

  lemma RelaySegments(c: Setup, frames: seq<Frame>, cuts: Ledger, tx: Sender, rx: Receiver, room: nat, tx': Sender,
                      rx': Receiver)
      returns (cuts': Ledger)
    requires c.flags.reordering && c.flags.segmentation && InPlace(c, frames, cuts, tx, rx)
    requires RingSize(c.reorderSize) && FramesIn(tx.Fill(c.flags, room).1) <= c.reorderSize
    requires tx' == tx.Fill(c.flags, room).0 && rx' == Receive(c.flags, rx, tx.Fill(c.flags, room).1)
    ensures InPlace(c, frames, cuts', tx', rx')
  {
    hide TxInv, LedgerOk, FedOk, SlotsInWindow, StoreOk;
    var n := Sent(frames, tx);
    var tx1, mid;
    cuts', tx1, mid := StepFill(c.flags, frames, cuts, tx, room, n, rx);
    var n' := FlushInStep(c.flags, frames, cuts', cuts', n, [], mid);
    CaughtUp(c.flags, frames, cuts', tx', n', rx');
  }

  lemma SenderValid(c: Setup, frames: seq<Frame>, cuts: Ledger, tx: Sender, rx: Receiver)
    requires InPlace(c, frames, cuts, tx, rx)
    ensures tx.Valid()
  {}

  lemma RelayInPlace(c: Setup, w: Pipe, cuts: Ledger, room: nat) returns (cuts': Ledger)
    requires InPlace(c, w.queued, cuts, w.tx, w.rx) && EventOk(c, w, Relay(room))
    ensures var w' := Step(c, w, Relay(room));
            InPlace(c, w'.queued, cuts', w'.tx, w'.rx)
  {
    hide InPlace, TakeAll;
    SenderValid(c, w.queued, cuts, w.tx, w.rx);
    var f := c.flags;
    var (tx', segs) := Write(f, c.minCommit, w.tx, room);
    if |segs| == 0 {
      return cuts;
    }
    ConsumePrinted(f, w.rx, segs);
    assert |PrintAll(f, segs)| >= |Print(f, segs[0])| > 0;
    if !f.reordering {
      cuts' := RelayShared(c, w.queued, cuts, w.tx, w.rx, room, tx', TakeAll(f, w.rx, segs));
    } else if !f.segmentation {
      cuts' := RelayFrames(c, w.queued, cuts, w.tx, w.rx, room, tx', Receive(f, w.rx, segs));
    } else {
      cuts' := RelaySegments(c, w.queued, cuts, w.tx, w.rx, room, tx', Receive(f, w.rx, segs));
    }
  }

  lemma NothingSent(c: Setup, tx: Sender)
    requires tx == Sender([], 0, 0)
    ensures TxInv(c.flags, [], [], tx)
  {}

  lemma NothingShared(tx: Sender, rx: Receiver, r: nat)
    requires tx == Sender([], 0, 0) && rx == Initial(r)
    ensures Sharing([], [], tx, rx)
  {}

  lemma NothingOut(rx: Receiver, r: nat)
    requires rx == Initial(r)
    ensures OutputOk([], 0, [], rx)
  {
    assert AllOctets([][..0]) == [];
  }

  lemma StartInPlace(c: Setup)
    ensures InPlace(c, [], [], Sender([], 0, 0), Initial(c.reorderSize))
  {
    hide TxInv, Sharing, OutputOk, InStep;
    var rx := Initial(c.reorderSize);
    NothingSent(c, Sender([], 0, 0));
    NothingShared(Sender([], 0, 0), rx, c.reorderSize);
    NothingOut(rx, c.reorderSize);
    NoValidSlots(rx.ring);
    if c.flags.reordering && RingSize(c.reorderSize) {
      InitialInStep(c.flags, [], [], c.reorderSize);
      var none: Ledger := seq(0, i => {});
      assert none == [];
    }
  }

  lemma {:induction false} NoValidSlots(ring: seq<Slot>)
    requires forall i :: 0 <= i < |ring| ==> !ring[i].valid
    ensures ValidSlots(ring) == 0
  {
    if |ring| != 0 { NoValidSlots(ring[1..]); }
  }

  lemma EventInPlace(c: Setup, w: Pipe, cuts: Ledger, e: Event, w': Pipe) returns (cuts': Ledger)
    requires InPlace(c, w.queued, cuts, w.tx, w.rx) && EventOk(c, w, e) && w' == Step(c, w, e)
    ensures InPlace(c, w'.queued, cuts', w'.tx, w'.rx)
  {
    hide InPlace;
    match e
    case Queue(frame) =>
      cuts' := cuts;
      if 0 < |frame| {
        QueueInPlace(c, w, cuts, frame);
        cuts' := cuts + [{}];
      }
    case Relay(room) =>
      cuts' := RelayInPlace(c, w, cuts, room);
  }

  lemma {:induction false} RunInPlace(c: Setup, events: seq<Event>, w: Pipe) returns (cuts: Ledger)
    requires Runs(c, events, w)
    ensures InPlace(c, w.queued, cuts, w.tx, w.rx)
    decreases |events|
  {
    hide InPlace, EventOk, Step;
    if |events| == 0 {
      cuts := [];
      StartInPlace(c);
    } else {
      var e := events[|events| - 1];
      var before: Pipe :| Runs(c, events[..|events| - 1], before) && before.tx.Valid()
                          && EventOk(c, before, e) && w == Step(c, before, e);
      cuts := RunInPlace(c, events[..|events| - 1], before);
      cuts := EventInPlace(c, before, cuts, e, w);
    }
  }

  /** After any number of frames and PDUs the receiver's output is exactly the frames that have
      been sent completely; once the sender's queue is empty that is every frame queued. */
  lemma InOrderIdentity(c: Setup, events: seq<Event>, w: Pipe)
    requires Runs(c, events, w)
    ensures |w.tx.queue| <= |w.queued|
    ensures w.rx.completed == AllOctets(w.queued[..|w.queued| - |w.tx.queue|])
    ensures |w.tx.queue| == 0 ==> w.rx.completed == AllOctets(w.queued)
  {
    hide Runs, TxInv, Sharing, InStep;
    var cuts := RunInPlace(c, events, w);
    assert [] + w.rx.completed == w.rx.completed;
    if |w.tx.queue| == 0 { assert w.queued[..|w.queued|] == w.queued; }
  }
}
