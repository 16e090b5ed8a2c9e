/** A whole transfer: the sender's queue is written out, and its segments reach the receiver. */
module PdcpTransfer {
  import opened PdcpSegment
  import opened PdcpSender
  import opened PdcpReceiver
  import opened Reassembly
  import opened PdcpLedger
  import opened PdcpWindow
  import L = PdcpLink

  /** Whatever is new in the ledger is one of the segments. */
  ghost predicate OnlyFrom(a: Ledger, b: Ledger, segs: seq<Segment>) {
    |a| == |b| && forall k, s :: 0 <= k < |b| && s in b[k] ==> s in a[k] || s in segs
  }

  /** The ledger after writing records exactly the segments written. */
  ghost predicate Recorded(f: Flags, frames: seq<Frame>, a: Ledger, b: Ledger, tx: Sender, segs: seq<Segment>) {
    TxInv(f, frames, b, tx) && Grows(a, b) && L.SegmentsIn(b, segs) && OnlyFrom(a, b, segs)
  }

  lemma RecordedBoth(f: Flags, frames: seq<Frame>, a: Ledger, b: Ledger, c: Ledger, tx1: Sender, tx2: Sender,
                     segs: seq<Segment>, rest: seq<Segment>)
    requires Recorded(f, frames, a, b, tx1, segs) && Recorded(f, frames, b, c, tx2, rest)
    ensures Recorded(f, frames, a, c, tx2, segs + rest)
  {
    L.GrowsTransitive(a, b, c);
    L.SegmentsStayIn(b, c, segs);
    forall i | 0 <= i < |segs + rest| ensures InLedger(c, (segs + rest)[i]) {
      if i < |segs| {
        assert InLedger(c, segs[i]);
      } else {
        assert InLedger(c, rest[i - |segs|]);
      }
    }
    OnlyFromBoth(a, b, c, segs, rest);
  }

  lemma OnlyFromBoth(a: Ledger, b: Ledger, c: Ledger, segs: seq<Segment>, rest: seq<Segment>)
    requires OnlyFrom(a, b, segs) && OnlyFrom(b, c, rest)
    ensures OnlyFrom(a, c, segs + rest)
  {
    forall k, s | 0 <= k < |c| && s in c[k] ensures s in a[k] || s in segs + rest {
      if s !in rest {
        assert s in b[k];
      }
    }
  }

  lemma NothingRecorded(f: Flags, frames: seq<Frame>, cuts: Ledger, tx: Sender)
    requires TxInv(f, frames, cuts, tx)
    ensures Recorded(f, frames, cuts, cuts, tx, [])
  {}

  lemma CutRecorded(f: Flags, frames: seq<Frame>, cuts: Ledger, tx: Sender, room: nat) returns (cuts': Ledger)
    requires TxInv(f, frames, cuts, tx) && tx.CanCut(f, room)
    ensures Recorded(f, frames, cuts, cuts', tx.AfterCut(f, room), [tx.Cut(f, room)])
  {
    CutStep(f, frames, cuts, tx, room);
    var s := tx.Cut(f, room);
    cuts' := AfterLedger(frames, cuts, tx, s);
    assert forall t :: t in [s] <==> t == s;
  }

  lemma {:induction false} FillRecorded(f: Flags, frames: seq<Frame>, cuts: Ledger, tx: Sender, room: nat)
      returns (cuts': Ledger)
    requires TxInv(f, frames, cuts, tx)
    ensures Recorded(f, frames, cuts, cuts', tx.Fill(f, room).0, tx.Fill(f, room).1)
    decreases room
  {
    if tx.CanCut(f, room) {
      var cuts1 := CutRecorded(f, frames, cuts, tx, room);
      var tx1, left, rest := FillFirst(f, tx, room);
      cuts' := FillRecorded(f, frames, cuts1, tx1, left);
      RecordedBoth(f, frames, cuts, cuts1, cuts', tx1, tx1.Fill(f, left).0, [tx.Cut(f, room)], rest);
    } else {
      cuts' := cuts;
      NothingRecorded(f, frames, cuts, tx);
    }
  }

  lemma WriteRecorded(f: Flags, frames: seq<Frame>, cuts: Ledger, minCommit: nat, tx: Sender, room: nat)
      returns (cuts': Ledger)
    requires TxInv(f, frames, cuts, tx)
    ensures Recorded(f, frames, cuts, cuts', Write(f, minCommit, tx, room).0, Write(f, minCommit, tx, room).1)
  {
    if WriteStatus(f, minCommit, tx, room) == PdcpSender.Success {
      cuts' := FillRecorded(f, frames, cuts, tx, room);
    } else {
      cuts' := cuts;
      NothingRecorded(f, frames, cuts, tx);
    }
  }

  lemma {:induction false} WritesRecorded(f: Flags, frames: seq<Frame>, cuts: Ledger, minCommit: nat, tx: Sender,
                                          rooms: seq<nat>)
      returns (cuts': Ledger)
    requires TxInv(f, frames, cuts, tx)
    ensures Recorded(f, frames, cuts, cuts', Writes(f, minCommit, tx, rooms).0, Writes(f, minCommit, tx, rooms).1)
    decreases |rooms|
  {
    if |rooms| == 0 {
      cuts' := cuts;
      NothingRecorded(f, frames, cuts, tx);
    } else {
      var (tx1, segs) := Write(f, minCommit, tx, rooms[0]);
      var (tx2, rest) := Writes(f, minCommit, tx1, rooms[1..]);
      var cuts1 := WriteRecorded(f, frames, cuts, minCommit, tx, rooms[0]);
      cuts' := WritesRecorded(f, frames, cuts1, minCommit, tx1, rooms[1..]);
      RecordedBoth(f, frames, cuts, cuts1, cuts', tx1, tx2, segs, rest);
    }
  }

  lemma FreshTxInv(f: Flags, frames: seq<Frame>)
    requires OffsetsFit(f, frames) && forall k :: 0 <= k < |frames| ==> 0 < |frames[k]|
    ensures TxInv(f, frames, seq(|frames|, i => {}), Sender(frames, 0, 0))
  {
    assert frames[0..] == frames;
  }

  /** When a sender has written out its queue, over any calls, its segments are exactly the pieces
      of a ledger in which every frame is covered and no two pieces of a frame overlap. */
  lemma SentInPieces(f: Flags, minCommit: nat, frames: seq<Frame>, rooms: seq<nat>) returns (cuts: Ledger)
    requires OffsetsFit(f, frames) && forall k :: 0 <= k < |frames| ==> 0 < |frames[k]|
    requires Sender(frames, 0, 0).Valid() && |Writes(f, minCommit, Sender(frames, 0, 0), rooms).0.queue| == 0
    ensures LedgerOk(f, frames, cuts) && forall k :: 0 <= k < |frames| ==> Covers(frames[k], cuts[k])
    ensures forall s :: s in Writes(f, minCommit, Sender(frames, 0, 0), rooms).1 <==> InLedger(cuts, s)
  {
    var none: Ledger := seq(|frames|, i => {});
    FreshTxInv(f, frames);
    cuts := WritesRecorded(f, frames, none, minCommit, Sender(frames, 0, 0), rooms);
    ExactlySegments(none, cuts, Writes(f, minCommit, Sender(frames, 0, 0), rooms).1);
  }

  lemma ExactlySegments(none: Ledger, cuts: Ledger, segs: seq<Segment>)
    requires (forall k :: 0 <= k < |none| ==> none[k] == {}) && OnlyFrom(none, cuts, segs) && L.SegmentsIn(cuts, segs)
    ensures forall s :: s in segs <==> InLedger(cuts, s)
  {
    forall s | s in segs ensures InLedger(cuts, s) {
      var i :| 0 <= i < |segs| && segs[i] == s;
      assert InLedger(cuts, segs[i]);
    }
  }

  /** If all of the pieces then arrive within the window, in any order and with repetitions, the
      receiver has handed out every frame, in order, and nothing else. */
  lemma TransferComplete(f: Flags, minCommit: nat, frames: seq<Frame>, rooms: seq<nat>, r: nat) returns (cuts: Ledger)
    requires f.reordering && RingSize(r)
    requires OffsetsFit(f, frames) && forall k :: 0 <= k < |frames| ==> 0 < |frames[k]|
    requires Sender(frames, 0, 0).Valid() && |Writes(f, minCommit, Sender(frames, 0, 0), rooms).0.queue| == 0
    ensures |cuts| == |frames|
    ensures forall s :: s in Writes(f, minCommit, Sender(frames, 0, 0), rooms).1 <==> InLedger(cuts, s)
    ensures forall pdus ::
              && ArriveInWindow(f, frames, cuts, Initial(r), pdus)
              && (forall k :: 0 <= k < |frames| ==> AllArrived(cuts, pdus, k)) ==>
              ReceiveAll(f, Initial(r), pdus).completed == AllOctets(frames)
  {
    cuts := SentInPieces(f, minCommit, frames, rooms);
    forall pdus |
      && ArriveInWindow(f, frames, cuts, Initial(r), pdus)
      && (forall k :: 0 <= k < |frames| ==> AllArrived(cuts, pdus, k))
      ensures ReceiveAll(f, Initial(r), pdus).completed == AllOctets(frames)
    {
      WindowLiveness(f, frames, cuts, r, pdus);
    }
  }
}
