/** A frame split between ring and overflow list: how it comes about, and what a repeated piece does. */
module PdcpSplit {
  import opened Bytes
  import opened PdcpSegment
  import opened PdcpSender
  import opened PdcpReceiver
  import opened Reassembly
  import opened PdcpLedger
  import opened PdcpWindow
  import opened PdcpPlaces

  // ---- two frames, each in two pieces, and a ring of one slot ----

  const BOTH: Flags := Flags(true, true)

  /** Octet `i` of the two-octet frame number `k`. */
  function Half(k: word, i: word): Segment
    requires i < 2
  {
    Segment(i == 1, k, i, [i])
  }

  const HALVED: seq<Frame> := [[0, 1], [0, 1]]

  function HalvedCuts(): Ledger {
    [{Half(0, 0), Half(0, 1)}, {Half(1, 0), Half(1, 1)}]
  }

  /** The second frame's first half comes while the first frame holds the slot, and comes again at the end. */
  function Interleaved(): (pdus: seq<Pdu>)
    ensures |pdus| == 5
  {
    [[Piece(0, Half(0, 0))], [Piece(1, Half(1, 0))], [Piece(0, Half(0, 1))], [Piece(1, Half(1, 1))],
     [Piece(1, Half(1, 0))]]
  }

  lemma HalvedOk()
    ensures LedgerOk(BOTH, HALVED, HalvedCuts()) && Genuine(HalvedCuts(), Interleaved())
    ensures forall k :: 0 <= k < 2 ==> Covers(HALVED[k], HalvedCuts()[k])
  {
    var cuts := HalvedCuts();
    forall k | 0 <= k < 2 ensures CutOf(HALVED[k], cuts[k]) && Covers(HALVED[k], cuts[k]) {
      assert Half(k, 0) in cuts[k] && Half(k, 1) in cuts[k];
      assert Within(Half(k, 0), 0) && Within(Half(k, 1), 1);
    }
  }

  lemma FourOnce()
    ensures Once(Interleaved()[..4])
  {
    var pdus := Interleaved()[..4];
    assert forall i :: 0 <= i < 4 ==> |pdus[i]| == 1;
  }

  lemma FourArrive()
    ensures forall k :: 0 <= k < 2 ==> AllArrived(HalvedCuts(), Interleaved()[..4], k)
  {
    var pdus := Interleaved()[..4];
    assert Piece(0, Half(0, 0)) in pdus[0] && Piece(1, Half(1, 0)) in pdus[1];
    assert Piece(0, Half(0, 1)) in pdus[2] && Piece(1, Half(1, 1)) in pdus[3];
    assert Arrived(pdus, 0, Half(0, 0)) && Arrived(pdus, 1, Half(1, 0));
    assert Arrived(pdus, 0, Half(0, 1)) && Arrived(pdus, 1, Half(1, 1));
  }

  // ---- the states ----

  function OneHalf(k: word, i: word): State
    requires i < 2
  {
    Absorb(FRESH, Half(k, i))
  }

  /** After half `i` and then the other one. */
  function BothHalves(k: word, i: word): State
    requires i < 2
  {
    Absorb(OneHalf(k, i), Half(k, 1 - i))
  }

  lemma HalfStates(k: word, i: word)
    requires i < 2
    ensures !OneHalf(k, i).complete && BothHalves(k, i).complete
    ensures BothHalves(k, i).buffer == Octets([0, 1])
  {}

  /** What the one slot and the overflow list hold after `n` PDUs, and what has been handed out. */
  function After(n: nat): Receiver
    requires n <= 5
  {
    var out, size := BothHalves(0, 0).buffer, BothHalves(0, 0).expected;
    var waits := [Pending(1, OneHalf(1, 0))];
    if n == 0 then Initial(1)
    else if n == 1 then Receiver([Slot(true, 0, OneHalf(0, 0))], [], 0, [], 0)
    else if n == 2 then Receiver([Slot(true, 0, OneHalf(0, 0))], waits, 0, [], 0)
    else if n == 3 then Receiver([Slot(false, 0, BothHalves(0, 0).(buffer := []))], waits, 1, [out], size)
    else if n == 4 then Receiver([Slot(true, 1, OneHalf(1, 1))], waits, 1, [out], size)
    else Receiver([Slot(false, 1, BothHalves(1, 1).(buffer := []))], waits, 2,
                  [out, BothHalves(1, 1).buffer], size + BothHalves(1, 1).expected)
  }

  lemma Waits(rx: Receiver)
    requires rx.overflow == [Pending(1, OneHalf(1, 0))] || rx.overflow == []
    ensures !rx.OverflowReady()
  {
    HalfStates(1, 0);
  }

  lemma First()
    ensures After(0).Take(BOTH, Half(0, 0)).Flush() == After(1)
  {
    hide Absorb;
    HalfStates(0, 0);
    Waits(After(1));
  }

  lemma Second()
    ensures After(1).Take(BOTH, Half(1, 0)).Flush() == After(2)
  {
    hide Absorb;
    HalfStates(0, 0);
    Waits(After(2));
  }

  lemma Third()
    ensures After(2).Take(BOTH, Half(0, 1)).Flush() == After(3)
  {
    hide Absorb;
    HalfStates(0, 0);
    var full := After(2).Take(BOTH, Half(0, 1));
    assert full.RingReady() && full.AdvanceRing() == After(3);
    Waits(After(3));
  }

  lemma Fourth()
    ensures After(3).Take(BOTH, Half(1, 1)).Flush() == After(4)
  {
    hide Absorb;
    HalfStates(1, 1);
    Waits(After(4));
  }

  lemma Fifth()
    ensures After(4).Take(BOTH, Half(1, 0)).Flush() == After(5)
  {
    hide Absorb;
    HalfStates(1, 1);
    var full := After(4).Take(BOTH, Half(1, 0));
    assert full.RingReady() && full.AdvanceRing() == After(5);
    Waits(After(5));
  }

  /** Receiving the n-th PDU, which is one segment. */
  lemma ReceiveOne(n: nat)
    requires n < 5 && ReceiveAll(BOTH, Initial(1), Interleaved()[..n]) == After(n)
    ensures ReceiveAll(BOTH, Initial(1), Interleaved()[..n + 1]) ==
            After(n).Take(BOTH, Interleaved()[n][0].seg).Flush()
  {
    hide After, Half, Initial;
    var pdus := Interleaved();
    assert pdus[..n + 1][..n] == pdus[..n];
    SegmentsTail(pdus[n]);
    var rx := After(n).Take(BOTH, pdus[n][0].seg);
    assert TakeAll(BOTH, rx, Segments(pdus[n])[1..]) == rx;
  }

  lemma {:induction false} Reaches(n: nat)
    requires n <= 5
    ensures ReceiveAll(BOTH, Initial(1), Interleaved()[..n]) == After(n)
  {
    hide Half, OneHalf, BothHalves;
    if n > 0 {
      Reaches(n - 1);
      ReceiveOne(n - 1);
      match n
      case 1 => First();
      case 2 => Second();
      case 3 => Third();
      case 4 => Fourth();
      case 5 => Fifth();
    }
  }

  // ---- the runs ----

  /** Every piece has arrived exactly once, and the second frame is still not handed out: the slot holds
      its second half and the overflow list its first. */
  lemma SplitInTwo()
    ensures LedgerOk(BOTH, HALVED, HalvedCuts()) && Once(Interleaved()[..4])
    ensures forall k :: 0 <= k < 2 ==> AllArrived(HalvedCuts(), Interleaved()[..4], k)
    ensures var rx := ReceiveAll(BOTH, Initial(1), Interleaved()[..4]);
            && rx.completed == AllOctets(HALVED[..1])
            && rx.ring == [Slot(true, 1, OneHalf(1, 1))] && rx.overflow == [Pending(1, OneHalf(1, 0))]
  {
    hide Once, Covers, LedgerOk, AllArrived, ReceiveAll, OneHalf, BothHalves, Interleaved;
    HalvedOk();
    FourOnce();
    FourArrive();
    Reaches(4);
    HalfStates(0, 0);
  }

  /** No piece arrives after its frame has been handed out. */
  ghost predicate NoneLate(f: Flags, rx: Receiver, pdus: seq<Pdu>) {
    forall i, j :: 0 <= i < |pdus| && 0 <= j < |pdus[i]| ==>
      |ReceiveAll(f, rx, pdus[..i]).completed| <= pdus[i][j].frame
  }

  lemma FiveNotLate()
    ensures NoneLate(BOTH, Initial(1), Interleaved())
  {
    var pdus := Interleaved();
    forall i, j | 0 <= i < 5 && 0 <= j < |pdus[i]|
      ensures |ReceiveAll(BOTH, Initial(1), pdus[..i]).completed| <= pdus[i][j].frame
    {
      Reaches(i);
    }
  }

  /** A repeat of the first half, before anything is late, completes the slot: both frames are handed out.
      The overflow list still holds its half. */
  lemma RepeatDelivers()
    ensures NoneLate(BOTH, Initial(1), Interleaved())
    ensures var rx := ReceiveAll(BOTH, Initial(1), Interleaved());
            rx.completed == AllOctets(HALVED) && rx.overflow == [Pending(1, OneHalf(1, 0))]
  {
    hide NoneLate, ReceiveAll, OneHalf, BothHalves, Interleaved;
    FiveNotLate();
    Reaches(5);
    assert Interleaved()[..5] == Interleaved();
    HalfStates(0, 0);
    HalfStates(1, 1);
  }
}
