/** Late copies: with 65536 frames a copy of a delivered one is handed out again when its SN comes
    round, so the output is a prefix of what was queued in all runs exactly below that number. */
module PdcpLate {
  import opened Bytes
  import opened PdcpSegment
  import opened PdcpSender
  import opened PdcpReceiver
  import opened Reassembly
  import opened PdcpLedger
  import opened PdcpUnsegmented
  import I = PdcpInOrder
  import L = PdcpLink
  import W = PdcpWindow

  // ---- the witness ----

  /** 65536 frames of one octet, of which only the first holds a one. */
  function Cycle(): (frames: seq<Frame>)
    ensures |frames| == SN_COUNT && forall k :: 0 <= k < SN_COUNT ==> frames[k] == if k == 0 then [1] else [0]
  {
    seq(SN_COUNT, k => if k == 0 then [1] else [0])
  }

  /** The same with one more frame, which has the SN and the octet of the first. */
  function Longer(): (frames: seq<Frame>)
    ensures |frames| == SN_COUNT + 1 && NonEmpty(frames) && frames[0] == frames[SN_COUNT] == [1]
    ensures forall k :: 0 <= k < SN_COUNT ==> frames[k] == Cycle()[k]
  {
    Cycle() + [[1]]
  }

  /** The frames from number two on. */
  function Others(): (ks: seq<nat>)
    ensures |ks| == SN_COUNT - 2 && forall i :: 0 <= i < |ks| ==> ks[i] == i + 2
  {
    seq(SN_COUNT - 2, i => i + 2)
  }

  /** Frames 0 and 1, `again`, and then all others, one to a PDU. */
  function Order(again: nat): (ks: seq<nat>)
    ensures |ks| == SN_COUNT + 1 && ks[2] == again
    ensures forall i :: 0 <= i < |ks| ==> ks[i] == if i < 2 then i else if i == 2 then again else i - 1
  {
    [0, 1, again] + Others()
  }

  function Singles(ks: seq<nat>): (pdus: seq<seq<nat>>)
    ensures |pdus| == |ks| && forall i :: 0 <= i < |ks| ==> pdus[i] == [ks[i]]
  {
    seq(|ks|, i requires 0 <= i < |ks| => [ks[i]])
  }

  lemma SinglesKnown(frames: seq<Frame>, lo: nat, ks: seq<nat>)
    requires forall i :: 0 <= i < |ks| ==> lo <= ks[i] < |frames|
    ensures AllKnown(frames, Singles(ks)) && AllFrom(lo, Singles(ks))
  {}

  // ---- a late copy of frame 0 is an early copy of the frame one cycle later ----

  lemma {:induction false} SameSegments(f: Flags, frames: seq<Frame>, pdus: seq<seq<nat>>,
                                        frames': seq<Frame>, pdus': seq<seq<nat>>, rx: Receiver)
    requires AllKnown(frames, pdus) && AllKnown(frames', pdus') && |pdus| == |pdus'|
    requires forall i :: 0 <= i < |pdus| ==> WholeSegments(f, frames, pdus[i]) == WholeSegments(f, frames', pdus'[i])
    ensures ReceiveWhole(f, frames, rx, pdus) == ReceiveWhole(f, frames', rx, pdus')
    decreases |pdus|
  {
    hide WholeSegments;
    if |pdus| > 0 {
      SameSegments(f, frames, pdus[..|pdus| - 1], frames', pdus'[..|pdus'| - 1], rx);
    }
  }

  lemma LateIsEarly(f: Flags, rx: Receiver)
    requires f.reordering
    ensures AllKnown(Cycle(), Singles(Order(0))) && AllKnown(Longer(), Singles(Order(SN_COUNT)))
    ensures ReceiveWhole(f, Cycle(), rx, Singles(Order(0))) == ReceiveWhole(f, Longer(), rx, Singles(Order(SN_COUNT)))
  {
    hide ReceiveWhole, Cycle, Longer, Order, Singles;
    var a, b := Order(0), Order(SN_COUNT);
    SinglesKnown(Cycle(), 0, a);
    SinglesKnown(Longer(), 0, b);
    forall i | 0 <= i < |a|
      ensures WholeSegments(f, Cycle(), Singles(a)[i]) == WholeSegments(f, Longer(), Singles(b)[i])
    {
      assert Whole(f, Cycle()[a[i]], a[i]) == Whole(f, Longer()[b[i]], b[i]);
    }
    SameSegments(f, Cycle(), Singles(a), Longer(), Singles(b), rx);
  }

  // ---- and the early copy is handed out when its turn comes ----

  lemma {:induction false} ReceiveAppend(f: Flags, frames: seq<Frame>, rx: Receiver, a: seq<seq<nat>>, b: seq<seq<nat>>)
    requires AllKnown(frames, a) && AllKnown(frames, b) && AllKnown(frames, a + b)
    ensures ReceiveWhole(f, frames, rx, a + b) == ReceiveWhole(f, frames, ReceiveWhole(f, frames, rx, a), b)
    decreases |b|
  {
    if |b| == 0 {
      assert a + b == a;
    } else {
      assert (a + b)[..|a + b| - 1] == a + b[..|b| - 1];
      ReceiveAppend(f, frames, rx, a, b[..|b| - 1]);
    }
  }

  lemma {:induction false} SinglesArrived(ks: seq<nat>)
    ensures forall k :: k in ks ==> k in ArrivedSet(Singles(ks))
    decreases |ks|
  {
    if |ks| > 0 {
      var before := ks[..|ks| - 1];
      SinglesArrived(before);
      assert Singles(ks)[..|ks| - 1] == Singles(before);
      assert ks == before + [ks[|ks| - 1]];
    }
  }

  /** One frame after the other passes through at once. */
  lemma PassesOne(f: Flags, frames: seq<Frame>, n: nat, rx: Receiver)
    requires f.reordering && NonEmpty(frames) && n < |frames|
    requires rx.Held() == 0 && rx.next == n % SN_COUNT && OutputOk(frames, n, [], rx)
    ensures var rx' := W.Receive(f, rx, WholeSegments(f, frames, [n]));
            rx'.Held() == 0 && rx'.next == (n + 1) % SN_COUNT && OutputOk(frames, n + 1, [], rx')
  {
    hide OutputOk, W.Receive, WholeSegments, NonEmpty;
    I.RelayWhole(f, frames, n, n + 1, rx);
    assert I.Range(n, n + 1) == [n];
  }

  lemma StartEmpty(frames: seq<Frame>, r: nat)
    ensures Initial(r).Held() == 0 && Initial(r).next == 0 && OutputOk(frames, 0, [], Initial(r))
  {
    I.NoValidSlots(Initial(r).ring);
    assert AllOctets(frames[..0]) == [];
  }

  /** Frames 0 and 1 leave an empty receiver behind. */
  lemma TwoPassed(f: Flags, r: nat) returns (rx: Receiver)
    requires f.reordering
    ensures AllKnown(Longer(), [[0], [1]]) && rx == ReceiveWhole(f, Longer(), Initial(r), [[0], [1]])
    ensures MapInv(f, Longer(), 2, 2, {}, [], rx)
  {
    hide Longer, OutputOk, W.Receive, Initial, WholeSegments;
    var frames := Longer();
    StartEmpty(frames, r);
    PassesOne(f, frames, 0, Initial(r));
    var rx1 := W.Receive(f, Initial(r), WholeSegments(f, frames, [0]));
    PassesOne(f, frames, 1, rx1);
    rx := W.Receive(f, rx1, WholeSegments(f, frames, [1]));
    I.EmptyMapInv(f, frames, 2, rx);
    assert [[0], [1]][..1] == [[0]] && [[0]][..0] == [];
    assert ReceiveWhole(f, frames, Initial(r), [[0]]) == rx1;
  }

  /** All 65537 frames of the longer list come out. */
  lemma AllOfLonger(f: Flags, r: nat)
    requires f.reordering
    ensures AllKnown(Longer(), Singles(Order(SN_COUNT)))
    ensures ReceiveWhole(f, Longer(), Initial(r), Singles(Order(SN_COUNT))).completed == AllOctets(Longer())
  {
    hide Longer, ReceiveWhole, WholeSegments, Initial, ArrivedSet;
    var frames, ks := Longer(), [SN_COUNT] + Others();
    SinglesKnown(frames, 0, Order(SN_COUNT));
    SinglesKnown(frames, 2, ks);
    var rx := TwoPassed(f, r);
    var n := WholeRun(f, frames, 2, 2, {}, rx, Singles(ks));
    LongerArrived(ks);
    assert Singles(Order(SN_COUNT)) == [[0], [1]] + Singles(ks);
    ReceiveAppend(f, frames, Initial(r), [[0], [1]], Singles(ks));
    AllOut(f, frames, n, {} + ArrivedSet(Singles(ks)), ReceiveWhole(f, frames, rx, Singles(ks)));
  }

  lemma LongerArrived(ks: seq<nat>)
    requires ks == [SN_COUNT] + Others()
    ensures forall k :: 2 <= k <= SN_COUNT ==> k in {} + ArrivedSet(Singles(ks))
  {
    hide ArrivedSet, Singles;
    SinglesArrived(ks);
    forall k | 2 <= k <= SN_COUNT ensures k in ks {
      assert ks[if k == SN_COUNT then 0 else k - 1] == k;
    }
  }

  lemma AllOut(f: Flags, frames: seq<Frame>, n: nat, arrived: set<nat>, rx: Receiver)
    requires MapInv(f, frames, 2, n, arrived, [], rx) && |frames| == SN_COUNT + 1 && (n < 2 || SN_COUNT < n)
    ensures rx.completed == AllOctets(frames)
  {
    hide StoreOk, EntriesOk, ArrivedOk, LedgerOk, NonEmpty;
    assert [] + rx.completed == rx.completed;
    assert frames[..|frames|] == frames;
  }

  /** 65536 frames and one late copy of the first: for every ring size and with or without
      segmentation the receiver hands out that frame again, after all others. */
  lemma LateCopyDelivered(f: Flags, r: nat)
    requires f.reordering
    ensures AllKnown(Cycle(), Singles(Order(0)))
    ensures ReceiveWhole(f, Cycle(), Initial(r), Singles(Order(0))).completed ==
            AllOctets(Cycle()) + [Octets(Cycle()[0])]
  {
    hide Cycle, ReceiveWhole, Order, Singles;
    LateIsEarly(f, Initial(r));
    AllOfLonger(f, r);
    assert Longer() == Cycle() + [Cycle()[0]];
  }

  // ---- exactly when the output is always a prefix ----

  /** For at most `n` frames and any arrivals of whole ones. */
  ghost predicate AlwaysPrefix(f: Flags, r: nat, n: nat) {
    forall frames, pdus :: NonEmpty(frames) && |frames| <= n && AllKnown(frames, pdus) ==>
      ReceiveWhole(f, frames, Initial(r), pdus).completed <= AllOctets(frames)
  }

  lemma PrefixOctets(frames: seq<Frame>, n: nat)
    requires n <= |frames|
    ensures AllOctets(frames[..n]) <= AllOctets(frames)
  {}

  /** The receiver's output is a prefix of the frames, whatever arrives, exactly for fewer than 65536. */
  lemma PrefixExactly(f: Flags, r: nat, n: nat)
    requires f.reordering
    ensures AlwaysPrefix(f, r, n) <==> n < SN_COUNT
  {
    hide ReceiveWhole, Cycle, AllOctets;
    if n < SN_COUNT {
      forall frames, pdus | NonEmpty(frames) && |frames| <= n && AllKnown(frames, pdus)
        ensures ReceiveWhole(f, frames, Initial(r), pdus).completed <= AllOctets(frames)
      {
        DeliversArrivedPrefix(f, frames, r, pdus);
        PrefixOctets(frames, |ReceiveWhole(f, frames, Initial(r), pdus).completed|);
      }
    } else {
      LateCopyDelivered(f, r);
      assert NonEmpty(Cycle()) && |Cycle()| <= n;
    }
  }

  // ---- the same over the link ----

  const ROOM: nat := MAX_SIZE

  /** Each of the first `m` frames is queued and sent in a PDU of its own. */
  function OneByOne(m: nat): (events: seq<L.Event>)
    requires m <= SN_COUNT
    ensures L.AllUsable(events)
  {
    if m == 0 then [] else OneByOne(m - 1) + [L.Queue(Cycle()[m - 1]), L.Transmit(ROOM)]
  }

  function OnePdu(f: Flags, frame: Frame, k: nat): seq<byte>
    requires |frame| == 1
  {
    PrintAll(f, [Whole(f, frame, k)])
  }

  /** Both ends after that, when `rx` is what the receiver has become. */
  function Sent(c: Setup, m: nat, rx: Receiver): L.World
    requires m <= SN_COUNT
  {
    L.World(Sender([], 0, m % SN_COUNT), rx, Cycle()[..m],
            seq(m, k requires 0 <= k < m => OnePdu(c.flags, Cycle()[k], k)), [])
  }

  lemma FillOne(f: Flags, frame: Frame, k: nat)
    requires f.reordering && |frame| == 1
    ensures var tx := Sender([frame], 0, k % SN_COUNT);
            tx.Valid() && tx.Fill(f, ROOM) == (Sender([], 0, (k + 1) % SN_COUNT), [Whole(f, frame, k)])
  {
    var tx := Sender([frame], 0, k % SN_COUNT);
    hide Printable, PrintAll;
    assert tx.CanCut(f, ROOM);
    assert tx.Cut(f, ROOM) == Whole(f, frame, k);
    var tx1, left, rest := FillFirst(f, tx, ROOM);
    assert tx1 == Sender([], 0, (k + 1) % SN_COUNT) && tx1.Fill(f, left) == (tx1, []);
    assert [Whole(f, frame, k)] + [] == [Whole(f, frame, k)];
  }

  lemma TransmitsOne(c: Setup, w: L.World, frame: Frame, m: nat)
    requires c.flags.reordering && c.minCommit <= MAX_SIZE && |frame| == 1
    requires w.tx == Sender([frame], 0, m % SN_COUNT) && L.Consistent(c.flags, w)
    ensures L.Step(c, w, L.Transmit(ROOM)) ==
            w.(tx := Sender([], 0, (m + 1) % SN_COUNT), pdus := w.pdus + [OnePdu(c.flags, frame, m)])
  {
    hide Whole, Sender.Fill, L.Consistent, PrintAll;
    FillOne(c.flags, frame, m);
  }

  lemma SendsOne(c: Setup, m: nat, w: L.World)
    requires c.flags.reordering && c.minCommit <= MAX_SIZE && m < SN_COUNT && w == Sent(c, m, Initial(c.reorderSize))
    requires L.Consistent(c.flags, w)
    ensures L.Step(c, L.Step(c, w, L.Queue(Cycle()[m])), L.Transmit(ROOM)) == Sent(c, m + 1, Initial(c.reorderSize))
  {
    hide Cycle, OnePdu, Sender.Fill, L.Consistent;
    var frame := Cycle()[m];
    var w1 := L.Step(c, w, L.Queue(frame));
    assert w1.tx == Sender([frame], 0, m % SN_COUNT) by { assert [] + [frame] == [frame]; }
    TransmitsOne(c, w1, frame, m);
    var w2 := Sent(c, m + 1, Initial(c.reorderSize));
    assert w2.queued == w1.queued && w2.pdus == w1.pdus + [OnePdu(c.flags, frame, m)];
  }

  lemma TwoEvents(c: Setup, before: seq<L.Event>, q: L.Event, t: L.Event, events: seq<L.Event>)
    requires L.AllUsable(before) && L.Usable(q) && L.Usable(t) && events == before + [q, t]
    ensures L.AllUsable(events) && L.Run(c, events) == L.Step(c, L.Step(c, L.Run(c, before), q), t)
    ensures L.Frames(events) == L.Frames(before) + L.Queued(q) + L.Queued(t)
  {
    hide L.Step, L.Queued, L.Usable;
    assert events[..|events| - 1] == before + [q] && (before + [q])[..|before|] == before;
  }

  lemma {:induction false} AllSent(c: Setup, m: nat)
    requires c.flags.reordering && c.minCommit <= MAX_SIZE && m <= SN_COUNT
    ensures L.Run(c, OneByOne(m)) == Sent(c, m, Initial(c.reorderSize))
    ensures L.Frames(OneByOne(m)) == Cycle()[..m]
  {
    hide Cycle, L.Step, L.Run, L.Frames, Sent;
    if m == 0 {
      NoneSent(c);
    } else {
      AllSent(c, m - 1);
      var before, q, t := OneByOne(m - 1), L.Queue(Cycle()[m - 1]), L.Transmit(ROOM);
      TwoEvents(c, before, q, t, OneByOne(m));
      SendsOne(c, m - 1, L.Run(c, before));
      assert Cycle()[..m] == Cycle()[..m - 1] + [Cycle()[m - 1]];
    }
  }

  lemma NoneSent(c: Setup)
    ensures L.Run(c, []) == Sent(c, 0, Initial(c.reorderSize)) && L.Frames([]) == Cycle()[..0]
  {}

  function Arrivals(ks: seq<nat>): (events: seq<L.Event>)
    ensures |events| == |ks| && L.AllUsable(events)
  {
    seq(|ks|, i requires 0 <= i < |ks| => L.Arrive(ks[i]))
  }

  lemma ArrivesOne(c: Setup, k: nat, rx: Receiver, w: L.World)
    requires c.flags.reordering && k < SN_COUNT && w == Sent(c, SN_COUNT, rx) && L.Consistent(c.flags, w)
    ensures L.Step(c, w, L.Arrive(k)) ==
            Sent(c, SN_COUNT, W.Receive(c.flags, rx, WholeSegments(c.flags, Cycle(), [k])))
  {
    hide W.Receive;
    var segs := [Whole(c.flags, Cycle()[k], k)];
    assert WholeSegments(c.flags, Cycle(), [k]) == segs;
    assert w.pdus[k] == PrintAll(c.flags, segs);
    W.ReceiveIsOnData(c.flags, rx, segs);
  }

  lemma {:induction false} AllArrive(c: Setup, ks: seq<nat>)
    requires c.flags.reordering && c.minCommit <= MAX_SIZE && Known(Cycle(), ks)
    ensures AllKnown(Cycle(), Singles(ks))
    ensures L.AllUsable(OneByOne(SN_COUNT) + Arrivals(ks))
    ensures L.Run(c, OneByOne(SN_COUNT) + Arrivals(ks)) ==
            Sent(c, SN_COUNT, ReceiveWhole(c.flags, Cycle(), Initial(c.reorderSize), Singles(ks)))
    ensures L.Frames(OneByOne(SN_COUNT) + Arrivals(ks)) == Cycle()
    decreases |ks|
  {
    hide Cycle, OneByOne, Sent, W.Receive, WholeSegments, L.Step;
    var sent := OneByOne(SN_COUNT);
    var events := sent + Arrivals(ks);
    if |ks| == 0 {
      assert events == sent;
      AllSent(c, SN_COUNT);
      assert Cycle()[..SN_COUNT] == Cycle();
    } else {
      var before, k := ks[..|ks| - 1], ks[|ks| - 1];
      AllArrive(c, before);
      assert events[..|events| - 1] == sent + Arrivals(before) && events[|events| - 1] == L.Arrive(k);
      assert Singles(ks)[..|ks| - 1] == Singles(before);
      ArrivesOne(c, k, ReceiveWhole(c.flags, Cycle(), Initial(c.reorderSize), Singles(before)),
                 L.Run(c, sent + Arrivals(before)));
    }
  }

  /** When no buffer is ever large enough to be committed, nothing is sent. */
  lemma {:induction false} NothingSent(c: Setup, events: seq<L.Event>)
    requires L.AllUsable(events) && c.minCommit > MAX_SIZE
    ensures var w := L.Run(c, events); w.rx == Initial(c.reorderSize) && w.pdus == [] && w.popped == []
    decreases |events|
  {
    if |events| > 0 {
      NothingSent(c, events[..|events| - 1]);
    }
  }

  /** For at most `n` frames queued and any events of the link. */
  ghost predicate LinkAlwaysPrefix(c: Setup, n: nat) {
    forall events :: L.AllUsable(events) && OffsetsFit(c.flags, L.Frames(events)) && |L.Frames(events)| <= n ==>
      L.Output(L.Run(c, events)) <= AllOctets(L.Frames(events))
  }

  /** Over the whole link, with loss, repetition and reordering of PDUs: the output is always a prefix of
      the frames queued exactly if fewer than 65536 are, or no PDU can be sent at all. */
  lemma LinkPrefixExactly(c: Setup, n: nat)
    requires c.flags.reordering
    ensures LinkAlwaysPrefix(c, n) <==> n < SN_COUNT || c.minCommit > MAX_SIZE
  {
    hide Cycle, Order, OneByOne, Arrivals, ReceiveWhole, L.Run, L.Frames, AllOctets;
    if n < SN_COUNT || c.minCommit > MAX_SIZE {
      forall events | L.AllUsable(events) && OffsetsFit(c.flags, L.Frames(events)) && |L.Frames(events)| <= n
        ensures L.Output(L.Run(c, events)) <= AllOctets(L.Frames(events))
      {
        if n < SN_COUNT {
          L.PrefixSafety(c, events);
          PrefixOctets(L.Frames(events), |L.Output(L.Run(c, events))|);
        } else {
          NothingSent(c, events);
        }
      }
    } else {
      var ks := Order(0);
      AllArrive(c, ks);
      LateCopyDelivered(c.flags, c.reorderSize);
      var events := OneByOne(SN_COUNT) + Arrivals(ks);
      assert OffsetsFit(c.flags, L.Frames(events)) && |L.Frames(events)| <= n;
      assert L.Output(L.Run(c, events)) == AllOctets(Cycle()) + [Octets(Cycle()[0])];
    }
  }
}
