/** Frames that travel whole: ring and overflow list together behave as one map from SN to
    frame, whatever the ring size and however far apart or often the frames arrive. */
module PdcpUnsegmented {
  import opened Bytes
  import opened PdcpSegment
  import opened PdcpSender
  import opened PdcpReceiver
  import opened Reassembly
  import opened PdcpLedger
  import PdcpWindow

  /** The one segment that carries all of frame number `k`. */
  function Whole(f: Flags, frame: Frame, k: nat): Segment {
    Segment(true, SnFor(f, k), 0, frame)
  }

  function WholeLedger(f: Flags, frames: seq<Frame>): (cuts: Ledger)
    ensures |cuts| == |frames|
  {
    seq(|frames|, k requires 0 <= k < |frames| => {Whole(f, frames[k], k)})
  }

  predicate NonEmpty(frames: seq<Frame>) {
    forall k :: 0 <= k < |frames| ==> 0 < |frames[k]|
  }

  lemma WholeLedgerOk(f: Flags, frames: seq<Frame>)
    requires NonEmpty(frames)
    ensures LedgerOk(f, frames, WholeLedger(f, frames))
  {}

  /** A state that has the whole frame is complete. */
  lemma WholeCompletes(f: Flags, frames: seq<Frame>, k: nat, st: State)
    requires NonEmpty(frames) && k < |frames| && Holds(frames[k], WholeLedger(f, frames)[k], st)
    requires Whole(f, frames[k], k) in Got(WholeLedger(f, frames)[k], st)
    ensures st.complete
  {
    var cut := WholeLedger(f, frames)[k];
    var s := Whole(f, frames[k], k);
    WholeLedgerOk(f, frames);
    CompleteIff(frames[k], cut, st);
    forall p: nat | p < |frames[k]| ensures Covered(Got(cut, st), p) {
      assert s in Got(cut, st) && Within(s, p);
    }
  }

  predicate InSlot(rx: Receiver, sn: word) {
    |rx.ring| != 0 && rx.ring[rx.SlotIndex(sn)].valid && rx.ring[rx.SlotIndex(sn)].sn == sn
  }

  predicate InOverflow(rx: Receiver, sn: word) {
    exists i :: 0 <= i < |rx.overflow| && rx.overflow[i].sn == sn
  }

  /** Every entry is complete and of a frame that has arrived. */
  ghost predicate EntriesOk(lo: nat, arrived: set<nat>, rx: Receiver) {
    && (forall i :: 0 <= i < |rx.ring| && rx.ring[i].valid ==>
          rx.ring[i].state.complete && Index(lo, rx.ring[i].sn) in arrived)
    && (forall i :: 0 <= i < |rx.overflow| ==>
          rx.overflow[i].state.complete && Index(lo, rx.overflow[i].sn) in arrived)
  }

  /** Arrived frames not yet delivered are stored; delivered frames have arrived. */
  ghost predicate ArrivedOk(frames: seq<Frame>, lo: nat, n: nat, arrived: set<nat>, rx: Receiver) {
    && (forall k :: k in arrived ==> lo <= k < |frames|)
    && (forall k :: lo <= k < n ==> k in arrived)
    && (forall k :: k in arrived && n <= k ==> InSlot(rx, k % SN_COUNT) || InOverflow(rx, k % SN_COUNT))
  }

  ghost predicate MapInv(f: Flags, frames: seq<Frame>, lo: nat, n: nat, arrived: set<nat>, popped: seq<seq<Cell>>,
                         rx: Receiver)
  {
    && f.reordering && NonEmpty(frames) && |frames| < lo + SN_COUNT
    && RxSafe(frames, WholeLedger(f, frames), lo, n, popped, rx)
    && EntriesOk(lo, arrived, rx)
    && ArrivedOk(frames, lo, n, arrived, rx)
  }

  lemma PutStores(rx: Receiver, sn: word, st: State, sn': word)
    ensures InSlot(rx.Put(sn, st), sn) || InOverflow(rx.Put(sn, st), sn)
    ensures InSlot(rx, sn') ==> InSlot(rx.Put(sn, st), sn')
    ensures InOverflow(rx, sn') ==> InOverflow(rx.Put(sn, st), sn')
  {
    var rx' := rx.Put(sn, st);
    var i := FirstPending(rx.overflow, sn);
    if !rx.FitsRing(sn) {
      assert rx'.overflow[i].sn == sn;
    }
    if InOverflow(rx, sn') {
      var j :| 0 <= j < |rx.overflow| && rx.overflow[j].sn == sn';
      assert rx'.overflow[j].sn == sn';
    }
  }

  lemma PutEntries(lo: nat, arrived: set<nat>, rx: Receiver, k: nat, st: State)
    requires EntriesOk(lo, arrived, rx) && st.complete && Index(lo, k % SN_COUNT) == k
    ensures EntriesOk(lo, arrived + {k}, rx.Put(k % SN_COUNT, st))
  {}

  /** A whole frame that arrives, new or repeated, early or late, is stored under its SN. */
  lemma TakeWhole(f: Flags, frames: seq<Frame>, lo: nat, n: nat, arrived: set<nat>, popped: seq<seq<Cell>>,
                  rx: Receiver, k: nat)
    requires MapInv(f, frames, lo, n, arrived, popped, rx) && lo <= k < |frames|
    ensures MapInv(f, frames, lo, n, arrived + {k}, popped, rx.Take(f, Whole(f, frames[k], k)))
  {
    hide RxSafe, EntriesOk, LedgerOk, Holds;
    var s := Whole(f, frames[k], k);
    var cuts := WholeLedger(f, frames);
    var rx' := rx.Take(f, s);
    WholeLedgerOk(f, frames);
    var was, st := TakeSafe(f, frames, cuts, lo, n, popped, rx, k, s, rx');
    WholeCompletes(f, frames, k, st);
    IndexUnique(lo, k);
    PutEntries(lo, arrived, rx, k, st);
    forall k' | k' in arrived + {k} && n <= k'
      ensures InSlot(rx.Put(s.sn, st), k' % SN_COUNT) || InOverflow(rx.Put(s.sn, st), k' % SN_COUNT)
    {
      PutStores(rx, s.sn, st, k' % SN_COUNT);
    }
  }

  lemma SnDiffers(lo: nat, a: nat, b: nat)
    requires lo <= a < lo + SN_COUNT && lo <= b < lo + SN_COUNT && a != b
    ensures a % SN_COUNT != b % SN_COUNT
  {
    IndexUnique(lo, a);
    IndexUnique(lo, b);
  }

  lemma RingStep(f: Flags, frames: seq<Frame>, lo: nat, n: nat, arrived: set<nat>, popped: seq<seq<Cell>>, rx: Receiver)
    requires MapInv(f, frames, lo, n, arrived, popped, rx) && rx.RingReady()
    ensures MapInv(f, frames, lo, n + 1, arrived, popped, rx.AdvanceRing())
  {
    hide LedgerOk, StoreOk;
    WholeLedgerOk(f, frames);
    AdvanceRingSafe(f, frames, WholeLedger(f, frames), lo, n, popped, rx);
    IndexUnique(lo, n);
    var rx' := rx.AdvanceRing();
    forall k | k in arrived && n + 1 <= k ensures InSlot(rx', k % SN_COUNT) || InOverflow(rx', k % SN_COUNT) {
      SnDiffers(lo, n, k);
      assert InOverflow(rx, k % SN_COUNT) ==> InOverflow(rx', k % SN_COUNT);
    }
  }

  lemma WithoutKeeps(rx: Receiver, i: nat, sn: word)
    requires i < |rx.overflow| && rx.overflow[i].sn != sn && InOverflow(rx, sn)
    ensures InOverflow(rx.(overflow := Erase(rx.overflow, i)), sn)
  {
    var j :| 0 <= j < |rx.overflow| && rx.overflow[j].sn == sn;
    assert Erase(rx.overflow, i)[if j < i then j else j - 1] == rx.overflow[j];
  }

  lemma OverflowArrived(frames: seq<Frame>, lo: nat, n: nat, arrived: set<nat>, rx: Receiver)
    requires ArrivedOk(frames, lo, n, arrived, rx) && |frames| < lo + SN_COUNT
    requires rx.OverflowReady() && rx.next == n % SN_COUNT && n in arrived
    ensures ArrivedOk(frames, lo, n + 1, arrived, rx.AdvanceOverflow())
  {
    var rx' := rx.AdvanceOverflow();
    forall k | k in arrived && n + 1 <= k ensures InSlot(rx', k % SN_COUNT) || InOverflow(rx', k % SN_COUNT) {
      SnDiffers(lo, n, k);
      if InOverflow(rx, k % SN_COUNT) {
        WithoutKeeps(rx, FirstComplete(rx.overflow, rx.next), k % SN_COUNT);
      }
    }
  }

  lemma OverflowStep(f: Flags, frames: seq<Frame>, lo: nat, n: nat, arrived: set<nat>, popped: seq<seq<Cell>>,
                     rx: Receiver)
    requires MapInv(f, frames, lo, n, arrived, popped, rx) && rx.OverflowReady()
    ensures MapInv(f, frames, lo, n + 1, arrived, popped, rx.AdvanceOverflow())
  {
    hide LedgerOk, StoreOk, ArrivedOk;
    WholeLedgerOk(f, frames);
    AdvanceOverflowSafe(f, frames, WholeLedger(f, frames), lo, n, popped, rx);
    IndexUnique(lo, n);
    OverflowArrived(frames, lo, n, arrived, rx);
  }

  /** The flush loop stops exactly at the first frame that has not arrived. */
  lemma {:induction false} FlushWhole(f: Flags, frames: seq<Frame>, lo: nat, n: nat, arrived: set<nat>,
                                      popped: seq<seq<Cell>>, rx: Receiver) returns (n': nat)
    requires MapInv(f, frames, lo, n, arrived, popped, rx)
    ensures n <= n' && MapInv(f, frames, lo, n', arrived, popped, rx.Flush()) && n' !in arrived
    ensures rx.Flush().Held() + (n' - n) == rx.Held()
    decreases rx.Held()
  {
    HeldDecreases(rx);
    if rx.RingReady() {
      RingStep(f, frames, lo, n, arrived, popped, rx);
      n' := FlushWhole(f, frames, lo, n + 1, arrived, popped, rx.AdvanceRing());
    } else if rx.OverflowReady() {
      OverflowStep(f, frames, lo, n, arrived, popped, rx);
      n' := FlushWhole(f, frames, lo, n + 1, arrived, popped, rx.AdvanceOverflow());
    } else {
      n' := n;
    }
  }

  // ---- runs ----

  /** A PDU of whole frames, named by their numbers. */
  function WholeSegments(f: Flags, frames: seq<Frame>, ks: seq<nat>): seq<Segment>
    requires forall j :: 0 <= j < |ks| ==> ks[j] < |frames|
  {
    seq(|ks|, j requires 0 <= j < |ks| => Whole(f, frames[ks[j]], ks[j]))
  }

  predicate Known(frames: seq<Frame>, ks: seq<nat>) {
    forall j :: 0 <= j < |ks| ==> ks[j] < |frames|
  }

  predicate From(lo: nat, ks: seq<nat>) {
    forall j :: 0 <= j < |ks| ==> lo <= ks[j]
  }

  lemma KnownTail(f: Flags, frames: seq<Frame>, lo: nat, arrived: set<nat>, ks: seq<nat>)
    requires Known(frames, ks) && From(lo, ks) && |ks| > 0
    ensures Known(frames, ks[1..]) && From(lo, ks[1..])
    ensures WholeSegments(f, frames, ks)[1..] == WholeSegments(f, frames, ks[1..])
    ensures arrived + Elements(ks) == arrived + {ks[0]} + Elements(ks[1..])
  {
    assert forall j :: 0 <= j < |ks| - 1 ==> ks[1..][j] == ks[j + 1];
    assert ks == [ks[0]] + ks[1..];
  }

  lemma {:induction false} TakeAllWhole(f: Flags, frames: seq<Frame>, lo: nat, n: nat, arrived: set<nat>,
                                        popped: seq<seq<Cell>>, rx: Receiver, ks: seq<nat>)
    requires MapInv(f, frames, lo, n, arrived, popped, rx) && Known(frames, ks) && From(lo, ks)
    ensures MapInv(f, frames, lo, n, arrived + Elements(ks), popped, TakeAll(f, rx, WholeSegments(f, frames, ks)))
    decreases |ks|
  {
    if |ks| != 0 {
      TakeWhole(f, frames, lo, n, arrived, popped, rx, ks[0]);
      KnownTail(f, frames, lo, arrived, ks);
      TakeAllWhole(f, frames, lo, n, arrived + {ks[0]}, popped, rx.Take(f, Whole(f, frames[ks[0]], ks[0])), ks[1..]);
    } else {
      assert arrived + Elements(ks) == arrived;
    }
  }

  predicate AllKnown(frames: seq<Frame>, pdus: seq<seq<nat>>) {
    forall i :: 0 <= i < |pdus| ==> Known(frames, pdus[i])
  }

  /** The receiver after further PDUs of whole frames. */
  function ReceiveWhole(f: Flags, frames: seq<Frame>, rx: Receiver, pdus: seq<seq<nat>>): Receiver
    requires AllKnown(frames, pdus)
    decreases |pdus|
  {
    if |pdus| == 0 then rx
    else
      var before := ReceiveWhole(f, frames, rx, pdus[..|pdus| - 1]);
      PdcpWindow.Receive(f, before, WholeSegments(f, frames, pdus[|pdus| - 1]))
  }

  ghost function ArrivedSet(pdus: seq<seq<nat>>): set<nat>
    decreases |pdus|
  {
    if |pdus| == 0 then {} else ArrivedSet(pdus[..|pdus| - 1]) + Elements(pdus[|pdus| - 1])
  }

  predicate AllFrom(lo: nat, pdus: seq<seq<nat>>) {
    forall i :: 0 <= i < |pdus| ==> From(lo, pdus[i])
  }

  lemma {:induction false} WholeRun(f: Flags, frames: seq<Frame>, lo: nat, n0: nat, arrived: set<nat>, rx0: Receiver,
                                    pdus: seq<seq<nat>>) returns (n: nat)
    requires MapInv(f, frames, lo, n0, arrived, [], rx0) && n0 !in arrived
    requires AllKnown(frames, pdus) && AllFrom(lo, pdus)
    ensures MapInv(f, frames, lo, n, arrived + ArrivedSet(pdus), [], ReceiveWhole(f, frames, rx0, pdus))
    ensures n !in arrived + ArrivedSet(pdus)
    decreases |pdus|
  {
    hide MapInv;
    if |pdus| == 0 {
      n := n0;
      assert arrived + {} == arrived;
    } else {
      var before, ks := pdus[..|pdus| - 1], pdus[|pdus| - 1];
      n := WholeRun(f, frames, lo, n0, arrived, rx0, before);
      var rx := ReceiveWhole(f, frames, rx0, before);
      TakeAllWhole(f, frames, lo, n, arrived + ArrivedSet(before), [], rx, ks);
      assert arrived + ArrivedSet(before) + Elements(ks) == arrived + ArrivedSet(pdus);
      n := FlushWhole(f, frames, lo, n, arrived + ArrivedSet(pdus), [], TakeAll(f, rx, WholeSegments(f, frames, ks)));
    }
  }

  lemma StartWhole(f: Flags, frames: seq<Frame>, r: nat)
    requires f.reordering && NonEmpty(frames) && |frames| < SN_COUNT
    ensures MapInv(f, frames, 0, 0, {}, [], Initial(r))
  {
    assert AllOctets(frames[..0]) == [];
  }

  /** With fewer than 65536 frames and any ring size, zero included, the output is always the
      frames below the least one that has not arrived: each delivered once, in SN order. */
  lemma DeliversArrivedPrefix(f: Flags, frames: seq<Frame>, r: nat, pdus: seq<seq<nat>>)
    requires f.reordering && NonEmpty(frames) && |frames| < SN_COUNT && AllKnown(frames, pdus)
    ensures var rx := ReceiveWhole(f, frames, Initial(r), pdus);
            var n := |rx.completed|;
            && n <= |frames| && rx.completed == AllOctets(frames[..n])
            && (forall k :: 0 <= k < n ==> k in ArrivedSet(pdus))
            && n !in ArrivedSet(pdus)
  {
    StartWhole(f, frames, r);
    var n := WholeRun(f, frames, 0, 0, {}, Initial(r), pdus);
    var rx := ReceiveWhole(f, frames, Initial(r), pdus);
    assert [] + rx.completed == rx.completed;
    assert {} + ArrivedSet(pdus) == ArrivedSet(pdus);
  }
}
