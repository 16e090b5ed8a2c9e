/** The PDCP receiver: segments are parsed, reassembled and put back in SN order through a
    ring of slots with an overflow list. */
module PdcpReceiver {
  import opened Bytes
  import opened PdcpSegment
  import opened Reassembly

  datatype Slot = Slot(valid: bool, sn: word, state: State)

  datatype Pending = Pending(sn: word, state: State)

  datatype Status = Success | InputEmpty | SegmentScanFailed | SegmentOutsideInput | ReservedValueUsed

  const EMPTY_SLOT: Slot := Slot(false, 0, FRESH)

  /** The first entry for `sn`, or the length when there is none. */
  function FirstPending(list: seq<Pending>, sn: word): (i: nat)
    ensures i <= |list| && (i < |list| ==> list[i].sn == sn)
    ensures forall j :: 0 <= j < i ==> list[j].sn != sn
  {
    if |list| == 0 || list[0].sn == sn then 0 else 1 + FirstPending(list[1..], sn)
  }

  lemma {:induction false} AppendPending(list: seq<Pending>, sn: word, st: State)
    requires FirstPending(list, sn) == |list|
    ensures FirstPending(list + [Pending(sn, st)], sn) == |list|
  {
    if |list| != 0 {
      assert (list + [Pending(sn, st)])[1..] == list[1..] + [Pending(sn, st)];
      AppendPending(list[1..], sn, st);
    }
  }

  lemma {:induction false} ReplacePending(list: seq<Pending>, sn: word, st: State)
    requires FirstPending(list, sn) < |list|
    ensures FirstPending(list[FirstPending(list, sn) := Pending(sn, st)], sn) == FirstPending(list, sn)
  {
    if list[0].sn != sn {
      var i := FirstPending(list, sn);
      assert list[i := Pending(sn, st)][1..] == list[1..][i - 1 := Pending(sn, st)];
      ReplacePending(list[1..], sn, st);
    }
  }

  /** The first complete entry for `sn`, or the length when there is none. */
  function FirstComplete(list: seq<Pending>, sn: word): (i: nat)
    ensures i <= |list| && (i < |list| ==> list[i].sn == sn && list[i].state.complete)
    ensures forall j :: 0 <= j < i ==> !(list[j].sn == sn && list[j].state.complete)
  {
    if |list| == 0 || (list[0].sn == sn && list[0].state.complete) then 0 else 1 + FirstComplete(list[1..], sn)
  }

  function ValidSlots(ring: seq<Slot>): (n: nat)
    ensures n <= |ring|
  {
    if |ring| == 0 then 0 else (if ring[0].valid then 1 else 0) + ValidSlots(ring[1..])
  }

  lemma {:induction false} ClearSlot(ring: seq<Slot>, i: nat, slot: Slot)
    requires i < |ring| && ring[i].valid && !slot.valid
    ensures ValidSlots(ring[i := slot]) == ValidSlots(ring) - 1
  {
    var ring' := ring[i := slot];
    if i == 0 {
      assert ring'[1..] == ring[1..];
    } else {
      assert ring'[1..] == ring[1..][i - 1 := slot];
      ClearSlot(ring[1..], i - 1, slot);
    }
  }

  datatype Receiver = Receiver(ring: seq<Slot>, overflow: seq<Pending>, next: word,
                               completed: seq<seq<Cell>>, outstanding: nat) {

    function SlotIndex(sn: word): nat {
      if |ring| == 0 then 0 else sn % |ring|
    }

    /** get_or_put_slot finds or makes room for `sn` in the ring. */
    predicate FitsRing(sn: word) {
      |ring| != 0 && (ring[SlotIndex(sn)].valid ==> ring[SlotIndex(sn)].sn == sn)
    }

    /** The reassembly state a segment with this SN is added to. */
    function Lookup(sn: word): State {
      if FitsRing(sn) then
        var slot := ring[SlotIndex(sn)];
        if slot.valid then slot.state else FRESH
      else
        var i := FirstPending(overflow, sn);
        if i < |overflow| then overflow[i].state else FRESH
    }

    function Put(sn: word, st: State): Receiver {
      if FitsRing(sn) then
        this.(ring := ring[SlotIndex(sn) := Slot(true, sn, st)])
      else
        var i := FirstPending(overflow, sn);
        this.(overflow := if i < |overflow| then overflow[i := Pending(sn, st)] else overflow + [Pending(sn, st)])
    }

    /** Gives back the place `sn` occupied, as is done when frames are not reordered. */
    function Release(sn: word): Receiver {
      if FitsRing(sn) then
        this.(ring := ring[SlotIndex(sn) := Slot(false, sn, FRESH)])
      else
        var i := FirstPending(overflow, sn);
        if i < |overflow| then this.(overflow := Erase(overflow, i)) else this
    }

    function Deliver(st: State): Receiver {
      this.(completed := completed + [st.buffer], outstanding := outstanding + st.expected)
    }

    /** What one parsed segment does. */
    function Take(f: Flags, s: Segment): Receiver {
      var st := Absorb(Lookup(s.sn), s);
      if !f.reordering && st.hasExpected && st.accumulated == st.expected
      then Release(s.sn).Deliver(st)
      else Put(s.sn, st)
    }

    predicate RingReady() {
      var i := SlotIndex(next);
      i < |ring| && ring[i].valid && ring[i].sn == next && ring[i].state.complete
    }

    predicate OverflowReady() {
      FirstComplete(overflow, next) < |overflow|
    }

    function AdvanceRing(): Receiver
      requires RingReady()
    {
      var i := SlotIndex(next);
      var slot := ring[i];
      Receiver(ring[i := Slot(false, next, slot.state.(buffer := []))], overflow, (next + 1) % 0x1_0000,
               completed + [slot.state.buffer], outstanding + slot.state.expected)
    }

    function AdvanceOverflow(): Receiver
      requires OverflowReady()
    {
      var i := FirstComplete(overflow, next);
      Receiver(ring, Erase(overflow, i), (next + 1) % 0x1_0000,
               completed + [overflow[i].state.buffer], outstanding + overflow[i].state.expected)
    }

    function Held(): nat {
      ValidSlots(ring) + |overflow|
    }

    /** Delivers complete frames while the next expected SN is among them. It terminates because
        every step frees a slot or an overflow entry. */
    function Flush(): (rx: Receiver)
      ensures !rx.RingReady() && !rx.OverflowReady()
      decreases Held()
    {
      if RingReady() then
        HeldDecreases(this);
        AdvanceRing().Flush()
      else if OverflowReady() then
        AdvanceOverflow().Flush()
      else this
    }

    function Pop(): Receiver {
      if |completed| == 0 then this
      else this.(completed := completed[1..],
                 outstanding := if outstanding >= |completed[0]| then outstanding - |completed[0]| else 0)
    }
  }

  /** Ring and overflow together behave as one cell per SN for the SN at hand. */
  lemma PutLaws(rx: Receiver, sn: word, a: State, b: State)
    ensures rx.Put(sn, a).FitsRing(sn) == rx.FitsRing(sn)
    ensures rx.Put(sn, a).Lookup(sn) == a
    ensures rx.Put(sn, a).Put(sn, b) == rx.Put(sn, b)
    ensures rx.Put(sn, a).Release(sn) == rx.Release(sn)
  {
    var i := FirstPending(rx.overflow, sn);
    if !rx.FitsRing(sn) {
      if i == |rx.overflow| {
        AppendPending(rx.overflow, sn, a);
        assert Erase(rx.overflow + [Pending(sn, a)], i) == rx.overflow;
      } else {
        ReplacePending(rx.overflow, sn, a);
      }
    }
  }

  lemma HeldDecreases(rx: Receiver)
    ensures rx.RingReady() ==> rx.AdvanceRing().Held() == rx.Held() - 1
    ensures rx.OverflowReady() ==> rx.AdvanceOverflow().Held() == rx.Held() - 1
  {
    if rx.RingReady() {
      var i := rx.SlotIndex(rx.next);
      ClearSlot(rx.ring, i, Slot(false, rx.next, rx.ring[i].state.(buffer := [])));
    }
  }

  function Initial(reorderSize: nat): Receiver {
    Receiver(seq(reorderSize, i => EMPTY_SLOT), [], 0, [], 0)
  }

  // ---- parsing ----

  /** The precondition of the parser: each segment it reaches has a SIZE that covers its header.
      The parser subtracts the header size from SIZE without checking this. */
  predicate SizesCoverHeaders(f: Flags, b: seq<byte>)
    decreases |b|
  {
    |b| < HeaderSize(f) || SizeOf(b) > |b| || SizeOf(b) == HeaderSize(f)
    || (HeaderSize(f) < SizeOf(b) && SizesCoverHeaders(f, b[SizeOf(b)..]))
  }

  /** Why parsing stops at the front of `b`, if it does. */
  function Reject(f: Flags, b: seq<byte>): Status {
    if |b| < HeaderSize(f) then SegmentScanFailed
    else if SizeOf(b) > |b| then SegmentOutsideInput
    else if SizeOf(b) == HeaderSize(f) then ReservedValueUsed
    else Success
  }

  function Consume(f: Flags, rx: Receiver, b: seq<byte>): (Receiver, Status)
    requires SizesCoverHeaders(f, b)
    decreases |b|
  {
    if |b| == 0 then (rx, Success)
    else if Reject(f, b) != Success then (rx, Reject(f, b))
    else Consume(f, rx.Take(f, SegmentAt(f, b)), b[SizeOf(b)..])
  }

  /** One round of the parser. */
  lemma ConsumeOne(f: Flags, rx: Receiver, b: seq<byte>)
    requires SizesCoverHeaders(f, b) && |b| > 0 && Reject(f, b) == Success
    ensures SizeOf(b) <= |b| && SizesCoverHeaders(f, b[SizeOf(b)..])
    ensures Consume(f, rx, b) == Consume(f, rx.Take(f, SegmentAt(f, b)), b[SizeOf(b)..])
  {}

  /** on_pdcp_data: segments taken in before an error stay, but nothing is flushed then. */
  function OnData(f: Flags, rx: Receiver, b: seq<byte>): (Receiver, Status)
    requires SizesCoverHeaders(f, b)
  {
    if |b| == 0 then (rx, InputEmpty)
    else
      var (rx', status) := Consume(f, rx, b);
      (if status == Success && f.reordering then rx'.Flush() else rx', status)
  }

  function TakeAll(f: Flags, rx: Receiver, segs: seq<Segment>): Receiver
    decreases |segs|
  {
    if |segs| == 0 then rx else TakeAll(f, rx.Take(f, segs[0]), segs[1..])
  }

  /** Printed segments are parsed back one by one, and the whole input is accepted. */
  lemma {:induction false} ConsumePrinted(f: Flags, rx: Receiver, segs: seq<Segment>)
    requires AllPrintable(f, segs)
    ensures var b := PrintAll(f, segs);
            SizesCoverHeaders(f, b) && Consume(f, rx, b) == (TakeAll(f, rx, segs), Success)
    decreases |segs|
  {
    if |segs| != 0 {
      var rest := PrintAll(f, segs[1..]);
      PrintThenParse(f, segs[0], rest);
      ConsumePrinted(f, rx.Take(f, segs[0]), segs[1..]);
    }
  }

  // ---- input that is rejected part of the way ----

  /** Why a segment is rejected, told from the octets: SIZE is the first two without the L bit. */
  lemma RejectCauses(f: Flags, b: seq<byte>)
    ensures Reject(f, b) == SegmentScanFailed <==> |b| < HeaderSize(f)
    ensures HeaderSize(f) <= |b| ==>
              var size := Word(b[0] % 0x80, b[1]);
              && (Reject(f, b) == SegmentOutsideInput <==> |b| < size)
              && (Reject(f, b) == ReservedValueUsed <==> size == HeaderSize(f))
              && (Reject(f, b) == Success <==> size <= |b| && size != HeaderSize(f))
    ensures Reject(f, b) != InputEmpty
  {
    if HeaderSize(f) <= |b| {
      SizeOctets(b[0], b[1]);
    }
  }

  lemma SizeOctets(hi: byte, lo: byte)
    ensures Word(hi, lo) % 0x8000 == Word(hi % 0x80, lo)
  {
    var q := hi / 0x80;
    assert hi == q * 0x80 + hi % 0x80;
    assert Word(hi, lo) == q * 0x8000 + (hi % 0x80 * 0x100 + lo);
  }

  /** Printed segments followed by something that is rejected: the segments are taken in before the error. */
  lemma {:induction false} ConsumeRejected(f: Flags, rx: Receiver, segs: seq<Segment>, tail: seq<byte>, b: seq<byte>)
    requires AllPrintable(f, segs) && |tail| > 0 && Reject(f, tail) != Success && b == PrintAll(f, segs) + tail
    ensures SizesCoverHeaders(f, b) && Consume(f, rx, b) == (TakeAll(f, rx, segs), Reject(f, tail))
    decreases |segs|
  {
    if |segs| == 0 {
      assert b == tail;
    } else {
      var rest := PrintAll(f, segs[1..]) + tail;
      Regroup(Print(f, segs[0]), PrintAll(f, segs[1..]), tail);
      PrintThenParse(f, segs[0], rest);
      ConsumeRejected(f, rx.Take(f, segs[0]), segs[1..], tail, rest);
    }
  }

  /** While frames are put in order, taking in segments hands out nothing. */
  lemma {:induction false} TakeAllHolds(f: Flags, rx: Receiver, segs: seq<Segment>)
    requires f.reordering
    ensures var rx' := TakeAll(f, rx, segs);
            rx'.completed == rx.completed && rx'.outstanding == rx.outstanding && rx'.next == rx.next
    decreases |segs|
  {
    if |segs| != 0 {
      TakeAllHolds(f, rx.Take(f, segs[0]), segs[1..]);
    }
  }

  /** A PDU of good segments with a bad end is rejected with the status of that end. It leaves the receiver
      that has taken in exactly the good segments; with reordering nothing more is handed out by it. */
  lemma BadTail(f: Flags, rx: Receiver, segs: seq<Segment>, tail: seq<byte>, b: seq<byte>)
    requires AllPrintable(f, segs) && |tail| > 0 && Reject(f, tail) != Success && b == PrintAll(f, segs) + tail
    ensures SizesCoverHeaders(f, b) && OnData(f, rx, b) == (TakeAll(f, rx, segs), Reject(f, tail))
    ensures f.reordering ==>
              var rx' := OnData(f, rx, b).0;
              rx'.completed == rx.completed && rx'.outstanding == rx.outstanding && rx'.next == rx.next
  {
    ConsumeRejected(f, rx, segs, tail, b);
    if f.reordering {
      TakeAllHolds(f, rx, segs);
    }
  }

  lemma {:induction false} TakeAllAppend(f: Flags, rx: Receiver, a: seq<Segment>, b: seq<Segment>)
    ensures TakeAll(f, rx, a + b) == TakeAll(f, TakeAll(f, rx, a), b)
    decreases |a|
  {
    if |a| == 0 {
      assert a + b == b;
    } else {
      assert (a + b)[1..] == a[1..] + b;
      TakeAllAppend(f, rx.Take(f, a[0]), a[1..], b);
    }
  }

  /** The segments before the bad end are not lost: the next accepted PDU delivers as if its segments and
      those had come in one PDU, without the bad end. */
  lemma DeliveredAfterBadTail(f: Flags, rx: Receiver, segs: seq<Segment>, tail: seq<byte>, b: seq<byte>,
                              more: seq<Segment>)
    requires AllPrintable(f, segs) && |tail| > 0 && Reject(f, tail) != Success && b == PrintAll(f, segs) + tail
    requires AllPrintable(f, more) && |more| > 0
    ensures SizesCoverHeaders(f, b) && SizesCoverHeaders(f, PrintAll(f, more))
    ensures AllPrintable(f, segs + more) && SizesCoverHeaders(f, PrintAll(f, segs + more))
    ensures OnData(f, OnData(f, rx, b).0, PrintAll(f, more)) == OnData(f, rx, PrintAll(f, segs + more))
    ensures OnData(f, rx, PrintAll(f, segs + more)).1 == Success
  {
    hide Reject;
    var rx1 := TakeAll(f, rx, segs);
    BadTail(f, rx, segs, tail, b);
    ConsumePrinted(f, rx1, more);
    ConsumePrinted(f, rx, segs + more);
    TakeAllAppend(f, rx, segs, more);
    assert (segs + more)[0] == if |segs| > 0 then segs[0] else more[0];
  }

  lemma WordOctets(b: seq<byte>, at: nat)
    requires at + 2 <= |b|
    ensures Field(true, WordAt(b, at)) == b[at..at + 2]
  {
    WordSplits(b[at], b[at + 1]);
  }

  lemma HeaderOctets(f: Flags, b: seq<byte>)
    requires HeaderSize(f) <= |b|
    ensures Field(true, WordAt(b, 0)) + Field(f.reordering, SnOf(f, b)) + Field(f.segmentation, OffsetOf(f, b)) ==
            b[..HeaderSize(f)]
  {
    hide WordAt;
    WordOctets(b, 0);
    if f.reordering {
      WordOctets(b, 2);
    }
    if f.segmentation {
      WordOctets(b, OffsetAt(f));
    }
  }

  /** What is parsed prints back to the octets it was parsed from. */
  lemma ParseThenPrint(f: Flags, b: seq<byte>)
    requires HeaderSize(f) <= |b| && HeaderSize(f) < SizeOf(b) <= |b|
    ensures Printable(f, SegmentAt(f, b)) && Print(f, SegmentAt(f, b)) == b[..SizeOf(b)]
  {
    hide WordAt, Field;
    var s := SegmentAt(f, b);
    WordParts(WordAt(b, 0));
    assert SizeWord(f, s) == WordAt(b, 0);
    HeaderOctets(f, b);
    assert b[..SizeOf(b)] == b[..HeaderSize(f)] + b[HeaderSize(f)..SizeOf(b)];
  }

  /** Every input is some printed segments followed by nothing or by a bad end, so the results about printed
      segments speak of all inputs. */
  lemma {:induction false} InputSplits(f: Flags, b: seq<byte>) returns (segs: seq<Segment>, tail: seq<byte>)
    requires SizesCoverHeaders(f, b)
    ensures AllPrintable(f, segs) && b == PrintAll(f, segs) + tail
    ensures |tail| > 0 ==> Reject(f, tail) != Success
    decreases |b|
  {
    if |b| == 0 || Reject(f, b) != Success {
      segs, tail := [], b;
    } else {
      ConsumeOne(f, Initial(0), b);
      ParseThenPrint(f, b);
      var rest;
      rest, tail := InputSplits(f, b[SizeOf(b)..]);
      segs := [SegmentAt(f, b)] + rest;
      assert segs[1..] == rest;
      assert b == b[..SizeOf(b)] + b[SizeOf(b)..];
      Regroup(Print(f, segs[0]), PrintAll(f, rest), tail);
    }
  }

  // ---- the receiver object ----

  class PdcpDl {
    const flags: Flags
    const reorderSize: nat
    var status: Status
    var reorderRing: seq<Slot>
    var overflowDeque: seq<Pending>
    var nextExpectedSn: word
    var completedFrames: seq<seq<Cell>>
    var outstandingBytes: nat

    function State(): Receiver
      reads this
    {
      Receiver(reorderRing, overflowDeque, nextExpectedSn, completedFrames, outstandingBytes)
    }

    constructor (flags: Flags, reorderSize: nat)
      ensures State() == Initial(reorderSize) && status == Success
      ensures this.flags == flags && this.reorderSize == reorderSize
    {
      this.flags, this.reorderSize, status := flags, reorderSize, Success;
      reorderRing := seq(reorderSize, i => EMPTY_SLOT);
      overflowDeque, nextExpectedSn, completedFrames, outstandingBytes := [], 0, [], 0;
    }

    method Reset()
      modifies this
      ensures State() == Initial(reorderSize) && status == Success
    {
      reorderRing := seq(reorderSize, i => EMPTY_SLOT);
      overflowDeque, completedFrames, outstandingBytes := [], [], 0;
      status, nextExpectedSn := Success, 0;
    }

    /** The oldest completed frame, or an empty one. */
    method Pop() returns (frame: seq<Cell>)
      modifies this
      ensures State() == old(State()).Pop() && status == old(status)
      ensures frame == if |old(completedFrames)| == 0 then [] else old(completedFrames)[0]
    {
      if |completedFrames| == 0 {
        return [];
      }
      frame := completedFrames[0];
      completedFrames := completedFrames[1..];
      if outstandingBytes >= |frame| {
        outstandingBytes := outstandingBytes - |frame|;
      } else {
        outstandingBytes := 0;
      }
    }

    /** get_or_put_slot: the ring slot for `sn`, claimed if free; none if another SN holds it. */
    method GetOrPutSlot(sn: word) returns (found: bool)
      modifies this`reorderRing
      ensures found == old(State()).FitsRing(sn)
      ensures !found ==> reorderRing == old(reorderRing)
      ensures found ==> reorderRing == old(State()).Put(sn, old(State()).Lookup(sn)).ring
    {
      if |reorderRing| == 0 {
        return false;
      }
      var slot := reorderRing[State().SlotIndex(sn)];
      if slot.valid && slot.sn != sn {
        return false;
      }
      if !slot.valid {
        reorderRing := reorderRing[State().SlotIndex(sn) := Slot(true, sn, FRESH)];
      }
      return true;
    }

    /** find_overflow: a scan of the list from the front. */
    method FindOverflow(sn: word) returns (i: nat)
      ensures i == FirstPending(overflowDeque, sn)
    {
      i := 0;
      while i < |overflowDeque|
        invariant i <= |overflowDeque|
        invariant FirstPending(overflowDeque, sn) == i + FirstPending(overflowDeque[i..], sn)
      {
        if overflowDeque[i].sn == sn {
          return;
        }
        assert overflowDeque[i..][1..] == overflowDeque[i + 1..];
        i := i + 1;
      }
    }

    /** std::find_if for a complete entry with the next expected SN. */
    method FindComplete() returns (i: nat)
      ensures i == FirstComplete(overflowDeque, nextExpectedSn)
    {
      i := 0;
      while i < |overflowDeque|
        invariant i <= |overflowDeque|
        invariant FirstComplete(overflowDeque, nextExpectedSn) == i + FirstComplete(overflowDeque[i..], nextExpectedSn)
      {
        if overflowDeque[i].sn == nextExpectedSn && overflowDeque[i].state.complete {
          return;
        }
        assert overflowDeque[i..][1..] == overflowDeque[i + 1..];
        i := i + 1;
      }
    }

    /** The reassembly state for `sn` in the ring or, failing that, in the overflow list, where
        it is appended if absent. */
    method Locate(sn: word) returns (fromRing: bool, i: nat)
      modifies this`reorderRing, this`overflowDeque
      ensures fromRing == old(State()).FitsRing(sn) == State().FitsRing(sn)
      ensures State() == old(State()).Put(sn, old(State()).Lookup(sn))
      ensures fromRing ==>
                && i == State().SlotIndex(sn) < |reorderRing|
                && reorderRing[i] == Slot(true, sn, old(State()).Lookup(sn))
      ensures !fromRing ==>
                i == FirstPending(overflowDeque, sn) == FirstPending(old(overflowDeque), sn) < |overflowDeque|
      ensures !fromRing ==> overflowDeque[i] == Pending(sn, old(State()).Lookup(sn))
    {
      fromRing := GetOrPutSlot(sn);
      if fromRing {
        i := State().SlotIndex(sn);
      } else {
        i := FindOverflow(sn);
        if i == |overflowDeque| {
          AppendPending(overflowDeque, sn, FRESH);
          overflowDeque := overflowDeque + [Pending(sn, FRESH)];
        }
      }
    }

    /** The loop body of on_pdcp_data after parsing: one segment goes to its reassembly state. */
    method TakeSegment(s: Segment)
      modifies this
      ensures State() == old(State()).Take(flags, s) && status == old(status)
    {
      ghost var rx := State();
      var fromRing, i := Locate(s.sn);
      var state := Absorb(if fromRing then reorderRing[i].state else overflowDeque[i].state, s);
      PutLaws(rx, s.sn, rx.Lookup(s.sn), state);
      if !flags.reordering && state.hasExpected && state.accumulated == state.expected {
        outstandingBytes := outstandingBytes + state.expected;
        completedFrames := completedFrames + [state.buffer];
        if fromRing {
          reorderRing := reorderRing[i := Slot(false, s.sn, FRESH)];
        } else {
          overflowDeque := Erase(overflowDeque, i);
        }
      } else if fromRing {
        reorderRing := reorderRing[i := Slot(true, s.sn, state)];
      } else {
        overflowDeque := overflowDeque[i := Pending(s.sn, state)];
      }
    }

    /** One iteration of the flush loop; false when the loop breaks. */
    method FlushOne() returns (more: bool)
      modifies this
      ensures status == old(status)
      ensures more == (old(State()).RingReady() || old(State()).OverflowReady())
      ensures !more ==> State() == old(State())
      ensures more && old(State()).RingReady() ==> State() == old(State()).AdvanceRing()
      ensures more && !old(State()).RingReady() ==> State() == old(State()).AdvanceOverflow()
    {
      var idx := State().SlotIndex(nextExpectedSn);
      if
        && idx < |reorderRing| && reorderRing[idx].valid && reorderRing[idx].sn == nextExpectedSn
        && reorderRing[idx].state.complete
      {
        var slot := reorderRing[idx];
        outstandingBytes := outstandingBytes + slot.state.expected;
        completedFrames := completedFrames + [slot.state.buffer];
        reorderRing := reorderRing[idx := Slot(false, slot.sn, slot.state.(buffer := []))];
        nextExpectedSn := (nextExpectedSn + 1) % 0x1_0000;
        return true;
      }
      var i := FindComplete();
      if i < |overflowDeque| {
        outstandingBytes := outstandingBytes + overflowDeque[i].state.expected;
        completedFrames := completedFrames + [overflowDeque[i].state.buffer];
        overflowDeque := Erase(overflowDeque, i);
        nextExpectedSn := (nextExpectedSn + 1) % 0x1_0000;
        return true;
      }
      return false;
    }

    method FlushCompletedInOrder()
      modifies this
      ensures State() == old(State()).Flush() && status == old(status)
    {
      var more := true;
      while more
        invariant State().Flush() == old(State()).Flush() && status == old(status)
        invariant !more ==> !State().RingReady() && !State().OverflowReady()
        decreases more, State().Held()
      {
        ghost var rx := State();
        more := FlushOne();
        HeldDecreases(rx);
      }
    }

    /** The checks on the segment at the front of what is left. */
    method Scan(rest: seq<byte>, availableData: nat) returns (scanned: Status, totalSize: nat)
      requires availableData == |rest|
      ensures scanned == Reject(flags, rest)
      ensures scanned == Success ==> totalSize == SizeOf(rest)
    {
      totalSize := 0;
      if availableData < HeaderSize(flags) {
        return SegmentScanFailed, 0;
      }
      totalSize := SizeOf(rest);
      if totalSize > availableData {
        return SegmentOutsideInput, totalSize;
      }
      if totalSize == HeaderSize(flags) {
        return ReservedValueUsed, totalSize;
      }
      return Success, totalSize;
    }

    /** The parsing loop: takes in the segments of `pdcp` up to the first that is rejected. */
    method ParseSegments(pdcp: seq<byte>) returns (ok: bool)
      requires SizesCoverHeaders(flags, pdcp)
      modifies this
      ensures State() == Consume(flags, old(State()), pdcp).0
      ensures ok == (Consume(flags, old(State()), pdcp).1 == Success)
      ensures status == if ok then old(status) else Consume(flags, old(State()), pdcp).1
    {
      ghost var rx, left := State(), pdcp;
      ghost var result := Consume(flags, rx, left);
      var cursor: nat := 0;
      var availableData: nat := |pdcp|;
      while availableData != 0
        invariant cursor + availableData == |pdcp| && status == old(status)
        invariant rx == State() && left == pdcp[cursor..]
        invariant SizesCoverHeaders(flags, left) && result == Consume(flags, rx, left)
        decreases availableData
      {
        var rest := pdcp[cursor..];
        var scanned, totalSize := Scan(rest, availableData);
        if scanned != Success {
          status := scanned;
          return false;
        }
        ConsumeOne(flags, rx, left);
        SliceTail(pdcp, cursor, totalSize);
        var s := SegmentAt(flags, rest);
        rx, left := rx.Take(flags, s), left[totalSize..];
        TakeSegment(s);
        cursor := cursor + totalSize;
        availableData := availableData - totalSize;
      }
      return true;
    }

    /** Parses `pdcp` segment by segment. The status is only ever written on an error. */
    method OnPdcpData(pdcp: seq<byte>) returns (ok: bool)
      requires SizesCoverHeaders(flags, pdcp)
      modifies this
      ensures State() == OnData(flags, old(State()), pdcp).0
      ensures ok == (OnData(flags, old(State()), pdcp).1 == Success)
      ensures status == if ok then old(status) else OnData(flags, old(State()), pdcp).1
    {
      if |pdcp| == 0 {
        status := InputEmpty;
        return false;
      }
      ok := ParseSegments(pdcp);
      if !ok {
        return false;
      }
      if flags.reordering {
        FlushCompletedInOrder();
      }
      return true;
    }
  }
}
