/** The PDCP sender: queued frames are cut into segments packed into output buffers. */
module PdcpSender {
  import opened Bytes
  import opened PdcpSegment

  type Frame = seq<byte>

  /** The part of the sender that decides what is written next. */
  datatype Sender = Sender(queue: seq<Frame>, dataOffset: nat, sn: word) {

    predicate Valid() {
      && (forall i :: 0 <= i < |queue| ==> 0 < |queue[i]|)
      && (if |queue| == 0 then dataOffset == 0 else dataOffset < |queue[0]|)
    }

    function Accept(frame: Frame): Sender {
      if frame == [] then this else this.(queue := queue + [frame])
    }

    /** Whether the loop of write_pdcp writes one more segment into `room` octets. */
    predicate CanCut(f: Flags, room: nat)
      requires Valid()
    {
      && |queue| != 0
      && HeaderSize(f) < room
      && (f.segmentation || |queue[0]| - dataOffset <= room - HeaderSize(f))
    }

    function CutSize(f: Flags, room: nat): (n: nat)
      requires Valid() && CanCut(f, room)
      ensures 0 < n <= |queue[0]| - dataOffset && HeaderSize(f) + n <= room
    {
      Min(|queue[0]| - dataOffset, room - HeaderSize(f))
    }

    function Cut(f: Flags, room: nat): (s: Segment)
      requires Valid() && CanCut(f, room)
      ensures room <= MAX_SIZE ==> Printable(f, s)
    {
      var n := CutSize(f, room);
      Segment(dataOffset + n == |queue[0]|,
              if f.reordering then sn else 0,
              if f.segmentation then dataOffset % 0x1_0000 else 0,
              queue[0][dataOffset..dataOffset + n])
    }

    function AfterCut(f: Flags, room: nat): (tx: Sender)
      requires Valid() && CanCut(f, room)
      ensures tx.Valid()
    {
      var n := CutSize(f, room);
      if dataOffset + n == |queue[0]| then Sender(queue[1..], 0, (sn + 1) % 0x1_0000)
      else this.(dataOffset := dataOffset + n)
    }

    /** All segments one buffer of `room` octets receives, and the sender afterwards. */
    function Fill(f: Flags, room: nat): (r: (Sender, seq<Segment>))
      requires Valid()
      ensures r.0.Valid()
      ensures room <= MAX_SIZE ==> AllPrintable(f, r.1) && |PrintAll(f, r.1)| <= room
      decreases room
    {
      if !CanCut(f, room) then (this, [])
      else
        var s := Cut(f, room);
        var (tx, rest) := AfterCut(f, room).Fill(f, room - HeaderSize(f) - |s.payload|);
        (tx, [s] + rest)
    }

    /** Octets accepted and not yet written. */
    function Outstanding(): int {
      TotalSize(queue) - dataOffset
    }
  }

  /** The first segment of a buffer, and what follows it. */
  lemma FillFirst(f: Flags, tx: Sender, room: nat) returns (tx1: Sender, left: nat, rest: seq<Segment>)
    requires tx.Valid() && tx.CanCut(f, room)
    ensures tx1 == tx.AfterCut(f, room) && tx1.Valid() && left == room - HeaderSize(f) - |tx.Cut(f, room).payload|
    ensures left < room
    ensures rest == tx1.Fill(f, left).1 && tx.Fill(f, room) == (tx1.Fill(f, left).0, [tx.Cut(f, room)] + rest)
  {
    tx1, left := tx.AfterCut(f, room), room - HeaderSize(f) - |tx.Cut(f, room).payload|;
    rest := tx1.Fill(f, left).1;
  }

  function TotalSize(frames: seq<Frame>): nat {
    if |frames| == 0 then 0 else |frames[0]| + TotalSize(frames[1..])
  }

  lemma {:induction false} TotalSizeSnoc(frames: seq<Frame>, frame: Frame)
    ensures TotalSize(frames + [frame]) == TotalSize(frames) + |frame|
  {
    if frames == [] {
      assert [] + [frame] == [frame];
    } else {
      assert (frames + [frame])[1..] == frames[1..] + [frame];
      TotalSizeSnoc(frames[1..], frame);
    }
  }

  datatype Status = Success | OutputEmpty | OutputLessThanMinCommitSize | NoData | NoSegmentsWritten

  /** What write_pdcp reports for a buffer of `room` octets. */
  function WriteStatus(f: Flags, minCommit: nat, tx: Sender, room: nat): Status
    requires tx.Valid()
  {
    if room == 0 then OutputEmpty
    else if minCommit > room then OutputLessThanMinCommitSize
    else if tx.queue == [] then NoData
    else if tx.Fill(f, room).1 == [] then NoSegmentsWritten
    else Success
  }

  /** The sender's state after write_pdcp and the segments it wrote. */
  function Write(f: Flags, minCommit: nat, tx: Sender, room: nat): (r: (Sender, seq<Segment>))
    requires tx.Valid()
    ensures r.0.Valid()
    ensures room <= MAX_SIZE ==> AllPrintable(f, r.1)
  {
    if WriteStatus(f, minCommit, tx, room) == Success then tx.Fill(f, room) else (tx, [])
  }

  function Payloads(segs: seq<Segment>): seq<byte> {
    if segs == [] then [] else segs[0].payload + Payloads(segs[1..])
  }

  /** The octets still to be written, in the order they were queued. */
  function Remaining(tx: Sender): seq<byte>
    requires tx.Valid()
  {
    Concat(tx.queue)[tx.dataOffset..]
  }

  lemma ConcatHead(xs: seq<Frame>)
    requires xs != []
    ensures Concat(xs) == xs[0] + Concat(xs[1..])
  {}

  /** One segment takes the next octets of the queue, and nothing else. */
  lemma CutTakesPrefix(f: Flags, tx: Sender, room: nat)
    requires tx.Valid() && tx.CanCut(f, room)
    ensures Remaining(tx) == tx.Cut(f, room).payload + Remaining(tx.AfterCut(f, room))
  {
    var n := tx.CutSize(f, room);
    ConcatHead(tx.queue);
    var head, tail := tx.queue[0], Concat(tx.queue[1..]);
    assert head == head[..tx.dataOffset] + head[tx.dataOffset..tx.dataOffset + n] + head[tx.dataOffset + n..];
    assert Concat(tx.queue)[tx.dataOffset..] ==
           head[tx.dataOffset..tx.dataOffset + n] + (head + tail)[tx.dataOffset + n..];
    if tx.dataOffset + n == |head| {
      assert (head + tail)[|head|..] == tail == tail[0..];
    }
  }

  /** The payloads written into one buffer are exactly the octets that leave the queue, in order. */
  lemma {:induction false} FillPartitions(f: Flags, tx: Sender, room: nat)
    requires tx.Valid()
    ensures var (tx', segs) := tx.Fill(f, room);
            Remaining(tx) == Payloads(segs) + Remaining(tx')
    decreases room
  {
    if tx.CanCut(f, room) {
      var s := tx.Cut(f, room);
      CutTakesPrefix(f, tx, room);
      FillPartitions(f, tx.AfterCut(f, room), room - HeaderSize(f) - |s.payload|);
      var (tx', rest) := tx.AfterCut(f, room).Fill(f, room - HeaderSize(f) - |s.payload|);
      assert ([s] + rest)[1..] == rest;
      Regroup(s.payload, Payloads(rest), Remaining(tx'));
    }
  }

  lemma {:induction false} ConcatLength(xs: seq<Frame>)
    ensures |Concat(xs)| == TotalSize(xs)
  {
    if xs != [] { ConcatLength(xs[1..]); }
  }

  lemma RemainingLength(tx: Sender)
    requires tx.Valid()
    ensures |Remaining(tx)| == tx.Outstanding()
    ensures tx.queue == [] <==> tx.Outstanding() == 0
  {
    ConcatLength(tx.queue);
    if tx.queue != [] { ConcatHead(tx.queue); }
  }

  lemma AfterCutOutstanding(f: Flags, tx: Sender, room: nat)
    requires tx.Valid() && tx.CanCut(f, room)
    ensures tx.AfterCut(f, room).Outstanding() == tx.Outstanding() - tx.CutSize(f, room)
  {}

  // ---- how a buffer is filled ----

  /** The octets the segments take in the buffer. */
  function Used(f: Flags, segs: seq<Segment>): nat {
    if |segs| == 0 then 0 else HeaderSize(f) + |segs[0].payload| + Used(f, segs[1..])
  }

  lemma {:induction false} UsedPrinted(f: Flags, segs: seq<Segment>)
    requires AllPrintable(f, segs)
    ensures |PrintAll(f, segs)| == Used(f, segs)
  {
    if |segs| != 0 {
      UsedPrinted(f, segs[1..]);
    }
  }

  /** Filling stops exactly when the next segment no longer fits: the queue is empty, or what is left of the
      buffer has no room behind a header, or, without segmentation, none for all of the next frame. */
  lemma {:induction false} FillStops(f: Flags, tx: Sender, room: nat, tx': Sender, segs: seq<Segment>)
    requires tx.Valid() && (tx', segs) == tx.Fill(f, room)
    ensures Used(f, segs) <= room
    ensures var left := room - Used(f, segs);
            || tx'.queue == [] || left <= HeaderSize(f)
            || (!f.segmentation && left - HeaderSize(f) < |tx'.queue[0]| - tx'.dataOffset)
    decreases room
  {
    if tx.CanCut(f, room) {
      var tx1, left, rest := FillFirst(f, tx, room);
      FillStops(f, tx1, left, tx', rest);
      assert segs[1..] == rest;
    }
  }

  /** The segment takes all that is left of the front frame, and says so by its L bit. */
  predicate EndsFrame(tx: Sender, s: Segment)
    requires tx.Valid()
  {
    |tx.queue| > 0 && s.last && s.payload == tx.queue[0][tx.dataOffset..]
  }

  /** A segment takes the rest of its frame, or else with segmentation every octet of the buffer. */
  lemma CutWhole(f: Flags, tx: Sender, room: nat)
    requires tx.Valid() && tx.CanCut(f, room)
    ensures tx.Cut(f, room).last <==> EndsFrame(tx, tx.Cut(f, room))
    ensures !tx.Cut(f, room).last ==> f.segmentation && HeaderSize(f) + |tx.Cut(f, room).payload| == room
  {
    var front, end := tx.queue[0], tx.dataOffset + tx.CutSize(f, room);
    assert end == |front| ==> front[tx.dataOffset..end] == front[tx.dataOffset..];
  }

  /** Of the segments of one buffer every one but the last ends its frame. If the last does not, the frame is
      cut because the buffer is full to its last octet; without segmentation that never happens. */
  lemma {:induction false} FillWhole(f: Flags, tx: Sender, room: nat, tx': Sender, segs: seq<Segment>)
    requires tx.Valid() && (tx', segs) == tx.Fill(f, room)
    ensures forall i :: 0 <= i < |segs| - 1 ==> segs[i].last
    ensures |segs| > 0 && !segs[|segs| - 1].last ==> f.segmentation && Used(f, segs) == room
    decreases room
  {
    if tx.CanCut(f, room) {
      var s := tx.Cut(f, room);
      var tx1, left, rest := FillFirst(f, tx, room);
      CutWhole(f, tx, room);
      FillWhole(f, tx1, left, tx', rest);
      assert segs[1..] == rest;
      if !s.last {
        assert left == 0 && !tx1.CanCut(f, left);
      }
    }
  }

  /** The status of a call, told from the queue and the sizes; on anything but success nothing changes. */
  lemma StatusMeaning(f: Flags, minCommit: nat, tx: Sender, room: nat)
    requires tx.Valid()
    ensures var st := WriteStatus(f, minCommit, tx, room);
            && (st == OutputEmpty <==> room == 0)
            && (st == OutputLessThanMinCommitSize <==> 0 < room < minCommit)
            && (st == NoData <==> room > 0 && room >= minCommit && tx.queue == [])
            && (st == NoSegmentsWritten <==>
                  && room > 0 && room >= minCommit && tx.queue != []
                  && (room <= HeaderSize(f) ||
                      (!f.segmentation && room - HeaderSize(f) < |tx.queue[0]| - tx.dataOffset)))
            && (st != Success ==> Write(f, minCommit, tx, room) == (tx, []))
            && (st == Success ==> Write(f, minCommit, tx, room) == tx.Fill(f, room) && tx.Fill(f, room).1 != [])
  {
    if tx.CanCut(f, room) {
      var tx1, left, rest := FillFirst(f, tx, room);
      assert |tx.Fill(f, room).1| > 0;
    }
  }

  // ---- sequences of calls ----

  /** The segments of successive calls to write_pdcp with the given buffer sizes. */
  function Writes(f: Flags, minCommit: nat, tx: Sender, rooms: seq<nat>): (r: (Sender, seq<Segment>))
    requires tx.Valid()
    ensures r.0.Valid()
    decreases |rooms|
  {
    if rooms == [] then (tx, [])
    else
      var (tx1, segs) := Write(f, minCommit, tx, rooms[0]);
      var (tx2, rest) := Writes(f, minCommit, tx1, rooms[1..]);
      (tx2, segs + rest)
  }

  lemma {:induction false} PayloadsAppend(a: seq<Segment>, b: seq<Segment>)
    ensures Payloads(a + b) == Payloads(a) + Payloads(b)
  {
    if a == [] {
      assert a + b == b;
    } else {
      assert (a + b)[1..] == a[1..] + b;
      PayloadsAppend(a[1..], b);
    }
  }

  /** Over any calls, whatever their buffer sizes, the payloads partition the queue in order. */
  lemma {:induction false} WritesPartition(f: Flags, minCommit: nat, tx: Sender, rooms: seq<nat>)
    requires tx.Valid()
    ensures var (tx', segs) := Writes(f, minCommit, tx, rooms);
            Remaining(tx) == Payloads(segs) + Remaining(tx')
    decreases |rooms|
  {
    if rooms != [] {
      var (tx1, segs) := Write(f, minCommit, tx, rooms[0]);
      FillPartitions(f, tx, rooms[0]);
      WritesPartition(f, minCommit, tx1, rooms[1..]);
      var (tx2, rest) := Writes(f, minCommit, tx1, rooms[1..]);
      PayloadsAppend(segs, rest);
      Regroup(Payloads(segs), Payloads(rest), Remaining(tx2));
    }
  }

  /** With segmentation, a call with room for one payload octet always makes progress. */
  lemma WriteProgress(f: Flags, minCommit: nat, tx: Sender, room: nat)
    requires tx.Valid() && f.segmentation && HeaderSize(f) < room && minCommit <= room
    ensures WriteStatus(f, minCommit, tx, room) == (if tx.queue == [] then NoData else Success)
    ensures tx.queue != [] ==> Write(f, minCommit, tx, room).0.Outstanding() < tx.Outstanding()
  {
    if tx.queue != [] {
      assert tx.CanCut(f, room);
      var (tx', segs) := tx.Fill(f, room);
      FillPartitions(f, tx, room);
      RemainingLength(tx);
      RemainingLength(tx');
      assert segs[0] == tx.Cut(f, room) && 0 < |Payloads(segs)|;
    }
  }

  /** With segmentation and usable buffers, as many calls as there are octets drain the queue. */
  lemma {:induction false} WritesDrain(f: Flags, minCommit: nat, tx: Sender, rooms: seq<nat>)
    requires tx.Valid() && f.segmentation
    requires forall i :: 0 <= i < |rooms| ==> HeaderSize(f) < rooms[i] && minCommit <= rooms[i]
    requires tx.Outstanding() <= |rooms|
    ensures Writes(f, minCommit, tx, rooms).0.queue == []
    decreases |rooms|
  {
    RemainingLength(tx);
    if rooms != [] {
      WriteProgress(f, minCommit, tx, rooms[0]);
      var (tx1, segs) := Write(f, minCommit, tx, rooms[0]);
      WritesDrain(f, minCommit, tx1, rooms[1..]);
    }
  }

  // ---- the sender object ----

  /** The header setters, in the source's order, leave exactly the printed header whatever the
      buffer held. */
  method EmitHeader(v: View, s: Segment)
    requires v.Valid() && Printable(v.flags, s)
    modifies v.buf
    ensures v.buf[v.start..v.start + HeaderSize(v.flags)] == Header(v.flags, s)
    ensures v.buf[..v.start] == old(v.buf[..v.start])
    ensures v.buf[v.start + HeaderSize(v.flags)..] == old(v.buf[v.start + HeaderSize(v.flags)..])
  {
    if v.flags.reordering {
      v.SetWord(2, s.sn);
    }
    if v.flags.segmentation {
      v.SetWord(OffsetAt(v.flags), s.offset);
    }
    EmitSizeWord(v, s);
  }

  /** The L bit first, then SIZE, which share a word. */
  method EmitSizeWord(v: View, s: Segment)
    requires v.Valid() && Printable(v.flags, s)
    modifies v.buf
    ensures v.buf[v.start] == Hi(SizeWord(v.flags, s)) && v.buf[v.start + 1] == Lo(SizeWord(v.flags, s))
    ensures v.OnlyWordChanged(0)
  {
    v.SetLast(s.last);
    var ok := v.SetPayloadSize(|s.payload|);
    ghost var w := v.GetWord(0);
    WordParts(w);
    assert w == SizeWord(v.flags, s);
    WordSplits(v.buf[v.start], v.buf[v.start + 1]);
  }

  method CopyPayload(buf: array<byte>, at: nat, data: seq<byte>, end: nat)
    requires at + |data| == end <= buf.Length
    modifies buf
    ensures buf[at..end] == data
    ensures buf[..at] == old(buf[..at]) && buf[end..] == old(buf[end..])
  {
    forall i | 0 <= i < |data| {
      buf[at + i] := data[i];
    }
  }

  /** Two writes into adjacent ranges, the upper one first. */
  lemma AdjacentWrites(before: seq<byte>, mid: seq<byte>, now: seq<byte>, i: nat, j: nat, k: nat)
    requires |before| == |mid| == |now| && i <= j <= k <= |before|
    requires mid[..j] == before[..j] && mid[k..] == before[k..]
    requires now[..i] == mid[..i] && now[j..] == mid[j..]
    ensures now[..i] == before[..i] && now[k..] == before[k..]
    ensures now[i..k] == now[i..j] + mid[j..k]
  {
    SliceOfSlice(now, j, k - j);
    SliceOfSlice(mid, j, k - j);
    SliceJoin(now, i, j, k);
    assert mid[..i] == mid[..j][..i] == before[..j][..i] == before[..i];
  }

  /** Writes one segment in place: payload first, then the header. No other octet changes. */
  method Emit(v: View, s: Segment) returns (size: nat)
    requires v.Valid() && Printable(v.flags, s) && HeaderSize(v.flags) + |s.payload| <= v.maxSize
    modifies v.buf
    ensures size == HeaderSize(v.flags) + |s.payload|
    ensures WrittenAt(old(v.buf[..]), v.buf[..], v.start, Print(v.flags, s))
  {
    hide Header, Printable;
    var h := v.start + HeaderSize(v.flags);
    size := HeaderSize(v.flags) + |s.payload|;
    ghost var before := v.buf[..];
    CopyPayload(v.buf, h, s.payload, v.start + size);
    ghost var mid := v.buf[..];
    EmitHeader(v, s);
    AdjacentWrites(before, mid, v.buf[..], v.start, h, v.start + size);
  }

  /** `now` is `before` with the octets from `start` on replaced by `out`. */
  ghost predicate WrittenAt(before: seq<byte>, now: seq<byte>, start: nat, out: seq<byte>) {
    && start + |out| <= |now| == |before|
    && now[..start] == before[..start] && now[start..start + |out|] == out
    && now[start + |out|..] == before[start + |out|..]
  }

  /** `now` is `before` with its first octets replaced by `out`. */
  ghost predicate Written(before: seq<byte>, now: seq<byte>, out: seq<byte>) {
    |out| <= |now| == |before| && now[..|out|] == out && now[|out|..] == before[|out|..]
  }

  lemma WrittenStep(before: seq<byte>, mid: seq<byte>, now: seq<byte>, out: seq<byte>, n: nat, p: seq<byte>, m: nat)
    requires Written(before, mid, out) && WrittenAt(mid, now, n, p) && n == |out| && m == |p|
    ensures Written(before, now, out + p)
  {
    SliceJoin(now, 0, n, n + m);
    SliceOfSlice(mid, n, m);
    SliceOfSlice(before, n, m);
  }

  /** Where the loop of write_pdcp stands: `total` octets holding `segs` are written, `room`
      octets and the sender `tx` are left, and together they make up the whole `fill`. */
  ghost predicate Filling(f: Flags, fill: (Sender, seq<Segment>), before: seq<byte>,
                          now: seq<byte>, segs: seq<Segment>, total: nat, tx: Sender, room: nat) {
    && tx.Valid() && total + room == |before|
    && AllPrintable(f, segs) && total == |PrintAll(f, segs)|
    && Written(before, now, PrintAll(f, segs))
    && fill == (tx.Fill(f, room).0, segs + tx.Fill(f, room).1)
  }

  lemma FillStep(f: Flags, tx: Sender, room: nat, done: seq<Segment>)
    requires tx.Valid() && tx.CanCut(f, room)
    ensures var s := tx.Cut(f, room);
            var next := tx.AfterCut(f, room).Fill(f, room - HeaderSize(f) - |s.payload|);
            tx.Fill(f, room).0 == next.0 && done + tx.Fill(f, room).1 == (done + [s]) + next.1
  {
    var tx1, left, rest := FillFirst(f, tx, room);
    Regroup(done, [tx.Cut(f, room)], rest);
  }

  lemma FillingStep(f: Flags, fill: (Sender, seq<Segment>), before: seq<byte>, mid: seq<byte>, now: seq<byte>,
                    segs: seq<Segment>, total: nat, tx: Sender, room: nat, size: nat)
    requires Filling(f, fill, before, mid, segs, total, tx, room)
    requires tx.CanCut(f, room) && room <= MAX_SIZE
    requires size == HeaderSize(f) + |tx.Cut(f, room).payload| <= room
    requires WrittenAt(mid, now, total, Print(f, tx.Cut(f, room)))
    ensures Filling(f, fill, before, now, segs + [tx.Cut(f, room)], total + size, tx.AfterCut(f, room), room - size)
  {
    var s := tx.Cut(f, room);
    PrintAllSnoc(f, segs, s);
    WrittenStep(before, mid, now, PrintAll(f, segs), total, Print(f, s), size);
    FillStep(f, tx, room, segs);
  }

  lemma FillingStart(f: Flags, tx: Sender, before: seq<byte>)
    requires tx.Valid()
    ensures Filling(f, tx.Fill(f, |before|), before, before, [], 0, tx, |before|)
  {
    assert [] + tx.Fill(f, |before|).1 == tx.Fill(f, |before|).1;
  }

  lemma FillingEnd(f: Flags, fill: (Sender, seq<Segment>), before: seq<byte>, now: seq<byte>,
                   segs: seq<Segment>, total: nat, tx: Sender, room: nat)
    requires Filling(f, fill, before, now, segs, total, tx, room) && !tx.CanCut(f, room)
    ensures fill == (tx, segs) && total == |PrintAll(f, segs)| && Written(before, now, PrintAll(f, segs))
  {
    assert segs + [] == segs;
  }

  class PdcpUl {
    const flags: Flags
    const minCommitSize: nat
    var status: Status
    var outstandingBuffers: seq<Frame>
    var dataOffset: nat
    var sequenceNumber: word
    var totalInBytes: nat
    var totalOutBytes: nat

    function State(): Sender
      reads this
    {
      Sender(outstandingBuffers, dataOffset, sequenceNumber)
    }

    ghost predicate Valid()
      reads this
    {
      && State().Valid()
      && totalInBytes - totalOutBytes == TotalSize(outstandingBuffers) - dataOffset
    }

    constructor (flags: Flags, minCommitSize: nat)
      ensures Valid() && State() == Sender([], 0, 0)
      ensures this.flags == flags && this.minCommitSize == minCommitSize && status == Success
    {
      this.flags, this.minCommitSize := flags, minCommitSize;
      status, outstandingBuffers, dataOffset, sequenceNumber := Success, [], 0, 0;
      totalInBytes, totalOutBytes := 0, 0;
    }

    method Reset()
      modifies this
      ensures Valid() && State() == Sender([], 0, 0) && status == Success
    {
      outstandingBuffers, dataOffset, status, sequenceNumber := [], 0, Success, 0;
      totalInBytes, totalOutBytes := 0, 0;
    }

    method OnFrameData(packet: Frame) returns (accepted: bool)
      requires Valid()
      modifies this
      ensures Valid() && accepted == (packet != [])
      ensures State() == old(State()).Accept(packet) && status == old(status)
    {
      if packet == [] {
        return false;
      }
      TotalSizeSnoc(outstandingBuffers, packet);
      outstandingBuffers := outstandingBuffers + [packet];
      totalInBytes := totalInBytes + |packet|;
      return true;
    }

    /** The clamp at zero is never taken: what is reported is what is queued. */
    method GetOutstandingBytes() returns (n: nat)
      requires Valid()
      ensures n == |Remaining(State())|
    {
      RemainingLength(State());
      if totalInBytes < totalOutBytes {
        assert false;
      }
      n := totalInBytes - totalOutBytes;
    }

    /** Takes `copySize` octets off the front frame and steps to the next frame after its last. */
    method Consume(ghost f: Flags, ghost room: nat, copySize: nat)
      requires Valid() && State().CanCut(f, room) && copySize == State().CutSize(f, room)
      modifies this
      ensures Valid() && status == old(status) && State() == old(State()).AfterCut(f, room)
    {
      AfterCutOutstanding(f, State(), room);
      dataOffset := dataOffset + copySize;
      totalOutBytes := totalOutBytes + copySize;
      if dataOffset >= |outstandingBuffers[0]| {
        outstandingBuffers := outstandingBuffers[1..];
        dataOffset := 0;
        sequenceNumber := (sequenceNumber + 1) % 0x1_0000;
      }
    }

    /** One iteration of the loop of write_pdcp: the next segment is written at `start`, or
        zero is returned when the loop breaks. */
    method WriteSegment(buffer: array<byte>, start: nat, availableForData: nat) returns (segSize: nat)
      requires Valid() && start + availableForData == buffer.Length <= MAX_SIZE && |outstandingBuffers| != 0
      modifies this, buffer
      ensures Valid() && status == old(status)
      ensures old(State()).CanCut(flags, availableForData) <==> segSize != 0
      ensures segSize == 0 ==> State() == old(State()) && buffer[..] == old(buffer[..])
      ensures segSize != 0 ==>
                && segSize == HeaderSize(flags) + |old(State()).Cut(flags, availableForData).payload|
                && segSize <= availableForData
                && State() == old(State()).AfterCut(flags, availableForData)
                && WrittenAt(old(buffer[..]), buffer[..], start,
                             Print(flags, old(State()).Cut(flags, availableForData)))
    {
      hide Print, WrittenAt;
      ghost var tx := State();
      if availableForData < HeaderSize(flags) {
        return 0;
      }
      var segment := View(buffer, start, availableForData, flags);
      var maxSegmentPayload := availableForData - HeaderSize(flags);
      if maxSegmentPayload == 0 {
        return 0;
      }
      var front := outstandingBuffers[0];
      var frameRemaining := if |front| > dataOffset then |front| - dataOffset else 0;
      if frameRemaining == 0 {
        assert false;  // a queued frame always has octets left
      }
      var copySize := frameRemaining;
      if copySize > maxSegmentPayload {
        if !flags.segmentation {
          return 0;
        }
        copySize := maxSegmentPayload;
      }
      var s := Segment(dataOffset + copySize >= |front|,
                       if flags.reordering then sequenceNumber else 0,
                       if flags.segmentation then dataOffset % 0x1_0000 else 0,
                       front[dataOffset..dataOffset + copySize]);
      assert s == tx.Cut(flags, availableForData);
      segSize := Emit(segment, s);
      Consume(flags, availableForData, copySize);
    }

    /** The loop of write_pdcp. */
    method FillBuffer(buffer: array<byte>) returns (total: nat, segments: nat, ghost segs: seq<Segment>)
      requires Valid() && buffer.Length <= MAX_SIZE
      modifies this, buffer
      ensures Valid() && status == old(status)
      ensures (State(), segs) == old(State()).Fill(flags, buffer.Length)
      ensures segments == |segs| && total == |PrintAll(flags, segs)|
      ensures Written(old(buffer[..]), buffer[..], PrintAll(flags, segs))
    {
      hide Filling, Written, WrittenAt, Print, PrintAll;
      var availableForData: nat := buffer.Length;
      ghost var before := buffer[..];
      ghost var fill := State().Fill(flags, buffer.Length);
      total, segments, segs := 0, 0, [];
      FillingStart(flags, State(), before);
      while availableForData != 0 && |outstandingBuffers| != 0
        invariant Valid() && status == old(status) && segments == |segs| && total + availableForData == buffer.Length
        invariant Filling(flags, fill, before, buffer[..], segs, total, State(), availableForData)
        decreases availableForData
      {
        ghost var tx, mid := State(), buffer[..];
        var segSize := WriteSegment(buffer, total, availableForData);
        if segSize == 0 {
          break;
        }
        FillingStep(flags, fill, before, mid, buffer[..], segs, total, tx, availableForData, segSize);
        segs := segs + [tx.Cut(flags, availableForData)];
        total := total + segSize;
        availableForData := availableForData - segSize;
        segments := segments + 1;
      }
      FillingEnd(flags, fill, before, buffer[..], segs, total, State(), availableForData);
    }

    /** Fills `buffer` from the queue. On success the first `written` octets are the printed
        segments; all others, and the whole buffer on failure, keep their old values. */
    method WritePdcp(buffer: array<byte>) returns (written: int)
      requires Valid() && buffer.Length <= MAX_SIZE
      modifies this, buffer
      ensures Valid()
      ensures status == WriteStatus(flags, minCommitSize, old(State()), buffer.Length)
      ensures State() == Write(flags, minCommitSize, old(State()), buffer.Length).0
      ensures status != Success ==> written == -1 && buffer[..] == old(buffer[..])
      ensures status == Success ==>
                var out := PrintAll(flags, Write(flags, minCommitSize, old(State()), buffer.Length).1);
                written == |out| && Written(old(buffer[..]), buffer[..], out)
      ensures status == Success ==>
                || outstandingBuffers == [] || buffer.Length - written <= HeaderSize(flags)
                || (!flags.segmentation &&
                    buffer.Length - written - HeaderSize(flags) < |outstandingBuffers[0]| - dataOffset)
    {
      ghost var tx := State();
      if buffer.Length == 0 {
        status := OutputEmpty;
        return -1;
      }
      if minCommitSize > buffer.Length {
        status := OutputLessThanMinCommitSize;
        return -1;
      }
      if outstandingBuffers == [] {
        status := NoData;
        return -1;
      }

      var totalPdcpWritten, segmentsAllocated, segs := FillBuffer(buffer);
      if segmentsAllocated == 0 {
        status := NoSegmentsWritten;
        return -1;
      }
      FillStops(flags, tx, buffer.Length, State(), segs);
      UsedPrinted(flags, segs);
      status := Success;
      return totalPdcpWritten;
    }
  }
}
