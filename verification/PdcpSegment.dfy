/** The PDCP segment: a printed header (L bit and 15-bit SIZE, optional SN, optional OFFSET)
    followed by the payload. */
module PdcpSegment {
  import opened Bytes

  /** The two configuration switches that decide which header fields exist. */
  datatype Flags = Flags(reordering: bool, segmentation: bool)

  datatype Segment = Segment(last: bool, sn: word, offset: word, payload: seq<byte>)

  const MAX_SIZE: nat := 0x7FFF

  function HeaderSize(f: Flags): nat {
    2 + (if f.reordering then 2 else 0) + (if f.segmentation then 2 else 0)
  }

  function OffsetAt(f: Flags): nat {
    if f.reordering then 4 else 2
  }

  /** A segment the header can express: fields that are not present read back as zero,
      and header plus payload fit the 15-bit SIZE. */
  predicate Printable(f: Flags, s: Segment) {
    && 0 < |s.payload|
    && HeaderSize(f) + |s.payload| <= MAX_SIZE
    && (f.reordering || s.sn == 0)
    && (f.segmentation || s.offset == 0)
  }

  function SizeWord(f: Flags, s: Segment): word
    requires Printable(f, s)
  {
    (if s.last then 0x8000 else 0) + HeaderSize(f) + |s.payload|
  }

  function Field(present: bool, w: word): seq<byte> {
    if present then [Hi(w), Lo(w)] else []
  }

  function Header(f: Flags, s: Segment): (h: seq<byte>)
    requires Printable(f, s)
    ensures |h| == HeaderSize(f)
  {
    Field(true, SizeWord(f, s)) + Field(f.reordering, s.sn) + Field(f.segmentation, s.offset)
  }

  function Print(f: Flags, s: Segment): (p: seq<byte>)
    requires Printable(f, s)
    ensures |p| == HeaderSize(f) + |s.payload|
  {
    Header(f, s) + s.payload
  }

  predicate AllPrintable(f: Flags, segs: seq<Segment>) {
    forall i :: 0 <= i < |segs| ==> Printable(f, segs[i])
  }

  function PrintAll(f: Flags, segs: seq<Segment>): seq<byte>
    requires AllPrintable(f, segs)
  {
    if segs == [] then [] else Print(f, segs[0]) + PrintAll(f, segs[1..])
  }

  lemma {:induction false} PrintAllSnoc(f: Flags, segs: seq<Segment>, s: Segment)
    requires AllPrintable(f, segs) && Printable(f, s)
    ensures AllPrintable(f, segs + [s])
    ensures PrintAll(f, segs + [s]) == PrintAll(f, segs) + Print(f, s)
  {
    if segs == [] {
      assert [] + [s] == [s];
      assert [s][1..] == [];
    } else {
      assert (segs + [s])[1..] == segs[1..] + [s];
      PrintAllSnoc(f, segs[1..], s);
    }
  }

  // ---- reading a header back ----

  function WordAt(b: seq<byte>, at: nat): word
    requires at + 2 <= |b|
  {
    Word(b[at], b[at + 1])
  }

  function SizeOf(b: seq<byte>): nat
    requires 2 <= |b|
  {
    WordAt(b, 0) % 0x8000
  }

  predicate IsLast(b: seq<byte>)
    requires 2 <= |b|
  {
    WordAt(b, 0) >= 0x8000
  }

  function SnOf(f: Flags, b: seq<byte>): word
    requires HeaderSize(f) <= |b|
  {
    if f.reordering then WordAt(b, 2) else 0
  }

  function OffsetOf(f: Flags, b: seq<byte>): word
    requires HeaderSize(f) <= |b|
  {
    if f.segmentation then WordAt(b, OffsetAt(f)) else 0
  }

  /** The segment at the front of `b`, whose SIZE lies within `b` and covers the header. */
  function SegmentAt(f: Flags, b: seq<byte>): Segment
    requires HeaderSize(f) <= |b| && HeaderSize(f) <= SizeOf(b) <= |b|
  {
    Segment(IsLast(b), SnOf(f, b), OffsetOf(f, b), b[HeaderSize(f)..SizeOf(b)])
  }

  lemma HeaderFields(f: Flags, s: Segment)
    requires Printable(f, s)
    ensures var h := Header(f, s);
            && WordAt(h, 0) == SizeWord(f, s)
            && SnOf(f, h) == s.sn && OffsetOf(f, h) == s.offset
  {
    var h := Header(f, s);
    assert h[0] == Hi(SizeWord(f, s)) && h[1] == Lo(SizeWord(f, s));
    if f.reordering {
      assert h[2] == Hi(s.sn) && h[3] == Lo(s.sn);
    }
    if f.segmentation {
      assert h[OffsetAt(f)] == Hi(s.offset) && h[OffsetAt(f) + 1] == Lo(s.offset);
    }
  }

  /** Parsing inverts printing, whatever follows the segment. */
  lemma PrintThenParse(f: Flags, s: Segment, rest: seq<byte>)
    requires Printable(f, s)
    ensures var b := Print(f, s) + rest;
            && HeaderSize(f) < |b| && SizeOf(b) == HeaderSize(f) + |s.payload| <= |b|
            && SegmentAt(f, b) == s
            && b[SizeOf(b)..] == rest
  {
    var h := Header(f, s);
    var b := Print(f, s) + rest;
    HeaderFields(f, s);
    assert forall i :: 0 <= i < |h| ==> b[i] == h[i];
    assert WordAt(b, 0) == WordAt(h, 0);
    assert SnOf(f, b) == SnOf(f, h) && OffsetOf(f, b) == OffsetOf(f, h);
    assert b[|h|..|h| + |s.payload|] == s.payload;
  }

  lemma HalvesJoin(w: word)
    ensures Word(Hi(w), Lo(w)) == w
  {}

  /** The L bit and the 15 bits of SIZE side by side. */
  lemma SharedWord(last: bool, size: nat)
    requires size < 0x8000
    ensures var w := (if last then 0x8000 else 0) + size;
            w < 0x1_0000 && w % 0x8000 == size && (w >= 0x8000 <==> last)
  {}

  lemma WordParts(w: word)
    ensures w == (if w >= 0x8000 then 0x8000 else 0) + w % 0x8000
  {}

  lemma UpperBitsLost(n: nat)
    ensures n % 0x1_0000 % 0x8000 == n % 0x8000
    ensures n < 0x8000 ==> n % 0x8000 == n && n % 0x1_0000 == n
  {
    assert n == n / 0x1_0000 * 0x1_0000 + n % 0x1_0000;
  }

  /** A segment header placed over `maxSize` octets of a buffer. */
  datatype View = View(buf: array<byte>, start: nat, maxSize: nat, flags: Flags) {

    ghost predicate Valid()
    {
      start + maxSize <= buf.Length && HeaderSize(flags) <= maxSize
    }

    function GetWord(at: nat): word
      requires start + at + 2 <= buf.Length
      reads buf
    {
      Word(buf[start + at], buf[start + at + 1])
    }

    /** Only the two octets of the word change. */
    twostate predicate OnlyWordChanged(at: nat)
      reads buf
    {
      forall i :: 0 <= i < buf.Length && i != start + at && i != start + at + 1 ==> buf[i] == old(buf[i])
    }

    method SetWord(at: nat, w: word)
      requires Valid() && at + 2 <= HeaderSize(flags)
      modifies buf
      ensures buf[start + at] == Hi(w) && buf[start + at + 1] == Lo(w) && GetWord(at) == w && OnlyWordChanged(at)
    {
      buf[start + at], buf[start + at + 1] := Hi(w), Lo(w);
      HalvesJoin(w);
    }

    function GetSize(): (n: nat)
      requires Valid()
      reads buf
    {
      GetWord(0) % 0x8000
    }

    predicate GetLast()
      requires Valid()
      reads buf
    {
      GetWord(0) >= 0x8000
    }

    /** Writes the L bit and keeps SIZE, which shares its word. */
    method SetLast(last: bool)
      requires Valid()
      modifies buf
      ensures GetLast() == last && GetSize() == old(GetSize()) && OnlyWordChanged(0)
    {
      var size := GetSize();
      SharedWord(last, size);
      SetWord(0, (if last then 0x8000 else 0) + size);
    }

    /** Writes SIZE for a payload of `n` octets by or-ing it onto the L bit: a total of 15 bits leaves
        the L bit alone and reads back, a larger one loses its upper bits and can set the L bit. */
    method SetPayloadSize(n: word) returns (ok: bool)
      requires Valid()
      modifies buf
      ensures ok == (HeaderSize(flags) + n <= maxSize) && OnlyWordChanged(0)
      ensures HeaderSize(flags) + n <= MAX_SIZE ==> GetSize() == HeaderSize(flags) + n && GetLast() == old(GetLast())
      ensures GetSize() == (HeaderSize(flags) + n) % 0x8000
      ensures GetLast() == (old(GetLast()) || (HeaderSize(flags) + n) % 0x1_0000 >= 0x8000)
    {
      var total := (HeaderSize(flags) + n) % 0x1_0000;
      var last := GetLast() || total >= 0x8000;
      SharedWord(last, total % 0x8000);
      UpperBitsLost(HeaderSize(flags) + n);
      SetWord(0, (if last then 0x8000 else 0) + total % 0x8000);
      ok := HeaderSize(flags) + n <= maxSize;
    }
  }
}
