/** Reassembly of one frame from the segments a sender cut from it. */
module Reassembly {
  import opened Bytes
  import opened PdcpSegment

  /** One octet of a growing buffer: storage from `new std::byte[n]` has no value until written. */
  datatype Cell = Unset | Octet(b: byte)

  function Octets(f: seq<byte>): seq<Cell> {
    seq(|f|, i requires 0 <= i < |f| => Octet(f[i]))
  }

  datatype State = State(buffer: seq<Cell>, accumulated: nat, expected: nat,
                         received: set<nat>, hasExpected: bool, complete: bool)

  const FRESH: State := State([], 0, 0, {}, false, false)

  /** sized_buffer::resize, called only when the capacity is too small: earlier octets stay. */
  function Grow(buffer: seq<Cell>, n: nat): (b: seq<Cell>)
    ensures |b| == if |buffer| < n then n else |buffer|
  {
    if |buffer| < n then buffer + seq(n - |buffer|, i => Unset) else buffer
  }

  function Store(buffer: seq<Cell>, at: nat, data: seq<byte>): (b: seq<Cell>)
    requires at + |data| <= |buffer|
    ensures |b| == |buffer|
  {
    buffer[..at] + Octets(data) + buffer[at + |data|..]
  }

  /** What one segment does to the reassembly state of its frame. */
  function Absorb(r: State, s: Segment): State {
    var required := s.offset + |s.payload|;
    var grown := Grow(r.buffer, required);
    var duplicate := s.offset in r.received;
    var buffer := if duplicate then grown else Store(grown, s.offset, s.payload);
    var accumulated := if duplicate then r.accumulated else r.accumulated + |s.payload|;
    var expected := if s.last then required else r.expected;
    var hasExpected := r.hasExpected || s.last;
    State(buffer, accumulated, expected, r.received + {s.offset}, hasExpected,
          r.complete || (hasExpected && accumulated == expected))
  }

  // ---- the segments of one frame ----

  predicate Within(s: Segment, p: nat) {
    s.offset <= p < s.offset + |s.payload|
  }

  predicate Overlap(s: Segment, t: Segment) {
    s.offset < t.offset + |t.payload| && t.offset < s.offset + |s.payload|
  }

  predicate PieceOf(f: seq<byte>, s: Segment) {
    && 0 < |s.payload| && s.offset + |s.payload| <= |f|
    && s.payload == f[s.offset..s.offset + |s.payload|]
    && (s.last <==> s.offset + |s.payload| == |f|)
  }

  /** Non-overlapping pieces of `f`: what a sender has cut from it so far. */
  ghost predicate CutOf(f: seq<byte>, cut: set<Segment>) {
    && (forall s :: s in cut ==> PieceOf(f, s))
    && (forall s, t :: s in cut && t in cut && s != t ==> !Overlap(s, t))
  }

  ghost predicate Covers(f: seq<byte>, cut: set<Segment>) {
    forall p: nat :: p < |f| ==> Covered(cut, p)
  }

  ghost predicate Covered(cut: set<Segment>, p: nat) {
    exists s :: s in cut && Within(s, p)
  }

  /** The pieces a reassembly state has taken in, read off its set of offsets. */
  ghost function Got(cut: set<Segment>, r: State): set<Segment> {
    set s | s in cut && s.offset in r.received
  }

  function Count(b: seq<Cell>): (n: nat)
    ensures n <= |b|
  {
    if |b| == 0 then 0 else Count(b[..|b| - 1]) + (if b[|b| - 1].Octet? then 1 else 0)
  }

  lemma {:induction false} CountAppend(a: seq<Cell>, b: seq<Cell>)
    ensures Count(a + b) == Count(a) + Count(b)
  {
    if |b| == 0 {
      assert a + b == a;
    } else {
      assert (a + b)[..|a + b| - 1] == a + b[..|b| - 1];
      CountAppend(a, b[..|b| - 1]);
    }
  }

  lemma {:induction false} CountUniform(b: seq<Cell>, octets: bool)
    requires forall i :: 0 <= i < |b| ==> b[i].Octet? == octets
    ensures Count(b) == if octets then |b| else 0
  {
    if |b| != 0 { CountUniform(b[..|b| - 1], octets); }
  }

  lemma {:induction false} CountFull(b: seq<Cell>)
    ensures Count(b) == |b| <==> forall i :: 0 <= i < |b| ==> b[i].Octet?
  {
    if |b| != 0 {
      CountFull(b[..|b| - 1]);
      assert forall i :: 0 <= i < |b| - 1 ==> b[..|b| - 1][i] == b[i];
    }
  }

  lemma CountGrow(b: seq<Cell>, n: nat)
    ensures Count(Grow(b, n)) == Count(b)
  {
    if |b| < n {
      var more := seq(n - |b|, i => Unset);
      CountAppend(b, more);
      CountUniform(more, false);
    }
  }

  lemma CountParts(pre: seq<Cell>, mid: seq<Cell>, post: seq<Cell>)
    ensures Count(pre + mid + post) == Count(pre) + Count(mid) + Count(post)
  {
    CountAppend(pre + mid, post);
    CountAppend(pre, mid);
  }

  lemma ThreeParts(b: seq<Cell>, at: nat, n: nat)
    requires at + n <= |b|
    ensures b == b[..at] + b[at..at + n] + b[at + n..]
  {}

  lemma CountStore(b: seq<Cell>, at: nat, data: seq<byte>)
    requires at + |data| <= |b|
    requires forall i :: at <= i < at + |data| ==> b[i].Unset?
    ensures Count(Store(b, at, data)) == Count(b) + |data|
  {
    var n := |data|;
    var pre, mid, post, d := b[..at], b[at..at + n], b[at + n..], Octets(data);
    ThreeParts(b, at, n);
    CountParts(pre, mid, post);
    CountUniform(mid, false);
    CountParts(pre, d, post);
    CountUniform(d, true);
    assert Store(b, at, data) == pre + d + post;
  }

  /** The state holds exactly the octets of the pieces it has taken in. */
  ghost predicate Holds(f: seq<byte>, cut: set<Segment>, r: State) {
    var got := Got(cut, r);
    && (forall o :: o in r.received ==> exists s :: s in got && s.offset == o)
    && |r.buffer| <= |f|
    && (forall s :: s in got ==> s.offset + |s.payload| <= |r.buffer|)
    && (forall p: nat :: p < |r.buffer| ==>
          r.buffer[p] == if Covered(got, p) then Octet(f[p]) else Unset)
    && r.accumulated == Count(r.buffer)
    && (r.hasExpected <==> exists s :: s in got && s.last)
    && (r.hasExpected ==> r.expected == |f| == |r.buffer|)
    && (r.complete <==> r.hasExpected && r.accumulated == |f|)
  }

  lemma FreshHolds(f: seq<byte>, cut: set<Segment>)
    ensures Holds(f, cut, FRESH) && Got(cut, FRESH) == {}
  {}

  lemma AbsorbGot(f: seq<byte>, cut: set<Segment>, r: State, s: Segment)
    requires CutOf(f, cut) && Holds(f, cut, r) && s in cut
    ensures Got(cut, Absorb(r, s)) == Got(cut, r) + {s}
    ensures s.offset in r.received <==> s in Got(cut, r)
  {
    forall t | t in cut && t.offset == s.offset ensures t == s {
      assert PieceOf(f, t) && PieceOf(f, s) && Overlap(s, t);
    }
  }

  lemma StoreAt(b: seq<Cell>, at: nat, data: seq<byte>, p: nat)
    requires at + |data| <= |b| && p < |b|
    ensures Store(b, at, data)[p] == if at <= p < at + |data| then Octet(data[p - at]) else b[p]
  {}

  lemma AbsorbBuffer(f: seq<byte>, cut: set<Segment>, r: State, s: Segment, p: nat)
    requires CutOf(f, cut) && Holds(f, cut, r) && s in cut && p < |Absorb(r, s).buffer|
    ensures p < |f| && Absorb(r, s).buffer[p] == if Covered(Got(cut, r) + {s}, p) then Octet(f[p]) else Unset
  {
    AbsorbGot(f, cut, r, s);
    var got := Got(cut, r);
    assert PieceOf(f, s);
    assert Covered(got + {s}, p) <==> Covered(got, p) || Within(s, p);
    var grown := Grow(r.buffer, s.offset + |s.payload|);
    assert grown[p] == if Covered(got, p) then Octet(f[p]) else Unset;
    if s.offset !in r.received {
      StoreAt(grown, s.offset, s.payload, p);
    }
  }

  /** Where a new piece goes, nothing has been written yet. */
  lemma NewPieceUnset(f: seq<byte>, cut: set<Segment>, r: State, s: Segment, p: nat)
    requires CutOf(f, cut) && Holds(f, cut, r) && s in cut && s.offset !in r.received
    requires s.offset <= p < s.offset + |s.payload|
    ensures Grow(r.buffer, s.offset + |s.payload|)[p].Unset?
  {
    AbsorbGot(f, cut, r, s);
    if p < |r.buffer| && Covered(Got(cut, r), p) {
      var t :| t in Got(cut, r) && Within(t, p);
      assert Overlap(s, t);
    }
  }

  lemma AbsorbCount(f: seq<byte>, cut: set<Segment>, r: State, s: Segment)
    requires CutOf(f, cut) && Holds(f, cut, r) && s in cut
    ensures Absorb(r, s).accumulated == Count(Absorb(r, s).buffer)
  {
    var grown := Grow(r.buffer, s.offset + |s.payload|);
    CountGrow(r.buffer, s.offset + |s.payload|);
    if s.offset !in r.received {
      AllNewUnset(f, cut, r, s, grown);
    }
    CountAbsorbed(r, s, grown);
  }

  lemma CountAbsorbed(r: State, s: Segment, grown: seq<Cell>)
    requires grown == Grow(r.buffer, s.offset + |s.payload|) && r.accumulated == Count(r.buffer) == Count(grown)
    requires s.offset !in r.received ==> forall p :: s.offset <= p < s.offset + |s.payload| ==> grown[p].Unset?
    ensures Absorb(r, s).accumulated == Count(Absorb(r, s).buffer)
  {
    if s.offset !in r.received {
      CountStore(grown, s.offset, s.payload);
    }
  }

  lemma AllNewUnset(f: seq<byte>, cut: set<Segment>, r: State, s: Segment, grown: seq<Cell>)
    requires CutOf(f, cut) && Holds(f, cut, r) && s in cut && s.offset !in r.received
    requires grown == Grow(r.buffer, s.offset + |s.payload|)
    ensures forall p :: s.offset <= p < s.offset + |s.payload| ==> grown[p].Unset?
  {
    forall p | s.offset <= p < s.offset + |s.payload| ensures grown[p].Unset? {
      NewPieceUnset(f, cut, r, s, p);
    }
  }

  /** Every offset taken in is that of a piece, and the end is known once a last piece has come. */
  lemma AbsorbOffsets(f: seq<byte>, cut: set<Segment>, r: State, s: Segment, r': State)
    requires CutOf(f, cut) && Holds(f, cut, r) && s in cut && r' == Absorb(r, s)
    ensures Got(cut, r') == Got(cut, r) + {s}
    ensures forall o :: o in r'.received ==> exists t :: t in Got(cut, r') && t.offset == o
    ensures r'.hasExpected <==> exists t :: t in Got(cut, r') && t.last
  {
    AbsorbGot(f, cut, r, s);
    var got, got' := Got(cut, r), Got(cut, r');
    assert s in got';
    forall o | o in r'.received ensures exists t :: t in got' && t.offset == o {
      if o != s.offset {
        var t :| t in got && t.offset == o;
        assert t in got';
      }
    }
    if r.hasExpected {
      var t :| t in got && t.last;
      assert t in got';
    }
  }

  lemma AbsorbSizes(f: seq<byte>, cut: set<Segment>, r: State, s: Segment, r': State)
    requires CutOf(f, cut) && Holds(f, cut, r) && s in cut && r' == Absorb(r, s) && Got(cut, r') == Got(cut, r) + {s}
    ensures |r'.buffer| <= |f| && (forall t :: t in Got(cut, r') ==> t.offset + |t.payload| <= |r'.buffer|)
    ensures r'.hasExpected ==> r'.expected == |f| == |r'.buffer|
    ensures r.complete ==> r'.accumulated == r.accumulated
  {
    assert PieceOf(f, s);
    if r.complete {
      CompleteIff(f, cut, r);
      AbsorbGot(f, cut, r, s);
    }
  }

  /** Taking in a piece, new or repeated, keeps the state in step with what it has received. */
  lemma AbsorbHolds(f: seq<byte>, cut: set<Segment>, r: State, s: Segment)
    requires CutOf(f, cut) && Holds(f, cut, r) && s in cut
    ensures Holds(f, cut, Absorb(r, s)) && Got(cut, Absorb(r, s)) == Got(cut, r) + {s}
  {
    var r' := Absorb(r, s);
    AbsorbOffsets(f, cut, r, s, r');
    AbsorbSizes(f, cut, r, s, r');
    AbsorbCount(f, cut, r, s);
    forall p: nat | p < |r'.buffer|
      ensures r'.buffer[p] == if Covered(Got(cut, r'), p) then Octet(f[p]) else Unset
    {
      AbsorbBuffer(f, cut, r, s, p);
    }
  }

  /** Complete means: every octet of the frame has arrived; then the buffer is the frame. */
  lemma CompleteIff(f: seq<byte>, cut: set<Segment>, r: State)
    requires f != [] && CutOf(f, cut) && Holds(f, cut, r)
    ensures r.complete <==> Covers(f, Got(cut, r))
    ensures r.complete ==> r.buffer == Octets(f) && r.expected == |f| && Got(cut, r) == cut
    ensures Covers(f, cut) ==> (r.complete <==> Got(cut, r) == cut)
  {
    var got := Got(cut, r);
    CountFull(r.buffer);
    if r.complete {
      forall p: nat | p < |f| ensures Covered(got, p) && r.buffer[p] == Octet(f[p]) {
        assert r.buffer[p].Octet?;
      }
      if got != cut {
        var s :| s in cut && s !in got;
        assert PieceOf(f, s) && Covered(got, s.offset);
        var t :| t in got && Within(t, s.offset);
        assert Overlap(s, t);
        assert false;
      }
    }
    if Covers(f, got) {
      assert Covered(got, |f| - 1);
      var s :| s in got && Within(s, |f| - 1);
      assert PieceOf(f, s) && s.last;
      forall p | 0 <= p < |r.buffer| ensures r.buffer[p].Octet? {
        assert Covered(got, p);
      }
    }
  }

  /** More pieces cut from the frame later do not disturb what is held. */
  lemma CutGrows(f: seq<byte>, cut: set<Segment>, s: Segment, r: State)
    requires CutOf(f, cut + {s}) && s !in cut && Holds(f, cut, r)
    ensures Holds(f, cut + {s}, r) && Got(cut + {s}, r) == Got(cut, r)
  {
    forall o | o in r.received ensures o != s.offset {
      var t :| t in Got(cut, r) && t.offset == o;
      assert PieceOf(f, t) && PieceOf(f, s) && !Overlap(s, t);
    }
    assert Got(cut + {s}, r) == Got(cut, r);
  }

  // ---- any arrival sequence ----

  function AbsorbAll(r: State, segs: seq<Segment>): State {
    if |segs| == 0 then r else Absorb(AbsorbAll(r, segs[..|segs| - 1]), segs[|segs| - 1])
  }

  ghost function Elements<T(!new)>(s: seq<T>): set<T> {
    set x | x in s
  }

  lemma {:induction false} AbsorbAllHolds(f: seq<byte>, cut: set<Segment>, segs: seq<Segment>)
    requires CutOf(f, cut) && Elements(segs) <= cut
    ensures Holds(f, cut, AbsorbAll(FRESH, segs)) && Got(cut, AbsorbAll(FRESH, segs)) == Elements(segs)
  {
    if |segs| == 0 {
      FreshHolds(f, cut);
    } else {
      var init, s := segs[..|segs| - 1], segs[|segs| - 1];
      assert segs == init + [s];
      AbsorbAllHolds(f, cut, init);
      AbsorbHolds(f, cut, AbsorbAll(FRESH, init), s);
    }
  }

  /** Fed any arrangement, with repetitions, of pieces of a fully cut frame, the state is
      complete exactly when every piece has been seen, and its buffer is then the frame. */
  lemma ReassemblyCorrect(f: seq<byte>, cut: set<Segment>, segs: seq<Segment>)
    requires f != [] && CutOf(f, cut) && Covers(f, cut)
    requires forall i :: 0 <= i < |segs| ==> segs[i] in cut
    ensures var r := AbsorbAll(FRESH, segs);
            && (r.complete <==> forall s :: s in cut ==> s in segs)
            && (r.complete ==> r.buffer == Octets(f) && r.expected == |f|)
  {
    AbsorbAllHolds(f, cut, segs);
    CompleteIff(f, cut, AbsorbAll(FRESH, segs));
  }
}
