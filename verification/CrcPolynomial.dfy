/** What the CRC is: the remainder of message times x^w modulo the generator, over GF(2).
    A polynomial is its coefficient sequence, highest power first. */
module CrcPolynomial {
  import opened Bytes
  import opened Bits
  import opened Crc

  /** One digit of the school multiplication, where the digit is `b`. */
  function Row(t: bits, k: nat, b: bool, g: bits): (p: bits)
    requires |t| == k + |g|
    ensures |p| == k + 1 + |g|
  {
    Xor(t + [false], Zeros(k) + Gate(b, [true] + g))
  }

  /** Quotient times the full generator x^w + g, with |q| + w coefficients. */
  function Times(q: bits, g: bits): (p: bits)
    ensures |p| == |q| + |g|
  {
    if |q| == 0 then Zeros(|g|)
    else
      var k := |q| - 1;
      Row(Times(q[..k], g), k, q[k], g)
  }

  /** `m` times x^w equals q times the generator plus the w coefficients of `r`. */
  predicate Divides(m: bits, g: bits, q: bits, r: bits) {
    |q| == |m| && |r| == |g| && m + Zeros(|g|) == Xor(Times(q, g), Zeros(|m|) + r)
  }

  ghost predicate IsRemainder(m: bits, g: bits, r: bits) {
    exists q :: Divides(m, g, q, r)
  }

  lemma TimesSnoc(q: bits, b: bool, g: bits)
    ensures Times(q + [b], g) == Row(Times(q, g), |q|, b, g)
  {
    assert (q + [b])[..|q|] == q;
  }

  /** One more message bit: multiply by x, bring the bit in, subtract the generator if its
      leading term appears. */
  lemma DivideStep(m: bits, g: bits, q: bits, r: bits, b: bool)
    requires |g| > 0 && Divides(m, g, q, r)
    ensures Divides(m + [b], g, q + [r[0] != b], FeedBit(g, r, b))
  {
    hide Times;
    var q', r' := q + [r[0] != b], FeedBit(g, r, b);
    var n, w := |m|, |g|;
    TimesSnoc(q, r[0] != b, g);
    var t := Times(q, g);
    forall i | 0 <= i < n + 1 + w
      ensures (m + [b] + Zeros(w))[i] == Xor(Times(q', g), Zeros(n + 1) + r')[i]
    {
      if i < n + w {
        assert (m + Zeros(w))[i] == Xor(t, Zeros(n) + r)[i];
      }
    }
  }

  lemma {:induction false} FeedDivides(g: bits, m: bits) returns (q: bits)
    requires |g| > 0
    ensures Divides(m, g, q, FeedBits(g, Zeros(|g|), m))
    decreases |m|
  {
    if |m| == 0 {
      q := [];
      assert Xor(Zeros(|g|), Zeros(0) + Zeros(|g|)) == m + Zeros(|g|);
    } else {
      var before, b := m[..|m| - 1], m[|m| - 1];
      assert m == before + [b];
      var q0 := FeedDivides(g, before);
      var r := FeedBits(g, Zeros(|g|), before);
      FeedBitsAppend(g, Zeros(|g|), before, [b]);
      assert FeedBits(g, r, [b]) == FeedBit(g, r, b);
      DivideStep(before, g, q0, r, b);
      q := q0 + [r[0] != b];
    }
  }

  /** The leading coefficients of a product are zero only for a zero quotient. */
  lemma {:induction false} TimesLeading(q: bits, g: bits)
    requires forall i :: 0 <= i < |q| ==> !Times(q, g)[i]
    ensures q == Zeros(|q|) && Times(q, g) == Zeros(|q| + |g|)
  {
    if |q| != 0 {
      var k := |q| - 1;
      var t := Times(q[..k], g);
      forall i | 0 <= i < k ensures !t[i] {
        assert Times(q, g)[i] == t[i];
      }
      TimesLeading(q[..k], g);
      assert !Times(q, g)[k];
      assert q[k] == false;
    }
  }

  lemma RowLinear(t: bits, u: bits, k: nat, b: bool, c: bool, g: bits)
    requires |t| == |u| == k + |g|
    ensures Row(Xor(t, u), k, b != c, g) == Xor(Row(t, k, b, g), Row(u, k, c, g))
  {
    var x, y, z := Zeros(k) + Gate(b, [true] + g), Zeros(k) + Gate(c, [true] + g), Zeros(k) + Gate(b != c, [true] + g);
    assert z == Xor(x, y);
    assert Xor(t, u) + [false] == Xor(t + [false], u + [false]);
  }

  lemma {:induction false} TimesLinear(q: bits, p: bits, g: bits)
    requires |q| == |p|
    ensures Times(Xor(q, p), g) == Xor(Times(q, g), Times(p, g))
  {
    if |q| != 0 {
      var k := |q| - 1;
      assert Xor(q, p)[..k] == Xor(q[..k], p[..k]);
      TimesLinear(q[..k], p[..k], g);
      RowLinear(Times(q[..k], g), Times(p[..k], g), k, q[k], p[k], g);
    }
  }

  /** Quotient and remainder are unique. */
  lemma RemainderUnique(m: bits, g: bits, q: bits, r: bits, q': bits, r': bits)
    requires Divides(m, g, q, r) && Divides(m, g, q', r')
    ensures r == r' && q == q'
  {
    TimesLinear(q, q', g);
    var d := Xor(q, q');
    var a, a' := Xor(Times(q, g), Zeros(|m|) + r), Xor(Times(q', g), Zeros(|m|) + r');
    assert a == a';
    forall i | 0 <= i < |m| ensures !Times(d, g)[i] {
      assert a[i] == a'[i];
    }
    TimesLeading(d, g);
    forall i | 0 <= i < |q| ensures q[i] == q'[i] {
      assert d[i] == false;
    }
    forall i | 0 <= i < |g| ensures r[i] == r'[i] {
      assert a[|m| + i] == a'[|m| + i];
    }
  }

  /** For every message, the value the table-driven loop computes is the one remainder of
      message times x^w modulo the generator. */
  lemma ValueIsRemainder(g: bits, data: seq<byte>, r: bits)
    requires Usable(g)
    ensures r == Value(g, data) <==> IsRemainder(MessageBits(data), g, r)
  {
    var q := FeedDivides(g, MessageBits(data));
    if IsRemainder(MessageBits(data), g, r) {
      var p :| Divides(MessageBits(data), g, p, r);
      RemainderUnique(MessageBits(data), g, q, Value(g, data), p, r);
    }
  }
}
