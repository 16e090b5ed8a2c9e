/** Error bursts no longer than the register are always detected. */
module CrcDetection {
  import opened Bytes
  import opened Bits
  import opened Crc

  /** The generator has a constant term, so a shift loses no information. */
  predicate Reversible(g: bits) {
    Usable(g) && g[|g| - 1]
  }

  lemma XorCancel(a: bits, b: bits, x: bits)
    requires |a| == |b| == |x| && Xor(a, x) == Xor(b, x)
    ensures a == b
  {
    forall i | 0 <= i < |a| ensures a[i] == b[i] {
      assert Xor(a, x)[i] == Xor(b, x)[i];
    }
  }

  lemma FeedBitInjective(g: bits, r: bits, s: bits, b: bool)
    requires Reversible(g) && |r| == |s| == |g| && FeedBit(g, r, b) == FeedBit(g, s, b)
    ensures r == s
  {
    var n := |g|;
    assert FeedBit(g, r, b)[n - 1] == (r[0] != b) && FeedBit(g, s, b)[n - 1] == (s[0] != b);
    XorCancel(r[1..] + [false], s[1..] + [false], Gate(r[0] != b, g));
    assert r[1..] == (r[1..] + [false])[..n - 1] == s[1..];
    assert r == [r[0]] + r[1..] && s == [s[0]] + s[1..];
  }

  lemma {:induction false} FeedBitsInjective(g: bits, r: bits, s: bits, m: bits)
    requires Reversible(g) && |r| == |s| == |g| && FeedBits(g, r, m) == FeedBits(g, s, m)
    ensures r == s
    decreases |m|
  {
    hide FeedBit;
    if |m| != 0 {
      FeedBitsInjective(g, FeedBit(g, r, m[0]), FeedBit(g, s, m[0]), m[1..]);
      FeedBitInjective(g, r, s, m[0]);
    }
  }

  lemma ShiftIsFeedZero(g: bits, r: bits)
    requires |r| == |g| > 0
    ensures Shift(g, r) == FeedBit(g, r, false)
  {}

  lemma ShiftInjective(g: bits, r: bits, s: bits)
    requires Reversible(g) && |r| == |s| == |g| && Shift(g, r) == Shift(g, s)
    ensures r == s
  {
    var x, y := FeedBit(g, r, false), FeedBit(g, s, false);
    ShiftIsFeedZero(g, r);
    ShiftIsFeedZero(g, s);
    assert x == y;
    FeedBitInjective(g, r, s, false);
  }

  lemma {:induction false} ShiftsInjective(g: bits, r: bits, s: bits, n: nat)
    requires Reversible(g) && |r| == |s| == |g| && Shifts(g, r, n) == Shifts(g, s, n)
    ensures r == s
    decreases n
  {
    hide Shift, Shifts;
    ShiftsUnfold(g, r, n);
    ShiftsUnfold(g, s, n);
    if n != 0 {
      ShiftsInjective(g, Shift(g, r), Shift(g, s), n - 1);
      ShiftInjective(g, r, s);
    }
  }

  /** From one register, different strings of at most register length lead to different ones. */
  lemma BurstInjective(g: bits, r: bits, a: bits, b: bits)
    requires Reversible(g) && |r| == |g| && |a| == |b| <= |g| && FeedBits(g, r, a) == FeedBits(g, r, b)
    ensures a == b
  {
    var x, y := a + Zeros(|g| - |a|), b + Zeros(|g| - |b|);
    FeedIsShifts(g, r, a);
    FeedIsShifts(g, r, b);
    ShiftsInjective(g, Xor(r, x), Xor(r, y), |a|);
    XorCommutes(r, x);
    XorCommutes(r, y);
    XorCancel(x, y, r);
    assert a == x[..|a|] == y[..|a|] == b;
  }

  /** A burst anywhere in a message changes the CRC. */
  lemma BurstDetected(g: bits, before: bits, a: bits, b: bits, rest: bits)
    requires Reversible(g) && |a| == |b| <= |g| && a != b
    ensures FeedBits(g, Zeros(|g|), before + a + rest) != FeedBits(g, Zeros(|g|), before + b + rest)
  {
    var z := Zeros(|g|);
    FeedBitsAppend(g, z, before + a, rest);
    FeedBitsAppend(g, z, before + b, rest);
    FeedBitsAppend(g, z, before, a);
    FeedBitsAppend(g, z, before, b);
    var r := FeedBits(g, z, before);
    if FeedBits(g, FeedBits(g, r, a), rest) == FeedBits(g, FeedBits(g, r, b), rest) {
      FeedBitsInjective(g, FeedBits(g, r, a), FeedBits(g, r, b), rest);
      BurstInjective(g, r, a, b);
    }
  }

  lemma {:induction false} MessageBitsAppend(x: seq<byte>, y: seq<byte>)
    ensures MessageBits(x + y) == MessageBits(x) + MessageBits(y)
    decreases |y|
  {
    if |y| == 0 {
      assert x + y == x;
    } else {
      assert (x + y)[..|x + y| - 1] == x + y[..|y| - 1];
      MessageBitsAppend(x, y[..|y| - 1]);
    }
  }

  lemma {:induction false} MessageBitsInjective(x: seq<byte>, y: seq<byte>)
    requires |x| == |y| && MessageBits(x) == MessageBits(y)
    ensures x == y
    decreases |x|
  {
    if |x| != 0 {
      var k := |x| - 1;
      var m, m' := MessageBits(x), MessageBits(y);
      assert m[..8 * k] == MessageBits(x[..k]) && m'[..8 * k] == MessageBits(y[..k]);
      assert m[8 * k..] == ByteBits(x[k]) && m'[8 * k..] == ByteBits(y[k]);
      MessageBitsInjective(x[..k], y[..k]);
      ByteBitsInverse(x[k], ByteBits(x[k]));
      ByteBitsInverse(y[k], ByteBits(y[k]));
      assert x == x[..k] + [x[k]] && y == y[..k] + [y[k]];
    }
  }

  /** Two messages of equal length that differ only within as many consecutive octets as fit
      the register have different CRCs. */
  lemma WindowDetected(g: bits, x: seq<byte>, y: seq<byte>, i: nat, j: nat)
    requires Reversible(g) && |x| == |y| && x != y
    requires i <= j <= |x| && 8 * (j - i) <= |g|
    requires x[..i] == y[..i] && x[j..] == y[j..]
    ensures Value(g, x) != Value(g, y)
  {
    assert x == x[..i] + x[i..j] + x[j..];
    assert y == x[..i] + y[i..j] + x[j..];
    MessageBitsAppend(x[..i] + x[i..j], x[j..]);
    MessageBitsAppend(x[..i], x[i..j]);
    MessageBitsAppend(x[..i] + y[i..j], x[j..]);
    MessageBitsAppend(x[..i], y[i..j]);
    if MessageBits(x[i..j]) == MessageBits(y[i..j]) {
      MessageBitsInjective(x[i..j], y[i..j]);
    }
    BurstDetected(g, MessageBits(x[..i]), MessageBits(x[i..j]), MessageBits(y[i..j]), MessageBits(x[j..]));
  }
}
