/** The table-driven CRC with initial value 0 and no final complement, for any generator of
    width at least 8; the LLC frame check uses 0x04C11DB7. */
module Crc {
  import opened Bytes
  import opened Bits

  /** A generator polynomial without its leading term, which the register width implies. */
  predicate Usable(g: bits) {
    8 <= |g|
  }

  function Gate(on: bool, g: bits): (x: bits)
    ensures |x| == |g|
  {
    if on then g else Zeros(|g|)
  }

  /** One step of the loop that fills the table: shift, and subtract when a bit falls out. */
  function Shift(g: bits, r: bits): (s: bits)
    requires |r| == |g| > 0
    ensures |s| == |g|
  {
    Xor(r[1..] + [false], Gate(r[0], g))
  }

  function Shifts(g: bits, r: bits, n: nat): (s: bits)
    requires |r| == |g| > 0
    ensures |s| == |g|
    decreases n
  {
    if n == 0 then r else Shifts(g, Shift(g, r), n - 1)
  }

  lemma ShiftsUnfold(g: bits, r: bits, n: nat)
    requires |r| == |g| > 0
    ensures Shifts(g, r, n) == if n == 0 then r else Shifts(g, Shift(g, r), n - 1)
  {}

  /** What the table holds for index `d`. */
  function TableEntry(g: bits, d: byte): (s: bits)
    requires Usable(g)
    ensures |s| == |g|
  {
    Shifts(g, ByteBits(d) + Zeros(|g| - 8), 8)
  }

  // ---- the bit-serial form ----

  /** Takes in one message bit. */
  function FeedBit(g: bits, r: bits, b: bool): (s: bits)
    requires |r| == |g| > 0
    ensures |s| == |g|
  {
    Xor(r[1..] + [false], Gate(r[0] != b, g))
  }

  function FeedBits(g: bits, r: bits, m: bits): (s: bits)
    requires |r| == |g| > 0
    ensures |s| == |g|
    decreases |m|
  {
    if |m| == 0 then r else FeedBits(g, FeedBit(g, r, m[0]), m[1..])
  }

  lemma {:induction false} FeedBitsAppend(g: bits, r: bits, a: bits, b: bits)
    requires |r| == |g| > 0
    ensures FeedBits(g, r, a + b) == FeedBits(g, FeedBits(g, r, a), b)
    decreases |a|
  {
    if |a| == 0 {
      assert a + b == b;
    } else {
      assert (a + b)[1..] == a[1..] + b;
      FeedBitsAppend(g, FeedBit(g, r, a[0]), a[1..], b);
    }
  }

  /** The CRC of a message, bit by bit from register zero. */
  function Value(g: bits, data: seq<byte>): (s: bits)
    requires Usable(g)
    ensures |s| == |g|
  {
    FeedBits(g, Zeros(|g|), MessageBits(data))
  }

  // ---- linearity ----

  lemma ShiftLinear(g: bits, r: bits, s: bits)
    requires |r| == |s| == |g| > 0
    ensures Shift(g, Xor(r, s)) == Xor(Shift(g, r), Shift(g, s))
  {}

  lemma {:induction false} ShiftsLinear(g: bits, r: bits, s: bits, n: nat)
    requires |r| == |s| == |g| > 0
    ensures Shifts(g, Xor(r, s), n) == Xor(Shifts(g, r, n), Shifts(g, s, n))
    decreases n
  {
    hide Shift, Xor;
    if n != 0 {
      ShiftLinear(g, r, s);
      ShiftsLinear(g, Shift(g, r), Shift(g, s), n - 1);
    }
  }

  /** A register whose top `n` bits are zero only moves. */
  lemma {:induction false} ShiftsOfLow(g: bits, r: bits, n: nat)
    requires |r| == |g| > 0 && n <= |g| && forall i :: 0 <= i < n ==> !r[i]
    ensures Shifts(g, r, n) == r[n..] + Zeros(n)
    decreases n
  {
    if n == 0 {
      assert r[0..] + Zeros(0) == r;
    } else {
      var s := Shift(g, r);
      assert s == r[1..] + [false];
      ShiftsOfLow(g, s, n - 1);
      assert s[n - 1..] + Zeros(n - 1) == r[n..] + Zeros(n);
    }
  }

  /** A message bit added at the top takes part in the next shift like any other bit. */
  lemma FeedBitIsShift(g: bits, r: bits, all: bits)
    requires |r| == |all| == |g| > 0
    ensures Shift(g, Xor(r, all)) == Xor(FeedBit(g, r, all[0]), all[1..] + [false])
  {}

  /** Feeding bits is adding them at the top and shifting that many times. */
  lemma {:induction false} FeedIsShifts(g: bits, r: bits, m: bits)
    requires |r| == |g| > 0 && |m| <= |g|
    ensures FeedBits(g, r, m) == Shifts(g, Xor(r, m + Zeros(|g| - |m|)), |m|)
    decreases |m|
  {
    hide Shift, Shifts, FeedBit, Xor;
    var all := m + Zeros(|g| - |m|);
    ShiftsUnfold(g, Xor(r, all), |m|);
    if |m| == 0 {
      assert Xor(r, all) == r;
    } else {
      FeedIsShifts(g, FeedBit(g, r, m[0]), m[1..]);
      FeedBitIsShift(g, r, all);
      assert all[1..] + [false] == m[1..] + Zeros(|g| - |m[1..]|);
    }
  }

  lemma TopAndRest(r: bits, c: bits)
    requires |c| == 8 <= |r|
    ensures Xor(r, c + Zeros(|r| - 8)) == Xor(Xor(c, r[..8]) + Zeros(|r| - 8), Zeros(8) + r[8..])
  {}

  /** One table look-up does the work of eight bit steps. */
  lemma TableStep(g: bits, r: bits, c: byte)
    requires Usable(g) && |r| == |g|
    ensures var d := BitsByte(Xor(ByteBits(c), r[..8]));
            FeedBits(g, r, ByteBits(c)) == Xor(r[8..] + Zeros(8), TableEntry(g, d))
  {
    var x := Xor(ByteBits(c), r[..8]);
    var top, rest := x + Zeros(|g| - 8), Zeros(8) + r[8..];
    ByteBitsInverse(c, x);
    FeedIsShifts(g, r, ByteBits(c));
    TopAndRest(r, ByteBits(c));
    ShiftsLinear(g, top, rest, 8);
    ShiftsOfLow(g, rest, 8);
    assert rest[8..] == r[8..];
    XorCommutes(Shifts(g, top, 8), r[8..] + Zeros(8));
  }

  lemma XorCommutes(a: bits, b: bits)
    requires |a| == |b|
    ensures Xor(a, b) == Xor(b, a)
  {}

  // ---- the program ----

  lemma ShiftCases(g: bits, r: bits)
    requires |r| == |g| > 0
    ensures Shift(g, r) == if r[0] then Xor(r[1..] + [false], g) else r[1..] + [false]
  {
    assert Xor(r[1..] + [false], Zeros(|g|)) == r[1..] + [false];
  }

  method FillEntry(g: bits, div: byte) returns (rem: bits)
    requires Usable(g)
    ensures rem == TableEntry(g, div)
  {
    hide Shift, Shifts, Xor;
    rem := ByteBits(div) + Zeros(|g| - 8);
    var b := 8;
    while b > 0
      invariant 0 <= b <= 8 && |rem| == |g|
      invariant Shifts(g, rem, b) == TableEntry(g, div)
    {
      ShiftsUnfold(g, rem, b);
      ShiftCases(g, rem);
      if rem[0] {
        rem := Xor(rem[1..] + [false], g);
      } else {
        rem := rem[1..] + [false];
      }
      b := b - 1;
    }
    ShiftsUnfold(g, rem, 0);
  }

  /** Fills the look-up table. */
  method BuildTable(g: bits, lut: array<bits>)
    requires Usable(g) && lut.Length == 0x100
    modifies lut
    ensures forall d :: 0 <= d < 0x100 ==> lut[d] == TableEntry(g, d)
  {
    hide TableEntry;
    for div := 0 to 0x100
      invariant forall d :: 0 <= d < div ==> lut[d] == TableEntry(g, d)
    {
      lut[div] := FillEntry(g, div);
    }
  }

  lemma NoOctets(g: bits, data: seq<byte>)
    requires Usable(g)
    ensures Value(g, data[..0]) == Zeros(|g|)
  {}

  /** The CRC of one octet more. */
  lemma OneMoreOctet(g: bits, data: seq<byte>, i: nat, r: bits, div: byte)
    requires Usable(g) && i < |data| && r == Value(g, data[..i]) && div == BitsByte(Xor(ByteBits(data[i]), r[..8]))
    ensures Value(g, data[..i + 1]) == Xor(r[8..] + Zeros(8), TableEntry(g, div))
  {
    hide TableEntry, BitsByte, ByteBits, Xor;
    TableStep(g, r, data[i]);
    assert data[..i + 1][..i] == data[..i];
    FeedBitsAppend(g, Zeros(|g|), MessageBits(data[..i]), ByteBits(data[i]));
  }

  /** The byte loop: the register's top byte, combined with the next message byte, selects the
      table entry. */
  method Compute(g: bits, data: seq<byte>) returns (crcv: bits)
    requires Usable(g)
    ensures crcv == Value(g, data)
  {
    hide Value, TableEntry, BitsByte, ByteBits;
    var lut := new bits[0x100];
    BuildTable(g, lut);
    NoOctets(g, data);
    crcv := Zeros(|g|);
    for i := 0 to |data|
      invariant |crcv| == |g| && crcv == Value(g, data[..i])
      invariant forall d :: 0 <= d < 0x100 ==> lut[d] == TableEntry(g, d)
    {
      var div := BitsByte(Xor(ByteBits(data[i]), crcv[..8]));
      OneMoreOctet(g, data, i, crcv, div);
      crcv := Xor(crcv[8..] + Zeros(8), lut[div]);
    }
    assert data[..|data|] == data;
  }
}
