/** Machine words as bit sequences, most significant bit first: `<<` drops leading bits and
    appends zeros, `^` acts bit by bit. */
module Bits {
  import opened Bytes

  type bits = seq<bool>

  function Zeros(n: nat): (z: bits)
    ensures |z| == n
  {
    seq(n, i => false)
  }

  function Xor(a: bits, b: bits): (c: bits)
    requires |a| == |b|
    ensures |c| == |a| && forall i :: 0 <= i < |a| ==> c[i] == (a[i] != b[i])
  {
    seq(|a|, i requires 0 <= i < |a| => a[i] != b[i])
  }

  function Pow2(n: nat): (p: nat)
    ensures p > 0
  {
    if n == 0 then 1 else 2 * Pow2(n - 1)
  }

  /** The low `k` bits of `n`. */
  function BitsOf(n: nat, k: nat): (b: bits)
    ensures |b| == k
  {
    if k == 0 then [] else BitsOf(n / 2, k - 1) + [n % 2 == 1]
  }

  /** The number a bit sequence stands for. */
  function Number(b: bits): (n: nat)
    ensures n < Pow2(|b|)
  {
    if |b| == 0 then 0 else 2 * Number(b[..|b| - 1]) + (if b[|b| - 1] then 1 else 0)
  }

  lemma {:induction false} BitsOfNumber(b: bits)
    ensures BitsOf(Number(b), |b|) == b
  {
    if |b| != 0 {
      BitsOfNumber(b[..|b| - 1]);
      assert Number(b) / 2 == Number(b[..|b| - 1]);
    }
  }

  lemma {:induction false} NumberOfBits(n: nat, k: nat)
    requires n < Pow2(k)
    ensures Number(BitsOf(n, k)) == n
  {
    if k != 0 {
      NumberOfBits(n / 2, k - 1);
      assert BitsOf(n, k)[..k - 1] == BitsOf(n / 2, k - 1);
    }
  }

  function ByteBits(b: byte): (x: bits)
    ensures |x| == 8
  {
    BitsOf(b, 8)
  }

  lemma Pow2Eight()
    ensures Pow2(8) == 0x100
  {
    assert Pow2(3) == 8;
    assert Pow2(6) == 64;
  }

  function BitsByte(x: bits): (b: byte)
    requires |x| == 8
  {
    Pow2Eight();
    Number(x)
  }

  lemma ByteBitsInverse(b: byte, x: bits)
    requires |x| == 8
    ensures BitsByte(ByteBits(b)) == b && ByteBits(BitsByte(x)) == x
  {
    Pow2Eight();
    NumberOfBits(b, 8);
    BitsOfNumber(x);
  }

  /** A message as one long bit sequence. */
  function MessageBits(data: seq<byte>): (m: bits)
    ensures |m| == 8 * |data|
  {
    if |data| == 0 then [] else MessageBits(data[..|data| - 1]) + ByteBits(data[|data| - 1])
  }
}
