/** The LLC header: masked fields, the 11-bit SIZE split over two octets, and the frame check. */
module LlcFrame {
  import opened Bytes
  import opened Bits
  import Crc
  import CrcDetection

  /** A field of one octet: `range` values starting at bit weight `unit`. */
  datatype Field = Field(index: nat, unit: nat, range: nat)

  const SN: Field := Field(0, 1, 0x100)
  const LCID: Field := Field(1, 0x10, 0x10)
  const A: Field := Field(1, 8, 2)
  const SIZEH: Field := Field(1, 1, 8)
  const SIZEL: Field := Field(2, 1, 0x100)

  predicate IsField(f: Field) {
    f == SN || f == LCID || f == A || f == SIZEH || f == SIZEL
  }

  function Get(p: seq<byte>, f: Field): (v: byte)
    requires IsField(f) && f.index < |p|
    ensures v < f.range
  {
    p[f.index] / f.unit % f.range
  }

  function Set(p: seq<byte>, f: Field, v: byte): (q: seq<byte>)
    requires IsField(f) && f.index < |p|
    ensures |q| == |p|
  {
    p[f.index := p[f.index] - Get(p, f) * f.unit + v % f.range * f.unit]
  }

  /** Octet 1 is LCID, A and SIZEH side by side. */
  lemma OctetParts(h: int, a: int, l: int)
    requires 0 <= h < 0x10 && 0 <= a < 2 && 0 <= l < 8
    ensures var y := h * 0x10 + a * 8 + l;
            0 <= y < 0x100 && y / 0x10 % 0x10 == h && y / 8 % 2 == a && y % 8 == l
  {
    var y := h * 0x10 + a * 8 + l;
    assert y / 0x10 == h;
    assert y / 8 == 2 * h + a;
  }

  lemma OctetSum(x: byte)
    ensures x == x / 0x10 % 0x10 * 0x10 + x / 8 % 2 * 8 + x % 8
  {}

  function Octet(p: seq<byte>): (int, int, int)
    requires 3 <= |p|
  {
    (Get(p, LCID), Get(p, A), Get(p, SIZEH))
  }

  lemma SetLcid(p: seq<byte>, v: byte)
    requires 3 <= |p|
    ensures Octet(Set(p, LCID, v)) == (v % 0x10, Get(p, A), Get(p, SIZEH))
  {
    OctetSum(p[1]);
    OctetParts(v % 0x10, p[1] / 8 % 2, p[1] % 8);
  }

  lemma SetA(p: seq<byte>, v: byte)
    requires 3 <= |p|
    ensures Octet(Set(p, A, v)) == (Get(p, LCID), v % 2, Get(p, SIZEH))
  {
    OctetSum(p[1]);
    OctetParts(p[1] / 0x10 % 0x10, v % 2, p[1] % 8);
  }

  lemma SetSizeHigh(p: seq<byte>, v: byte)
    requires 3 <= |p|
    ensures Octet(Set(p, SIZEH, v)) == (Get(p, LCID), Get(p, A), v % 8)
  {
    OctetSum(p[1]);
    OctetParts(p[1] / 0x10 % 0x10, p[1] / 8 % 2, v % 8);
  }

  /** The octets that are fields of their own. */
  lemma SetOctet(p: seq<byte>, f: Field, v: byte)
    requires (f == SN || f == SIZEL) && 3 <= |p|
    ensures Get(Set(p, f, v), f) == v
    ensures forall g :: IsField(g) && g != f ==> Get(Set(p, f, v), g) == Get(p, g)
  {}

  /** Octet 1 has nothing of the SN and of SIZEL. */
  lemma SetShared(p: seq<byte>, f: Field, v: byte)
    requires (f == LCID || f == A || f == SIZEH) && 3 <= |p|
    ensures Get(Set(p, f, v), SN) == Get(p, SN) && Get(Set(p, f, v), SIZEL) == Get(p, SIZEL)
  {}

  lemma OnlyOctet(p: seq<byte>, f: Field, v: byte)
    requires IsField(f) && f.index < |p|
    ensures forall i :: 0 <= i < |p| && i != f.index ==> Set(p, f, v)[i] == p[i]
  {}

  /** Writing a field changes that field, cut to its width, and no other field or octet. */
  lemma SetLaws(p: seq<byte>, f: Field, v: byte)
    requires IsField(f) && 3 <= |p|
    ensures Get(Set(p, f, v), f) == v % f.range
    ensures forall g :: IsField(g) && g != f ==> Get(Set(p, f, v), g) == Get(p, g)
    ensures forall i :: 0 <= i < |p| && i != f.index ==> Set(p, f, v)[i] == p[i]
  {
    hide Get, Set;
    OnlyOctet(p, f, v);
    if f == SN || f == SIZEL {
      SetOctet(p, f, v);
    } else {
      SetShared(p, f, v);
      if f == LCID {
        SetLcid(p, v);
      } else if f == A {
        SetA(p, v);
      } else {
        SetSizeHigh(p, v);
      }
    }
  }

  function GetSize(p: seq<byte>): (n: nat)
    requires 3 <= |p|
    ensures n < 0x800
  {
    Get(p, SIZEH) * 0x100 + Get(p, SIZEL)
  }

  function SetSize(p: seq<byte>, n: word): seq<byte>
    requires 3 <= |p|
  {
    Set(Set(p, SIZEH, n / 0x100), SIZEL, n % 0x100)
  }

  /** SIZE reads back as written exactly when it fits 11 bits. */
  lemma SizeRoundTrip(p: seq<byte>, n: word)
    requires 3 <= |p|
    ensures GetSize(SetSize(p, n)) == n % 0x800
    ensures GetSize(SetSize(p, n)) == n <==> n < 0x800
  {
    SetLaws(p, SIZEH, n / 0x100);
    SetLaws(Set(p, SIZEH, n / 0x100), SIZEL, n % 0x100);
    ElevenBits(n);
  }

  lemma ElevenBits(n: word)
    ensures n / 0x100 % 8 * 0x100 + n % 0x100 == n % 0x800
  {
    var q, r := n / 0x800, n % 0x800;
    assert n == 0x800 * q + r;
    assert n / 0x100 == 8 * q + r / 0x100;
    assert n / 0x100 % 8 == r / 0x100;
  }

  function IsAck(p: seq<byte>): bool
    requires 3 <= |p|
  {
    Get(p, A) == 1
  }

  function HeaderSize(crc: bool): nat {
    if crc then 7 else 3
  }

  // ---- the frame check ----

  function Hex(d: byte): bits {
    BitsOf(d, 4)
  }

  /** 0x04C11DB7, one hexadecimal digit at a time. */
  function Crc32Generator(): (g: bits)
    ensures |g| == 32 && CrcDetection.Reversible(g)
  {
    Hex(0) + Hex(4) + Hex(0xC) + Hex(1) + Hex(1) + Hex(0xD) + Hex(0xB) + Hex(7)
  }

  /** The register as the four octets of a big-endian word. */
  function CrcBytes(r: bits): (b: seq<byte>)
    requires |r| == 32
    ensures |b| == 4
  {
    [BitsByte(r[..8]), BitsByte(r[8..16]), BitsByte(r[16..24]), BitsByte(r[24..])]
  }

  lemma CrcBytesInjective(r: bits, s: bits)
    requires |r| == |s| == 32 && CrcBytes(r) == CrcBytes(s)
    ensures r == s
  {
    hide BitsByte, ByteBits;
    var b, c := CrcBytes(r), CrcBytes(s);
    assert b[0] == c[0] && b[1] == c[1] && b[2] == c[2] && b[3] == c[3];
    ByteBitsInverse(0, r[..8]);
    ByteBitsInverse(0, s[..8]);
    ByteBitsInverse(0, r[8..16]);
    ByteBitsInverse(0, s[8..16]);
    ByteBitsInverse(0, r[16..24]);
    ByteBitsInverse(0, s[16..24]);
    ByteBitsInverse(0, r[24..]);
    ByteBitsInverse(0, s[24..]);
    assert r == r[..8] + r[8..16] + r[16..24] + r[24..];
    assert s == s[..8] + s[8..16] + s[16..24] + s[24..];
  }

  /** The PDU with its CRC field cleared, as both ends see it when they compute the CRC. */
  function Cleared(p: seq<byte>): (q: seq<byte>)
    requires 7 <= |p|
    ensures |q| == |p|
  {
    p[..3] + [0, 0, 0, 0] + p[7..]
  }

  /** The CRC of the first SIZE octets. */
  function Check(p: seq<byte>): (r: bits)
    requires 7 <= |p| && GetSize(p) <= |p|
    ensures |r| == 32
  {
    Crc.Value(Crc32Generator(), Cleared(p)[..GetSize(p)])
  }

  predicate Fits(crc: bool, p: seq<byte>) {
    HeaderSize(crc) <= |p| && GetSize(p) <= |p|
  }

  /** Stamping the SN leaves the other fields alone. */
  lemma Stamped(p: seq<byte>, v: byte)
    requires 3 <= |p|
    ensures var n := Set(p, SN, v);
            Get(n, SN) == v && Get(n, A) == Get(p, A) && Get(n, LCID) == Get(p, LCID) && GetSize(n) == GetSize(p)
  {
    hide Get, Set;
    SetLaws(p, SN, v);
  }

  /** The first three octets hold all fields but the CRC. */
  lemma HeaderKept(n: seq<byte>, q: seq<byte>)
    requires 3 <= |n| && 3 <= |q| && q[..3] == n[..3]
    ensures GetSize(q) == GetSize(n) && forall f :: IsField(f) ==> Get(q, f) == Get(n, f)
  {
    assert forall i :: 0 <= i < 3 ==> q[i] == q[..3][i] && n[i] == n[..3][i];
  }

  /** What write_llc_pdu makes of a PDU before it goes out. */
  function Seal(crc: bool, snCounter: byte, p: seq<byte>): (q: seq<byte>)
    requires Fits(crc, p)
    ensures |q| == |p| && Get(q, A) == Get(p, A) && Get(q, LCID) == Get(p, LCID) && GetSize(q) == GetSize(p)
    ensures Get(q, SN) == if IsAck(p) then 0 else snCounter
  {
    var sn := if IsAck(p) then 0 else snCounter;
    var n := Set(p, SN, sn);
    Stamped(p, sn);
    if crc then
      var q := n[..3] + CrcBytes(Check(n)) + n[7..];
      HeaderKept(n, q);
      q
    else n
  }

  /** The receiver's test: SIZE within the PDU, and the CRC field equal to the CRC. */
  predicate Accepts(crc: bool, p: seq<byte>)
    requires HeaderSize(crc) <= |p|
  {
    GetSize(p) <= |p| && (crc ==> p[3..7] == CrcBytes(Check(p)))
  }

  lemma CheckIgnoresCrcField(p: seq<byte>, field: seq<byte>)
    requires 7 <= |p| && |field| == 4 && GetSize(p) <= |p|
    ensures var q := p[..3] + field + p[7..];
            |q| == |p| && GetSize(q) == GetSize(p) && Check(q) == Check(p)
  {
    assert Cleared(p[..3] + field + p[7..]) == Cleared(p);
  }

  /** Every PDU that is written passes the receiver's test, unless something alters it. */
  lemma SealedAccepted(crc: bool, snCounter: byte, p: seq<byte>)
    requires Fits(crc, p)
    ensures Accepts(crc, Seal(crc, snCounter, p))
  {
    if crc {
      var n := Set(p, SN, if IsAck(p) then 0 else snCounter);
      CheckIgnoresCrcField(n, CrcBytes(Check(n)));
      assert Seal(crc, snCounter, p)[3..7] == CrcBytes(Check(n));
    }
  }

  /** What follows the first SIZE octets has no part in the CRC. */
  lemma CheckOfPrefix(p: seq<byte>, rest: seq<byte>)
    requires 7 <= |p| && GetSize(p) <= |p|
    ensures GetSize(p + rest) == GetSize(p) && Check(p + rest) == Check(p)
  {
    hide Crc.Value;
    HeaderKept(p, p + rest);
    assert Cleared(p + rest) == Cleared(p) + rest;
    assert Cleared(p + rest)[..GetSize(p)] == Cleared(p)[..GetSize(p)];
  }

  /** The receiver is handed the first SIZE octets only: it reaches the same verdict on them as on any
      longer buffer they start. */
  lemma VerdictOfPrefix(crc: bool, p: seq<byte>, rest: seq<byte>)
    requires HeaderSize(crc) <= |p| && GetSize(p) <= |p|
    ensures GetSize(p + rest) == GetSize(p) && (Accepts(crc, p + rest) <==> Accepts(crc, p))
  {
    HeaderKept(p, p + rest);
    if crc {
      CheckOfPrefix(p, rest);
      assert (p + rest)[3..7] == p[3..7];
    }
  }

  /** The first SIZE octets of a PDU are accepted by themselves, if SIZE covers the header. */
  predicate FrontAccepted(crc: bool, p: seq<byte>)
    requires 3 <= |p|
  {
    && GetSize(p) <= |p|
    && (HeaderSize(crc) <= GetSize(p) ==> GetSize(p[..GetSize(p)]) == GetSize(p) && Accepts(crc, p[..GetSize(p)]))
  }

  lemma AcceptedFront(crc: bool, p: seq<byte>)
    requires HeaderSize(crc) <= |p| && Accepts(crc, p)
    ensures FrontAccepted(crc, p)
  {
    var size := GetSize(p);
    if HeaderSize(crc) <= size {
      HeaderKept(p, p[..size]);
      assert p == p[..size] + p[size..];
      VerdictOfPrefix(crc, p[..size], p[size..]);
    }
  }

  /** The first SIZE octets that go out depend on nothing behind them. */
  lemma SealOfPrefix(crc: bool, snCounter: byte, p: seq<byte>, rest: seq<byte>)
    requires Fits(crc, p)
    ensures Fits(crc, p + rest) && Seal(crc, snCounter, p + rest) == Seal(crc, snCounter, p) + rest
  {
    hide Check, Set, GetSize;
    HeaderKept(p, p + rest);
    var sn := if IsAck(p) then 0 else snCounter;
    var n := Set(p, SN, sn);
    SetOfPrefix(p, rest, sn);
    if crc {
      Stamped(p, sn);
      CheckOfPrefix(n, rest);
      assert (n + rest)[..3] == n[..3] && (n + rest)[7..] == n[7..] + rest;
    }
  }

  lemma SetOfPrefix(p: seq<byte>, rest: seq<byte>, v: byte)
    requires 3 <= |p|
    ensures Set(p + rest, SN, v) == Set(p, SN, v) + rest
  {}

  lemma AlteredCleared(p: seq<byte>, q: seq<byte>, i: nat, j: nat)
    requires 7 <= |p| == |q| && i <= j <= GetSize(p) <= |p| && (7 <= i || j <= 3) && GetSize(q) == GetSize(p)
    requires p[..i] == q[..i] && p[j..] == q[j..] && p != q
    ensures p[3..7] == q[3..7]
    ensures var x, y := Cleared(p)[..GetSize(p)], Cleared(q)[..GetSize(p)];
            x[..i] == y[..i] && x[j..] == y[j..] && x != y
  {
    var size := GetSize(p);
    forall k | 0 <= k < |p| && !(i <= k < j) ensures p[k] == q[k] {
      if k < i {
        assert p[k] == p[..i][k] && q[k] == q[..i][k];
      } else {
        assert p[k] == p[j..][k - j] && q[k] == q[j..][k - j];
      }
    }
    var k :| 0 <= k < |p| && p[k] != q[k];
    var x, y := Cleared(p)[..size], Cleared(q)[..size];
    assert forall n :: 0 <= n < size && !(i <= n < j) ==> x[n] == y[n];
    assert x[k] == Cleared(p)[k] == p[k] && y[k] == Cleared(q)[k] == q[k];
  }

  /** Altering only the CRC field leaves the CRC of the PDU as it was. */
  lemma AlteredField(p: seq<byte>, q: seq<byte>)
    requires 7 <= |p| == |q| && p[..3] == q[..3] && p[7..] == q[7..] && p != q && GetSize(p) <= |p|
    ensures GetSize(q) == GetSize(p) && Check(q) == Check(p) && p[3..7] != q[3..7]
  {
    assert p == p[..3] + p[3..7] + p[7..] && q == q[..3] + q[3..7] + q[7..];
    assert forall k :: 0 <= k < 3 ==> p[k] == p[..3][k] && q[k] == q[..3][k];
    assert Cleared(p) == Cleared(q);
  }

  /** With the CRC on, an accepted PDU altered only within four consecutive octets is rejected, when
      they lie in the payload, in the CRC field, or in front of it with SIZE as it was. */
  lemma AlterationRejected(p: seq<byte>, q: seq<byte>, i: nat, j: nat)
    requires 7 <= |p| == |q| && Accepts(true, p) && GetSize(q) == GetSize(p)
    requires i <= j <= GetSize(p) && j - i <= 4 && (7 <= i || (3 <= i && j <= 7) || j <= 3)
    requires p[..i] == q[..i] && p[j..] == q[j..] && p != q
    ensures !Accepts(true, q)
  {
    if 3 <= i && j <= 7 {
      assert p[..3] == p[..i][..3] && q[..3] == q[..i][..3];
      assert p[7..] == p[j..][7 - j..] && q[7..] == q[j..][7 - j..];
      AlteredField(p, q);
      return;
    }
    AlteredCleared(p, q, i, j);
    var size := GetSize(p);
    var x, y := Cleared(p)[..size], Cleared(q)[..size];
    CrcDetection.WindowDetected(Crc32Generator(), x, y, i, j);
    if CrcBytes(Check(p)) == CrcBytes(Check(q)) {
      CrcBytesInjective(Check(p), Check(q));
    }
  }

  // ---- in place ----

  method SetField(buf: array<byte>, f: Field, v: byte)
    requires IsField(f) && f.index < buf.Length
    modifies buf
    ensures buf[..] == Set(old(buf[..]), f, v)
  {
    var cleared := buf[f.index] - Get(buf[..], f) * f.unit;
    ghost var q := Set(buf[..], f, v);
    assert q[f.index] == cleared + v % f.range * f.unit;
    buf[f.index] := cleared + v % f.range * f.unit;
  }

  method PutCrc(buf: array<byte>, c: seq<byte>)
    requires 7 <= buf.Length && |c| == 4
    modifies buf
    ensures buf[..] == old(buf[..3]) + c + old(buf[7..])
  {
    buf[3], buf[4], buf[5], buf[6] := c[0], c[1], c[2], c[3];
  }

  /** Sets the SN, clears the CRC field, computes the CRC over SIZE octets and stores it. */
  method SealInPlace(crc: bool, snCounter: byte, buf: array<byte>)
    requires Fits(crc, buf[..])
    modifies buf
    ensures buf[..] == Seal(crc, snCounter, old(buf[..]))
  {
    ghost var p := buf[..];
    SetField(buf, SN, if IsAck(buf[..]) then 0 else snCounter);
    if crc {
      ComputeCrc(buf);
    }
  }

  method ComputeCrc(buf: array<byte>)
    requires 7 <= buf.Length && GetSize(buf[..]) <= buf.Length
    modifies buf
    ensures buf[..] == old(buf[..3]) + CrcBytes(Check(old(buf[..]))) + old(buf[7..])
  {
    ghost var n := buf[..];
    PutCrc(buf, [0, 0, 0, 0]);
    ghost var cleared := Cleared(n);
    assert buf[..] == cleared;
    var size := GetSize(buf[..]);
    var r := Crc.Compute(Crc32Generator(), buf[..size]);
    assert buf[..size] == cleared[..size];
    var c := CrcBytes(r);
    PutCrc(buf, c);
    assert cleared[..3] == n[..3] && cleared[7..] == n[7..];
  }
}
