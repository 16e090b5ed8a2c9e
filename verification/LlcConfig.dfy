/** The test of validate_config, against the sizes it is meant to let through. */
module LlcConfig {
  import opened LlcArq

  /** The C++ operator & on naturals. */
  function BitAnd(a: nat, b: nat): nat {
    if a == 0 || b == 0 then 0 else 2 * BitAnd(a / 2, b / 2) + a % 2 * (b % 2)
  }

  predicate PowerOfTwo(n: nat) {
    n == 1 || (n > 1 && n % 2 == 0 && PowerOfTwo(n / 2))
  }

  lemma {:induction false} BitAndSelf(n: nat)
    ensures BitAnd(n, n) == n
  {
    if n != 0 { BitAndSelf(n / 2); }
  }

  /** Masking with n - 1 tells the powers of two from all other sizes. */
  lemma {:induction false} MaskTest(n: nat)
    requires n > 0
    ensures BitAnd(n, n - 1) == 0 <==> PowerOfTwo(n)
  {
    if n % 2 == 0 {
      assert (n - 1) / 2 == n / 2 - 1;
      MaskTest(n / 2);
    } else if n > 1 {
      assert (n - 1) / 2 == n / 2;
      BitAndSelf(n / 2);
    }
  }

  /** The configuration as the enumerations and sizes it comes in. */
  datatype Raw = Raw(mode: int, crcType: int, txSize: nat, minRecheck: nat, maxRecheck: nat, maxRetx: nat)

  const MODE_TM: int := 0
  const MODE_AM: int := 1
  const CRC_NONE: int := 0
  const CRC_32: int := 1

  /** The enumerations have named values only. */
  predicate Named(r: Raw) {
    (r.mode == MODE_TM || r.mode == MODE_AM) && (r.crcType == CRC_NONE || r.crcType == CRC_32)
  }

  /** The configuration the state machine works with. */
  function Meaning(r: Raw): Config
    requires Named(r)
  {
    Config(r.crcType == CRC_32, r.mode == MODE_AM, r.txSize, r.minRecheck, r.maxRecheck, r.maxRetx)
  }

  /** validate_config: whether STATUS_BIT_INVALID_CONFIG stays clear. A bad mode does not end the
      checks, all others do. */
  method Validate(r: Raw) returns (ok: bool)
    ensures ok <==> Named(r) && ValidConfig(Meaning(r)) && PowerOfTwo(r.txSize)
  {
    ok := r.mode == MODE_TM || r.mode == MODE_AM;
    if r.crcType != CRC_NONE && r.crcType != CRC_32 { return false; }
    if r.txSize == 0 { return false; }
    MaskTest(r.txSize);
    if BitAnd(r.txSize, r.txSize - 1) != 0 { return false; }
    if r.minRecheck == 0 { return false; }
    if r.maxRecheck == 0 { return false; }
    if r.maxRecheck < r.minRecheck { return false; }
    if r.maxRetx == 0 { return false; }
  }
}
