/** The message codec: what the generator emits for a schema, as functions on octets. */
module Codec {
  import opened Arith
  import opened Bytes
  import opened Bits

  datatype Schema =
    | Scalar(width: nat)
    | Text
    | Vector(elem: Schema, bound: nat)
    | StaticArray(elem: Schema, bound: nat)
    | Sequence(fields: seq<Field>)
    | Choice(alternatives: seq<Schema>)

  datatype Field = Required(schema: Schema) | Optional(schema: Schema)

  datatype Value =
    | Num(n: nat)
    | Str(octets: seq<byte>)
    | List(items: seq<Value>)
    | Record(slots: seq<Slot>)
    | Alt(index: nat, value: Value)

  datatype Slot = Absent | Present(value: Value)

  datatype Decoded<T> = Fail | Got(value: T, rest: seq<byte>)

  // ---- little-endian numbers ----

  function Power(w: nat): (p: nat)
    ensures p > 0
  {
    if w == 0 then 1 else 0x100 * Power(w - 1)
  }

  /** The first `w` octets of a number in memory. */
  function Octets(n: nat, w: nat): (b: seq<byte>)
    ensures |b| == w
  {
    if w == 0 then [] else [n % 0x100] + Octets(n / 0x100, w - 1)
  }

  function NumberOf(b: seq<byte>): (n: nat)
    ensures n < Power(|b|)
  {
    if |b| == 0 then 0 else b[0] + 0x100 * NumberOf(b[1..])
  }

  lemma StackedRemainder(m: nat, p: nat, low: nat)
    requires p > 0 && low < 0x100
    ensures (0x100 * m + low) % (0x100 * p) == low + 0x100 * (m % p)
  {
    var q, r := m / p, m % p;
    assert m == q * p + r;
    assert 0x100 * (q * p) == q * (0x100 * p);
    DivModUnique(0x100 * m + low, 0x100 * p, q, low + 0x100 * r);
  }

  /** Storing in `w` octets keeps a number modulo 256 to the `w`. */
  lemma {:induction false} OctetsRoundTrip(n: nat, w: nat)
    ensures NumberOf(Octets(n, w)) == n % Power(w)
    ensures n < Power(w) ==> NumberOf(Octets(n, w)) == n
  {
    if w == 0 {
      DivModUnique(n, 1, n, 0);
    } else {
      OctetsRoundTrip(n / 0x100, w - 1);
      StackedRemainder(n / 0x100, Power(w - 1), n % 0x100);
      if n < Power(w) {
        DivModUnique(n, Power(w), 0, n);
      }
    }
  }

  lemma NestedQuotient(n: nat, p: nat)
    requires p > 0
    ensures n / 0x100 / p == n / (0x100 * p)
  {
    var m, low := n / 0x100, n % 0x100;
    var q, r := m / p, m % p;
    assert m == q * p + r;
    assert 0x100 * (q * p) == q * (0x100 * p);
    DivModUnique(n, 0x100 * p, q, low + 0x100 * r);
  }

  /** The octets are the base-256 digits, the least significant first. */
  lemma {:induction false} OctetAt(n: nat, w: nat, k: nat)
    requires k < w
    ensures Octets(n, w)[k] == n / Power(k) % 0x100
  {
    if k > 0 {
      OctetAt(n / 0x100, w - 1, k - 1);
      NestedQuotient(n, Power(k - 1));
    }
  }

  lemma PowerWidths()
    ensures Power(1) == 0x100 && Power(2) == 0x1_0000 && Power(4) == 0x1_0000_0000
    ensures Power(8) == 0x1_0000_0000_0000_0000
  {
    assert Power(3) == 0x100_0000;
    assert Power(5) == 0x100_0000_0000;
    assert Power(6) == 0x1_0000_0000_0000;
    assert Power(7) == 0x100_0000_0000_0000;
  }

  // ---- widths the generator chooses ----

  /** DetermineUnsignedType: the octets of the count of a vector bounded by `n`. */
  function CountWidth(n: nat): (w: nat)
    ensures w == 1 || w == 2 || w == 4 || w == 8
  {
    if n <= 0x100 then 1 else if n <= 0x1_0000 then 2 else if n <= 0x1_0000_0000 then 4 else 8
  }

  /** determineUnsignedSize: the octets of the tag of a choice among `n`. */
  function TagWidth(n: nat): (w: nat)
    ensures w == 1 || w == 2 || w == 4 || w == 8
  {
    if n < 0x100 then 1 else if n < 0x1_0000 then 2 else if n < 0x1_0000_0000 then 4 else 8
  }

  /** The width is the least of those C++ has that can hold the number: the count itself for a tag, one
      less for the count of a vector. */
  lemma WidthsLeast(n: nat, w: nat)
    requires w == 1 || w == 2 || w == 4
    ensures TagWidth(n) <= w <==> n < Power(w)
    ensures CountWidth(n) <= w <==> n <= Power(w)
  {
    PowerWidths();
  }

  // ---- the mask of optional fields ----

  function Optionals(fields: seq<Field>): nat {
    if |fields| == 0 then 0 else (if fields[0].Optional? then 1 else 0) + Optionals(fields[1..])
  }

  function MaskSize(fields: seq<Field>): (n: nat)
    ensures Optionals(fields) <= 8 * n < Optionals(fields) + 8
  {
    (Optionals(fields) + 7) / 8
  }

  /** check_optional: bit 0x80 >> (j & 7) of octet j >> 3. */
  function CheckOptional(mask: seq<byte>, j: nat): bool
    requires j < 8 * |mask|
  {
    ByteBits(mask[j / 8])[j % 8]
  }

  /** set_optional. */
  function SetOptional(mask: seq<byte>, j: nat): (m: seq<byte>)
    requires j < 8 * |mask|
    ensures |m| == |mask|
  {
    mask[j / 8 := BitsByte(ByteBits(mask[j / 8])[j % 8 := true])]
  }

  /** Setting one bit sets that bit and no other. */
  lemma SetOptionalLaws(mask: seq<byte>, j: nat, k: nat)
    requires j < 8 * |mask| && k < 8 * |mask|
    ensures CheckOptional(SetOptional(mask, j), k) == (k == j || CheckOptional(mask, k))
  {
    var x := ByteBits(mask[j / 8])[j % 8 := true];
    ByteBitsInverse(0, x);
    assert k == k / 8 * 8 + k % 8 && j == j / 8 * 8 + j % 8;
  }

  lemma {:induction false} NumberSetBit(b: bits, k: nat)
    requires k < |b| && !b[k]
    ensures Number(b[k := true]) == Number(b) + Pow2(|b| - 1 - k)
  {
    var c := b[k := true];
    if k == |b| - 1 {
      assert c[..|b| - 1] == b[..|b| - 1];
    } else {
      assert c[..|b| - 1] == b[..|b| - 1][k := true];
      NumberSetBit(b[..|b| - 1], k);
    }
  }

  /** Entering optional number `j` adds the weight 0x80 >> (j & 7) to octet j >> 3. */
  lemma SetOptionalWeight(mask: seq<byte>, j: nat)
    requires j < 8 * |mask| && !CheckOptional(mask, j)
    ensures SetOptional(mask, j)[j / 8] == mask[j / 8] + Pow2(7 - j % 8) && Pow2(7) == 0x80
  {
    NumberSetBit(ByteBits(mask[j / 8]), j % 8);
    ByteBitsInverse(mask[j / 8], ByteBits(mask[j / 8]));
  }

  lemma {:induction false} ZeroBits(k: nat)
    ensures forall i :: 0 <= i < k ==> !BitsOf(0, k)[i]
  {
    if k != 0 { ZeroBits(k - 1); }
  }

  function NoOptionals(n: nat): (m: seq<byte>)
    ensures |m| == n
  {
    seq(n, i => 0)
  }

  lemma NoOptionalSet(n: nat, k: nat)
    requires k < 8 * n
    ensures !CheckOptional(NoOptionals(n), k)
  {
    ZeroBits(8);
  }

  /** The mask after the optional fields, of which the first is number `j`, have been entered. */
  function Mask(mask: seq<byte>, fields: seq<Field>, slots: seq<Slot>, j: nat): (m: seq<byte>)
    requires |fields| == |slots| && j + Optionals(fields) <= 8 * |mask|
    ensures |m| == |mask|
    decreases fields
  {
    if |fields| == 0 then mask
    else if fields[0].Required? then Mask(mask, fields[1..], slots[1..], j)
    else Mask(if slots[0].Present? then SetOptional(mask, j) else mask, fields[1..], slots[1..], j + 1)
  }

  /** The mask says which optional fields are present. */
  predicate Tells(mask: seq<byte>, fields: seq<Field>, slots: seq<Slot>, j: nat)
    requires |fields| == |slots| && j + Optionals(fields) <= 8 * |mask|
  {
    |fields| > 0 ==>
      if fields[0].Required? then Tells(mask, fields[1..], slots[1..], j)
      else CheckOptional(mask, j) == slots[0].Present? && Tells(mask, fields[1..], slots[1..], j + 1)
  }

  lemma {:induction false} MaskKeepsEarlier(mask: seq<byte>, fields: seq<Field>, slots: seq<Slot>, j: nat, k: nat)
    requires |fields| == |slots| && j + Optionals(fields) <= 8 * |mask| && k < j && k < 8 * |mask|
    ensures CheckOptional(Mask(mask, fields, slots, j), k) == CheckOptional(mask, k)
    decreases fields
  {
    if |fields| != 0 {
      if fields[0].Required? {
        MaskKeepsEarlier(mask, fields[1..], slots[1..], j, k);
      } else if slots[0].Present? {
        SetOptionalLaws(mask, j, k);
        MaskKeepsEarlier(SetOptional(mask, j), fields[1..], slots[1..], j + 1, k);
      } else {
        MaskKeepsEarlier(mask, fields[1..], slots[1..], j + 1, k);
      }
    }
  }

  lemma {:induction false} MaskTells(mask: seq<byte>, fields: seq<Field>, slots: seq<Slot>, j: nat)
    requires |fields| == |slots| && j + Optionals(fields) <= 8 * |mask|
    requires forall k :: j <= k < 8 * |mask| ==> !CheckOptional(mask, k)
    ensures Tells(Mask(mask, fields, slots, j), fields, slots, j)
    decreases fields
  {
    if |fields| != 0 {
      if fields[0].Required? {
        MaskTells(mask, fields[1..], slots[1..], j);
      } else {
        var m := if slots[0].Present? then SetOptional(mask, j) else mask;
        forall k | j <= k < 8 * |mask| ensures CheckOptional(m, k) == (k == j && slots[0].Present?) {
          SetOptionalLaws(mask, j, k);
        }
        MaskTells(m, fields[1..], slots[1..], j + 1);
        MaskKeepsEarlier(m, fields[1..], slots[1..], j + 1, j);
      }
    }
  }

  // ---- values of a schema ----

  /** A C++ value of the type generated for the schema. */
  predicate Typed(s: Schema, v: Value)
    decreases s, 0
  {
    match s
    case Scalar(w) => v.Num? && v.n < Power(w)
    case Text => v.Str?
    case Vector(elem, _) => v.List? && AllTyped(elem, v.items)
    case StaticArray(elem, bound) => v.List? && |v.items| <= bound && AllTyped(elem, v.items)
    case Sequence(fields) => v.Record? && FieldsTyped(fields, v.slots)
    case Choice(alternatives) => v.Alt? && v.index < |alternatives| && Typed(alternatives[v.index], v.value)
  }

  predicate AllTyped(elem: Schema, items: seq<Value>)
    decreases elem, |items|
  {
    |items| > 0 ==> Typed(elem, items[0]) && AllTyped(elem, items[1..])
  }

  predicate FieldsTyped(fields: seq<Field>, slots: seq<Slot>)
    decreases fields, 0
  {
    if |fields| == 0 then |slots| == 0
    else
      && |slots| > 0
      && (fields[0].Required? ==> slots[0].Present?)
      && (slots[0].Present? ==> assert fields decreases to fields[0]; Typed(fields[0].schema, slots[0].value))
      && FieldsTyped(fields[1..], slots[1..])
  }

  lemma {:induction false} SlotsMatch(fields: seq<Field>, slots: seq<Slot>)
    requires FieldsTyped(fields, slots)
    ensures |fields| == |slots|
  {
    if |fields| != 0 { SlotsMatch(fields[1..], slots[1..]); }
  }

  predicate TextFits(t: seq<byte>) {
    forall i :: 0 <= i < |t| ==> t[i] != 0
  }

  /** What the format can carry: text without NUL, and counts that the count octets can hold. */
  predicate Fits(s: Schema, v: Value)
    requires Typed(s, v)
    decreases s, 0
  {
    match s
    case Scalar(_) => true
    case Text => TextFits(v.octets)
    case Vector(elem, bound) => |v.items| < Power(CountWidth(bound)) && AllFit(elem, v.items)
    case StaticArray(elem, bound) => |v.items| < Power(CountWidth(bound)) && AllFit(elem, v.items)
    case Sequence(fields) => FieldsFit(fields, v.slots)
    case Choice(alternatives) => Fits(alternatives[v.index], v.value)
  }

  predicate AllFit(elem: Schema, items: seq<Value>)
    requires AllTyped(elem, items)
    decreases elem, |items|
  {
    |items| > 0 ==> Fits(elem, items[0]) && AllFit(elem, items[1..])
  }

  predicate FieldsFit(fields: seq<Field>, slots: seq<Slot>)
    requires FieldsTyped(fields, slots)
    decreases fields, 0
  {
    |fields| > 0 ==>
      && (slots[0].Present? ==> assert fields decreases to fields[0]; Fits(fields[0].schema, slots[0].value))
      && FieldsFit(fields[1..], slots[1..])
  }

  /** A schema C++ can express: a choice has alternatives, and no more than a 64-bit tag can name. */
  predicate WellFormed(s: Schema)
    decreases s, 0
  {
    match s
    case Scalar(_) => true
    case Text => true
    case Vector(elem, _) => WellFormed(elem)
    case StaticArray(elem, _) => WellFormed(elem)
    case Sequence(fields) => FieldsWellFormed(fields)
    case Choice(alternatives) => 0 < |alternatives| <= 0x1_0000_0000_0000_0000 && AllWellFormed(alternatives)
  }

  predicate FieldsWellFormed(fields: seq<Field>)
    decreases fields, 0
  {
    |fields| > 0 ==>
      && (assert fields decreases to fields[0]; WellFormed(fields[0].schema))
      && FieldsWellFormed(fields[1..])
  }

  predicate AllWellFormed(alternatives: seq<Schema>)
    decreases alternatives, 0
  {
    |alternatives| > 0 ==> WellFormed(alternatives[0]) && AllWellFormed(alternatives[1..])
  }

  lemma {:induction false} AlternativeWellFormed(alternatives: seq<Schema>, i: nat)
    requires AllWellFormed(alternatives) && i < |alternatives|
    ensures WellFormed(alternatives[i])
  {
    if i > 0 { AlternativeWellFormed(alternatives[1..], i - 1); }
  }

  // ---- encoding ----

  function Enc(s: Schema, v: Value): seq<byte>
    requires Typed(s, v)
    decreases s, 0
  {
    match s
    case Scalar(w) => Octets(v.n, w)
    case Text => v.octets + [0]
    case Vector(elem, bound) => Octets(|v.items|, CountWidth(bound)) + EncAll(elem, v.items)
    case StaticArray(elem, bound) => Octets(|v.items|, CountWidth(bound)) + EncAll(elem, v.items)
    case Sequence(fields) => MaskOf(fields, v.slots) + EncFields(fields, v.slots)
    case Choice(alternatives) => Octets(v.index, TagWidth(|alternatives|)) + Enc(alternatives[v.index], v.value)
  }

  function MaskOf(fields: seq<Field>, slots: seq<Slot>): (m: seq<byte>)
    requires FieldsTyped(fields, slots)
    ensures |m| == MaskSize(fields)
  {
    SlotsMatch(fields, slots);
    Mask(NoOptionals(MaskSize(fields)), fields, slots, 0)
  }

  function EncAll(elem: Schema, items: seq<Value>): seq<byte>
    requires AllTyped(elem, items)
    decreases elem, |items|
  {
    if |items| == 0 then [] else Enc(elem, items[0]) + EncAll(elem, items[1..])
  }

  function EncFields(fields: seq<Field>, slots: seq<Slot>): seq<byte>
    requires FieldsTyped(fields, slots)
    decreases fields, 0
  {
    if |fields| == 0 then []
    else
      assert fields decreases to fields[0];
      (if slots[0].Present? then Enc(fields[0].schema, slots[0].value) else []) + EncFields(fields[1..], slots[1..])
  }

  // ---- decoding ----

  function FindNul(b: seq<byte>): (k: nat)
    ensures k <= |b| && TextFits(b[..k]) && (k < |b| ==> b[k] == 0)
  {
    if |b| == 0 || b[0] == 0 then 0
    else
      assert b[..1 + FindNul(b[1..])] == [b[0]] + b[1..][..FindNul(b[1..])];
      1 + FindNul(b[1..])
  }

  /** What a freshly constructed object holds. */
  function Default(s: Schema): Value
    decreases s, 0
  {
    match s
    case Scalar(_) => Num(0)
    case Text => Str([])
    case Vector(_, _) => List([])
    case StaticArray(_, _) => List([])
    case Sequence(fields) => Record(DefaultSlots(fields))
    case Choice(alternatives) => if |alternatives| == 0 then Num(0) else Alt(0, Default(alternatives[0]))
  }

  function DefaultSlots(fields: seq<Field>): seq<Slot>
    decreases fields, 0
  {
    if |fields| == 0 then []
    else
      assert fields decreases to fields[0];
      [if fields[0].Required? then Present(Default(fields[0].schema)) else Absent] + DefaultSlots(fields[1..])
  }

  /** Decoding into a fresh object. An unknown tag leaves a choice as it was constructed. */
  function Dec(s: Schema, b: seq<byte>): (r: Decoded<Value>)
    decreases s, 0
  {
    match s
    case Scalar(w) => if w > |b| then Fail else Got(Num(NumberOf(b[..w])), b[w..])
    case Text =>
      var k := FindNul(b);
      if k == |b| then Fail else Got(Str(b[..k]), b[k + 1..])
    case Vector(elem, bound) =>
      var w := CountWidth(bound);
      if w > |b| then Fail else AsList(DecAll(elem, NumberOf(b[..w]), b[w..]))
    case StaticArray(elem, bound) =>
      var w := CountWidth(bound);
      if w > |b| || NumberOf(b[..w]) > bound then Fail else AsList(DecAll(elem, NumberOf(b[..w]), b[w..]))
    case Sequence(fields) =>
      var m := MaskSize(fields);
      if m > |b| then Fail else AsRecord(DecFields(fields, b[..m], 0, b[m..]))
    case Choice(alternatives) =>
      var w := TagWidth(|alternatives|);
      if w > |b| then Fail
      else if NumberOf(b[..w]) < |alternatives| then
        match Dec(alternatives[NumberOf(b[..w])], b[w..])
        case Fail => Fail
        case Got(v, rest) => Got(Alt(NumberOf(b[..w]), v), rest)
      else Got(Default(s), b[w..])
  }

  function AsList(r: Decoded<seq<Value>>): Decoded<Value> {
    if r.Fail? then Fail else Got(List(r.value), r.rest)
  }

  function AsRecord(r: Decoded<seq<Slot>>): Decoded<Value> {
    if r.Fail? then Fail else Got(Record(r.value), r.rest)
  }

  function DecAll(elem: Schema, count: nat, b: seq<byte>): (r: Decoded<seq<Value>>)
    ensures r.Got? ==> |r.value| == count
    decreases elem, count
  {
    if count == 0 then Got([], b)
    else
      match Dec(elem, b)
      case Fail => Fail
      case Got(v, b1) =>
        match DecAll(elem, count - 1, b1)
        case Fail => Fail
        case Got(vs, rest) => Got([v] + vs, rest)
  }

  function DecFields(fields: seq<Field>, mask: seq<byte>, j: nat, b: seq<byte>): (r: Decoded<seq<Slot>>)
    requires j + Optionals(fields) <= 8 * |mask|
    ensures r.Got? ==> |r.value| == |fields|
    decreases fields, 0
  {
    if |fields| == 0 then Got([], b)
    else if fields[0].Optional? && !CheckOptional(mask, j) then
      match DecFields(fields[1..], mask, j + 1, b)
      case Fail => Fail
      case Got(slots, rest) => Got([Absent] + slots, rest)
    else
      assert fields decreases to fields[0];
      match Dec(fields[0].schema, b)
      case Fail => Fail
      case Got(v, b1) =>
        match DecFields(fields[1..], mask, if fields[0].Optional? then j + 1 else j, b1)
        case Fail => Fail
        case Got(slots, rest) => Got([Present(v)] + slots, rest)
  }
}
