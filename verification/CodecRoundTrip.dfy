/** Decoding inverts encoding, for every schema and every value the format can carry. */
module CodecRoundTrip {
  import opened Arith
  import opened Bytes
  import opened Codec

  lemma TagHolds(n: nat, i: nat)
    requires i < n <= 0x1_0000_0000_0000_0000
    ensures i < Power(TagWidth(n))
  {
    PowerWidths();
  }

  lemma {:induction false} NulAfter(t: seq<byte>, rest: seq<byte>)
    requires TextFits(t)
    ensures FindNul(t + [0] + rest) == |t|
  {
    var b := t + [0] + rest;
    if |t| > 0 {
      assert b[1..] == t[1..] + [0] + rest;
      NulAfter(t[1..], rest);
    }
  }

  /** Octets then `tail`: the number reads back and the tail is what is left. */
  lemma NumberAhead(n: nat, w: nat, tail: seq<byte>)
    requires n < Power(w)
    ensures var b := Octets(n, w) + tail; w <= |b| && NumberOf(b[..w]) == n && b[w..] == tail
  {
    var b := Octets(n, w) + tail;
    OctetsRoundTrip(n, w);
    assert b[..w] == Octets(n, w) && b[w..] == tail;
  }

  // ---- decode after encode ----

  lemma {:induction false} RoundTrip(s: Schema, v: Value, rest: seq<byte>, b: seq<byte>)
    requires WellFormed(s) && Typed(s, v) && Fits(s, v) && b == Enc(s, v) + rest
    ensures Dec(s, b) == Got(v, rest)
    decreases s, 0
  {
    match s
    case Scalar(w) => NumberAhead(v.n, w, rest);
    case Text => TextRoundTrip(v.octets, rest, b);
    case Vector(elem, bound) => CountedRoundTrip(elem, bound, v.items, EncAll(elem, v.items), rest, b);
    case StaticArray(elem, bound) => CountedRoundTrip(elem, bound, v.items, EncAll(elem, v.items), rest, b);
    case Sequence(fields) => SequenceRoundTrip(fields, v.slots, MaskOf(fields, v.slots), EncFields(fields, v.slots),
                                               rest, b);
    case Choice(alternatives) =>
      AlternativeWellFormed(alternatives, v.index);
      var body := Enc(alternatives[v.index], v.value);
      RoundTrip(alternatives[v.index], v.value, rest, body + rest);
      ChoiceRoundTrip(alternatives, v.index, v.value, body, rest, b);
  }

  lemma TextRoundTrip(t: seq<byte>, rest: seq<byte>, b: seq<byte>)
    requires TextFits(t) && b == t + [0] + rest
    ensures Dec(Text, b) == Got(Str(t), rest)
  {
    NulAfter(t, rest);
    assert b[..|t|] == t && b[|t| + 1..] == rest;
  }

  lemma TagThenBody(alternatives: seq<Schema>, i: nat, v: Value, b: seq<byte>, rest: seq<byte>)
    requires i < |alternatives| && TagWidth(|alternatives|) <= |b|
    requires NumberOf(b[..TagWidth(|alternatives|)]) == i
    requires Dec(alternatives[i], b[TagWidth(|alternatives|)..]) == Got(v, rest)
    ensures Dec(Choice(alternatives), b) == Got(Alt(i, v), rest)
  {
    hide TagWidth, NumberOf;
  }

  /** A tag and a body that decodes. */
  lemma ChoiceRoundTrip(alternatives: seq<Schema>, i: nat, v: Value, body: seq<byte>, rest: seq<byte>, b: seq<byte>)
    requires i < |alternatives| <= 0x1_0000_0000_0000_0000 && Dec(alternatives[i], body + rest) == Got(v, rest)
    requires b == Octets(i, TagWidth(|alternatives|)) + body + rest
    ensures Dec(Choice(alternatives), b) == Got(Alt(i, v), rest)
  {
    hide TagWidth, Octets, NumberOf, Dec;
    var w := TagWidth(|alternatives|);
    TagHolds(|alternatives|, i);
    assert b == Octets(i, w) + (body + rest);
    NumberAhead(i, w, body + rest);
    TagThenBody(alternatives, i, v, b, rest);
  }

  lemma MaskOfTells(fields: seq<Field>, slots: seq<Slot>)
    requires FieldsTyped(fields, slots) && |fields| == |slots|
    ensures Tells(MaskOf(fields, slots), fields, slots, 0)
  {
    var n := MaskSize(fields);
    forall k | 0 <= k < 8 * n ensures !CheckOptional(NoOptionals(n), k) {
      NoOptionalSet(n, k);
    }
    MaskTells(NoOptionals(n), fields, slots, 0);
  }

  lemma {:induction false} SequenceRoundTrip(fields: seq<Field>, slots: seq<Slot>, mask: seq<byte>, body: seq<byte>,
                                             rest: seq<byte>, b: seq<byte>)
    requires FieldsWellFormed(fields) && FieldsTyped(fields, slots) && FieldsFit(fields, slots)
    requires mask == MaskOf(fields, slots) && body == EncFields(fields, slots) && b == mask + body + rest
    ensures Dec(Sequence(fields), b) == Got(Record(slots), rest)
    decreases fields, 1
  {
    SlotsMatch(fields, slots);
    MaskOfTells(fields, slots);
    FieldsRoundTrip(fields, slots, mask, 0, rest, body + rest);
    assert b[..|mask|] == mask && b[|mask|..] == body + rest;
  }

  /** A count and that many elements. */
  lemma Counted(elem: Schema, bound: nat, items: seq<Value>, tail: seq<byte>, rest: seq<byte>, b: seq<byte>)
    requires var w := CountWidth(bound); w <= |b| && NumberOf(b[..w]) == |items| && b[w..] == tail
    requires DecAll(elem, |items|, tail) == Got(items, rest)
    ensures Dec(Vector(elem, bound), b) == Got(List(items), rest)
    ensures |items| <= bound ==> Dec(StaticArray(elem, bound), b) == Got(List(items), rest)
  {}

  lemma {:induction false} CountedRoundTrip(elem: Schema, bound: nat, items: seq<Value>, body: seq<byte>,
                                            rest: seq<byte>, b: seq<byte>)
    requires WellFormed(elem) && AllTyped(elem, items) && AllFit(elem, items) && |items| < Power(CountWidth(bound))
    requires body == EncAll(elem, items) && b == Octets(|items|, CountWidth(bound)) + body + rest
    ensures Dec(Vector(elem, bound), b) == Got(List(items), rest)
    ensures |items| <= bound ==> Dec(StaticArray(elem, bound), b) == Got(List(items), rest)
    decreases elem, |items| + 1
  {
    var tail := body + rest;
    AllRoundTrip(elem, items, rest, tail);
    Regroup(Octets(|items|, CountWidth(bound)), body, rest);
    NumberAhead(|items|, CountWidth(bound), tail);
    Counted(elem, bound, items, tail, rest, b);
  }

  lemma {:induction false} AllRoundTrip(elem: Schema, items: seq<Value>, rest: seq<byte>, b: seq<byte>)
    requires WellFormed(elem) && AllTyped(elem, items) && AllFit(elem, items) && b == EncAll(elem, items) + rest
    ensures DecAll(elem, |items|, b) == Got(items, rest)
    decreases elem, |items|
  {
    if |items| == 0 {
      assert b == rest;
    } else {
      var tail := EncAll(elem, items[1..]) + rest;
      Regroup(Enc(elem, items[0]), EncAll(elem, items[1..]), rest);
      RoundTrip(elem, items[0], tail, b);
      AllRoundTrip(elem, items[1..], rest, tail);
      NextItem(elem, items, b, tail, rest);
    }
  }

  lemma NextItem(elem: Schema, items: seq<Value>, b: seq<byte>, tail: seq<byte>, rest: seq<byte>)
    requires |items| > 0 && Dec(elem, b) == Got(items[0], tail)
    requires DecAll(elem, |items| - 1, tail) == Got(items[1..], rest)
    ensures DecAll(elem, |items|, b) == Got(items, rest)
  {
    assert [items[0]] + items[1..] == items;
  }

  lemma {:induction false} FieldsRoundTrip(fields: seq<Field>, slots: seq<Slot>, mask: seq<byte>, j: nat,
                                           rest: seq<byte>, b: seq<byte>)
    requires FieldsWellFormed(fields) && FieldsTyped(fields, slots) && FieldsFit(fields, slots)
    requires |fields| == |slots| && j + Optionals(fields) <= 8 * |mask| && Tells(mask, fields, slots, j)
    requires b == EncFields(fields, slots) + rest
    ensures DecFields(fields, mask, j, b) == Got(slots, rest)
    decreases fields, 0
  {
    if |fields| == 0 {
      assert b == rest;
    } else {
      var others := EncFields(fields[1..], slots[1..]);
      var tail := others + rest;
      FieldsRoundTrip(fields[1..], slots[1..], mask, if fields[0].Optional? then j + 1 else j, rest, tail);
      if slots[0].Present? {
        assert fields decreases to fields[0];
        Regroup(Enc(fields[0].schema, slots[0].value), others, rest);
        RoundTrip(fields[0].schema, slots[0].value, tail, b);
      } else {
        assert b == tail;
      }
      NextField(fields, slots, mask, j, b, tail, rest);
    }
  }

  lemma NextField(fields: seq<Field>, slots: seq<Slot>, mask: seq<byte>, j: nat, b: seq<byte>, tail: seq<byte>,
                  rest: seq<byte>)
    requires 0 < |fields| == |slots| && j + Optionals(fields) <= 8 * |mask|
    requires if fields[0].Optional? then CheckOptional(mask, j) == slots[0].Present? else slots[0].Present?
    requires if slots[0].Present? then Dec(fields[0].schema, b) == Got(slots[0].value, tail) else b == tail
    requires DecFields(fields[1..], mask, if fields[0].Optional? then j + 1 else j, tail) == Got(slots[1..], rest)
    ensures DecFields(fields, mask, j, b) == Got(slots, rest)
  {
    assert [slots[0]] + slots[1..] == slots;
  }

  // ---- every decoded value is one the format can carry ----

  lemma {:induction false} DefaultFits(s: Schema)
    requires WellFormed(s)
    ensures Typed(s, Default(s)) && Fits(s, Default(s))
    decreases s, 0
  {
    match s
    case Scalar(_) =>
    case Text =>
    case Vector(_, _) =>
    case StaticArray(_, _) =>
    case Sequence(fields) => DefaultSlotsFit(fields);
    case Choice(alternatives) =>
      AlternativeWellFormed(alternatives, 0);
      DefaultFits(alternatives[0]);
  }

  lemma {:induction false} DefaultSlotsFit(fields: seq<Field>)
    requires FieldsWellFormed(fields)
    ensures FieldsTyped(fields, DefaultSlots(fields)) && FieldsFit(fields, DefaultSlots(fields))
    decreases fields, 0
  {
    if |fields| > 0 {
      assert fields decreases to fields[0];
      DefaultFits(fields[0].schema);
      DefaultSlotsFit(fields[1..]);
      assert DefaultSlots(fields)[1..] == DefaultSlots(fields[1..]);
    }
  }

  lemma {:induction false} DecodedFits(s: Schema, b: seq<byte>)
    requires WellFormed(s) && Dec(s, b).Got?
    ensures Typed(s, Dec(s, b).value) && Fits(s, Dec(s, b).value)
    decreases s, 0
  {
    match s
    case Scalar(w) =>
    case Text =>
    case Vector(elem, bound) =>
      var w := CountWidth(bound);
      AllDecodedFit(elem, NumberOf(b[..w]), b[w..]);
    case StaticArray(elem, bound) =>
      var w := CountWidth(bound);
      AllDecodedFit(elem, NumberOf(b[..w]), b[w..]);
    case Sequence(fields) =>
      FieldsDecodedFit(fields, b[..MaskSize(fields)], 0, b[MaskSize(fields)..]);
    case Choice(alternatives) =>
      var w := TagWidth(|alternatives|);
      var t := NumberOf(b[..w]);
      if t < |alternatives| {
        AlternativeWellFormed(alternatives, t);
        DecodedFits(alternatives[t], b[w..]);
      } else {
        DefaultFits(s);
      }
  }

  lemma {:induction false} AllDecodedFit(elem: Schema, count: nat, b: seq<byte>)
    requires WellFormed(elem) && DecAll(elem, count, b).Got?
    ensures AllTyped(elem, DecAll(elem, count, b).value) && AllFit(elem, DecAll(elem, count, b).value)
    decreases elem, count
  {
    if count > 0 {
      DecodedFits(elem, b);
      AllDecodedFit(elem, count - 1, Dec(elem, b).rest);
      var vs := DecAll(elem, count, b).value;
      assert vs[1..] == DecAll(elem, count - 1, Dec(elem, b).rest).value;
    }
  }

  lemma {:induction false} FieldsDecodedFit(fields: seq<Field>, mask: seq<byte>, j: nat, b: seq<byte>)
    requires FieldsWellFormed(fields) && j + Optionals(fields) <= 8 * |mask| && DecFields(fields, mask, j, b).Got?
    ensures FieldsTyped(fields, DecFields(fields, mask, j, b).value)
    ensures FieldsFit(fields, DecFields(fields, mask, j, b).value)
    decreases fields, 0
  {
    if |fields| > 0 {
      var slots := DecFields(fields, mask, j, b).value;
      if fields[0].Optional? && !CheckOptional(mask, j) {
        FieldsDecodedFit(fields[1..], mask, j + 1, b);
        assert slots[1..] == DecFields(fields[1..], mask, j + 1, b).value;
      } else {
        assert fields decreases to fields[0];
        DecodedFits(fields[0].schema, b);
        var j', b' := if fields[0].Optional? then j + 1 else j, Dec(fields[0].schema, b).rest;
        FieldsDecodedFit(fields[1..], mask, j', b');
        assert slots[1..] == DecFields(fields[1..], mask, j', b').value;
      }
    }
  }

  // ---- the main results ----

  /** Decoding the encoding of a value, followed by any octets, returns that value and exactly
      those octets if and only if the value fits. */
  lemma RoundTripIff(s: Schema, v: Value, rest: seq<byte>)
    requires WellFormed(s) && Typed(s, v)
    ensures Dec(s, Enc(s, v) + rest) == Got(v, rest) <==> Fits(s, v)
  {
    if Fits(s, v) {
      RoundTrip(s, v, rest, Enc(s, v) + rest);
    } else if Dec(s, Enc(s, v) + rest) == Got(v, rest) {
      DecodedFits(s, Enc(s, v) + rest);
    }
  }

  /** No encoding starts another: a receiver that knows the schema can tell where a value ends. */
  lemma Unambiguous(s: Schema, v: Value, w: Value, x: seq<byte>, y: seq<byte>)
    requires WellFormed(s) && Typed(s, v) && Typed(s, w) && Fits(s, v) && Fits(s, w)
    requires Enc(s, v) + x == Enc(s, w) + y
    ensures v == w && x == y
  {
    RoundTrip(s, v, x, Enc(s, v) + x);
    RoundTrip(s, w, y, Enc(s, w) + y);
  }

  /** A vector whose length is a multiple of what the count octets can hold comes back empty,
      and its elements are left over. */
  lemma OverfullVector(elem: Schema, bound: nat, items: seq<Value>, rest: seq<byte>)
    requires AllTyped(elem, items) && |items| % Power(CountWidth(bound)) == 0
    ensures Dec(Vector(elem, bound), Enc(Vector(elem, bound), List(items)) + rest) ==
            Got(List([]), EncAll(elem, items) + rest)
  {
    var w, body := CountWidth(bound), EncAll(elem, items);
    OctetsRoundTrip(|items|, w);
    var b := Octets(|items|, w) + (body + rest);
    assert Octets(|items|, w) + body + rest == b;
    assert b[..w] == Octets(|items|, w) && b[w..] == body + rest;
  }

  lemma {:induction false} AllBytes(items: seq<Value>)
    requires forall i :: 0 <= i < |items| ==> items[i] == Num(0)
    ensures AllTyped(Scalar(1), items)
  {
    PowerWidths();
    if |items| > 0 { AllBytes(items[1..]); }
  }

  /** The limit itself is such a length: a static array of 256 octets bounded by 256, which C++
      lets a program build, does not survive the round trip. */
  lemma FullStaticArray() returns (v: Value)
    ensures Typed(StaticArray(Scalar(1), 0x100), v) && |v.items| == 0x100
    ensures forall rest ::
              Dec(StaticArray(Scalar(1), 0x100), Enc(StaticArray(Scalar(1), 0x100), v) + rest) != Got(v, rest)
  {
    v := List(seq(0x100, i => Num(0)));
    PowerWidths();
    AllBytes(v.items);
    forall rest {
      RoundTripIff(StaticArray(Scalar(1), 0x100), v, rest);
    }
  }
}
