/** The codec context: a cursor over a buffer that the encoders write to and the decoders read
    from, one statement of the generated code at a time. */
module CodecCtx {
  import opened Bytes
  import opened Codec
  import CodecRoundTrip

  /** From one state of the buffer and cursor to the next, exactly `e` was written at the cursor. */
  ghost predicate Wrote(b0: seq<byte>, p0: nat, b1: seq<byte>, p1: nat, e: seq<byte>) {
    && p1 == p0 + |e| <= |b0| == |b1|
    && b1[..p0] == b0[..p0] && b1[p0..p1] == e && b1[p1..] == b0[p1..]
  }

  lemma WroteNothing(b: seq<byte>, p: nat)
    requires p <= |b|
    ensures Wrote(b, p, b, p, [])
  {}

  lemma WroteKeeps(b0: seq<byte>, p0: nat, b1: seq<byte>, p1: nat, e: seq<byte>, b2: seq<byte>)
    requires Wrote(b0, p0, b1, p1, e) && p1 <= |b2| && b2[..p1] == b1[..p1]
    ensures p0 <= |b0| && p0 <= |b2| && b2[..p0] == b0[..p0]
  {
    assert b2[..p0] == b2[..p1][..p0] == b1[..p1][..p0] == b1[..p0];
  }

  lemma WroteBoth(b0: seq<byte>, p0: nat, b1: seq<byte>, p1: nat, b2: seq<byte>, p2: nat, e: seq<byte>, f: seq<byte>)
    requires Wrote(b0, p0, b1, p1, e) && Wrote(b1, p1, b2, p2, f)
    ensures Wrote(b0, p0, b2, p2, e + f)
  {
    assert b2[..p0] == b2[..p1][..p0] == b1[..p1][..p0] == b1[..p0];
    assert b2[p0..p1] == b2[..p1][p0..] == b1[..p1][p0..] == b1[p0..p1];
    assert b2[p0..p2] == b2[p0..p1] + b2[p1..p2];
    assert b0[p2..] == b0[p1..][p2 - p1..] == b1[p1..][p2 - p1..] == b1[p2..];
  }

  /** What the encoder wrote, the decoder reads back from the same place, and it stops where the
      encoder stopped. */
  lemma ReadsBack(s: Schema, v: Value, b0: seq<byte>, p0: nat, b1: seq<byte>, p1: nat)
    requires WellFormed(s) && Typed(s, v) && Wrote(b0, p0, b1, p1, Enc(s, v))
    ensures Dec(s, b1[p0..]) == Got(v, b1[p1..]) <==> Fits(s, v)
  {
    assert b1[p0..] == b1[p0..p1] + b1[p1..];
    CodecRoundTrip.RoundTripIff(s, v, b1[p1..]);
  }

  /** What one field contributes after the mask. */
  function FieldOctets(f: Field, slot: Slot): seq<byte>
    requires slot.Present? ==> Typed(f.schema, slot.value)
  {
    if slot.Present? then Enc(f.schema, slot.value) else []
  }

  lemma NoFields(fields: seq<Field>, slots: seq<Slot>)
    requires FieldsTyped(fields, slots) && |fields| == 0
    ensures EncFields(fields, slots) == []
  {}

  lemma NoItems(elem: Schema, items: seq<Value>)
    requires AllTyped(elem, items) && |items| == 0
    ensures EncAll(elem, items) == []
  {}

  lemma ItemStep(elem: Schema, items: seq<Value>, i: nat)
    requires i < |items| && AllTyped(elem, items[i..])
    ensures Typed(elem, items[i]) && AllTyped(elem, items[i + 1..])
    ensures EncAll(elem, items[i..]) == Enc(elem, items[i]) + EncAll(elem, items[i + 1..])
  {
    assert items[i..][1..] == items[i + 1..];
  }

  lemma FieldStep(fields: seq<Field>, slots: seq<Slot>, i: nat)
    requires i < |fields| == |slots| && FieldsTyped(fields[i..], slots[i..])
    ensures FieldsTyped(fields[i + 1..], slots[i + 1..])
    ensures slots[i].Present? ==> Typed(fields[i].schema, slots[i].value)
    ensures EncFields(fields[i..], slots[i..]) ==
            FieldOctets(fields[i], slots[i]) + EncFields(fields[i + 1..], slots[i + 1..])
  {
    assert fields[i..][1..] == fields[i + 1..] && slots[i..][1..] == slots[i + 1..];
  }

  function Prepend<T>(done: seq<T>, r: Decoded<seq<T>>): Decoded<seq<T>> {
    if r.Fail? then Fail else Got(done + r.value, r.rest)
  }

  lemma PrependNothing<T>(r: Decoded<seq<T>>)
    ensures Prepend([], r) == r
  {
    if r.Got? {
      assert [] + r.value == r.value;
    }
  }

  lemma PrependNext<T>(done: seq<T>, x: T, r: Decoded<seq<T>>)
    ensures Prepend(done, Prepend([x], r)) == Prepend(done + [x], r)
  {
    if r.Got? {
      assert done + ([x] + r.value) == done + [x] + r.value;
    }
  }

  /** At the end of DecAll. */
  lemma LastItem(elem: Schema, items: seq<Value>, b: seq<byte>)
    ensures Prepend(items, DecAll(elem, 0, b)) == Got(items, b)
  {
    assert items + [] == items;
  }

  /** At the end of DecFields. */
  lemma LastDecoded(mask: seq<byte>, j: nat, slots: seq<Slot>, b: seq<byte>)
    requires j <= 8 * |mask|
    ensures Prepend(slots, DecFields([], mask, j, b)) == Got(slots, b)
  {
    assert slots + [] == slots;
  }

  lemma ItemFails(elem: Schema, count: nat, items: seq<Value>, b: seq<byte>)
    requires count > 0 && Dec(elem, b).Fail?
    ensures Prepend(items, DecAll(elem, count, b)) == Fail
  {}

  /** One step of DecAll. */
  lemma NextItem(elem: Schema, count: nat, items: seq<Value>, b: seq<byte>, v: Value, b1: seq<byte>)
    requires count > 0 && Dec(elem, b) == Got(v, b1)
    ensures Prepend(items, DecAll(elem, count, b)) == Prepend(items + [v], DecAll(elem, count - 1, b1))
  {
    PrependNext(items, v, DecAll(elem, count - 1, b1));
  }

  lemma FieldFails(fields: seq<Field>, mask: seq<byte>, j: nat, slots: seq<Slot>, b: seq<byte>)
    requires |fields| > 0 && j + Optionals(fields) <= 8 * |mask|
    requires (fields[0].Required? || CheckOptional(mask, j)) && Dec(fields[0].schema, b).Fail?
    ensures Prepend(slots, DecFields(fields, mask, j, b)) == Fail
  {}

  /** One step of DecFields. */
  lemma NextDecoded(fields: seq<Field>, mask: seq<byte>, j: nat, b: seq<byte>, slot: Slot, b1: seq<byte>)
    requires |fields| > 0 && j + Optionals(fields) <= 8 * |mask|
    requires slot.Present? <==> fields[0].Required? || CheckOptional(mask, j)
    requires if slot.Present? then Dec(fields[0].schema, b) == Got(slot.value, b1) else b1 == b
    ensures DecFields(fields, mask, j, b) ==
            Prepend([slot], DecFields(fields[1..], mask, if fields[0].Optional? then j + 1 else j, b1))
  {}

  /** set_optional on the mask of the sequence being encoded. */
  method SetOptionalInPlace(mask: array<byte>, j: nat)
    requires j < 8 * mask.Length
    modifies mask
    ensures mask[..] == SetOptional(old(mask[..]), j)
  {
    ghost var m := SetOptional(mask[..], j);
    mask[j / 8] := SetOptional(mask[..], j)[j / 8];
    assert mask[..] == m;
  }

  class PerCodecCtx {
    const buffer: array<byte>
    var pos: nat
    var size: nat

    ghost predicate Valid()
      reads this
    {
      pos + size == buffer.Length
    }

    constructor (buffer: array<byte>)
      ensures Valid() && this.buffer == buffer && pos == 0
    {
      this.buffer := buffer;
      pos, size := 0, buffer.Length;
    }

    method Advance(n: nat)
      requires Valid() && n <= size
      modifies this
      ensures Valid() && pos == old(pos) + n
    {
      pos := pos + n;
      size := size - n;
    }

    // ---- encoding ----

    /** Copies octets in, or reports that they do not fit. */
    method EncodeOctets(src: seq<byte>) returns (ok: bool)
      requires Valid()
      modifies this, buffer
      ensures Valid() && ok == (|src| <= old(size))
      ensures ok ==> Wrote(old(buffer[..]), old(pos), buffer[..], pos, src)
      ensures !ok ==> buffer[..] == old(buffer[..]) && pos == old(pos)
    {
      if |src| > size {
        return false;
      }
      forall i | 0 <= i < |src| {
        buffer[pos + i] := src[i];
      }
      Advance(|src|);
      return true;
    }

    /** Encodes a value if its encoding fits in what is left, and otherwise reports failure,
        having written nothing before the cursor. */
    method EncodePer(s: Schema, v: Value) returns (ok: bool)
      requires Valid() && Typed(s, v)
      modifies this, buffer
      ensures Valid() && ok == (|Enc(s, v)| <= old(size))
      ensures ok ==> Wrote(old(buffer[..]), old(pos), buffer[..], pos, Enc(s, v))
      ensures buffer[..old(pos)] == old(buffer[..pos])
      decreases s, 0
    {
      match s
      case Scalar(w) => ok := EncodeOctets(Octets(v.n, w));
      case Text => ok := EncodeOctets(v.octets + [0]);
      case Vector(elem, bound) => ok := EncodeCounted(elem, CountWidth(bound), v.items);
      case StaticArray(elem, bound) => ok := EncodeCounted(elem, CountWidth(bound), v.items);
      case Sequence(fields) => ok := EncodeSequence(fields, v.slots);
      case Choice(alternatives) => ok := EncodeChoice(alternatives, v.index, v.value);
    }

    /** The tag, then the alternative held. */
    method EncodeChoice(alternatives: seq<Schema>, index: nat, v: Value) returns (ok: bool)
      requires Valid() && index < |alternatives| && Typed(alternatives[index], v)
      modifies this, buffer
      ensures Valid() && ok == (TagWidth(|alternatives|) + |Enc(alternatives[index], v)| <= old(size))
      ensures ok ==> Wrote(old(buffer[..]), old(pos), buffer[..], pos,
                           Octets(index, TagWidth(|alternatives|)) + Enc(alternatives[index], v))
      ensures buffer[..old(pos)] == old(buffer[..pos])
      decreases alternatives, 1
    {
      ghost var b0, p0 := buffer[..], pos;
      var tag := Octets(index, TagWidth(|alternatives|));
      ok := EncodeOctets(tag);
      if ok {
        ghost var b1, p1, e := buffer[..], pos, Enc(alternatives[index], v);
        ok := EncodePer(alternatives[index], v);
        if ok {
          WroteBoth(b0, p0, b1, p1, buffer[..], pos, tag, e);
        } else {
          assert buffer[..p0] == buffer[..p1][..p0];
        }
      }
    }

    method EncodeCounted(elem: Schema, w: nat, items: seq<Value>) returns (ok: bool)
      requires Valid() && AllTyped(elem, items)
      modifies this, buffer
      ensures Valid() && ok == (w + |EncAll(elem, items)| <= old(size))
      ensures ok ==> Wrote(old(buffer[..]), old(pos), buffer[..], pos, Octets(|items|, w) + EncAll(elem, items))
      ensures buffer[..old(pos)] == old(buffer[..pos])
      decreases elem, 1
    {
      hide EncAll, AllTyped, Enc, Typed, Octets, Wrote;
      ghost var b0, p0, todo := buffer[..], pos, EncAll(elem, items);
      if w > size {
        return false;
      }
      ok := EncodeOctets(Octets(|items|, w));
      ghost var done, left := Octets(|items|, w), todo;
      assert items[0..] == items;
      var i := 0;
      while i < |items|
        invariant Valid() && i <= |items| && AllTyped(elem, items[i..])
        invariant Wrote(b0, p0, buffer[..], pos, done) && pos == p0 + |done|
        invariant left == EncAll(elem, items[i..]) && done + left == Octets(|items|, w) + todo
      {
        ItemStep(elem, items, i);
        ghost var b1, p1, e := buffer[..], pos, Enc(elem, items[i]);
        left := EncAll(elem, items[i + 1..]);
        Regroup(done, e, left);
        ok := EncodePer(elem, items[i]);
        if !ok {
          WroteKeeps(b0, p0, b1, p1, done, buffer[..]);
          return false;
        }
        WroteBoth(b0, p0, b1, p1, buffer[..], pos, done, e);
        done := done + e;
        i := i + 1;
      }
      NoItems(elem, items[i..]);
      assert done + [] == done;
      WroteKeeps(b0, p0, buffer[..], pos, done, buffer[..]);
      return true;
    }

    /** The optional mask, then the fields that are present. */
    method EncodeSequence(fields: seq<Field>, slots: seq<Slot>) returns (ok: bool)
      requires Valid() && FieldsTyped(fields, slots)
      modifies this, buffer
      ensures Valid() && ok == (MaskSize(fields) + |EncFields(fields, slots)| <= old(size))
      ensures ok ==> Wrote(old(buffer[..]), old(pos), buffer[..], pos, MaskOf(fields, slots) + EncFields(fields, slots))
      ensures buffer[..old(pos)] == old(buffer[..pos])
      decreases fields, 2
    {
      SlotsMatch(fields, slots);
      ghost var b0, p0, e := buffer[..], pos, EncFields(fields, slots);
      var mask := BuildMask(fields, slots);
      if |mask| > 0 {
        ok := EncodeOctets(mask);
        if !ok {
          return false;
        }
      } else {
        WroteNothing(b0, p0);
      }
      ghost var b1, p1 := buffer[..], pos;
      ok := EncodeFields(fields, slots);
      if ok {
        WroteBoth(b0, p0, b1, p1, buffer[..], pos, mask, e);
      } else {
        assert buffer[..p0] == buffer[..p1][..p0];
      }
    }

    /** The second pass over the fields. */
    method EncodeFields(fields: seq<Field>, slots: seq<Slot>) returns (ok: bool)
      requires Valid() && FieldsTyped(fields, slots) && |fields| == |slots|
      modifies this, buffer
      ensures Valid() && ok == (|EncFields(fields, slots)| <= old(size))
      ensures ok ==> Wrote(old(buffer[..]), old(pos), buffer[..], pos, EncFields(fields, slots))
      ensures buffer[..old(pos)] == old(buffer[..pos])
      decreases fields, 1
    {
      hide EncFields, FieldsTyped, FieldOctets, Enc, Typed, Wrote;
      ghost var b0, p0, todo := buffer[..], pos, EncFields(fields, slots);
      ghost var done, left: seq<byte> := [], todo;
      WroteNothing(b0, p0);
      assert fields[0..] == fields && slots[0..] == slots;
      var i := 0;
      while i < |fields|
        invariant Valid() && i <= |fields| && FieldsTyped(fields[i..], slots[i..])
        invariant Wrote(b0, p0, buffer[..], pos, done) && pos == p0 + |done|
        invariant left == EncFields(fields[i..], slots[i..]) && done + left == todo
      {
        FieldStep(fields, slots, i);
        ghost var b1, p1, e := buffer[..], pos, FieldOctets(fields[i], slots[i]);
        left := EncFields(fields[i + 1..], slots[i + 1..]);
        Regroup(done, e, left);
        assert fields decreases to fields[i];
        ok := EncodeField(fields[i], slots[i]);
        if !ok {
          WroteKeeps(b0, p0, b1, p1, done, buffer[..]);
          return false;
        }
        WroteBoth(b0, p0, b1, p1, buffer[..], pos, done, e);
        done := done + e;
        i := i + 1;
      }
      NoFields(fields[i..], slots[i..]);
      assert done + [] == done;
      WroteKeeps(b0, p0, buffer[..], pos, done, buffer[..]);
      return true;
    }

    /** The statement emitted for one field. */
    method EncodeField(f: Field, slot: Slot) returns (ok: bool)
      requires Valid() && (slot.Present? ==> Typed(f.schema, slot.value))
      modifies this, buffer
      ensures Valid() && ok == (|FieldOctets(f, slot)| <= old(size))
      ensures ok ==> Wrote(old(buffer[..]), old(pos), buffer[..], pos, FieldOctets(f, slot))
      ensures buffer[..old(pos)] == old(buffer[..pos])
      decreases f, 1
    {
      if slot.Present? {
        ok := EncodePer(f.schema, slot.value);
      } else {
        WroteNothing(buffer[..], pos);
        ok := true;
      }
    }

    /** The first pass over the fields, with its counter of optional ones. */
    method BuildMask(fields: seq<Field>, slots: seq<Slot>) returns (m: seq<byte>)
      requires FieldsTyped(fields, slots) && |fields| == |slots|
      ensures m == MaskOf(fields, slots)
    {
      var mask := new byte[MaskSize(fields)](i => 0);
      assert mask[..] == NoOptionals(MaskSize(fields));
      var i, j := 0, 0;
      while i < |fields|
        invariant i <= |fields| && j + Optionals(fields[i..]) == Optionals(fields)
        invariant Mask(mask[..], fields[i..], slots[i..], j) == MaskOf(fields, slots)
      {
        assert fields[i..][1..] == fields[i + 1..] && slots[i..][1..] == slots[i + 1..];
        if fields[i].Optional? {
          if slots[i].Present? {
            SetOptionalInPlace(mask, j);
          }
          j := j + 1;
        }
        i := i + 1;
      }
      return mask[..];
    }

    // ---- decoding ----

    /** What is left to read. */
    ghost function Rest(): seq<byte>
      requires Valid()
      reads this, buffer
    {
      buffer[pos..]
    }

    method DecodeOctets(n: nat) returns (r: Option<seq<byte>>)
      requires Valid()
      modifies this
      ensures Valid()
      ensures n > old(size) ==> r.None?
      ensures n <= old(size) ==> r == Some(old(Rest())[..n]) && Rest() == old(Rest())[n..]
    {
      if n > size {
        return None;
      }
      ghost var b := Rest();
      assert buffer[pos..pos + n] == b[..n];
      r := Some(buffer[pos..pos + n]);
      Advance(n);
      assert Rest() == b[n..];
    }

    method FindNulFrom() returns (k: nat)
      requires Valid()
      ensures k == FindNul(Rest())
    {
      k := 0;
      while k < size && buffer[pos + k] != 0
        invariant k <= size && FindNul(Rest()) == k + FindNul(Rest()[k..])
      {
        assert Rest()[k..][1..] == Rest()[k + 1..];
        k := k + 1;
      }
    }

    /** Decodes what Dec specifies and leaves the cursor just behind it. */
    method DecodePer(s: Schema) returns (r: Option<Value>)
      requires Valid()
      modifies this
      ensures Valid()
      ensures var d := Dec(s, old(Rest())); if d.Fail? then r.None? else r == Some(d.value) && Rest() == d.rest
      decreases s, 0
    {
      match s
      case Scalar(w) =>
        var o := DecodeOctets(w);
        r := if o.None? then None else Some(Num(NumberOf(o.value)));
      case Text => r := DecodeText();
      case Vector(elem, bound) =>
        var o := DecodeOctets(CountWidth(bound));
        if o.None? {
          return None;
        }
        var items := DecodeItems(elem, NumberOf(o.value));
        r := if items.None? then None else Some(List(items.value));
      case StaticArray(elem, bound) =>
        var o := DecodeOctets(CountWidth(bound));
        if o.None? || NumberOf(o.value) > bound {
          return None;
        }
        var items := DecodeItems(elem, NumberOf(o.value));
        r := if items.None? then None else Some(List(items.value));
      case Sequence(fields) =>
        var mask := DecodeOctets(MaskSize(fields));
        if mask.None? {
          return None;
        }
        var slots := DecodeFields(fields, mask.value);
        r := if slots.None? then None else Some(Record(slots.value));
      case Choice(alternatives) =>
        var o := DecodeOctets(TagWidth(|alternatives|));
        if o.None? {
          return None;
        }
        var tag := NumberOf(o.value);
        if tag >= |alternatives| {
          return Some(Default(s));
        }
        var v := DecodePer(alternatives[tag]);
        r := if v.None? then None else Some(Alt(tag, v.value));
    }

    method DecodeText() returns (r: Option<Value>)
      requires Valid()
      modifies this
      ensures Valid()
      ensures var d := Dec(Text, old(Rest())); if d.Fail? then r.None? else r == Some(d.value) && Rest() == d.rest
    {
      ghost var b := Rest();
      var k := FindNulFrom();
      if k + 1 > size {
        return None;
      }
      r := Some(Str(buffer[pos..pos + k]));
      assert buffer[pos..pos + k] == b[..k];
      Advance(k + 1);
      assert Rest() == b[k + 1..];
    }

    /** The loop that appends a fresh element and decodes into it. */
    method DecodeItems(elem: Schema, count: nat) returns (r: Option<seq<Value>>)
      requires Valid()
      modifies this
      ensures Valid()
      ensures var d := DecAll(elem, count, old(Rest()));
              if d.Fail? then r.None? else r == Some(d.value) && Rest() == d.rest
      decreases elem, 1
    {
      hide DecAll, Dec, Prepend, Rest;
      ghost var d := DecAll(elem, count, Rest());
      var items := [];
      PrependNothing(d);
      var i := 0;
      while i < count
        invariant Valid() && i <= count
        invariant d == Prepend(items, DecAll(elem, count - i, Rest()))
      {
        ghost var b := Rest();
        var v := DecodePer(elem);
        if v.None? {
          ItemFails(elem, count - i, items, b);
          return None;
        }
        NextItem(elem, count - i, items, b, v.value, Rest());
        items := items + [v.value];
        i := i + 1;
      }
      LastItem(elem, items, Rest());
      return Some(items);
    }

    /** The fields one by one, with the counter of optional ones. */
    method DecodeFields(fields: seq<Field>, mask: seq<byte>) returns (r: Option<seq<Slot>>)
      requires Valid() && |mask| == MaskSize(fields)
      modifies this
      ensures Valid()
      ensures var d := DecFields(fields, mask, 0, old(Rest()));
              if d.Fail? then r.None? else r == Some(d.value) && Rest() == d.rest
      decreases fields, 1
    {
      hide DecFields, Dec, Prepend, CheckOptional, Rest;
      ghost var d := DecFields(fields, mask, 0, Rest());
      var slots: seq<Slot> := [];
      PrependNothing(d);
      assert fields[0..] == fields;
      var i, j := 0, 0;
      while i < |fields|
        invariant Valid() && i <= |fields| && j + Optionals(fields[i..]) == Optionals(fields)
        invariant d == Prepend(slots, DecFields(fields[i..], mask, j, Rest()))
      {
        assert fields[i..][1..] == fields[i + 1..];
        ghost var b := Rest();
        var slot := Absent;
        if fields[i].Required? || CheckOptional(mask, j) {
          assert fields decreases to fields[i];
          var v := DecodePer(fields[i].schema);
          if v.None? {
            FieldFails(fields[i..], mask, j, slots, b);
            return None;
          }
          slot := Present(v.value);
        }
        NextDecoded(fields[i..], mask, j, b, slot, Rest());
        PrependNext(slots, slot, DecFields(fields[i + 1..], mask, if fields[i].Optional? then j + 1 else j, Rest()));
        slots := slots + [slot];
        j := if fields[i].Optional? then j + 1 else j;
        i := i + 1;
      }
      assert fields[i..] == [];
      LastDecoded(mask, j, slots, Rest());
      return Some(slots);
    }
  }
}
