/** The RRC messages as one instance of the codec. */
module Rrc {
  import opened Bytes
  import opened Codec
  import CodecRoundTrip

  // ---- schemas without text, vectors or arrays ----

  predicate Fixed(s: Schema)
    decreases s, 0
  {
    match s
    case Scalar(_) => true
    case Text => false
    case Vector(_, _) => false
    case StaticArray(_, _) => false
    case Sequence(fields) => forall i :: 0 <= i < |fields| ==> FixedField(fields[i])
    case Choice(alternatives) =>
      0 < |alternatives| < 0x100 && forall i :: 0 <= i < |alternatives| ==> Fixed(alternatives[i])
  }

  predicate FixedField(f: Field)
    decreases f, 0
  {
    Fixed(f.schema)
  }

  lemma {:induction false} FixedWellFormed(s: Schema)
    requires Fixed(s)
    ensures WellFormed(s)
    decreases s, 0
  {
    match s
    case Scalar(_) =>
    case Sequence(fields) => FixedFieldsWellFormed(fields);
    case Choice(alternatives) => FixedAllWellFormed(alternatives);
  }

  lemma {:induction false} FixedFieldsWellFormed(fields: seq<Field>)
    requires forall i :: 0 <= i < |fields| ==> FixedField(fields[i])
    ensures FieldsWellFormed(fields)
    decreases fields, 0
  {
    if |fields| > 0 {
      assert FixedField(fields[0]);
      assert fields decreases to fields[0];
      FixedWellFormed(fields[0].schema);
      assert forall i :: 0 <= i < |fields| - 1 ==> fields[1..][i] == fields[i + 1];
      FixedFieldsWellFormed(fields[1..]);
    }
  }

  lemma {:induction false} FixedAllWellFormed(alternatives: seq<Schema>)
    requires forall i :: 0 <= i < |alternatives| ==> Fixed(alternatives[i])
    ensures AllWellFormed(alternatives)
    decreases alternatives, 0
  {
    if |alternatives| > 0 {
      FixedWellFormed(alternatives[0]);
      assert forall i :: 0 <= i < |alternatives| - 1 ==> alternatives[1..][i] == alternatives[i + 1];
      FixedAllWellFormed(alternatives[1..]);
    }
  }

  /** Every value of such a schema fits. */
  lemma {:induction false} FixedFits(s: Schema, v: Value)
    requires Fixed(s) && Typed(s, v)
    ensures Fits(s, v)
    decreases s, 0
  {
    match s
    case Scalar(_) =>
    case Sequence(fields) => FixedFieldsFit(fields, v.slots);
    case Choice(alternatives) => FixedFits(alternatives[v.index], v.value);
  }

  lemma {:induction false} FixedFieldsFit(fields: seq<Field>, slots: seq<Slot>)
    requires FieldsTyped(fields, slots) && forall i :: 0 <= i < |fields| ==> FixedField(fields[i])
    ensures FieldsFit(fields, slots)
    decreases fields, 0
  {
    if |fields| > 0 {
      assert FixedField(fields[0]);
      assert fields decreases to fields[0];
      if slots[0].Present? {
        FixedFits(fields[0].schema, slots[0].value);
      }
      assert forall i :: 0 <= i < |fields| - 1 ==> fields[1..][i] == fields[i + 1];
      FixedFieldsFit(fields[1..], slots[1..]);
    }
  }

  // ---- the messages ----

  datatype TxConfig = TxConfig(mode: byte, crcType: byte)

  datatype PdcpConfig = PdcpConfig(allowRlf: byte, allowSegmentation: byte, allowReordering: byte,
                                   maxSnDistance: Option<word>,
                                   cipher: byte, integrity: byte, compression: byte, compressionLevel: byte)

  datatype Exchange = Exchange(lcid: byte, tx: TxConfig, pdcp: PdcpConfig)

  datatype Message = Request(exchange: Exchange) | Response(exchange: Exchange)

  datatype Rrc = Rrc(requestId: byte, message: Message)

  const U8: Schema := Scalar(1)
  const TX_CONFIG: Schema := Sequence([Required(U8), Required(U8)])
  const LLC_CONFIG: Schema := Sequence([Required(TX_CONFIG)])
  const PDCP_CONFIG: Schema :=
    Sequence([Required(U8), Required(U8), Required(U8), Optional(Scalar(2)),
              Required(U8), Required(U8), Required(U8), Required(U8)])
  const EXCHANGE: Schema := Sequence([Required(U8), Required(LLC_CONFIG), Required(PDCP_CONFIG)])
  const MESSAGE: Schema := Choice([EXCHANGE, EXCHANGE])
  const RRC: Schema := Sequence([Required(U8), Required(MESSAGE)])

  function Byte(b: byte): Slot {
    Present(Num(b))
  }

  function TxValue(t: TxConfig): Value {
    Record([Byte(t.mode), Byte(t.crcType)])
  }

  function PdcpValue(p: PdcpConfig): Value {
    Record([Byte(p.allowRlf), Byte(p.allowSegmentation), Byte(p.allowReordering),
            if p.maxSnDistance.None? then Absent else Present(Num(p.maxSnDistance.value)),
            Byte(p.cipher), Byte(p.integrity), Byte(p.compression), Byte(p.compressionLevel)])
  }

  function ExchangeValue(e: Exchange): Value {
    Record([Byte(e.lcid), Present(Record([Present(TxValue(e.tx))])), Present(PdcpValue(e.pdcp))])
  }

  function MessageValue(m: Message): Value {
    Alt(if m.Request? then 0 else 1, ExchangeValue(m.exchange))
  }

  function ToValue(r: Rrc): Value {
    Record([Byte(r.requestId), Present(MessageValue(r.message))])
  }

  predicate SlotTyped(f: Field, slot: Slot) {
    (f.Required? ==> slot.Present?) && (slot.Present? ==> Typed(f.schema, slot.value))
  }

  lemma {:induction false} SlotsTyped(fields: seq<Field>, slots: seq<Slot>)
    requires |fields| == |slots| && forall i :: 0 <= i < |fields| ==> SlotTyped(fields[i], slots[i])
    ensures FieldsTyped(fields, slots)
  {
    if |fields| > 0 {
      assert SlotTyped(fields[0], slots[0]);
      forall i | 0 <= i < |fields| - 1 ensures SlotTyped(fields[1..][i], slots[1..][i]) {
        assert SlotTyped(fields[i + 1], slots[i + 1]);
      }
      SlotsTyped(fields[1..], slots[1..]);
    }
  }

  lemma TxTyped(t: TxConfig)
    ensures Typed(LLC_CONFIG, Record([Present(TxValue(t))]))
  {
    PowerValues();
    SlotsTyped(TX_CONFIG.fields, TxValue(t).slots);
    SlotsTyped(LLC_CONFIG.fields, [Present(TxValue(t))]);
  }

  lemma PdcpTyped(p: PdcpConfig)
    ensures Typed(PDCP_CONFIG, PdcpValue(p))
  {
    PowerValues();
    SlotsTyped(PDCP_CONFIG.fields, PdcpValue(p).slots);
  }

  lemma ExchangeTyped(e: Exchange)
    ensures Typed(EXCHANGE, ExchangeValue(e))
  {
    hide TxValue, PdcpValue, Power;
    PowerValues();
    TxTyped(e.tx);
    PdcpTyped(e.pdcp);
    SlotsTyped(EXCHANGE.fields, ExchangeValue(e).slots);
  }

  lemma PowerValues()
    ensures Power(1) == 0x100 && Power(2) == 0x1_0000
  {
    PowerWidths();
  }

  lemma RrcTyped(r: Rrc)
    ensures Typed(RRC, ToValue(r))
  {
    PowerValues();
    ExchangeTyped(r.message.exchange);
    assert Typed(MESSAGE, MessageValue(r.message));
    SlotsTyped(RRC.fields, ToValue(r).slots);
  }

  lemma RrcFixed()
    ensures Fixed(RRC)
  {
    assert Fixed(TX_CONFIG);
    assert Fixed(LLC_CONFIG);
    assert Fixed(PDCP_CONFIG);
    assert Fixed(EXCHANGE);
    assert Fixed(MESSAGE);
  }

  /** The octets of a message. */
  function Encoded(r: Rrc): seq<byte> {
    RrcTyped(r);
    Enc(RRC, ToValue(r))
  }

  /** Every RRC message is decoded as it was encoded, whatever follows it in the buffer. */
  lemma RrcRoundTrip(r: Rrc, rest: seq<byte>)
    ensures Dec(RRC, Encoded(r) + rest) == Got(ToValue(r), rest)
  {
    RrcTyped(r);
    RrcFixed();
    FixedWellFormed(RRC);
    FixedFits(RRC, ToValue(r));
    CodecRoundTrip.RoundTrip(RRC, ToValue(r), rest, Encoded(r) + rest);
  }

  // ---- the octets ----

  /** A required one-octet field is written as that octet, ahead of the fields behind it. */
  lemma ByteAt(fields: seq<Field>, slots: seq<Slot>, i: nat, b: byte)
    requires i < |fields| == |slots| && FieldsTyped(fields[i..], slots[i..])
    requires fields[i] == Required(U8) && slots[i] == Byte(b)
    ensures FieldsTyped(fields[i + 1..], slots[i + 1..])
    ensures EncFields(fields[i..], slots[i..]) == [b] + EncFields(fields[i + 1..], slots[i + 1..])
  {
    var f, t := fields[i..], slots[i..];
    assert f[1..] == fields[i + 1..] && t[1..] == slots[i + 1..];
    assert Octets(b, 1) == [b] + Octets(b / 0x100, 0);
  }

  /** Any field that is present. */
  lemma FieldAt(fields: seq<Field>, slots: seq<Slot>, i: nat)
    requires i < |fields| == |slots| && FieldsTyped(fields[i..], slots[i..]) && slots[i].Present?
    ensures Typed(fields[i].schema, slots[i].value) && FieldsTyped(fields[i + 1..], slots[i + 1..])
    ensures EncFields(fields[i..], slots[i..]) ==
            Enc(fields[i].schema, slots[i].value) + EncFields(fields[i + 1..], slots[i + 1..])
  {
    var f, t := fields[i..], slots[i..];
    assert f[1..] == fields[i + 1..] && t[1..] == slots[i + 1..];
  }

  lemma NothingAt(fields: seq<Field>, slots: seq<Slot>, i: nat)
    requires i < |fields| == |slots| && FieldsTyped(fields[i..], slots[i..]) && slots[i].Absent?
    ensures FieldsTyped(fields[i + 1..], slots[i + 1..])
    ensures EncFields(fields[i..], slots[i..]) == EncFields(fields[i + 1..], slots[i + 1..])
  {
    var f, t := fields[i..], slots[i..];
    assert f[1..] == fields[i + 1..] && t[1..] == slots[i + 1..];
  }

  function TxOctets(t: TxConfig): seq<byte> {
    [t.mode, t.crcType]
  }

  function PdcpOctets(p: PdcpConfig): seq<byte> {
    [if p.maxSnDistance.Some? then 0x80 else 0, p.allowRlf, p.allowSegmentation, p.allowReordering] +
    (if p.maxSnDistance.Some? then [Lo(p.maxSnDistance.value), Hi(p.maxSnDistance.value)] else []) +
    [p.cipher, p.integrity, p.compression, p.compressionLevel]
  }

  function RrcOctets(r: Rrc): seq<byte> {
    var e := r.message.exchange;
    [r.requestId, if r.message.Request? then 0 else 1, e.lcid] + TxOctets(e.tx) + PdcpOctets(e.pdcp)
  }

  lemma SequenceParts(fields: seq<Field>, slots: seq<Slot>)
    requires Typed(Sequence(fields), Record(slots))
    ensures FieldsTyped(fields[0..], slots[0..]) && FieldsTyped(fields, slots)
    ensures Enc(Sequence(fields), Record(slots)) == MaskOf(fields, slots) + EncFields(fields[0..], slots[0..])
  {
    assert fields[0..] == fields && slots[0..] == slots;
  }

  lemma NoneAfter(fields: seq<Field>, slots: seq<Slot>, n: nat)
    requires n == |fields| == |slots| && FieldsTyped(fields[n..], slots[n..])
    ensures EncFields(fields[n..], slots[n..]) == []
  {}

  lemma NoMask(fields: seq<Field>, slots: seq<Slot>)
    requires FieldsTyped(fields, slots) && Optionals(fields) == 0
    ensures MaskOf(fields, slots) == []
  {}

  lemma NoOptionalsIn(fields: seq<Field>)
    requires forall i :: 0 <= i < |fields| ==> fields[i].Required?
    ensures Optionals(fields) == 0
  {}

  lemma TxWritten(t: TxConfig)
    ensures Typed(LLC_CONFIG, Record([Present(TxValue(t))]))
    ensures Enc(LLC_CONFIG, Record([Present(TxValue(t))])) == TxOctets(t)
  {
    hide Enc, EncFields, MaskOf, FieldsTyped;
    TxTyped(t);
    var g, u := LLC_CONFIG.fields, [Present(TxValue(t))];
    SequenceParts(g, u);
    FieldAt(g, u, 0);
    NoneAfter(g, u, 1);
    NoOptionalsIn(g);
    NoMask(g, u);
    var f, s := TX_CONFIG.fields, TxValue(t).slots;
    SequenceParts(f, s);
    ByteAt(f, s, 0, t.mode);
    ByteAt(f, s, 1, t.crcType);
    NoneAfter(f, s, 2);
    NoOptionalsIn(f);
    NoMask(f, s);
  }

  lemma {:induction false} MaskRequired(mask: seq<byte>, fields: seq<Field>, slots: seq<Slot>, j: nat)
    requires |fields| == |slots| && j + Optionals(fields) <= 8 * |mask|
    requires forall i :: 0 <= i < |fields| ==> fields[i].Required?
    ensures Mask(mask, fields, slots, j) == mask
    decreases fields
  {
    if |fields| != 0 {
      MaskRequired(mask, fields[1..], slots[1..], j);
    }
  }

  lemma MaskSkips(mask: seq<byte>, fields: seq<Field>, slots: seq<Slot>, i: nat, j: nat)
    requires i < |fields| == |slots| && fields[i].Required? && j + Optionals(fields[i + 1..]) <= 8 * |mask|
    ensures Optionals(fields[i..]) == Optionals(fields[i + 1..])
    ensures Mask(mask, fields[i..], slots[i..], j) == Mask(mask, fields[i + 1..], slots[i + 1..], j)
  {
    assert fields[i..][1..] == fields[i + 1..] && slots[i..][1..] == slots[i + 1..];
  }

  /** The only optional field is entered as the first bit. */
  lemma OneOptional(fields: seq<Field>, slots: seq<Slot>, i: nat)
    requires i < |fields| == |slots| && fields[i].Optional?
    requires forall k :: i < k < |fields| ==> fields[k].Required?
    ensures Optionals(fields[i..]) == 1
    ensures Mask(NoOptionals(1), fields[i..], slots[i..], 0) == [if slots[i].Present? then 0x80 else 0]
  {
    hide CheckOptional, SetOptional;
    var none := NoOptionals(1);
    assert fields[i..][1..] == fields[i + 1..] && slots[i..][1..] == slots[i + 1..];
    NoOptionalsIn(fields[i + 1..]);
    NoOptionalSet(1, 0);
    SetOptionalWeight(none, 0);
    MaskRequired(SetOptional(none, 0), fields[i + 1..], slots[i + 1..], 1);
    MaskRequired(none, fields[i + 1..], slots[i + 1..], 1);
  }

  lemma PdcpMask(p: PdcpConfig)
    requires FieldsTyped(PDCP_CONFIG.fields, PdcpValue(p).slots)
    ensures MaskOf(PDCP_CONFIG.fields, PdcpValue(p).slots) == [if p.maxSnDistance.Some? then 0x80 else 0]
  {
    hide Mask, Optionals, FieldsTyped;
    var f, s := PDCP_CONFIG.fields, PdcpValue(p).slots;
    var none := NoOptionals(1);
    OneOptional(f, s, 3);
    MaskSkips(none, f, s, 2, 0);
    MaskSkips(none, f, s, 1, 0);
    MaskSkips(none, f, s, 0, 0);
    assert f[0..] == f && s[0..] == s;
  }

  lemma WordWritten(w: word)
    ensures Typed(Scalar(2), Num(w)) && Enc(Scalar(2), Num(w)) == [Lo(w), Hi(w)]
  {
    PowerValues();
    OctetAt(w, 2, 0);
    OctetAt(w, 2, 1);
  }

  lemma ThreeBytes(f: seq<Field>, s: seq<Slot>, i: nat, a: byte, b: byte, c: byte)
    requires i + 3 <= |f| == |s| && FieldsTyped(f[i..], s[i..])
    requires f[i] == f[i + 1] == f[i + 2] == Required(U8)
    requires s[i] == Byte(a) && s[i + 1] == Byte(b) && s[i + 2] == Byte(c)
    ensures FieldsTyped(f[i + 3..], s[i + 3..])
    ensures EncFields(f[i..], s[i..]) == [a, b, c] + EncFields(f[i + 3..], s[i + 3..])
  {
    hide EncFields, FieldsTyped;
    ByteAt(f, s, i, a);
    ByteAt(f, s, i + 1, b);
    ByteAt(f, s, i + 2, c);
  }

  lemma PdcpTail(f: seq<Field>, s: seq<Slot>, p: PdcpConfig)
    requires f == PDCP_CONFIG.fields && s == PdcpValue(p).slots && FieldsTyped(f[4..], s[4..])
    ensures EncFields(f[4..], s[4..]) == [p.cipher, p.integrity, p.compression, p.compressionLevel]
  {
    hide EncFields, FieldsTyped;
    ThreeBytes(f, s, 4, p.cipher, p.integrity, p.compression);
    ByteAt(f, s, 7, p.compressionLevel);
    NoneAfter(f, s, 8);
  }

  lemma PdcpOption(f: seq<Field>, s: seq<Slot>, p: PdcpConfig)
    requires f == PDCP_CONFIG.fields && s == PdcpValue(p).slots && FieldsTyped(f[3..], s[3..])
    ensures FieldsTyped(f[4..], s[4..])
    ensures EncFields(f[3..], s[3..]) ==
            (if p.maxSnDistance.Some? then [Lo(p.maxSnDistance.value), Hi(p.maxSnDistance.value)] else []) +
            EncFields(f[4..], s[4..])
  {
    hide EncFields, FieldsTyped;
    if p.maxSnDistance.Some? {
      FieldAt(f, s, 3);
      WordWritten(p.maxSnDistance.value);
    } else {
      NothingAt(f, s, 3);
    }
  }

  lemma PdcpFront(f: seq<Field>, s: seq<Slot>, p: PdcpConfig)
    requires f == PDCP_CONFIG.fields && s == PdcpValue(p).slots && FieldsTyped(f[0..], s[0..])
    ensures FieldsTyped(f[3..], s[3..])
    ensures EncFields(f[0..], s[0..]) ==
            [p.allowRlf, p.allowSegmentation, p.allowReordering] + EncFields(f[3..], s[3..])
  {
    hide EncFields, FieldsTyped;
    ThreeBytes(f, s, 0, p.allowRlf, p.allowSegmentation, p.allowReordering);
  }

  lemma PdcpWritten(p: PdcpConfig)
    ensures Typed(PDCP_CONFIG, PdcpValue(p)) && Enc(PDCP_CONFIG, PdcpValue(p)) == PdcpOctets(p)
  {
    hide Enc, EncFields, MaskOf, FieldsTyped, Typed;
    PdcpTyped(p);
    var f, s := PDCP_CONFIG.fields, PdcpValue(p).slots;
    SequenceParts(f, s);
    PdcpMask(p);
    PdcpFront(f, s, p);
    PdcpOption(f, s, p);
    PdcpTail(f, s, p);
  }

  lemma ExchangeWritten(e: Exchange)
    ensures Typed(EXCHANGE, ExchangeValue(e))
    ensures Enc(EXCHANGE, ExchangeValue(e)) == [e.lcid] + TxOctets(e.tx) + PdcpOctets(e.pdcp)
  {
    hide Enc, EncFields, MaskOf, FieldsTyped, Typed, PdcpOctets, PdcpValue, TxOctets, TxValue;
    ExchangeTyped(e);
    var f, s := EXCHANGE.fields, ExchangeValue(e).slots;
    SequenceParts(f, s);
    NoOptionalsIn(f);
    NoMask(f, s);
    ByteAt(f, s, 0, e.lcid);
    FieldAt(f, s, 1);
    FieldAt(f, s, 2);
    NoneAfter(f, s, 3);
    TxWritten(e.tx);
    PdcpWritten(e.pdcp);
  }

  lemma MessageWritten(m: Message)
    ensures Typed(MESSAGE, MessageValue(m))
    ensures Enc(MESSAGE, MessageValue(m)) ==
            [if m.Request? then 0 else 1] + Enc(EXCHANGE, ExchangeValue(m.exchange))
  {
    ExchangeTyped(m.exchange);
    PowerValues();
    var i := if m.Request? then 0 else 1;
    OctetAt(i, 1, 0);
    assert Octets(i, TagWidth(2)) == [i];
  }

  /** The octets of every message, one by one: fields in the order of the schema, the tag of the message, the
      mask in front of the PDCP fields, and a 16-bit number with its low octet first. */
  lemma RrcWritten(r: Rrc)
    ensures Encoded(r) == RrcOctets(r)
  {
    hide Enc, EncFields, MaskOf, FieldsTyped, Typed, PdcpOctets, ExchangeValue, TxOctets;
    RrcTyped(r);
    var f, s := RRC.fields, ToValue(r).slots;
    SequenceParts(f, s);
    NoOptionalsIn(f);
    NoMask(f, s);
    ByteAt(f, s, 0, r.requestId);
    FieldAt(f, s, 1);
    NoneAfter(f, s, 2);
    MessageWritten(r.message);
    ExchangeWritten(r.message.exchange);
  }

  lemma TxDistinct(t: TxConfig, u: TxConfig)
    requires TxValue(t) == TxValue(u)
    ensures t == u
  {
    var x, y := TxValue(t).slots, TxValue(u).slots;
    assert x[0] == y[0] && x[1] == y[1];
  }

  lemma PdcpDistinct(p: PdcpConfig, q: PdcpConfig)
    requires PdcpValue(p) == PdcpValue(q)
    ensures p == q
  {
    var x, y := PdcpValue(p).slots, PdcpValue(q).slots;
    assert x[0] == y[0] && x[1] == y[1] && x[2] == y[2] && x[3] == y[3];
    assert x[4] == y[4] && x[5] == y[5] && x[6] == y[6] && x[7] == y[7];
  }

  lemma ValueDistinct(r: Rrc, t: Rrc)
    requires ToValue(r) == ToValue(t)
    ensures r == t
  {
    var x, y := ToValue(r).slots, ToValue(t).slots;
    assert x[0] == y[0] && x[1] == y[1];
    var e, f := ExchangeValue(r.message.exchange).slots, ExchangeValue(t.message.exchange).slots;
    assert e == f;
    assert e[0] == f[0] && e[1] == f[1] && e[2] == f[2];
    assert e[1].value.slots[0] == f[1].value.slots[0];
    TxDistinct(r.message.exchange.tx, t.message.exchange.tx);
    PdcpDistinct(r.message.exchange.pdcp, t.message.exchange.pdcp);
  }

  /** Two RRC messages with the same octets, however each is continued, are the same message. */
  lemma RrcUnambiguous(r: Rrc, t: Rrc, x: seq<byte>, y: seq<byte>)
    requires Encoded(r) + x == Encoded(t) + y
    ensures r == t && x == y
  {
    RrcRoundTrip(r, x);
    RrcRoundTrip(t, y);
    ValueDistinct(r, t);
  }
}
