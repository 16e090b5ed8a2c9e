/** The acknowledged-mode sender as one table: each SN in use maps to the PDU it stands for and
    to where that PDU is, waiting for a slot to be checked or queued for retransmission. */
module LlcArq {
  import opened Arith
  import opened Bytes
  import opened LlcFrame

  datatype Config = Config(crc: bool, acknowledged: bool, txSize: nat,
                           minRecheck: nat, maxRecheck: nat, maxRetx: nat)

  /** What the state machine needs of a configuration. */
  predicate ValidConfig(c: Config) {
    0 < c.txSize && 0 < c.minRecheck <= c.maxRecheck && 0 < c.maxRetx
  }

  datatype Bit = SlotSkipped | DataPduAllocated | WriteBufferTooSmall | InvalidLlcPdu | NoTxSlot
               | NoFreeSn | SnLost | SpuriousAckSn | SpuriousAckTx | ShouldNotHappen

  /** `id` numbers accepted data PDUs; it exists only here, to speak about one PDU over time. */
  datatype Entry =
    | Waiting(id: nat, slot: nat, retry: nat, pdu: seq<byte>)
    | Queued(id: nat, retry: nat, pdu: seq<byte>)

  /** One time a data PDU went out, the slot distance asked for until its check, and the slot it went out in. */
  datatype Emission = Emission(id: nat, sn: byte, retry: nat, pdu: seq<byte>, distance: nat, at: nat)

  datatype Arq = Arq(current: nat, sn: byte, entries: map<byte, Entry>, order: seq<byte>, status: set<Bit>,
                     accepted: nat, acked: nat, lost: nat, log: seq<Emission>)

  const RESET: Arq := Arq(0, 0, map[], [], {}, 0, 0, 0, [])

  function Recheck(c: Config, retry: nat): nat
    requires ValidConfig(c)
  {
    c.minRecheck + Quotient(Product(retry, c.maxRecheck - c.minRecheck), c.maxRetx)
  }

  // ---- slots ----

  /** The ring position of a slot number. */
  function Position(c: Config, slot: nat): nat
    requires c.txSize > 0
  {
    slot % c.txSize
  }

  /** No waiting PDU is to be checked at the ring position of slot number `x`. */
  ghost predicate SlotFree(c: Config, entries: map<byte, Entry>, x: nat)
    requires c.txSize > 0
  {
    forall sn :: sn in entries && entries[sn].Waiting? ==> Position(c, entries[sn].slot) != Position(c, x)
  }

  /** The first free slot number among `tries` consecutive ones from `x`. */
  ghost function FirstFree(c: Config, entries: map<byte, Entry>, x: nat, tries: nat): (r: Option<nat>)
    requires c.txSize > 0
    ensures r.Some? ==> x <= r.value < x + tries && SlotFree(c, entries, r.value)
    ensures r.Some? ==> forall y :: x <= y < r.value ==> !SlotFree(c, entries, y)
    ensures r.None? ==> forall y :: x <= y < x + tries ==> !SlotFree(c, entries, y)
    decreases tries
  {
    if tries == 0 then None
    else if SlotFree(c, entries, x) then Some(x)
    else FirstFree(c, entries, x + 1, tries - 1)
  }

  /** Where the PDU going out for the `retry`-th time again is to be checked. */
  ghost function Place(c: Config, s: Arq, retry: nat): Option<nat>
    requires ValidConfig(c)
  {
    FirstFree(c, s.entries, s.current + Recheck(c, retry), c.txSize)
  }

  /** The SN whose PDU is checked at slot number `x`, if any. */
  ghost predicate DueAt(c: Config, entries: map<byte, Entry>, x: nat, sn: byte)
    requires c.txSize > 0
  {
    sn in entries && entries[sn].Waiting? && Position(c, entries[sn].slot) == Position(c, x)
  }

  // ---- operations ----

  ghost function MoveDue(s: Arq, sn: byte): Arq
    requires sn in s.entries && s.entries[sn].Waiting?
  {
    var e := s.entries[sn];
    s.(entries := s.entries[sn := Queued(e.id, e.retry, e.pdu)],
       order := s.order + [sn],
       status := s.status - {ShouldNotHappen, SpuriousAckSn})
  }

  /** update_current_slot_number. */
  ghost function Tick(c: Config, s: Arq, slot: nat): (Arq, bool)
    requires ValidConfig(c)
  {
    if !c.acknowledged then (s, true)
    else if slot != s.current + 1 then (s.(status := s.status + {SlotSkipped}), false)
    else
      var s1 := s.(current := slot, status := s.status - {DataPduAllocated});
      if exists sn :: DueAt(c, s.entries, slot, sn) then
        var sn :| DueAt(c, s.entries, slot, sn);
        (MoveDue(s1, sn), true)
      else (s1, true)
  }

  function Without(order: seq<byte>, sn: byte): seq<byte> {
    if |order| == 0 then []
    else if order[0] == sn then order[1..]
    else [order[0]] + Without(order[1..], sn)
  }

  /** acknowledge. */
  function Ack(s: Arq, sn: byte): (Arq, bool) {
    var status := s.status - {SpuriousAckSn, SpuriousAckTx, ShouldNotHappen};
    if sn !in s.entries then (s.(status := status + {SpuriousAckSn}), false)
    else
      (s.(entries := s.entries - {sn},
          order := if s.entries[sn].Queued? then Without(s.order, sn) else s.order,
          status := status, acked := s.acked + 1), true)
  }

  /** What write_retransmission_pdu does to a target of `room` octets. */
  datatype Written = Nothing | Copied(pdu: seq<byte>) | Sent(pdu: seq<byte>) {

    /** The value returned: the octets sent, or zero. */
    function Size(): nat {
      if Sent? then |pdu| else 0
    }

    /** The target afterwards. */
    function Apply(target: seq<byte>): seq<byte> {
      if Nothing? || |pdu| > |target| then target else pdu + target[|pdu|..]
    }
  }

  /** The front PDU of the retransmission order is given up. */
  function GiveUp(s: Arq): Arq
    requires |s.order| > 0
  {
    s.(entries := s.entries - {s.order[0]}, order := s.order[1..], lost := s.lost + 1,
       status := s.status - {WriteBufferTooSmall, SpuriousAckSn, ShouldNotHappen} + {SnLost})
  }

  /** The front PDU of the retransmission order goes out again, to be checked at `slot`. */
  function SendAgain(c: Config, s: Arq, slot: nat): Arq
    requires ValidConfig(c) && |s.order| > 0 && s.order[0] in s.entries
  {
    var sn := s.order[0];
    var e := s.entries[sn];
    s.(entries := s.entries[sn := Waiting(e.id, slot, e.retry + 1, e.pdu)], order := s.order[1..],
       status := s.status - {WriteBufferTooSmall, SpuriousAckSn, ShouldNotHappen, SnLost, NoTxSlot} +
                 {DataPduAllocated},
       log := s.log + [Emission(e.id, sn, e.retry + 1, e.pdu, Recheck(c, e.retry + 1), s.current)])
  }

  /** No slot is free for the front PDU: it stays where it is. */
  function KeepFront(s: Arq): Arq {
    s.(status := s.status - {WriteBufferTooSmall, SpuriousAckSn, ShouldNotHappen, SnLost} + {NoTxSlot})
  }

  /** write_retransmission_pdu. The PDU is copied to the target before a slot is looked for. */
  ghost function Retransmit(c: Config, s: Arq, room: nat): (Arq, Written)
    requires ValidConfig(c) && (|s.order| > 0 ==> s.order[0] in s.entries && s.entries[s.order[0]].Queued?)
  {
    if DataPduAllocated in s.status || !c.acknowledged || |s.order| == 0 then (s, Nothing)
    else
      var e := s.entries[s.order[0]];
      if |e.pdu| == 0 then (s, Nothing)
      else if |e.pdu| > room then (s.(status := s.status + {WriteBufferTooSmall}), Nothing)
      else if e.retry >= c.maxRetx then (GiveUp(s), Nothing)
      else
        match Place(c, s, e.retry + 1)
        case None => (KeepFront(s), Copied(e.pdu))
        case Some(slot) => (SendAgain(c, s, slot), Sent(e.pdu))
  }

  /** The sealed PDU `q` is accepted under the current SN, to be checked at `slot`. */
  function AcceptNew(c: Config, s: Arq, slot: nat, q: seq<byte>): Arq
    requires ValidConfig(c)
  {
    s.(entries := s.entries[s.sn := Waiting(s.accepted, slot, 0, q)], sn := (s.sn + 1) % 0x100,
       status := s.status - {NoFreeSn, InvalidLlcPdu, NoTxSlot} + {DataPduAllocated}, accepted := s.accepted + 1,
       log := s.log + [Emission(s.accepted, s.sn, 0, q, Recheck(c, 0), s.current)])
  }

  /** write_llc_pdu: the new state, the octets left in the buffer and the value returned. */
  ghost function Submit(c: Config, s: Arq, p: seq<byte>): (Arq, seq<byte>, nat)
    requires ValidConfig(c) && HeaderSize(c.crc) <= |p|
  {
    var data := c.acknowledged && !IsAck(p);
    if DataPduAllocated in s.status then (s, p, 0)
    else if data && s.sn in s.entries then (s.(status := s.status + {NoFreeSn}), p, 0)
    else
      var status := if data then s.status - {NoFreeSn} else s.status;
      if GetSize(p) > |p| then (s.(status := status + {InvalidLlcPdu}), p, 0)
      else
        var q := Seal(c.crc, s.sn, p);
        if !data then (s.(status := status - {InvalidLlcPdu}, sn := (s.sn + 1) % 0x100), q, GetSize(q))
        else
          match Place(c, s, 0)
          case None => (s.(status := status - {InvalidLlcPdu} + {NoTxSlot}), q, 0)
          case Some(slot) => (AcceptNew(c, s, slot, q), q, GetSize(q))
  }

  // ---- the invariant ----

  /** The retransmission order lists exactly the queued SNs, each once. */
  ghost predicate OrderOk(entries: map<byte, Entry>, order: seq<byte>) {
    && (forall i :: 0 <= i < |order| ==> order[i] in entries && entries[order[i]].Queued?)
    && (forall sn :: sn in entries && entries[sn].Queued? ==> sn in order)
    && NoRepeats(order)
  }

  /** Waiting PDUs have different ring positions, all in the future. */
  ghost predicate SlotsOk(c: Config, entries: map<byte, Entry>, current: nat)
    requires c.txSize > 0
  {
    && (forall sn :: sn in entries && entries[sn].Waiting? ==> current < entries[sn].slot)
    && (forall a, b :: a in entries && b in entries && entries[a].Waiting? && entries[b].Waiting? && a != b ==>
          Position(c, entries[a].slot) != Position(c, entries[b].slot))
  }

  ghost predicate EntriesOk(c: Config, entries: map<byte, Entry>) {
    forall sn :: sn in entries ==> EntryOk(c, sn, entries[sn])
  }

  /** A stored PDU is the sealed one, carries its SN, and would pass the receiver's check. */
  predicate EntryOk(c: Config, sn: byte, e: Entry) {
    && e.retry <= c.maxRetx
    && HeaderSize(c.crc) <= |e.pdu| && Accepts(c.crc, e.pdu) && Get(e.pdu, SN) == sn && !IsAck(e.pdu)
  }

  /** The two bits that would report an inconsistency are never set. */
  ghost predicate StatusOk(c: Config, s: Arq) {
    && SpuriousAckTx !in s.status && ShouldNotHappen !in s.status
    && (!c.acknowledged ==> |s.entries| == 0 && |s.order| == 0)
  }

  ghost predicate CountsOk(s: Arq) {
    s.accepted == s.acked + s.lost + |s.entries|
  }

  /** How often PDU number `id` went out. */
  function Emitted(log: seq<Emission>, id: nat): nat {
    if |log| == 0 then 0
    else Emitted(log[..|log| - 1], id) + if log[|log| - 1].id == id then 1 else 0
  }

  /** The i-th emission is the next retry of its PDU and asks for that retry's distance. */
  predicate EmissionOk(c: Config, accepted: nat, log: seq<Emission>, i: nat)
    requires ValidConfig(c) && i < |log|
  {
    && log[i].id < accepted && log[i].retry <= c.maxRetx
    && log[i].retry == Emitted(log[..i], log[i].id)
    && log[i].distance == Recheck(c, log[i].retry)
  }

  predicate SamePdu(a: Emission, b: Emission) {
    a.id == b.id ==> a.sn == b.sn && a.pdu == b.pdu
  }

  /** Emissions of one PDU carry the same SN and octets and count up from retry zero. */
  ghost predicate LogOk(c: Config, accepted: nat, log: seq<Emission>)
    requires ValidConfig(c)
  {
    && (forall i :: 0 <= i < |log| ==> EmissionOk(c, accepted, log, i))
    && (forall i, j :: 0 <= i < j < |log| ==> SamePdu(log[i], log[j]))
  }

  /** The PDU of an entry has gone out retry + 1 times, always as it is stored. */
  ghost predicate EntryTraced(sn: byte, e: Entry, accepted: nat, log: seq<Emission>) {
    && e.id < accepted && Emitted(log, e.id) == e.retry + 1
    && forall i :: 0 <= i < |log| && log[i].id == e.id ==> log[i].sn == sn && log[i].pdu == e.pdu
  }

  ghost predicate TracedOk(entries: map<byte, Entry>, accepted: nat, log: seq<Emission>) {
    && (forall sn :: sn in entries ==> EntryTraced(sn, entries[sn], accepted, log))
    && (forall a, b :: a in entries && b in entries && a != b ==> entries[a].id != entries[b].id)
  }

  ghost predicate Inv(c: Config, s: Arq) {
    && ValidConfig(c)
    && OrderOk(s.entries, s.order) && SlotsOk(c, s.entries, s.current) && EntriesOk(c, s.entries)
    && StatusOk(c, s) && CountsOk(s)
    && LogOk(c, s.accepted, s.log) && TracedOk(s.entries, s.accepted, s.log)
  }

  lemma ResetInv(c: Config)
    requires ValidConfig(c)
    ensures Inv(c, RESET)
  {}

  // ---- recheck distances ----

  /** The recheck distance never decreases with the retry count and stays between the limits. */
  lemma RecheckBounds(c: Config, a: nat, b: nat)
    requires ValidConfig(c) && a <= b <= c.maxRetx
    ensures c.minRecheck <= Recheck(c, a) <= Recheck(c, b) <= c.maxRecheck
    ensures Recheck(c, 0) == c.minRecheck && Recheck(c, c.maxRetx) == c.maxRecheck
  {
    var d, m := c.maxRecheck - c.minRecheck, c.maxRetx;
    MulMonotone(0, a, d);
    MulMonotone(a, b, d);
    MulMonotone(b, m, d);
    DivMonotone(0, a * d, m);
    DivMonotone(a * d, b * d, m);
    DivMonotone(b * d, m * d, m);
    DivModUnique(m * d, m, d, 0);
    DivModUnique(0 * d, m, 0, 0);
  }

  /** The distance grows in proportion to the retry count, rounded down to whole slots. */
  lemma RecheckProportional(c: Config, retry: nat)
    requires ValidConfig(c)
    ensures var d, p := Recheck(c, retry) - c.minRecheck, retry * (c.maxRecheck - c.minRecheck);
            d * c.maxRetx <= p < (d + 1) * c.maxRetx
  {
    var p := retry * (c.maxRecheck - c.minRecheck);
    var d := p / c.maxRetx;
    assert p == d * c.maxRetx + p % c.maxRetx;
    assert (d + 1) * c.maxRetx == d * c.maxRetx + c.maxRetx;
  }

  // ---- each operation keeps the invariant ----

  lemma {:induction false} EmittedSnoc(log: seq<Emission>, e: Emission, id: nat)
    ensures Emitted(log + [e], id) == Emitted(log, id) + if e.id == id then 1 else 0
  {
    assert (log + [e])[..|log + [e]| - 1] == log;
  }

  /** An emission extends the log consistently. */
  lemma LogSnoc(c: Config, accepted: nat, log: seq<Emission>, e: Emission)
    requires ValidConfig(c) && LogOk(c, accepted, log)
    requires e.id < accepted && e.retry <= c.maxRetx && e.retry == Emitted(log, e.id)
    requires e.distance == Recheck(c, e.retry)
    requires forall i :: 0 <= i < |log| && log[i].id == e.id ==> log[i].sn == e.sn && log[i].pdu == e.pdu
    ensures LogOk(c, accepted, log + [e])
  {
    var log' := log + [e];
    forall i | 0 <= i < |log'| ensures EmissionOk(c, accepted, log', i) {
      if i < |log| {
        assert log'[..i] == log[..i] && log'[i] == log[i] && EmissionOk(c, accepted, log, i);
      } else {
        assert log'[..i] == log;
      }
    }
  }

  lemma LogWider(c: Config, accepted: nat, wider: nat, log: seq<Emission>)
    requires ValidConfig(c) && LogOk(c, accepted, log) && accepted <= wider
    ensures LogOk(c, wider, log)
  {
    forall i | 0 <= i < |log| ensures EmissionOk(c, wider, log, i) {
      assert EmissionOk(c, accepted, log, i);
    }
  }

  lemma {:induction false} EmittedUnknown(log: seq<Emission>, id: nat)
    requires forall i :: 0 <= i < |log| ==> log[i].id != id
    ensures Emitted(log, id) == 0
  {
    if |log| != 0 { EmittedUnknown(log[..|log| - 1], id); }
  }

  lemma TracedSnoc(sn: byte, e: Entry, accepted: nat, log: seq<Emission>, m: Emission)
    requires EntryTraced(sn, e, accepted, log) && m.id != e.id
    ensures EntryTraced(sn, e, accepted, log + [m]) && EntryTraced(sn, e, accepted + 1, log + [m])
  {
    EmittedSnoc(log, m, e.id);
  }

  /** The log with `m` added traces the entry for `sn`, if it says the same as `m`. */
  lemma TracedBy(sn: byte, e: Entry, accepted: nat, log: seq<Emission>, m: Emission)
    requires e.id < accepted && e.id == m.id && e.retry == m.retry == Emitted(log, m.id) && sn == m.sn && e.pdu == m.pdu
    requires forall i :: 0 <= i < |log| && log[i].id == m.id ==> log[i].sn == m.sn && log[i].pdu == m.pdu
    ensures EntryTraced(sn, e, accepted, log + [m])
  {
    EmittedSnoc(log, m, m.id);
  }

  /** Entering or changing one entry, whose emission is logged, keeps the others traced. */
  lemma TracedWith(entries: map<byte, Entry>, accepted: nat, wider: nat, log: seq<Emission>, sn: byte, e: Entry,
                   m: Emission)
    requires TracedOk(entries, accepted, log) && accepted <= wider <= accepted + 1
    requires e.id == m.id && EntryTraced(sn, e, wider, log + [m])
    requires forall a :: a in entries && a != sn ==> entries[a].id != e.id
    ensures TracedOk(entries[sn := e], wider, log + [m])
  {
    var entries' := entries[sn := e];
    forall a | a in entries' ensures EntryTraced(a, entries'[a], wider, log + [m]) {
      if a != sn {
        assert EntryTraced(a, entries[a], accepted, log);
        TracedSnoc(a, entries[a], accepted, log, m);
      }
    }
  }

  /** Emitting the PDU of `sn` once more moves its entry and the log in step. */
  lemma TracedAgain(c: Config, entries: map<byte, Entry>, accepted: nat, log: seq<Emission>, sn: byte, slot: nat,
                    at: nat)
    requires ValidConfig(c) && LogOk(c, accepted, log) && TracedOk(entries, accepted, log)
    requires sn in entries && entries[sn].retry < c.maxRetx
    ensures var e := entries[sn];
            var m := Emission(e.id, sn, e.retry + 1, e.pdu, Recheck(c, e.retry + 1), at);
            && LogOk(c, accepted, log + [m])
            && TracedOk(entries[sn := Waiting(e.id, slot, e.retry + 1, e.pdu)], accepted, log + [m])
  {
    var e := entries[sn];
    var m := Emission(e.id, sn, e.retry + 1, e.pdu, Recheck(c, e.retry + 1), at);
    var e' := Waiting(e.id, slot, e.retry + 1, e.pdu);
    assert EntryTraced(sn, e, accepted, log);
    LogSnoc(c, accepted, log, m);
    TracedBy(sn, e', accepted, log, m);
    TracedWith(entries, accepted, accepted, log, sn, e', m);
  }

  /** The log speaks of accepted PDUs only. */
  lemma NotYetLogged(c: Config, accepted: nat, log: seq<Emission>)
    requires ValidConfig(c) && LogOk(c, accepted, log)
    ensures (forall i :: 0 <= i < |log| ==> log[i].id != accepted) && Emitted(log, accepted) == 0
  {
    forall i | 0 <= i < |log| ensures log[i].id != accepted {
      assert EmissionOk(c, accepted, log, i);
    }
    EmittedUnknown(log, accepted);
  }

  lemma TracedNew(c: Config, entries: map<byte, Entry>, accepted: nat, log: seq<Emission>, sn: byte, slot: nat,
                  pdu: seq<byte>, at: nat)
    requires ValidConfig(c) && LogOk(c, accepted, log) && TracedOk(entries, accepted, log) && sn !in entries
    ensures var m := Emission(accepted, sn, 0, pdu, Recheck(c, 0), at);
            && LogOk(c, accepted + 1, log + [m])
            && TracedOk(entries[sn := Waiting(accepted, slot, 0, pdu)], accepted + 1, log + [m])
  {
    var m := Emission(accepted, sn, 0, pdu, Recheck(c, 0), at);
    var e := Waiting(accepted, slot, 0, pdu);
    NotYetLogged(c, accepted, log);
    LogWider(c, accepted, accepted + 1, log);
    LogSnoc(c, accepted + 1, log, m);
    TracedBy(sn, e, accepted + 1, log, m);
    TracedWith(entries, accepted, accepted + 1, log, sn, e, m);
  }

  /** Every entry of `b` is an entry of `a`, wherever its PDU now is. */
  ghost predicate Among(b: map<byte, Entry>, a: map<byte, Entry>) {
    forall sn :: sn in b ==>
      sn in a && b[sn].id == a[sn].id && b[sn].retry == a[sn].retry && b[sn].pdu == a[sn].pdu
  }

  lemma AmongOk(c: Config, a: map<byte, Entry>, b: map<byte, Entry>, accepted: nat, log: seq<Emission>)
    requires Among(b, a) && EntriesOk(c, a) && TracedOk(a, accepted, log)
    ensures EntriesOk(c, b) && TracedOk(b, accepted, log)
  {
    forall sn | sn in b ensures EntryTraced(sn, b[sn], accepted, log) {
      assert EntryTraced(sn, a[sn], accepted, log);
    }
    assert forall sn :: sn in b ==> b[sn].id == a[sn].id;
  }

  /** Fewer waiting PDUs, none moved, keep their slots apart. */
  lemma FewerSlots(c: Config, a: map<byte, Entry>, b: map<byte, Entry>, current: nat)
    requires c.txSize > 0 && SlotsOk(c, a, current)
    requires forall sn :: sn in b && b[sn].Waiting? ==> sn in a && a[sn] == b[sn]
    ensures SlotsOk(c, b, current)
  {}

  lemma OneMoreSlot(c: Config, a: map<byte, Entry>, current: nat, sn: byte, e: Entry)
    requires c.txSize > 0 && SlotsOk(c, a, current) && !(sn in a && a[sn].Waiting?)
    requires e.Waiting? && current < e.slot && SlotFree(c, a, e.slot)
    ensures SlotsOk(c, a[sn := e], current)
  {}

  /** With nothing left at the new slot's position, every waiting slot is ahead of it. */
  lemma SlotsAdvance(c: Config, a: map<byte, Entry>, current: nat)
    requires c.txSize > 0 && SlotsOk(c, a, current) && SlotFree(c, a, current + 1)
    ensures SlotsOk(c, a, current + 1)
  {
    forall sn | sn in a && a[sn].Waiting? ensures current + 1 < a[sn].slot {
      assert Position(c, a[sn].slot) != Position(c, current + 1);
    }
  }

  lemma CardinalityOfKeys(a: map<byte, Entry>, b: map<byte, Entry>)
    requires a.Keys == b.Keys
    ensures |a| == |b|
  {
    assert |a| == |a.Keys| == |b.Keys| == |b|;
  }

  lemma AppendOrder(entries: map<byte, Entry>, order: seq<byte>, sn: byte, e: Entry)
    requires OrderOk(entries, order) && sn in entries && entries[sn].Waiting? && e.Queued?
    ensures OrderOk(entries[sn := e], order + [sn])
  {
    var entries', order' := entries[sn := e], order + [sn];
    assert order'[|order|] == sn;
    forall a | a in entries' && entries'[a].Queued? ensures a in order' {
      if a != sn {
        assert a in order;
      }
    }
  }

  lemma MoveDueInv(c: Config, s: Arq, sn: byte, s': Arq)
    requires Inv(c, s) && c.acknowledged && sn in s.entries && s.entries[sn].Waiting? && s' == MoveDue(s, sn)
    ensures Inv(c, s')
  {
    hide OrderOk, SlotsOk, EntriesOk, LogOk, TracedOk;
    var e := s.entries[sn];
    AppendOrder(s.entries, s.order, sn, Queued(e.id, e.retry, e.pdu));
    FewerSlots(c, s.entries, s'.entries, s.current);
    AmongOk(c, s.entries, s'.entries, s.accepted, s.log);
    assert s'.entries.Keys == s.entries.Keys;
    CardinalityOfKeys(s.entries, s'.entries);
  }

  lemma AdvanceInv(c: Config, s: Arq, s': Arq)
    requires Inv(c, s) && SlotFree(c, s.entries, s.current + 1)
    requires s' == s.(current := s.current + 1, status := s'.status) && s'.status <= s.status
    ensures Inv(c, s')
  {
    SlotsAdvance(c, s.entries, s.current);
  }

  /** An operation that only reports something. */
  lemma ReportInv(c: Config, s: Arq, s': Arq)
    requires Inv(c, s) && s' == s.(status := s'.status, sn := s'.sn)
    requires SpuriousAckTx !in s'.status && ShouldNotHappen !in s'.status
    ensures Inv(c, s')
  {}

  lemma NothingDue(c: Config, entries: map<byte, Entry>, x: nat)
    requires c.txSize > 0 && !exists sn :: DueAt(c, entries, x, sn)
    ensures SlotFree(c, entries, x)
  {
    forall sn | sn in entries && entries[sn].Waiting? ensures Position(c, entries[sn].slot) != Position(c, x) {
      assert !DueAt(c, entries, x, sn);
    }
  }

  /** At most one PDU is due at a slot, so the choice in Tick is none. */
  lemma OneDue(c: Config, s: Arq, slot: nat, sn: byte)
    requires Inv(c, s) && c.acknowledged && slot == s.current + 1 && DueAt(c, s.entries, slot, sn)
    ensures Tick(c, s, slot) == (MoveDue(s.(current := slot, status := s.status - {DataPduAllocated}), sn), true)
  {
    assert forall a :: DueAt(c, s.entries, slot, a) ==> a == sn;
  }

  /** Time moving on leaves only PDUs whose slots lie ahead, once the due one is moved. */
  lemma DueInv(c: Config, s: Arq, sn: byte, s': Arq)
    requires Inv(c, s) && c.acknowledged && DueAt(c, s.entries, s.current + 1, sn)
    requires s' == MoveDue(s.(current := s.current + 1, status := s.status - {DataPduAllocated}), sn)
    ensures Inv(c, s')
  {
    hide Inv, SlotFree;
    var moved := MoveDue(s, sn);
    MoveDueInv(c, s, sn, moved);
    MovedFree(c, s, sn, moved);
    AdvanceInv(c, moved, s');
  }

  lemma TickInv(c: Config, s: Arq, slot: nat, s': Arq)
    requires Inv(c, s) && s' == Tick(c, s, slot).0
    ensures Inv(c, s')
  {
    hide OrderOk, SlotsOk, EntriesOk, CountsOk, LogOk, TracedOk, SlotFree;
    if !c.acknowledged || slot != s.current + 1 {
      ReportInv(c, s, s');
    } else if exists sn :: DueAt(c, s.entries, slot, sn) {
      var s1 := s.(current := slot, status := s.status - {DataPduAllocated});
      var sn :| DueAt(c, s.entries, slot, sn) && s' == MoveDue(s1, sn);
      DueInv(c, s, sn, s');
    } else {
      NothingDue(c, s.entries, slot);
      AdvanceInv(c, s, s');
    }
  }

  lemma MovedFree(c: Config, s: Arq, sn: byte, moved: Arq)
    requires Inv(c, s) && DueAt(c, s.entries, s.current + 1, sn) && moved == MoveDue(s, sn)
    ensures SlotFree(c, moved.entries, s.current + 1)
  {
    forall a | a in moved.entries && moved.entries[a].Waiting?
      ensures Position(c, moved.entries[a].slot) != Position(c, s.current + 1)
    {
      assert moved.entries[a] == s.entries[a] && a != sn;
    }
  }

  ghost predicate NoRepeats(order: seq<byte>) {
    forall i, j :: 0 <= i < j < |order| ==> order[i] != order[j]
  }

  lemma NoRepeatsTail(order: seq<byte>)
    requires NoRepeats(order) && |order| > 0
    ensures NoRepeats(order[1..]) && order[0] !in order[1..]
    ensures forall x :: x in order <==> x == order[0] || x in order[1..]
  {
    assert order == [order[0]] + order[1..];
  }

  lemma NoRepeatsCons(x: byte, rest: seq<byte>)
    requires NoRepeats(rest) && x !in rest
    ensures NoRepeats([x] + rest) && forall y :: y in [x] + rest <==> y == x || y in rest
  {}

  lemma {:induction false} WithoutOrder(order: seq<byte>, sn: byte)
    requires sn in order && NoRepeats(order)
    ensures forall x :: x in Without(order, sn) <==> x in order && x != sn
    ensures NoRepeats(Without(order, sn))
  {
    NoRepeatsTail(order);
    if order[0] != sn {
      WithoutOrder(order[1..], sn);
      NoRepeatsCons(order[0], Without(order[1..], sn));
    }
  }

  lemma RemoveOrder(entries: map<byte, Entry>, order: seq<byte>, sn: byte)
    requires OrderOk(entries, order) && sn in entries
    ensures OrderOk(entries - {sn}, if entries[sn].Queued? then Without(order, sn) else order)
  {
    var rest := if entries[sn].Queued? then Without(order, sn) else order;
    if entries[sn].Queued? {
      WithoutOrder(order, sn);
    }
    forall i | 0 <= i < |rest| ensures rest[i] in entries - {sn} && entries[rest[i]].Queued? {
      assert rest[i] in rest;
    }
  }

  lemma RemoveEntry(c: Config, s: Arq, sn: byte, s': Arq)
    requires Inv(c, s) && sn in s.entries && s'.entries == s.entries - {sn}
    requires OrderOk(s'.entries, s'.order) && (!c.acknowledged ==> |s'.order| == 0)
    requires s'.current == s.current && s'.accepted == s.accepted && s'.log == s.log
    requires s'.acked + s'.lost == s.acked + s.lost + 1
    requires SpuriousAckTx !in s'.status && ShouldNotHappen !in s'.status
    ensures Inv(c, s')
  {
    FewerSlots(c, s.entries, s'.entries, s.current);
    AmongOk(c, s.entries, s'.entries, s.accepted, s.log);
    assert s'.entries.Keys == s.entries.Keys - {sn};
    assert |s'.entries| == |s'.entries.Keys| == |s.entries.Keys| - 1;
  }

  lemma AckInv(c: Config, s: Arq, sn: byte, s': Arq)
    requires Inv(c, s) && s' == Ack(s, sn).0
    ensures Inv(c, s')
  {
    if sn in s.entries {
      RemoveOrder(s.entries, s.order, sn);
      RemoveEntry(c, s, sn, s');
    }
  }

  /** With the front entry gone, or no longer queued, the rest of the order is in step. */
  lemma TailOrder(entries: map<byte, Entry>, entries': map<byte, Entry>, order: seq<byte>)
    requires OrderOk(entries, order) && |order| > 0
    requires forall sn :: sn in entries' && sn != order[0] ==> sn in entries && entries'[sn] == entries[sn]
    requires forall sn :: sn in entries && sn != order[0] ==> sn in entries'
    requires order[0] in entries' ==> entries'[order[0]].Waiting?
    ensures OrderOk(entries', order[1..])
  {
    NoRepeatsTail(order);
    assert forall i :: 0 <= i < |order| - 1 ==> order[1..][i] == order[i + 1] && order[1..][i] in order[1..];
  }

  /** The PDU at the front of the retransmission order goes out again. */
  lemma AgainInv(c: Config, s: Arq, sn: byte, slot: nat, s': Arq)
    requires Inv(c, s) && c.acknowledged && |s.order| > 0 && sn == s.order[0] && s.entries[sn].retry < c.maxRetx
    requires s.current < slot && SlotFree(c, s.entries, slot)
    requires s'.entries == s.entries[sn := Waiting(s.entries[sn].id, slot, s.entries[sn].retry + 1, s.entries[sn].pdu)]
    requires s'.log == s.log + [Emission(s.entries[sn].id, sn, s.entries[sn].retry + 1, s.entries[sn].pdu,
                                         Recheck(c, s.entries[sn].retry + 1), s.current)]
    requires s'.order == s.order[1..] && s'.current == s.current
    requires s'.accepted == s.accepted && s'.acked == s.acked && s'.lost == s.lost
    requires SpuriousAckTx !in s'.status && ShouldNotHappen !in s'.status
    ensures Inv(c, s')
  {
    TracedAgain(c, s.entries, s.accepted, s.log, sn, slot, s.current);
    AgainParts(c, s.entries, s.order, s.current, s'.entries[sn]);
    CardinalityOfKeys(s.entries, s'.entries);
  }

  lemma AgainParts(c: Config, entries: map<byte, Entry>, order: seq<byte>, current: nat, e: Entry)
    requires c.txSize > 0 && OrderOk(entries, order) && SlotsOk(c, entries, current) && EntriesOk(c, entries)
    requires |order| > 0 && e.Waiting? && current < e.slot && SlotFree(c, entries, e.slot)
    requires e.retry <= c.maxRetx && e.pdu == entries[order[0]].pdu
    ensures OrderOk(entries[order[0] := e], order[1..]) && SlotsOk(c, entries[order[0] := e], current)
    ensures EntriesOk(c, entries[order[0] := e]) && entries[order[0] := e].Keys == entries.Keys
  {
    TailOrder(entries, entries[order[0] := e], order);
    OneMoreSlot(c, entries, current, order[0], e);
    assert EntryOk(c, order[0], entries[order[0]]);
  }

  /** Whether write_retransmission_pdu gets as far as looking at the retry count. */
  ghost predicate Retransmits(c: Config, s: Arq, room: nat) {
    && DataPduAllocated !in s.status && c.acknowledged && |s.order| > 0
    && s.order[0] in s.entries && 0 < |s.entries[s.order[0]].pdu| <= room
  }

  lemma SendAgainInv(c: Config, s: Arq, slot: nat, s': Arq)
    requires Inv(c, s) && c.acknowledged && |s.order| > 0 && s.entries[s.order[0]].retry < c.maxRetx
    requires s.current < slot && SlotFree(c, s.entries, slot) && s' == SendAgain(c, s, slot)
    ensures Inv(c, s')
  {
    AgainInv(c, s, s.order[0], slot, s');
  }

  lemma RetransmitTooLarge(c: Config, s: Arq, e: Entry, room: nat)
    requires ValidConfig(c) && OrderOk(s.entries, s.order) && DataPduAllocated !in s.status && c.acknowledged
    requires |s.order| > 0 && e == s.entries[s.order[0]] && room < |e.pdu|
    ensures Retransmit(c, s, room) == (s.(status := s.status + {WriteBufferTooSmall}), Nothing)
  {}

  lemma RetransmitFits(c: Config, s: Arq, e: Entry, place: Option<nat>, room: nat)
    requires ValidConfig(c) && OrderOk(s.entries, s.order) && DataPduAllocated !in s.status && c.acknowledged
    requires |s.order| > 0 && e == s.entries[s.order[0]] && 0 < |e.pdu| <= room && place == Place(c, s, e.retry + 1)
    ensures Retransmit(c, s, room) == if e.retry >= c.maxRetx then (GiveUp(s), Nothing)
                                      else if place.Some? then (SendAgain(c, s, place.value), Sent(e.pdu))
                                      else (KeepFront(s), Copied(e.pdu))
  {}

  lemma RetransmitPlaced(c: Config, s: Arq, room: nat, s': Arq)
    requires Inv(c, s) && Retransmits(c, s, room) && s.entries[s.order[0]].retry < c.maxRetx
    requires s' == Retransmit(c, s, room).0
    ensures Inv(c, s')
  {
    var e := s.entries[s.order[0]];
    RecheckBounds(c, 0, e.retry + 1);
    var place := Place(c, s, e.retry + 1);
    RetransmitFits(c, s, e, place, room);
    if place.Some? {
      SendAgainInv(c, s, place.value, s');
    } else {
      ReportInv(c, s, s');
    }
  }

  lemma RetransmitInv(c: Config, s: Arq, room: nat, s': Arq)
    requires Inv(c, s) && s' == Retransmit(c, s, room).0
    ensures Inv(c, s')
  {
    if !Retransmits(c, s, room) {
      ReportInv(c, s, s');
    } else if s.entries[s.order[0]].retry < c.maxRetx {
      RetransmitPlaced(c, s, room, s');
    } else {
      TailOrder(s.entries, s.entries - {s.order[0]}, s.order);
      RemoveEntry(c, s, s.order[0], s');
    }
  }

  lemma NewEntry(c: Config, entries: map<byte, Entry>, order: seq<byte>, sn: byte, e: Entry)
    requires OrderOk(entries, order) && EntriesOk(c, entries) && sn !in entries && e.Waiting? && EntryOk(c, sn, e)
    ensures OrderOk(entries[sn := e], order) && EntriesOk(c, entries[sn := e])
  {}

  lemma NewParts(c: Config, entries: map<byte, Entry>, order: seq<byte>, current: nat, sn: byte, e: Entry)
    requires c.txSize > 0 && OrderOk(entries, order) && SlotsOk(c, entries, current) && EntriesOk(c, entries)
    requires sn !in entries && e.Waiting? && current < e.slot && SlotFree(c, entries, e.slot) && EntryOk(c, sn, e)
    ensures OrderOk(entries[sn := e], order) && SlotsOk(c, entries[sn := e], current)
    ensures EntriesOk(c, entries[sn := e]) && |entries[sn := e]| == |entries| + 1
  {
    hide OrderOk, SlotsOk, EntriesOk, EntryOk, SlotFree;
    OneMoreSlot(c, entries, current, sn, e);
    NewEntry(c, entries, order, sn, e);
    assert entries[sn := e].Keys == entries.Keys + {sn};
    assert |entries[sn := e]| == |entries[sn := e].Keys| == |entries.Keys| + 1;
  }

  /** A new data PDU goes out for the first time. */
  lemma NewInv(c: Config, s: Arq, slot: nat, q: seq<byte>, s': Arq)
    requires Inv(c, s) && c.acknowledged && s.sn !in s.entries
    requires s.current < slot && SlotFree(c, s.entries, slot) && EntryOk(c, s.sn, Waiting(s.accepted, slot, 0, q))
    requires s'.entries == s.entries[s.sn := Waiting(s.accepted, slot, 0, q)]
    requires s'.log == s.log + [Emission(s.accepted, s.sn, 0, q, Recheck(c, 0), s.current)]
    requires s'.order == s.order && s'.current == s.current
    requires s'.accepted == s.accepted + 1 && s'.acked == s.acked && s'.lost == s.lost
    requires SpuriousAckTx !in s'.status && ShouldNotHappen !in s'.status
    ensures Inv(c, s')
  {
    hide OrderOk, SlotsOk, EntriesOk, LogOk, TracedOk, SlotFree, EntryOk;
    NewParts(c, s.entries, s.order, s.current, s.sn, Waiting(s.accepted, slot, 0, q));
    TracedNew(c, s.entries, s.accepted, s.log, s.sn, slot, q, s.current);
  }

  lemma SubmitInv(c: Config, s: Arq, p: seq<byte>, s': Arq)
    requires Inv(c, s) && HeaderSize(c.crc) <= |p| && s' == Submit(c, s, p).0
    ensures Inv(c, s')
  {
    hide OrderOk, SlotsOk, EntriesOk, CountsOk, LogOk, TracedOk;
    if DataPduAllocated in s.status || !c.acknowledged || IsAck(p) || s.sn in s.entries || GetSize(p) > |p| {
      ReportInv(c, s, s');
      return;
    }
    RecheckBounds(c, 0, 0);
    var place := Place(c, s, 0);
    if place.Some? {
      SealedAccepted(c.crc, s.sn, p);
      NewInv(c, s, place.value, Seal(c.crc, s.sn, p), s');
    } else {
      ReportInv(c, s, s');
    }
  }
}
