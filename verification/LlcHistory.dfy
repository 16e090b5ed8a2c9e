/** Whole runs of the acknowledged-mode sender, seen from the outside: how PDUs are numbered, that at most
    one data PDU goes out per slot, which PDUs are accepted, the order of retransmissions, and that nothing
    goes out once it is acknowledged. */
module LlcHistory {
  import opened Bytes
  import opened LlcFrame
  import opened LlcArq
  import opened LlcCalls
  import opened LlcRuns

  // ---- runs one after the other ----

  lemma {:induction false} RunSplit(c: Config, s: Arq, first: seq<Call>, second: seq<Call>)
    requires Inv(c, s) && CallsOk(c, first) && CallsOk(c, second)
    ensures CallsOk(c, first + second) && Run(c, s, first + second) == Run(c, Run(c, s, first), second)
  {
    if |second| == 0 {
      assert first + second == first;
    } else {
      var n := |second| - 1;
      RunSplit(c, s, first, second[..n]);
      assert (first + second)[..|first + second| - 1] == first + second[..n];
    }
  }

  lemma RunOne(c: Config, s: Arq, call: Call)
    requires Inv(c, s) && CallOk(c, call)
    ensures CallsOk(c, [call]) && Run(c, s, [call]) == Step(c, s, call)
  {
    assert [call][..0] == [];
    assert Run(c, s, [call][..0]) == s;
  }

  // ---- numbering ----

  /** A call that sends a new PDU, data or not. */
  ghost predicate Numbers(c: Config, s: Arq, call: Call)
    requires ValidConfig(c) && CallOk(c, call)
  {
    call.WritePdu? && GoesOut(c, s, call.pdu)
  }

  /** How many new PDUs, data or not, the calls have sent. */
  ghost function Numbered(c: Config, s: Arq, calls: seq<Call>): nat
    requires Inv(c, s) && CallsOk(c, calls)
  {
    if |calls| == 0 then 0
    else
      var n := |calls| - 1;
      Numbered(c, s, calls[..n]) + if Numbers(c, Run(c, s, calls[..n]), calls[n]) then 1 else 0
  }

  lemma StepNumbers(c: Config, s: Arq, call: Call, s': Arq)
    requires Inv(c, s) && CallOk(c, call) && s' == Step(c, s, call)
    ensures s'.sn == if Numbers(c, s, call) then (s.sn + 1) % 0x100 else s.sn
  {
    hide SlotsOk, EntriesOk, CountsOk, LogOk, TracedOk, Tick, Ack, Retransmit, Submit, GoesOut, IsData, SomeFree;
    match call
    case NextSlot(slot) =>
      TickEffect(c, s, slot, s', Tick(c, s, slot).1);
    case Acknowledge(sn) =>
      AckEffect(c, s, sn, s', Ack(s, sn).1);
    case WriteRetransmission(room) =>
      var w := Retransmit(c, s, room).1;
      if w.Sent? {
        RetransmitSends(c, s, room, s', w);
      } else {
        RetransmitKeeps(c, s, room, s', w);
      }
    case WritePdu(pdu) =>
      var r := Submit(c, s, pdu);
      SubmitEffect(c, s, pdu, s', r.1, r.2);
  }

  lemma OneMore(k: nat)
    ensures (k % 0x100 + 1) % 0x100 == (k + 1) % 0x100
  {}

  /** The SN counter is the number of new PDUs sent so far, modulo 256: each takes the next SN, and no
      other call takes one. */
  lemma {:induction false} SnCounts(c: Config, s: Arq, calls: seq<Call>, s': Arq)
    requires Inv(c, s) && CallsOk(c, calls) && s' == Run(c, s, calls)
    ensures s'.sn == (s.sn + Numbered(c, s, calls)) % 0x100
  {
    hide Inv, Step, Numbers;
    if |calls| > 0 {
      var n := |calls| - 1;
      var before := Run(c, s, calls[..n]);
      SnCounts(c, s, calls[..n], before);
      StepNumbers(c, before, calls[n], s');
      OneMore(s.sn + Numbered(c, s, calls[..n]));
    }
  }

  // ---- one data PDU per slot ----

  /** The data PDUs sent so far went out in different slots, one after the other, and the status bit says
      whether one went out in the present slot. */
  ghost predicate OnePerSlot(s: Arq) {
    && (forall i, j :: 0 <= i < j < |s.log| ==> s.log[i].at < s.log[j].at)
    && (forall i :: 0 <= i < |s.log| ==> s.log[i].at <= s.current)
    && (DataPduAllocated in s.status <==> exists i :: 0 <= i < |s.log| && s.log[i].at == s.current)
  }

  /** A call that sends nothing leaves the bit alone, unless it begins a new slot. */
  lemma QuietSlot(s: Arq, s': Arq)
    requires OnePerSlot(s) && s'.log == s.log
    requires if s'.current == s.current then DataPduAllocated in s'.status <==> DataPduAllocated in s.status
             else s'.current == s.current + 1 && DataPduAllocated !in s'.status
    ensures OnePerSlot(s')
  {}

  lemma SendingSlot(s: Arq, s': Arq, m: Emission)
    requires OnePerSlot(s) && s'.log == s.log + [m] && m.at == s.current == s'.current
    requires DataPduAllocated !in s.status && DataPduAllocated in s'.status
    ensures OnePerSlot(s')
  {
    assert s'.log[|s.log|] == m;
    forall i | 0 <= i < |s.log| ensures s.log[i].at < s.current {
      assert s.log[i].at <= s.current;
    }
  }

  lemma StepSlots(c: Config, s: Arq, call: Call, s': Arq)
    requires Inv(c, s) && CallOk(c, call) && s' == Step(c, s, call) && OnePerSlot(s)
    ensures OnePerSlot(s')
  {
    hide SlotsOk, EntriesOk, CountsOk, LogOk, TracedOk, Tick, Ack, Retransmit, Submit, IsData, SomeFree, OnePerSlot,
      FirstFrom;
    match call
    case NextSlot(slot) =>
      TickEffect(c, s, slot, s', Tick(c, s, slot).1);
      QuietSlot(s, s');
    case Acknowledge(sn) =>
      AckEffect(c, s, sn, s', Ack(s, sn).1);
      QuietSlot(s, s');
    case WriteRetransmission(room) =>
      var w := Retransmit(c, s, room).1;
      if w.Sent? {
        RetransmitSends(c, s, room, s', w);
        SendingSlot(s, s', s'.log[|s.log|]);
      } else {
        RetransmitKeeps(c, s, room, s', w);
        QuietSlot(s, s');
      }
    case WritePdu(pdu) =>
      var r := Submit(c, s, pdu);
      SubmitEffect(c, s, pdu, s', r.1, r.2);
      if GoesOut(c, s, pdu) && IsData(c, pdu) {
        SendingSlot(s, s', s'.log[|s.log|]);
      } else {
        QuietSlot(s, s');
      }
  }

  lemma {:induction false} RunSlots(c: Config, s: Arq, calls: seq<Call>, s': Arq)
    requires Inv(c, s) && CallsOk(c, calls) && s' == Run(c, s, calls) && OnePerSlot(s)
    ensures OnePerSlot(s')
  {
    hide Inv, Step, OnePerSlot;
    if |calls| > 0 {
      var n := |calls| - 1;
      var before := Run(c, s, calls[..n]);
      RunSlots(c, s, calls[..n], before);
      StepSlots(c, before, calls[n], s');
    }
  }

  /** In every run no two data PDUs, new or retransmitted, go out in the same slot. */
  lemma SlotsApart(c: Config, calls: seq<Call>, s: Arq)
    requires ValidConfig(c) && CallsOk(c, calls) && s == RunFromReset(c, calls)
    ensures OnePerSlot(s)
  {
    ResetInv(c);
    assert OnePerSlot(RESET);
    RunSlots(c, RESET, calls, s);
  }

  /** The SN that counts the new PDUs the calls have sent since reset. */
  ghost function NextSn(c: Config, calls: seq<Call>): byte
    requires ValidConfig(c) && CallsOk(c, calls)
  {
    ResetInv(c);
    Numbered(c, RESET, calls) % 0x100
  }

  lemma AcceptedNow(c: Config, s: Arq, p: seq<byte>, s': Arq)
    requires Inv(c, s) && OnePerSlot(s) && HeaderSize(c.crc) <= |p| && IsData(c, p) && s' == Submit(c, s, p).0
    ensures s'.accepted != s.accepted <==>
              && (forall i :: 0 <= i < |s.log| ==> s.log[i].at != s.current)
              && s.sn !in s.entries && GetSize(p) <= |p| && SomeFree(c, s.entries)
  {
    hide OrderOk, SlotsOk, EntriesOk, CountsOk, LogOk, TracedOk, Submit, IsData, SomeFree, FirstFrom, SlotFree;
    SubmitEffect(c, s, p, s', Submit(c, s, p).1, Submit(c, s, p).2);
  }

  /** After any run a data PDU is accepted if and only if none has gone out in this slot, the SN that counts
      the PDUs sent so far is not outstanding, SIZE lies within the buffer and some ring position is free. */
  lemma {:induction false} AcceptedIff(c: Config, calls: seq<Call>, s: Arq, p: seq<byte>, s': Arq)
    requires ValidConfig(c) && CallsOk(c, calls) && s == RunFromReset(c, calls)
    requires HeaderSize(c.crc) <= |p| && IsData(c, p) && s' == Submit(c, s, p).0
    ensures s'.accepted != s.accepted <==>
              && (forall i :: 0 <= i < |s.log| ==> s.log[i].at != s.current)
              && NextSn(c, calls) !in s.entries && GetSize(p) <= |p| && SomeFree(c, s.entries)
  {
    hide Inv, OnePerSlot, Submit, IsData, SomeFree, Numbered, Run;
    ResetInv(c);
    SnCounts(c, RESET, calls, s);
    SlotsApart(c, calls, s);
    AcceptedNow(c, s, p, s');
  }

  // ---- PDUs that are done with ----

  /** PDU number `id` was accepted and is no longer kept. */
  ghost predicate Done(s: Arq, id: nat) {
    id < s.accepted && forall a :: a in s.entries ==> s.entries[a].id != id
  }

  /** Between `s` and `s'` PDU number `id` has not gone out. */
  ghost predicate Silent(s: Arq, s': Arq, id: nat) {
    && |s.log| <= |s'.log| && s'.log[..|s.log|] == s.log
    && forall i :: |s.log| <= i < |s'.log| ==> s'.log[i].id != id
  }

  lemma SilentStep(s: Arq, s1: Arq, s2: Arq, id: nat)
    requires Silent(s, s1, id) && Silent(s1, s2, id)
    ensures Silent(s, s2, id)
  {
    assert s2.log[..|s.log|] == s1.log[..|s.log|];
    forall i | |s.log| <= i < |s2.log| ensures s2.log[i].id != id {
      if i < |s1.log| {
        assert s1.log[i] == s2.log[..|s1.log|][i];
      }
    }
  }

  lemma StepDone(c: Config, s: Arq, call: Call, s': Arq, id: nat)
    requires Inv(c, s) && CallOk(c, call) && s' == Step(c, s, call) && Done(s, id)
    ensures Done(s', id) && Silent(s, s', id)
  {
    hide SlotsOk, EntriesOk, CountsOk, LogOk, TracedOk, Tick, Ack, Retransmit, Submit, IsData, GoesOut, SomeFree,
      FirstFrom, SlotFree;
    match call
    case NextSlot(slot) =>
      TickEffect(c, s, slot, s', Tick(c, s, slot).1);
    case Acknowledge(sn) =>
      AckEffect(c, s, sn, s', Ack(s, sn).1);
    case WriteRetransmission(room) =>
      var w := Retransmit(c, s, room).1;
      if w.Sent? {
        RetransmitSends(c, s, room, s', w);
      } else {
        RetransmitKeeps(c, s, room, s', w);
      }
    case WritePdu(pdu) =>
      var r := Submit(c, s, pdu);
      SubmitEffect(c, s, pdu, s', r.1, r.2);
  }

  /** A PDU that is no longer kept never goes out again and is never kept again. */
  lemma {:induction false} RunDone(c: Config, s: Arq, calls: seq<Call>, s': Arq, id: nat)
    requires Inv(c, s) && CallsOk(c, calls) && s' == Run(c, s, calls) && Done(s, id)
    ensures Done(s', id) && Silent(s, s', id)
  {
    hide Inv, Step, Done, Silent;
    if |calls| == 0 {
      SilentSame(s, id);
    } else {
      var n := |calls| - 1;
      var before := Run(c, s, calls[..n]);
      RunDone(c, s, calls[..n], before, id);
      StepDone(c, before, calls[n], s', id);
      SilentStep(s, before, s', id);
    }
  }

  lemma SilentSame(s: Arq, id: nat)
    ensures Silent(s, s, id)
  {}

  lemma AckDone(c: Config, s: Arq, sn: byte, s': Arq)
    requires Inv(c, s) && sn in s.entries && s' == Ack(s, sn).0
    ensures Done(s', s.entries[sn].id) && s'.log == s.log
  {
    hide OrderOk, SlotsOk, EntriesOk, CountsOk, LogOk, Ack, TakenOut;
    AckEffect(c, s, sn, s', Ack(s, sn).1);
    assert EntryTraced(sn, s.entries[sn], s.accepted, s.log);
  }

  /** No emission of a PDU comes after its acknowledgement, whatever follows. */
  lemma AckEndsEmissions(c: Config, first: seq<Call>, sn: byte, later: seq<Call>)
    requires ValidConfig(c) && CallsOk(c, first) && CallsOk(c, later) && sn in RunFromReset(c, first).entries
    ensures CallsOk(c, first + [Acknowledge(sn)] + later)
    ensures var s, s' := RunFromReset(c, first), RunFromReset(c, first + [Acknowledge(sn)] + later);
            Silent(s, s', s.entries[sn].id) && Done(s', s.entries[sn].id)
  {
    hide Inv, Ack, Done, Silent, Run;
    ResetInv(c);
    var s := RunFromReset(c, first);
    var id := s.entries[sn].id;
    var acked := Step(c, s, Acknowledge(sn));
    StepInv(c, s, Acknowledge(sn), acked);
    AckDone(c, s, sn, acked);
    RunOne(c, s, Acknowledge(sn));
    RunSplit(c, RESET, first, [Acknowledge(sn)]);
    RunSplit(c, RESET, first + [Acknowledge(sn)], later);
    var s' := Run(c, acked, later);
    RunDone(c, acked, later, s', id);
    SilentFrom(s, acked, s', id);
  }

  lemma SilentFrom(s: Arq, s1: Arq, s2: Arq, id: nat)
    requires s1.log == s.log && Silent(s1, s2, id)
    ensures Silent(s, s2, id)
  {}

  // ---- first in, first out ----

  /** In the retransmission order `x` stands before `y`. */
  ghost predicate Before(order: seq<byte>, x: byte, y: byte) {
    exists i, j :: 0 <= i < j < |order| && order[i] == x && order[j] == y
  }

  lemma BeforeAppended(order: seq<byte>, x: byte, y: byte, z: byte)
    requires Before(order, x, y)
    ensures Before(order + [z], x, y)
  {
    var i, j :| 0 <= i < j < |order| && order[i] == x && order[j] == y;
    assert (order + [z])[i] == x && (order + [z])[j] == y;
  }

  lemma BeforeErased(order: seq<byte>, rest: seq<byte>, x: byte, y: byte, z: byte)
    requires Before(order, x, y) && TakenOut(order, rest, z) && z != x && z != y
    ensures Before(rest, x, y)
  {
    var i, j :| 0 <= i < j < |order| && order[i] == x && order[j] == y;
    var k :| 0 <= k < |order| && order[k] == z && rest == Erase(order, k);
    var i', j' := if i < k then i else i - 1, if j < k then j else j - 1;
    assert i' < j' && rest[i'] == x && rest[j'] == y;
  }

  lemma BeforeTail(order: seq<byte>, x: byte, y: byte)
    requires Before(order, x, y) && order[0] != x && NoRepeats(order)
    ensures Before(order[1..], x, y) && order[0] != y
  {
    var i, j :| 0 <= i < j < |order| && order[i] == x && order[j] == y;
    assert order[1..][i - 1] == x && order[1..][j - 1] == y;
  }

  /** The PDU of `x` is queued as `a`, and the PDU `b` behind it as `y`, unless that one is done with. */
  ghost predicate Queue(s: Arq, x: byte, a: Entry, y: byte, b: Entry) {
    && x in s.entries && s.entries[x] == a && a.Queued? && b.Queued?
    && (Done(s, b.id) || (y in s.entries && s.entries[y] == b && Before(s.order, x, y)))
  }

  lemma TickQueue(c: Config, s: Arq, slot: nat, s': Arq, x: byte, a: Entry, y: byte, b: Entry)
    requires Inv(c, s) && s' == Tick(c, s, slot).0 && Queue(s, x, a, y, b) && !Done(s, b.id)
    ensures Queue(s', x, a, y, b) && Silent(s, s', b.id)
  {
    hide OrderOk, SlotsOk, EntriesOk, CountsOk, LogOk, TracedOk, Tick, Before;
    TickEffect(c, s, slot, s', Tick(c, s, slot).1);
    if s'.order != s.order {
      assert exists sn :: DueAt(c, s.entries, slot, sn);
      var sn :| DueAt(c, s.entries, slot, sn);
      BeforeAppended(s.order, x, y, sn);
    }
  }

  lemma AckQueue(c: Config, s: Arq, sn: byte, s': Arq, x: byte, a: Entry, y: byte, b: Entry)
    requires Inv(c, s) && s' == Ack(s, sn).0 && Queue(s, x, a, y, b) && !Done(s, b.id) && !Done(s', a.id)
    ensures Queue(s', x, a, y, b) && Silent(s, s', b.id)
  {
    hide OrderOk, SlotsOk, EntriesOk, CountsOk, LogOk, TracedOk, Ack, Before, TakenOut;
    AckEffect(c, s, sn, s', Ack(s, sn).1);
    if sn == x || sn == y {
      AckDone(c, s, sn, s');
    } else if sn in s.order {
      if sn in s.entries {
        BeforeErased(s.order, s'.order, x, y, sn);
      }
    }
  }

  lemma FrontDistinct(c: Config, s: Arq, y: byte)
    requires Inv(c, s) && |s.order| > 0 && y in s.entries && s.order[0] != y
    ensures s.order[0] in s.entries && s.entries[s.order[0]].id != s.entries[y].id
  {}

  lemma FrontLost(c: Config, s: Arq, s': Arq)
    requires Inv(c, s) && |s.order| > 0 && s'.entries == s.entries - {s.order[0]} && s'.accepted == s.accepted
    ensures Done(s', s.entries[s.order[0]].id)
  {
    assert EntryTraced(s.order[0], s.entries[s.order[0]], s.accepted, s.log);
  }

  lemma SendQueue(c: Config, s: Arq, room: nat, s': Arq, w: Written, x: byte, a: Entry, y: byte, b: Entry)
    requires Inv(c, s) && (s', w) == Retransmit(c, s, room) && w.Sent?
    requires Queue(s, x, a, y, b) && !Done(s, b.id) && Silent(s, s', a.id)
    ensures Queue(s', x, a, y, b) && Silent(s, s', b.id)
  {
    hide SlotsOk, EntriesOk, CountsOk, LogOk, TracedOk, Retransmit, Before, SomeFree, FirstFrom, SlotFree;
    RetransmitSends(c, s, room, s', w);
    assert s'.log[|s.log|].id == s.entries[s.order[0]].id;
    BeforeTail(s.order, x, y);
    FrontDistinct(c, s, y);
  }

  lemma KeepQueue(c: Config, s: Arq, room: nat, s': Arq, w: Written, x: byte, a: Entry, y: byte, b: Entry)
    requires Inv(c, s) && (s', w) == Retransmit(c, s, room) && !w.Sent?
    requires Queue(s, x, a, y, b) && !Done(s, b.id) && !Done(s', a.id)
    ensures Queue(s', x, a, y, b) && Silent(s, s', b.id)
  {
    hide SlotsOk, EntriesOk, CountsOk, LogOk, TracedOk, Retransmit, Before;
    RetransmitKeeps(c, s, room, s', w);
    if s'.order != s.order {
      FrontLost(c, s, s');
      BeforeTail(s.order, x, y);
    }
  }

  lemma SubmitQueue(c: Config, s: Arq, p: seq<byte>, s': Arq, x: byte, a: Entry, y: byte, b: Entry)
    requires Inv(c, s) && HeaderSize(c.crc) <= |p| && s' == Submit(c, s, p).0
    requires Queue(s, x, a, y, b) && !Done(s, b.id)
    ensures Queue(s', x, a, y, b) && Silent(s, s', b.id)
  {
    hide OrderOk, SlotsOk, EntriesOk, CountsOk, LogOk, Submit, Before, SomeFree, FirstFrom, SlotFree, Seal;
    assert EntryTraced(y, b, s.accepted, s.log);
    SubmitEffect(c, s, p, s', Submit(c, s, p).1, Submit(c, s, p).2);
  }

  lemma StepQueue(c: Config, s: Arq, call: Call, s': Arq, x: byte, a: Entry, y: byte, b: Entry)
    requires Inv(c, s) && CallOk(c, call) && s' == Step(c, s, call)
    requires Queue(s, x, a, y, b) && Silent(s, s', a.id) && !Done(s', a.id)
    ensures Queue(s', x, a, y, b) && Silent(s, s', b.id)
  {
    hide SlotsOk, EntriesOk, CountsOk, LogOk, TracedOk, Tick, Ack, Retransmit, Submit, Before;
    if Done(s, b.id) {
      StepDone(c, s, call, s', b.id);
      StepFirst(c, s, call, s', x, a);
    } else {
      match call
      case NextSlot(slot) => TickQueue(c, s, slot, s', x, a, y, b);
      case Acknowledge(sn) => AckQueue(c, s, sn, s', x, a, y, b);
      case WriteRetransmission(room) =>
        var w := Retransmit(c, s, room).1;
        if w.Sent? {
          SendQueue(c, s, room, s', w, x, a, y, b);
        } else {
          KeepQueue(c, s, room, s', w, x, a, y, b);
        }
      case WritePdu(pdu) => SubmitQueue(c, s, pdu, s', x, a, y, b);
    }
  }

  /** A queued PDU stays as it is until it goes out, is acknowledged or is given up. */
  lemma StepFirst(c: Config, s: Arq, call: Call, s': Arq, x: byte, a: Entry)
    requires Inv(c, s) && CallOk(c, call) && s' == Step(c, s, call)
    requires x in s.entries && s.entries[x] == a && a.Queued? && Silent(s, s', a.id) && !Done(s', a.id)
    ensures x in s'.entries && s'.entries[x] == a
  {
    hide SlotsOk, EntriesOk, CountsOk, LogOk, TracedOk, Tick, Ack, Retransmit, Submit, Done, SomeFree, FirstFrom,
      SlotFree, Seal;
    match call
    case NextSlot(slot) =>
      TickEffect(c, s, slot, s', Tick(c, s, slot).1);
    case Acknowledge(sn) =>
      AckEffect(c, s, sn, s', Ack(s, sn).1);
      if sn == x {
        AckDone(c, s, sn, s');
      }
    case WriteRetransmission(room) =>
      var w := Retransmit(c, s, room).1;
      if w.Sent? {
        RetransmitSends(c, s, room, s', w);
        assert s'.log[|s.log|].id == s.entries[s.order[0]].id;
      } else {
        RetransmitKeeps(c, s, room, s', w);
        if |s.order| > 0 && s'.entries == s.entries - {s.order[0]} {
          FrontLost(c, s, s');
        }
      }
    case WritePdu(pdu) =>
      var r := Submit(c, s, pdu);
      SubmitEffect(c, s, pdu, s', r.1, r.2);
  }

  lemma SilentBefore(s: Arq, s1: Arq, s2: Arq, id: nat)
    requires Silent(s, s2, id) && |s.log| <= |s1.log| <= |s2.log| && s1.log == s2.log[..|s1.log|]
    ensures Silent(s, s1, id) && Silent(s1, s2, id)
  {
    assert s1.log[..|s.log|] == s2.log[..|s.log|];
  }

  lemma RunExtends(c: Config, s: Arq, call: Call, s': Arq)
    requires Inv(c, s) && CallOk(c, call) && s' == Step(c, s, call)
    ensures |s.log| <= |s'.log| && s'.log[..|s.log|] == s.log
  {
    hide Inv, Step;
    StepLogs(c, s, call, s');
  }

  lemma {:induction false} RunQueue(c: Config, s: Arq, calls: seq<Call>, s': Arq, x: byte, a: Entry, y: byte, b: Entry)
    requires Inv(c, s) && CallsOk(c, calls) && s' == Run(c, s, calls) && Queue(s, x, a, y, b) && a.id < s.accepted
    ensures |s.log| <= |s'.log| && s'.log[..|s.log|] == s.log
    ensures Silent(s, s', a.id) && !Done(s', a.id) ==> Queue(s', x, a, y, b) && Silent(s, s', b.id)
  {
    hide Inv, Step, Done, Silent, Queue;
    if |calls| == 0 {
      SilentSame(s, b.id);
    } else {
      var n := |calls| - 1;
      var before := Run(c, s, calls[..n]);
      RunQueue(c, s, calls[..n], before, x, a, y, b);
      RunExtends(c, before, calls[n], s');
      assert s'.log[..|s.log|] == before.log[..|s.log|];
      if Silent(s, s', a.id) && !Done(s', a.id) {
        SilentBefore(s, before, s', a.id);
        if Done(before, a.id) {
          StepDone(c, before, calls[n], s', a.id);
        }
        StepQueue(c, before, calls[n], s', x, a, y, b);
        SilentStep(s, before, s', b.id);
      }
    }
  }

  /** The retransmission list is first in, first out: while the earlier of two queued PDUs has not gone out
      again and is neither acknowledged nor given up, the later one does not go out either. */
  lemma FirstInFirstOut(c: Config, s: Arq, calls: seq<Call>, s': Arq, i: nat, j: nat)
    requires Inv(c, s) && CallsOk(c, calls) && s' == Run(c, s, calls) && i < j < |s.order|
    ensures s.order[i] in s.entries && s.order[j] in s.entries
    ensures var a, b := s.entries[s.order[i]].id, s.entries[s.order[j]].id;
            Silent(s, s', a) && !Done(s', a) ==> Silent(s, s', b)
  {
    var x, y := s.order[i], s.order[j];
    assert EntryTraced(x, s.entries[x], s.accepted, s.log);
    assert Before(s.order, x, y);
    RunQueue(c, s, calls, s', x, s.entries[x], y, s.entries[y]);
  }

  /** One call takes at most one SN out of the order or appends one. */
  ghost predicate OrderMoves(order: seq<byte>, order': seq<byte>) {
    || order' == order
    || (exists z: byte :: TakenOut(order, order', z))
    || (|order'| == |order| + 1 && order'[..|order|] == order)
  }

  lemma AppendKeepsBefore(order: seq<byte>, order': seq<byte>, z: byte, x: byte)
    requires |order'| == |order| + 1 && order'[..|order|] == order && NoRepeats(order')
    requires Before(order', z, x) && x in order
    ensures Before(order, z, x)
  {
    var i, j :| 0 <= i < j < |order'| && order'[i] == z && order'[j] == x;
    var k :| 0 <= k < |order| && order[k] == x;
    assert order'[k] == order'[..|order|][k] == x;
    assert j == k;
    assert order[i] == order'[..|order|][i] == z;
  }

  lemma EraseKeepsBefore(order: seq<byte>, order': seq<byte>, w: byte, z: byte, x: byte)
    requires TakenOut(order, order', w) && Before(order', z, x)
    ensures Before(order, z, x)
  {
    var i, j :| 0 <= i < j < |order'| && order'[i] == z && order'[j] == x;
    var k :| 0 <= k < |order| && order[k] == w && order' == Erase(order, k);
    var i', j' := if i < k then i else i + 1, if j < k then j else j + 1;
    assert i' < j' && order[i'] == z && order[j'] == x;
  }

  lemma MovesKeepBefore(order: seq<byte>, order': seq<byte>, z: byte, x: byte)
    requires OrderMoves(order, order') && Before(order', z, x) && x in order && NoRepeats(order')
    ensures Before(order, z, x)
  {
    hide TakenOut, Before, NoRepeats;
    if w: byte :| TakenOut(order, order', w) {
      EraseKeepsBefore(order, order', w, z, x);
    } else if order' != order {
      AppendKeepsBefore(order, order', z, x);
    }
  }

  lemma StepOrder(c: Config, s: Arq, call: Call, s': Arq)
    requires Inv(c, s) && CallOk(c, call) && s' == Step(c, s, call)
    ensures OrderMoves(s.order, s'.order)
    ensures forall z :: z in s.order && z in s'.order ==>
              z in s.entries && z in s'.entries && s'.entries[z] == s.entries[z]
  {
    hide SlotsOk, EntriesOk, CountsOk, LogOk, TracedOk, Tick, Ack, Retransmit, Submit, SomeFree, FirstFrom, SlotFree,
      Seal, TakenOut;
    match call
    case NextSlot(slot) =>
      TickEffect(c, s, slot, s', Tick(c, s, slot).1);
      if c.acknowledged && slot == s.current + 1 && !SlotFree(c, s.entries, slot) {
        TickAppends(c, s, slot, s');
      }
    case Acknowledge(sn) =>
      AckEffect(c, s, sn, s', Ack(s, sn).1);
    case WriteRetransmission(room) =>
      var w := Retransmit(c, s, room).1;
      if w.Sent? {
        RetransmitSends(c, s, room, s', w);
      } else {
        RetransmitKeeps(c, s, room, s', w);
      }
      if s'.order != s.order {
        TailTakenOut(s.order);
      }
    case WritePdu(pdu) =>
      var r := Submit(c, s, pdu);
      SubmitEffect(c, s, pdu, s', r.1, r.2);
  }

  lemma TickAppends(c: Config, s: Arq, slot: nat, s': Arq)
    requires Inv(c, s) && c.acknowledged && s' == Tick(c, s, slot).0 && slot == s.current + 1
    requires !SlotFree(c, s.entries, slot)
    ensures |s'.order| == |s.order| + 1 && s'.order[..|s.order|] == s.order
  {
    hide OrderOk, SlotsOk, EntriesOk, CountsOk, LogOk, TracedOk, Tick;
    TickEffect(c, s, slot, s', Tick(c, s, slot).1);
    var sn :| DueAt(c, s.entries, slot, sn);
  }

  lemma TailTakenOut(order: seq<byte>)
    requires |order| > 0 && NoRepeats(order)
    ensures TakenOut(order, order[1..], order[0]) && order[0] !in order[1..]
  {
    assert Erase(order, 0) == order[1..];
  }

  /** Whatever stands before `x` was queued as it is now in state `s0` already. */
  ghost predicate NoneOvertook(s0: Arq, s: Arq, x: byte) {
    forall z :: Before(s.order, z, x) && z in s.entries ==> z in s0.entries && s0.entries[z] == s.entries[z]
  }

  lemma StepOvertakes(c: Config, s0: Arq, s: Arq, call: Call, s': Arq, x: byte)
    requires Inv(c, s) && CallOk(c, call) && s' == Step(c, s, call) && Inv(c, s') && NoneOvertook(s0, s, x)
    requires x in s.order
    ensures NoneOvertook(s0, s', x)
  {
    hide SlotsOk, EntriesOk, CountsOk, LogOk, TracedOk, Step, OrderMoves;
    StepOrder(c, s, call, s');
    forall z | Before(s'.order, z, x) && z in s'.entries ensures z in s0.entries && s0.entries[z] == s'.entries[z] {
      MovesKeepBefore(s.order, s'.order, z, x);
    }
  }

  lemma {:induction false} RunOvertakes(c: Config, s0: Arq, calls: seq<Call>, s: Arq, x: byte)
    requires Inv(c, s0) && CallsOk(c, calls) && s == Run(c, s0, calls) && x in s0.order && x in s0.entries
    requires s0.entries[x].Queued? && s0.entries[x].id < s0.accepted
    ensures |s0.log| <= |s.log| && s.log[..|s0.log|] == s0.log
    ensures Silent(s0, s, s0.entries[x].id) && !Done(s, s0.entries[x].id) ==>
              x in s.entries && s.entries[x] == s0.entries[x] && NoneOvertook(s0, s, x)
  {
    hide Inv, Step, Done, Silent, NoneOvertook;
    if |calls| == 0 {
      NoneYet(s0, x);
    } else {
      var n := |calls| - 1;
      var before := Run(c, s0, calls[..n]);
      var a := s0.entries[x];
      RunOvertakes(c, s0, calls[..n], before, x);
      RunExtends(c, before, calls[n], s);
      assert s.log[..|s0.log|] == before.log[..|s0.log|];
      if Silent(s0, s, a.id) && !Done(s, a.id) {
        SilentBefore(s0, before, s, a.id);
        if Done(before, a.id) {
          StepDone(c, before, calls[n], s, a.id);
        }
        StepFirst(c, before, calls[n], s, x, a);
        InOrder(c, before, x);
        StepOvertakes(c, s0, before, calls[n], s, x);
      }
    }
  }

  lemma NoneYet(s: Arq, x: byte)
    ensures NoneOvertook(s, s, x)
  {}

  lemma InOrder(c: Config, s: Arq, x: byte)
    requires Inv(c, s) && x in s.entries && s.entries[x].Queued?
    ensures x in s.order
  {}

  /** A PDU queued later stands behind: whatever joins the retransmission list after `x`, while the PDU of
      `x` stays queued, comes after it. */
  lemma QueuedLater(c: Config, s0: Arq, calls: seq<Call>, s: Arq, x: byte, y: byte)
    requires Inv(c, s0) && CallsOk(c, calls) && s == Run(c, s0, calls) && x in s0.order && y in s.order
    requires x in s0.entries && Silent(s0, s, s0.entries[x].id) && !Done(s, s0.entries[x].id)
    requires !(y in s0.entries && y in s.entries && s0.entries[y] == s.entries[y])
    ensures Before(s.order, x, y)
  {
    hide SlotsOk, EntriesOk, CountsOk, LogOk, Run;
    assert EntryTraced(x, s0.entries[x], s0.accepted, s0.log);
    RunOvertakes(c, s0, calls, s, x);
    var i :| 0 <= i < |s.order| && s.order[i] == x;
    var j :| 0 <= j < |s.order| && s.order[j] == y;
    assert j < i ==> Before(s.order, y, x);
  }
}
