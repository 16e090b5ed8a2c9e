/** Whole runs of the acknowledged-mode sender, from reset, under any calls. */
module LlcRuns {
  import opened Arith
  import opened Bytes
  import opened LlcFrame
  import opened LlcArq

  datatype Call =
    | NextSlot(slot: nat)
    | Acknowledge(sn: byte)
    | WriteRetransmission(room: nat)
    | WritePdu(pdu: seq<byte>)

  /** The buffer of a PDU has room for its header. */
  predicate CallOk(c: Config, call: Call) {
    call.WritePdu? ==> HeaderSize(c.crc) <= |call.pdu|
  }

  predicate CallsOk(c: Config, calls: seq<Call>) {
    forall i :: 0 <= i < |calls| ==> CallOk(c, calls[i])
  }

  ghost function Step(c: Config, s: Arq, call: Call): Arq
    requires Inv(c, s) && CallOk(c, call)
  {
    match call
    case NextSlot(slot) => Tick(c, s, slot).0
    case Acknowledge(sn) => Ack(s, sn).0
    case WriteRetransmission(room) => Retransmit(c, s, room).0
    case WritePdu(pdu) => Submit(c, s, pdu).0
  }

  lemma StepInv(c: Config, s: Arq, call: Call, s': Arq)
    requires Inv(c, s) && CallOk(c, call) && s' == Step(c, s, call)
    ensures Inv(c, s')
  {
    match call
    case NextSlot(slot) => TickInv(c, s, slot, s');
    case Acknowledge(sn) => AckInv(c, s, sn, s');
    case WriteRetransmission(room) => RetransmitInv(c, s, room, s');
    case WritePdu(pdu) => SubmitInv(c, s, pdu, s');
  }

  /** The state after the calls, which keeps the invariant throughout. */
  ghost function Run(c: Config, s: Arq, calls: seq<Call>): (s': Arq)
    requires Inv(c, s) && CallsOk(c, calls)
    ensures Inv(c, s')
  {
    if |calls| == 0 then s
    else
      var before := Run(c, s, calls[..|calls| - 1]);
      var after := Step(c, before, calls[|calls| - 1]);
      StepInv(c, before, calls[|calls| - 1], after);
      after
  }

  ghost function RunFromReset(c: Config, calls: seq<Call>): (s: Arq)
    requires ValidConfig(c) && CallsOk(c, calls)
    ensures Inv(c, s)
  {
    ResetInv(c);
    Run(c, RESET, calls)
  }

  // ---- conservation ----

  /** In every reachable state the bits that report an inconsistency are clear, accepted PDUs are
      acknowledged, lost or pending, and at most 256 are pending, each in exactly one place. */
  lemma Conservation(c: Config, calls: seq<Call>)
    requires ValidConfig(c) && CallsOk(c, calls)
    ensures var s := RunFromReset(c, calls);
            && ShouldNotHappen !in s.status && SpuriousAckTx !in s.status
            && s.accepted == s.acked + s.lost + |s.entries|
            && |s.entries| <= 0x100 && OrderOk(s.entries, s.order) && SlotsOk(c, s.entries, s.current)
  {
    var s := RunFromReset(c, calls);
    ByteSetSize(s.entries.Keys);
    assert |s.entries| == |s.entries.Keys|;
  }

  // ---- what goes out ----

  lemma {:induction false} EmittedPrefix(log: seq<Emission>, i: nat, j: nat, id: nat)
    requires i <= j <= |log|
    ensures Emitted(log[..i], id) <= Emitted(log[..j], id)
    ensures i < j && log[i].id == id ==> Emitted(log[..i], id) < Emitted(log[..j], id)
    decreases j
  {
    if i < j {
      assert log[..j][..j - 1] == log[..j - 1];
      EmittedPrefix(log, i, j - 1, id);
    }
  }

  /** The retry counts of the emissions of one PDU are 0, 1, 2 and so on. */
  lemma {:induction false} EmittedBound(c: Config, accepted: nat, log: seq<Emission>, id: nat)
    requires ValidConfig(c) && LogOk(c, accepted, log)
    ensures Emitted(log, id) <= c.maxRetx + 1
  {
    if |log| > 0 {
      var shorter := log[..|log| - 1];
      assert EmissionOk(c, accepted, log, |log| - 1);
      forall i | 0 <= i < |shorter| ensures EmissionOk(c, accepted, shorter, i) {
        assert EmissionOk(c, accepted, log, i);
        assert log[..i] == shorter[..i];
      }
      EmittedBound(c, accepted, shorter, id);
    }
  }

  /** Two emissions of one PDU, in the order they went out. */
  predicate Repeats(c: Config, a: Emission, b: Emission) {
    a.id == b.id ==>
      && a.sn == b.sn && a.pdu == b.pdu && a.retry < b.retry
      && c.minRecheck <= a.distance <= b.distance <= c.maxRecheck
  }

  lemma LaterEmission(c: Config, s: Arq, i: nat, j: nat)
    requires Inv(c, s) && i < j < |s.log|
    ensures Repeats(c, s.log[i], s.log[j])
  {
    var a, b := s.log[i], s.log[j];
    assert EmissionOk(c, s.accepted, s.log, i) && EmissionOk(c, s.accepted, s.log, j) && SamePdu(a, b);
    if a.id == b.id {
      EmittedPrefix(s.log, i, j, a.id);
      RecheckBounds(c, a.retry, b.retry);
    }
  }

  /** An emission passes the receiver's test and carries its SN. */
  predicate Sound(c: Config, e: Emission) {
    HeaderSize(c.crc) <= |e.pdu| && Accepts(c.crc, e.pdu) && Get(e.pdu, SN) == e.sn && !IsAck(e.pdu)
  }

  /** A call adds nothing to the log, or the sound emission `e`. */
  ghost predicate Logs(c: Config, s: Arq, s': Arq) {
    || (s'.log == s.log && s'.accepted == s.accepted)
    || (|s'.log| == |s.log| + 1 && s'.log[..|s.log|] == s.log && Sound(c, s'.log[|s.log|])
        && (s'.accepted == s.accepted || (s'.accepted == s.accepted + 1 && s'.log[|s.log|].id == s.accepted)))
  }

  lemma RetransmitLogs(c: Config, s: Arq, room: nat, s': Arq)
    requires Inv(c, s) && s' == Retransmit(c, s, room).0
    ensures Logs(c, s, s')
  {
    if Retransmits(c, s, room) {
      assert EntryOk(c, s.order[0], s.entries[s.order[0]]);
    }
  }

  lemma SubmitLogs(c: Config, s: Arq, pdu: seq<byte>, s': Arq)
    requires Inv(c, s) && HeaderSize(c.crc) <= |pdu| && s' == Submit(c, s, pdu).0
    ensures Logs(c, s, s')
  {
    if GetSize(pdu) <= |pdu| {
      SealedAccepted(c.crc, s.sn, pdu);
    }
  }

  lemma StepLogs(c: Config, s: Arq, call: Call, s': Arq)
    requires Inv(c, s) && CallOk(c, call) && s' == Step(c, s, call)
    ensures Logs(c, s, s')
  {
    match call
    case NextSlot(slot) =>
    case Acknowledge(sn) =>
    case WriteRetransmission(room) => RetransmitLogs(c, s, room, s');
    case WritePdu(pdu) => SubmitLogs(c, s, pdu, s');
  }

  ghost predicate AllSound(c: Config, log: seq<Emission>) {
    forall i :: 0 <= i < |log| ==> Sound(c, log[i])
  }

  lemma LogsSound(c: Config, s: Arq, s': Arq)
    requires Logs(c, s, s') && AllSound(c, s.log)
    ensures AllSound(c, s'.log)
  {
    forall i | 0 <= i < |s'.log| ensures Sound(c, s'.log[i]) {
      if i < |s.log| {
        assert s'.log[..|s.log|][i] == s'.log[i];
      }
    }
  }

  lemma {:induction false} RunSound(c: Config, s0: Arq, calls: seq<Call>, s: Arq)
    requires Inv(c, s0) && CallsOk(c, calls) && s == Run(c, s0, calls) && AllSound(c, s0.log)
    ensures AllSound(c, s.log)
  {
    if |calls| > 0 {
      var before := Run(c, s0, calls[..|calls| - 1]);
      RunSound(c, s0, calls[..|calls| - 1], before);
      StepLogs(c, before, calls[|calls| - 1], s);
      LogsSound(c, before, s);
    }
  }

  lemma {:induction false} LogsEmitted(c: Config, s: Arq, s': Arq, id: nat)
    requires Logs(c, s, s')
    ensures Emitted(s.log, id) <= Emitted(s'.log, id)
    ensures s.accepted <= id < s'.accepted ==> 1 <= Emitted(s'.log, id)
  {}

  lemma {:induction false} RunEmitted(c: Config, s0: Arq, calls: seq<Call>, s: Arq, id: nat)
    requires Inv(c, s0) && CallsOk(c, calls) && s == Run(c, s0, calls)
    ensures s0.accepted <= s.accepted && Emitted(s0.log, id) <= Emitted(s.log, id)
    ensures s0.accepted <= id < s.accepted ==> 1 <= Emitted(s.log, id)
  {
    if |calls| > 0 {
      var before := Run(c, s0, calls[..|calls| - 1]);
      RunEmitted(c, s0, calls[..|calls| - 1], before, id);
      StepLogs(c, before, calls[|calls| - 1], s);
      LogsEmitted(c, before, s, id);
    }
  }

  /** In every run each accepted PDU goes out at least once and at most 1 + max_retx_count times,
      always as the same sound octets under the same SN, at distances that never decrease. Its first SIZE
      octets, which is all the receiver is handed, are accepted by themselves. */
  lemma Emissions(c: Config, calls: seq<Call>, s: Arq)
    requires ValidConfig(c) && CallsOk(c, calls) && s == RunFromReset(c, calls)
    ensures forall id :: 0 <= id < s.accepted ==> 1 <= Emitted(s.log, id) <= 1 + c.maxRetx
    ensures forall i, j :: 0 <= i < j < |s.log| ==> Repeats(c, s.log[i], s.log[j])
    ensures forall i :: 0 <= i < |s.log| ==> s.log[i].id < s.accepted && Sound(c, s.log[i])
    ensures forall i :: 0 <= i < |s.log| ==> 3 <= |s.log[i].pdu| && FrontAccepted(c.crc, s.log[i].pdu)
  {
    ResetInv(c);
    RunSound(c, RESET, calls, s);
    forall id | 0 <= id < s.accepted ensures 1 <= Emitted(s.log, id) <= 1 + c.maxRetx {
      EmittedBound(c, s.accepted, s.log, id);
      RunEmitted(c, RESET, calls, s, id);
    }
    forall i, j | 0 <= i < j < |s.log| ensures Repeats(c, s.log[i], s.log[j]) {
      LaterEmission(c, s, i, j);
    }
    forall i | 0 <= i < |s.log|
      ensures s.log[i].id < s.accepted && 3 <= |s.log[i].pdu| && FrontAccepted(c.crc, s.log[i].pdu)
    {
      assert EmissionOk(c, s.accepted, s.log, i);
      assert Sound(c, s.log[i]);
      AcceptedFront(c.crc, s.log[i].pdu);
    }
  }

  /** What the two writing calls report of a PDU that goes out: the octets of its SIZE the first time, all
      of the buffer it came in later. Either way the receiver accepts the first SIZE octets of it. */
  lemma ReportedOctets(c: Config, s: Arq, call: Call)
    requires Inv(c, s) && CallOk(c, call) && |Step(c, s, call).log| > |s.log|
    ensures call.WritePdu? || call.WriteRetransmission?
    ensures var pdu := Step(c, s, call).log[|s.log|].pdu;
            && 3 <= |pdu| && FrontAccepted(c.crc, pdu)
            && (call.WritePdu? ==> Submit(c, s, call.pdu).1 == pdu && Submit(c, s, call.pdu).2 == GetSize(pdu))
            && (call.WriteRetransmission? ==> Retransmit(c, s, call.room).1 == LlcArq.Sent(pdu))
  {
    hide SlotsOk, CountsOk, LogOk, Seal;
    StepLogs(c, s, call, Step(c, s, call));
    AcceptedFront(c.crc, Step(c, s, call).log[|s.log|].pdu);
  }

  lemma OthersLoseNone(c: Config, s: Arq, call: Call)
    requires Inv(c, s) && CallOk(c, call) && !call.WriteRetransmission?
    ensures Step(c, s, call).lost == s.lost
  {
    hide SlotsOk, EntriesOk, CountsOk, LogOk, TracedOk;
  }

  /** A PDU is given up only after it has gone out 1 + max_retx_count times. */
  lemma LostAfterAllRetries(c: Config, s: Arq, call: Call)
    requires Inv(c, s) && CallOk(c, call) && Step(c, s, call).lost != s.lost
    ensures call.WriteRetransmission? && |s.order| > 0 && s.order[0] in s.entries
    ensures Step(c, s, call) == GiveUp(s) && Emitted(s.log, s.entries[s.order[0]].id) == 1 + c.maxRetx
  {
    hide Tick, Ack, Submit, SlotsOk, CountsOk, LogOk;
    if call.WriteRetransmission? {
      assert Retransmits(c, s, call.room);
      var sn := s.order[0];
      assert EntryOk(c, sn, s.entries[sn]) && EntryTraced(sn, s.entries[sn], s.accepted, s.log);
    } else {
      OthersLoseNone(c, s, call);
    }
  }

  // ---- when a PDU is checked ----

  /** The PDU of `e` is still waiting, as of the same emission. */
  ghost predicate StillWaiting(s: Arq, e: Entry, sn: byte) {
    sn in s.entries && s.entries[sn].Waiting? && s.entries[sn].id == e.id && s.entries[sn].retry == e.retry
  }

  /** No slot number after `from` up to the present one has the ring position of `e`. */
  ghost predicate NotVisited(c: Config, from: nat, s: Arq, e: Entry)
    requires c.txSize > 0 && e.Waiting?
  {
    forall x: nat :: from < x <= s.current ==> Position(c, x) != Position(c, e.slot)
  }

  lemma WaitingBefore(c: Config, s: Arq, call: Call, s': Arq, e: Entry, sn: byte)
    requires Inv(c, s) && CallOk(c, call) && s' == Step(c, s, call) && e.Waiting?
    requires e.id < s.accepted && e.retry + 1 <= Emitted(s.log, e.id) && StillWaiting(s', e, sn)
    ensures StillWaiting(s, e, sn) && s'.entries[sn] == s.entries[sn]
  {
    match call
    case NextSlot(slot) =>
    case Acknowledge(other) =>
    case WriteRetransmission(room) => WaitingBeforeRetransmit(c, s, room, s', e, sn);
    case WritePdu(pdu) => WaitingBeforeSubmit(c, s, pdu, s', e, sn);
  }

  lemma WaitingBeforeRetransmit(c: Config, s: Arq, room: nat, s': Arq, e: Entry, sn: byte)
    requires Inv(c, s) && s' == Retransmit(c, s, room).0 && e.Waiting?
    requires e.retry + 1 <= Emitted(s.log, e.id) && StillWaiting(s', e, sn)
    ensures StillWaiting(s, e, sn) && s'.entries[sn] == s.entries[sn]
  {
    assert EntryTraced(sn, s.entries[sn], s.accepted, s.log);
  }

  lemma WaitingBeforeSubmit(c: Config, s: Arq, pdu: seq<byte>, s': Arq, e: Entry, sn: byte)
    requires Inv(c, s) && HeaderSize(c.crc) <= |pdu| && s' == Submit(c, s, pdu).0 && e.Waiting?
    requires e.id < s.accepted && StillWaiting(s', e, sn)
    ensures StillWaiting(s, e, sn) && s'.entries[sn] == s.entries[sn]
  {}

  lemma StepVisits(c: Config, s: Arq, call: Call, s': Arq, e: Entry, sn: byte, from: nat)
    requires Inv(c, s) && CallOk(c, call) && s' == Step(c, s, call) && e.Waiting?
    requires sn in s.entries && s.entries[sn] == e && sn in s'.entries && s'.entries[sn] == e
    requires NotVisited(c, from, s, e)
    ensures NotVisited(c, from, s', e)
  {
    if s'.current != s.current {
      CurrentAdvances(c, s, call, s');
      MovedWhenDue(c, s, sn, s');
    }
    VisitedOneMore(c, from, s, s', e);
  }

  lemma VisitedOneMore(c: Config, from: nat, s: Arq, s': Arq, e: Entry)
    requires c.txSize > 0 && e.Waiting? && NotVisited(c, from, s, e)
    requires s'.current == s.current || (s'.current == s.current + 1 && Position(c, s'.current) != Position(c, e.slot))
    ensures NotVisited(c, from, s', e)
  {}

  lemma CurrentAdvances(c: Config, s: Arq, call: Call, s': Arq)
    requires Inv(c, s) && CallOk(c, call) && s' == Step(c, s, call) && s'.current != s.current
    ensures c.acknowledged && s'.current == s.current + 1 && s' == Tick(c, s, s.current + 1).0
  {
    hide Inv, Tick, Ack, Retransmit, Submit;
    match call
    case NextSlot(slot) => TickAdvances(c, s, slot);
    case Acknowledge(sn) => AckStays(s, sn);
    case WriteRetransmission(room) => RetransmitStays(c, s, room);
    case WritePdu(pdu) => SubmitStays(c, s, pdu);
  }

  lemma TickAdvances(c: Config, s: Arq, slot: nat)
    requires Inv(c, s) && Tick(c, s, slot).0.current != s.current
    ensures c.acknowledged && slot == s.current + 1 && Tick(c, s, slot).0.current == slot
  {}

  lemma AckStays(s: Arq, sn: byte)
    ensures Ack(s, sn).0.current == s.current
  {}

  lemma RetransmitStays(c: Config, s: Arq, room: nat)
    requires Inv(c, s)
    ensures Retransmit(c, s, room).0.current == s.current
  {}

  lemma SubmitStays(c: Config, s: Arq, pdu: seq<byte>)
    requires Inv(c, s) && HeaderSize(c.crc) <= |pdu|
    ensures Submit(c, s, pdu).0.current == s.current
  {}

  lemma MovedWhenDue(c: Config, s: Arq, sn: byte, s': Arq)
    requires Inv(c, s) && c.acknowledged && s' == Tick(c, s, s.current + 1).0
    requires sn in s.entries && s.entries[sn].Waiting?
    ensures sn in s'.entries
    ensures Position(c, s.entries[sn].slot) == Position(c, s.current + 1) ==> s'.entries[sn].Queued?
  {
    if Position(c, s.entries[sn].slot) == Position(c, s.current + 1) {
      OneDue(c, s, s.current + 1, sn);
    }
  }

  lemma {:induction false} RunVisits(c: Config, s0: Arq, calls: seq<Call>, s: Arq, sn0: byte, e: Entry, sn: byte)
    requires Inv(c, s0) && CallsOk(c, calls) && s == Run(c, s0, calls)
    requires sn0 in s0.entries && s0.entries[sn0] == e && e.Waiting?
    ensures e.id < s.accepted && e.retry + 1 <= Emitted(s.log, e.id)
    ensures StillWaiting(s, e, sn) ==> s.entries[sn] == e && NotVisited(c, s0.current, s, e)
  {
    assert EntryTraced(sn0, e, s0.accepted, s0.log);
    if |calls| == 0 {
      assert StillWaiting(s, e, sn) ==> sn == sn0;
    } else {
      var before := Run(c, s0, calls[..|calls| - 1]);
      RunVisits(c, s0, calls[..|calls| - 1], before, sn0, e, sn);
      StepLogs(c, before, calls[|calls| - 1], s);
      LogsEmitted(c, before, s, e.id);
      if StillWaiting(s, e, sn) {
        WaitingBefore(c, before, calls[|calls| - 1], s, e, sn);
        StepVisits(c, before, calls[|calls| - 1], s, e, sn, s0.current);
      }
    }
  }

  /** Once the slot recorded for a PDU is reached, or tx_size slots have gone by, the PDU has been
      acknowledged or has reached the retransmission list. */
  lemma CheckedInTime(c: Config, s0: Arq, calls: seq<Call>, s: Arq, sn0: byte)
    requires Inv(c, s0) && CallsOk(c, calls) && s == Run(c, s0, calls)
    requires sn0 in s0.entries && s0.entries[sn0].Waiting?
    requires s.current >= s0.entries[sn0].slot || s.current >= s0.current + c.txSize
    ensures forall sn: byte :: !StillWaiting(s, s0.entries[sn0], sn)
  {
    forall sn: byte ensures !StillWaiting(s, s0.entries[sn0], sn) {
      RunVisits(c, s0, calls, s, sn0, s0.entries[sn0], sn);
      if StillWaiting(s, s0.entries[sn0], sn) {
        AllPassed(c, s0.current, s, s0.entries[sn0]);
      }
    }
  }

  lemma AllPassed(c: Config, from: nat, s: Arq, e: Entry)
    requires c.txSize > 0 && e.Waiting? && NotVisited(c, from, s, e)
    ensures s.current < from + c.txSize
  {
    var x := ResidueOccurs(c.txSize, from + 1, Position(c, e.slot));
    assert Position(c, x) == Position(c, e.slot);
  }
}
