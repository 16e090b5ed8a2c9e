/** What one call on the acknowledged-mode sender does to the table: when it succeeds, what it
    changes, and that nothing else changes. */
module LlcCalls {
  import opened Arith
  import opened Bytes
  import opened LlcFrame
  import opened LlcArq

  // ---- free ring positions ----

  /** No PDU waits at some ring position. */
  ghost predicate SomeFree(c: Config, entries: map<byte, Entry>)
    requires c.txSize > 0
  {
    exists x: nat :: x < c.txSize && SlotFree(c, entries, x)
  }

  /** `slot` is the first free one from slot number `first` on. */
  ghost predicate FirstFrom(c: Config, entries: map<byte, Entry>, first: nat, slot: nat)
    requires c.txSize > 0
  {
    && first <= slot < first + c.txSize && SlotFree(c, entries, slot)
    && forall y :: first <= y < slot ==> !SlotFree(c, entries, y)
  }

  lemma SamePosition(c: Config, entries: map<byte, Entry>, x: nat, y: nat)
    requires c.txSize > 0 && Position(c, x) == Position(c, y)
    ensures SlotFree(c, entries, x) <==> SlotFree(c, entries, y)
  {}

  /** A PDU finds a slot exactly when some ring position is free, whatever its recheck distance. */
  lemma PlaceIff(c: Config, s: Arq, retry: nat)
    requires ValidConfig(c)
    ensures Place(c, s, retry).Some? <==> SomeFree(c, s.entries)
    ensures Place(c, s, retry).Some? ==>
              FirstFrom(c, s.entries, s.current + Recheck(c, retry), Place(c, s, retry).value)
  {
    hide SlotFree, Recheck;
    var first := s.current + Recheck(c, retry);
    var place := Place(c, s, retry);
    if place.Some? {
      var x := place.value % c.txSize;
      DivModUnique(x, c.txSize, 0, x);
      SamePosition(c, s.entries, place.value, x);
    } else if SomeFree(c, s.entries) {
      var x: nat :| x < c.txSize && SlotFree(c, s.entries, x);
      DivModUnique(x, c.txSize, 0, x);
      var y := ResidueOccurs(c.txSize, first, x);
      SamePosition(c, s.entries, x, y);
    }
  }

  // ---- acknowledge ----

  /** `rest` is `order` with one occurrence of `sn` taken out and the others left in their order. */
  ghost predicate TakenOut(order: seq<byte>, rest: seq<byte>, sn: byte) {
    exists i :: 0 <= i < |order| && order[i] == sn && rest == Erase(order, i)
  }

  lemma EraseFront(order: seq<byte>)
    requires 0 < |order|
    ensures Erase(order, 0) == order[1..]
  {}

  lemma EraseLater(order: seq<byte>, i: nat)
    requires i + 1 < |order|
    ensures order[i + 1] == order[1..][i] && Erase(order, i + 1) == [order[0]] + Erase(order[1..], i)
  {}

  lemma {:induction false} WithoutTakesOut(order: seq<byte>, sn: byte)
    requires sn in order
    ensures TakenOut(order, Without(order, sn), sn)
  {
    hide Erase;
    if order[0] == sn {
      EraseFront(order);
    } else {
      WithoutTakesOut(order[1..], sn);
      var i :| 0 <= i < |order| - 1 && order[1..][i] == sn && Without(order[1..], sn) == Erase(order[1..], i);
      EraseLater(order, i);
    }
  }

  lemma OrderWithout(entries: map<byte, Entry>, order: seq<byte>, sn: byte)
    requires OrderOk(entries, order) && sn in entries
    ensures var rest := if entries[sn].Queued? then Without(order, sn) else order;
            sn !in rest && if sn in order then TakenOut(order, rest, sn) else rest == order
  {
    if entries[sn].Queued? {
      WithoutOrder(order, sn);
      WithoutTakesOut(order, sn);
    }
  }

  /** An acknowledgement succeeds for every SN in use, whether its PDU waits for its slot or is queued for
      retransmission, and frees exactly that SN; any other is spurious and only reported. */
  lemma AckEffect(c: Config, s: Arq, sn: byte, s': Arq, ok: bool)
    requires Inv(c, s) && (s', ok) == Ack(s, sn)
    ensures ok <==> sn in s.entries
    ensures !ok ==> s' == s.(status := s.status + {SpuriousAckSn})
    ensures ok ==> s' == s.(entries := s'.entries, order := s'.order, status := s.status - {SpuriousAckSn},
                            acked := s.acked + 1)
    ensures ok ==> sn !in s'.entries && sn !in s'.order
    ensures forall a :: a in s.entries && a != sn ==> a in s'.entries && s'.entries[a] == s.entries[a]
    ensures forall a :: a in s'.entries ==> a in s.entries
    ensures ok ==> if sn in s.order then TakenOut(s.order, s'.order, sn) else s'.order == s.order
  {
    hide OrderOk, SlotsOk, EntriesOk, CountsOk, LogOk, TracedOk, TakenOut, Without;
    if sn in s.entries {
      OrderWithout(s.entries, s.order, sn);
    }
  }

  // ---- update_current_slot_number ----

  /** A slot update moves the one PDU that is due, if any, to the end of the retransmission order. */
  lemma TickEffect(c: Config, s: Arq, slot: nat, s': Arq, ok: bool)
    requires Inv(c, s) && (s', ok) == Tick(c, s, slot)
    ensures ok <==> !c.acknowledged || slot == s.current + 1
    ensures !ok ==> s' == s.(status := s.status + {SlotSkipped})
    ensures !c.acknowledged ==> s' == s
    ensures ok && c.acknowledged ==>
              && s' == s.(current := slot, entries := s'.entries, order := s'.order, status := s'.status)
              && s'.status == s.status - {DataPduAllocated} - (if s'.order == s.order then {} else {SpuriousAckSn})
              && s'.entries.Keys == s.entries.Keys
              && (forall sn :: DueAt(c, s.entries, slot, sn) ==>
                    s'.entries[sn] == Queued(s.entries[sn].id, s.entries[sn].retry, s.entries[sn].pdu))
              && (forall sn :: sn in s.entries && !DueAt(c, s.entries, slot, sn) ==> s'.entries[sn] == s.entries[sn])
              && (SlotFree(c, s.entries, slot) ==> s'.order == s.order)
              && (forall sn :: DueAt(c, s.entries, slot, sn) ==> s'.order == s.order + [sn])
  {
    hide OrderOk, EntriesOk, CountsOk, LogOk, TracedOk;
    if c.acknowledged && slot == s.current + 1 {
      if exists sn :: DueAt(c, s.entries, slot, sn) {
        var sn :| DueAt(c, s.entries, slot, sn);
        OneDue(c, s, slot, sn);
        assert |s'.order| == |s.order| + 1;
        assert forall a :: DueAt(c, s.entries, slot, a) ==> a == sn;
      } else {
        NothingDue(c, s.entries, slot);
      }
    }
  }

  // ---- write_retransmission_pdu ----

  /** The front PDU of the retransmission order may go out: nothing else has in this slot, and it fits. */
  ghost predicate FrontFits(c: Config, s: Arq, room: nat) {
    && DataPduAllocated !in s.status && c.acknowledged
    && |s.order| > 0 && s.order[0] in s.entries && |s.entries[s.order[0]].pdu| <= room
  }

  /** A retransmission sends the PDU at the front of the order exactly when it fits, has retries left and
      finds a slot. */
  lemma RetransmitSends(c: Config, s: Arq, room: nat, s': Arq, w: Written)
    requires Inv(c, s) && (s', w) == Retransmit(c, s, room)
    ensures w.Sent? <==> FrontFits(c, s, room) && s.entries[s.order[0]].retry < c.maxRetx && SomeFree(c, s.entries)
    ensures w.Sent? ==>
              var sn := s.order[0];
              var e, e' := s.entries[sn], s'.entries[sn];
              && w == Sent(e.pdu) && e'.Waiting? && e' == Waiting(e.id, e'.slot, e.retry + 1, e.pdu)
              && FirstFrom(c, s.entries, s.current + Recheck(c, e.retry + 1), e'.slot)
              && s' == s.(entries := s.entries[sn := e'], order := s.order[1..], status := s'.status, log := s'.log)
              && s'.log == s.log + [Emission(e.id, sn, e.retry + 1, e.pdu, Recheck(c, e.retry + 1), s.current)]
              && DataPduAllocated in s'.status
  {
    hide SlotsOk, CountsOk, LogOk, TracedOk, Place, SomeFree, FirstFrom, SlotFree, Recheck;
    if FrontFits(c, s, room) {
      var e := s.entries[s.order[0]];
      assert EntryOk(c, s.order[0], e);
      PlaceIff(c, s, e.retry + 1);
      RetransmitFits(c, s, e, Place(c, s, e.retry + 1), room);
    }
  }

  /** It gives that PDU up exactly when it fits and has no retries left; otherwise the table is unchanged, though
      a PDU that only lacks a slot has been copied to the target. */
  lemma RetransmitKeeps(c: Config, s: Arq, room: nat, s': Arq, w: Written)
    requires Inv(c, s) && (s', w) == Retransmit(c, s, room) && !w.Sent?
    ensures var lost := FrontFits(c, s, room) && s.entries[s.order[0]].retry == c.maxRetx;
            && s' == s.(entries := if lost then s.entries - {s.order[0]} else s.entries,
                        order := if lost then s.order[1..] else s.order,
                        lost := if lost then s.lost + 1 else s.lost, status := s'.status)
            && (DataPduAllocated in s'.status <==> DataPduAllocated in s.status)
            && (lost ==> SnLost in s'.status && w == Nothing)
            && (FrontFits(c, s, room) && !lost ==> NoTxSlot in s'.status && w == Copied(s.entries[s.order[0]].pdu))
            && (!FrontFits(c, s, room) ==> w == Nothing)
            && (!FrontFits(c, s, room) && s'.status != s.status ==> s'.status == s.status + {WriteBufferTooSmall})
  {
    hide SlotsOk, CountsOk, LogOk, TracedOk, Place, Recheck, SendAgain;
    if FrontFits(c, s, room) {
      var e := s.entries[s.order[0]];
      assert EntryOk(c, s.order[0], e);
      RetransmitFits(c, s, e, Place(c, s, e.retry + 1), room);
    }
  }

  // ---- write_llc_pdu ----

  /** A PDU that is numbered, kept and retransmitted until it is acknowledged. */
  predicate IsData(c: Config, p: seq<byte>)
    requires 3 <= |p|
  {
    c.acknowledged && !IsAck(p)
  }

  /** What a PDU needs to go out: no data PDU has gone out in this slot and its SIZE lies within the buffer; a
      data PDU also needs the next SN to be free, and a ring position. */
  ghost predicate GoesOut(c: Config, s: Arq, p: seq<byte>)
    requires ValidConfig(c) && 3 <= |p|
  {
    && DataPduAllocated !in s.status && GetSize(p) <= |p|
    && (IsData(c, p) ==> s.sn !in s.entries && SomeFree(c, s.entries))
  }

  /** A PDU that goes out is sealed under the current SN, its SIZE is reported and the counter steps to the
      next SN; a data PDU is also entered under that SN. Any other leaves counter, table and log alone. */
  lemma SubmitEffect(c: Config, s: Arq, p: seq<byte>, s': Arq, q: seq<byte>, size: nat)
    requires Inv(c, s) && HeaderSize(c.crc) <= |p| && (s', q, size) == Submit(c, s, p)
    ensures GoesOut(c, s, p) ==> q == Seal(c.crc, s.sn, p) && size == GetSize(p) && s'.sn == (s.sn + 1) % 0x100
    ensures GoesOut(c, s, p) && !IsData(c, p) ==> s' == s.(sn := s'.sn, status := s.status - {InvalidLlcPdu})
    ensures GoesOut(c, s, p) && IsData(c, p) ==>
              && s.sn in s'.entries && s'.entries[s.sn].Waiting?
              && FirstFrom(c, s.entries, s.current + c.minRecheck, s'.entries[s.sn].slot)
              && s'.entries == s.entries[s.sn := Waiting(s.accepted, s'.entries[s.sn].slot, 0, q)]
              && s'.log == s.log + [Emission(s.accepted, s.sn, 0, q, c.minRecheck, s.current)]
              && s' == s.(entries := s'.entries, sn := s'.sn, accepted := s.accepted + 1, log := s'.log,
                          status := s.status - {NoFreeSn, InvalidLlcPdu, NoTxSlot} + {DataPduAllocated})
    ensures !GoesOut(c, s, p) ==> size == 0 && s' == s.(status := s'.status)
    ensures !GoesOut(c, s, p) ==> (DataPduAllocated in s'.status <==> DataPduAllocated in s.status)
  {
    hide OrderOk, SlotsOk, EntriesOk, CountsOk, LogOk, TracedOk, Place, SomeFree, Seal, FirstFrom;
    PlaceIff(c, s, 0);
    RecheckBounds(c, 0, 0);
  }

  /** Why a PDU does not go out: the first reason that applies is reported, and only a PDU that merely lacks
      a slot has been sealed in its buffer. */
  lemma SubmitRefused(c: Config, s: Arq, p: seq<byte>, s': Arq, q: seq<byte>, size: nat)
    requires Inv(c, s) && HeaderSize(c.crc) <= |p| && (s', q, size) == Submit(c, s, p) && !GoesOut(c, s, p)
    ensures if DataPduAllocated in s.status then s'.status == s.status && q == p
            else if IsData(c, p) && s.sn in s.entries then s'.status == s.status + {NoFreeSn} && q == p
            else if GetSize(p) > |p| then
              && q == p
              && s'.status == s.status - (if IsData(c, p) then {NoFreeSn} else {}) + {InvalidLlcPdu}
            else q == Seal(c.crc, s.sn, p) && s'.status == s.status - {NoFreeSn, InvalidLlcPdu} + {NoTxSlot}
  {
    hide OrderOk, SlotsOk, EntriesOk, CountsOk, LogOk, TracedOk, Place, SomeFree, Seal, FirstFrom;
    PlaceIff(c, s, 0);
  }
}
