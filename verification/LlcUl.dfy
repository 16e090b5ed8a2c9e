/** The LLC sender object: a ring of transmission slots, a ring of SN entries and a
    retransmission list that point into one another, refining the table of LlcArq. */
module LlcUl {
  import opened Arith
  import opened Bytes
  import opened LlcFrame
  import opened LlcArq
  import opened LlcCalls

  datatype TxElem = TxElem(acknowledged: bool, sn: byte, retryCount: nat, pdu: seq<byte>)

  datatype SnElem = SnElem(checkTxSlotNumber: Option<nat>)

  datatype RetxElem = RetxElem(retryCount: nat, sn: byte, pdu: seq<byte>)

  const FREE_SLOT: TxElem := TxElem(true, 0, 0, [])

  function Busy(ring: seq<TxElem>): (n: nat)
    ensures n <= |ring|
  {
    if |ring| == 0 then 0 else Busy(ring[..|ring| - 1]) + if ring[|ring| - 1].acknowledged then 0 else 1
  }

  lemma {:induction false} BusyUpdate(ring: seq<TxElem>, i: nat, e: TxElem)
    requires i < |ring|
    ensures Busy(ring[i := e]) ==
            Busy(ring) - (if ring[i].acknowledged then 0 else 1) + (if e.acknowledged then 0 else 1)
  {
    var n := |ring| - 1;
    if i == n {
      assert ring[i := e][..n] == ring[..n];
    } else {
      assert ring[i := e][..n] == ring[..n][i := e];
      BusyUpdate(ring[..n], i, e);
    }
  }

  /** The ring positions whose slot is acknowledged, which are those not counted as busy. */
  function Acknowledged(ring: seq<TxElem>): set<nat> {
    set i: nat | i < |ring| && ring[i].acknowledged
  }

  lemma {:induction false} BusyCounts(ring: seq<TxElem>)
    ensures Busy(ring) == |ring| - |Acknowledged(ring)|
  {
    if |ring| == 0 {
      assert Acknowledged(ring) == {};
    } else {
      var n := |ring| - 1;
      BusyCounts(ring[..n]);
      var before := Acknowledged(ring[..n]);
      assert Acknowledged(ring) == if ring[n].acknowledged then before + {n} else before;
    }
  }

  lemma {:induction false} BusyAll(ring: seq<TxElem>)
    ensures Busy(ring) == |ring| <==> forall i :: 0 <= i < |ring| ==> !ring[i].acknowledged
    ensures (forall i :: 0 <= i < |ring| ==> ring[i].acknowledged) ==> Busy(ring) == 0
  {
    if |ring| != 0 {
      BusyAll(ring[..|ring| - 1]);
      assert forall i :: 0 <= i < |ring| - 1 ==> ring[..|ring| - 1][i] == ring[i];
    }
  }

  // ---- how the three structures represent the table ----

  /** An SN entry exists exactly for the SNs of the table, and knows the slot of a waiting PDU. */
  ghost predicate SnRingOk(entries: map<byte, Entry>, snRing: seq<Option<SnElem>>) {
    && |snRing| == 0x100
    && forall sn: byte :: SnSlotOk(entries, snRing, sn)
  }

  ghost predicate SnSlotOk(entries: map<byte, Entry>, snRing: seq<Option<SnElem>>, sn: byte)
    requires |snRing| == 0x100
  {
    snRing[sn] == if sn !in entries then None
                  else if entries[sn].Waiting? then Some(SnElem(Some(entries[sn].slot)))
                  else Some(SnElem(None))
  }

  /** Each waiting PDU sits at its slot's ring position. */
  ghost predicate WaitingStored(c: Config, entries: map<byte, Entry>, txRing: seq<TxElem>)
    requires |txRing| == c.txSize > 0
  {
    forall sn :: sn in entries && entries[sn].Waiting? ==>
      txRing[Position(c, entries[sn].slot)] == TxElem(false, sn, entries[sn].retry, entries[sn].pdu)
  }

  /** Each unacknowledged ring position is a waiting PDU's. */
  ghost predicate BusyIsWaiting(c: Config, entries: map<byte, Entry>, txRing: seq<TxElem>)
    requires |txRing| == c.txSize > 0
  {
    forall i :: 0 <= i < |txRing| && !txRing[i].acknowledged ==>
      var sn := txRing[i].sn; sn in entries && entries[sn].Waiting? && Position(c, entries[sn].slot) == i
  }

  ghost predicate TxRingOk(c: Config, entries: map<byte, Entry>, txRing: seq<TxElem>) {
    |txRing| == c.txSize > 0 && WaitingStored(c, entries, txRing) && BusyIsWaiting(c, entries, txRing)
  }

  /** The retransmission list is the table's order, with the stored PDUs. */
  ghost predicate RetxOk(entries: map<byte, Entry>, order: seq<byte>, retx: seq<RetxElem>) {
    && |retx| == |order|
    && forall i :: 0 <= i < |order| ==>
         && order[i] in entries && entries[order[i]].Queued?
         && retx[i] == RetxElem(entries[order[i]].retry, order[i], entries[order[i]].pdu)
  }

  /** The linked structures and the two redundant counters. */
  datatype Store = Store(txRing: seq<TxElem>, snRing: seq<Option<SnElem>>, retx: seq<RetxElem>, used: int, pending: int)

  /** They represent the table, and the counters count what they hold. */
  ghost predicate StoreOk(c: Config, entries: map<byte, Entry>, order: seq<byte>, st: Store) {
    && SnRingOk(entries, st.snRing)
    && TxRingOk(c, entries, st.txRing)
    && RetxOk(entries, order, st.retx)
    && st.used == Busy(st.txRing)
    && st.pending == st.used + |st.retx| == |entries|
  }

  function EmptyStore(c: Config): Store {
    Store(seq(c.txSize, i => FREE_SLOT), seq(0x100, i => None), [], 0, 0)
  }

  lemma EmptyStoreOk(c: Config)
    requires c.txSize > 0
    ensures StoreOk(c, map[], [], EmptyStore(c))
  {
    BusyAll(EmptyStore(c).txRing);
  }

  /** The counter of pending PDUs is the number of occupied SN entries. */
  lemma PendingIsOccupied(c: Config, entries: map<byte, Entry>, order: seq<byte>, st: Store)
    requires StoreOk(c, entries, order, st)
    ensures st.pending == st.used + |st.retx| == |set sn: byte | st.snRing[sn].Some?| <= 0x100
  {
    var occupied := set sn: byte | st.snRing[sn].Some?;
    forall sn: byte ensures sn in occupied <==> sn in entries.Keys {
      assert SnSlotOk(entries, st.snRing, sn);
    }
    assert occupied == entries.Keys;
    ByteSetSize(entries.Keys);
  }

  lemma FreeIff(c: Config, entries: map<byte, Entry>, txRing: seq<TxElem>, x: nat)
    requires TxRingOk(c, entries, txRing)
    ensures txRing[Position(c, x)].acknowledged <==> SlotFree(c, entries, x)
  {}

  lemma SmallPosition(c: Config, i: nat)
    requires i < c.txSize
    ensures Position(c, i) == i
  {
    DivModUnique(i, c.txSize, 0, i);
  }

  /** The ring positions at which no waiting PDU is checked. */
  ghost function FreePositions(c: Config, entries: map<byte, Entry>): set<nat>
    requires c.txSize > 0
  {
    set i: nat | i < c.txSize && SlotFree(c, entries, i)
  }

  lemma FreeSlotCount(c: Config, entries: map<byte, Entry>, txRing: seq<TxElem>)
    requires TxRingOk(c, entries, txRing)
    ensures |txRing| - Busy(txRing) == |FreePositions(c, entries)|
  {
    forall i: nat | i < c.txSize ensures txRing[i].acknowledged <==> SlotFree(c, entries, i) {
      SmallPosition(c, i);
      FreeIff(c, entries, txRing, i);
    }
    assert Acknowledged(txRing) == FreePositions(c, entries);
    BusyCounts(txRing);
  }

  // ---- the transitions of the store ----

  /** The SN ring follows a change of one entry. */
  lemma SnRingUpdate(entries: map<byte, Entry>, entries': map<byte, Entry>, snRing: seq<Option<SnElem>>, sn: byte,
                     elem: Option<SnElem>)
    requires SnRingOk(entries, snRing)
    requires forall a: byte :: a != sn ==>
               (a in entries' <==> a in entries) && (a in entries ==> entries'[a] == entries[a])
    requires SnSlotOk(entries', snRing[sn := elem], sn)
    ensures SnRingOk(entries', snRing[sn := elem])
  {
    var snRing' := snRing[sn := elem];
    forall a: byte ensures SnSlotOk(entries', snRing', a) {
      assert SnSlotOk(entries, snRing, a);
    }
  }

  /** Acknowledging the ring slot of `sn` leaves the ring in step with the other entries. */
  lemma TxRingFree(c: Config, entries: map<byte, Entry>, txRing: seq<TxElem>, sn: byte)
    requires TxRingOk(c, entries, txRing) && sn in entries && entries[sn].Waiting?
    ensures var i := Position(c, entries[sn].slot);
            var txRing' := txRing[i := txRing[i].(acknowledged := true)];
            && TxRingOk(c, entries - {sn}, txRing')
            && (forall e: Entry :: e.Queued? ==> TxRingOk(c, entries[sn := e], txRing'))
            && Busy(txRing') == Busy(txRing) - 1
  {
    var i := Position(c, entries[sn].slot);
    BusyUpdate(txRing, i, txRing[i].(acknowledged := true));
  }

  /** Filling a free ring slot for `sn`. */
  lemma TxRingFill(c: Config, entries: map<byte, Entry>, txRing: seq<TxElem>, sn: byte, e: Entry)
    requires TxRingOk(c, entries, txRing) && !(sn in entries && entries[sn].Waiting?)
    requires e.Waiting? && txRing[Position(c, e.slot)].acknowledged
    ensures var i := Position(c, e.slot);
            var txRing' := txRing[i := TxElem(false, sn, e.retry, e.pdu)];
            && TxRingOk(c, entries[sn := e], txRing')
            && Busy(txRing') == Busy(txRing) + 1
  {
    var i := Position(c, e.slot);
    BusyUpdate(txRing, i, TxElem(false, sn, e.retry, e.pdu));
  }

  lemma StoreMoveDue(c: Config, entries: map<byte, Entry>, order: seq<byte>, st: Store, sn: byte, st': Store)
    requires StoreOk(c, entries, order, st) && sn in entries && entries[sn].Waiting?
    requires var i := Position(c, entries[sn].slot);
             st' == Store(st.txRing[i := st.txRing[i].(acknowledged := true)], st.snRing[sn := Some(SnElem(None))],
                          st.retx + [RetxElem(entries[sn].retry, sn, entries[sn].pdu)], st.used - 1, st.pending)
    ensures StoreOk(c, entries[sn := Queued(entries[sn].id, entries[sn].retry, entries[sn].pdu)], order + [sn], st')
  {
    var e := Queued(entries[sn].id, entries[sn].retry, entries[sn].pdu);
    TxRingFree(c, entries, st.txRing, sn);
    SnRingUpdate(entries, entries[sn := e], st.snRing, sn, Some(SnElem(None)));
    assert entries[sn := e].Keys == entries.Keys;
    CardinalityOfKeys(entries, entries[sn := e]);
    assert forall i :: 0 <= i < |order| ==> order[i] != sn;
  }

  lemma RemovedCount(entries: map<byte, Entry>, sn: byte)
    requires sn in entries
    ensures |entries - {sn}| == |entries| - 1
  {
    assert (entries - {sn}).Keys == entries.Keys - {sn};
    assert |entries - {sn}| == |(entries - {sn}).Keys|;
  }

  lemma StoreAckWaiting(c: Config, entries: map<byte, Entry>, order: seq<byte>, st: Store, sn: byte, st': Store)
    requires StoreOk(c, entries, order, st) && sn in entries && entries[sn].Waiting?
    requires var i := Position(c, entries[sn].slot);
             st' == Store(st.txRing[i := st.txRing[i].(acknowledged := true)], st.snRing[sn := None],
                          st.retx, st.used - 1, st.pending - 1)
    ensures StoreOk(c, entries - {sn}, order, st')
  {
    TxRingFree(c, entries, st.txRing, sn);
    SnRingUpdate(entries, entries - {sn}, st.snRing, sn, None);
    RemovedCount(entries, sn);
    assert forall i :: 0 <= i < |order| ==> order[i] != sn;
  }

  lemma {:induction false} WithoutIsErase(order: seq<byte>, i: nat)
    requires i < |order| && forall j :: 0 <= j < i ==> order[j] != order[i]
    ensures Without(order, order[i]) == Erase(order, i)
  {
    if i > 0 {
      assert order[1..][i - 1] == order[i];
      assert forall j :: 0 <= j < i - 1 ==> order[1..][j] == order[j + 1];
      WithoutIsErase(order[1..], i - 1);
    }
  }

  /** Removing the queued PDU at list position `i`, on its acknowledgement or when it is lost. */
  lemma StoreDropQueued(c: Config, entries: map<byte, Entry>, order: seq<byte>, st: Store, i: nat, st': Store)
    requires StoreOk(c, entries, order, st) && OrderOk(entries, order) && i < |order|
    requires st' == Store(st.txRing, st.snRing[order[i] := None], Erase(st.retx, i), st.used, st.pending - 1)
    ensures StoreOk(c, entries - {order[i]}, Erase(order, i), st')
  {
    var sn := order[i];
    SnRingUpdate(entries, entries - {sn}, st.snRing, sn, None);
    RemovedCount(entries, sn);
    var order' := Erase(order, i);
    forall j | 0 <= j < |order'|
      ensures order'[j] != sn && order'[j] == order[if j < i then j else j + 1]
      ensures st'.retx[j] == st.retx[if j < i then j else j + 1]
    {}
  }

  lemma StoreGiveUp(c: Config, s: Arq, st: Store, st': Store)
    requires StoreOk(c, s.entries, s.order, st) && OrderOk(s.entries, s.order) && |s.order| > 0
    requires st' == Store(st.txRing, st.snRing[s.order[0] := None], st.retx[1..], st.used, st.pending - 1)
    ensures StoreOk(c, GiveUp(s).entries, GiveUp(s).order, st')
  {
    assert Erase(st.retx, 0) == st.retx[1..] && Erase(s.order, 0) == s.order[1..];
    StoreDropQueued(c, s.entries, s.order, st, 0, st');
  }

  lemma StoreAgain(c: Config, entries: map<byte, Entry>, order: seq<byte>, st: Store, e: Entry, st': Store)
    requires StoreOk(c, entries, order, st) && OrderOk(entries, order) && |order| > 0
    requires e.Waiting? && st.txRing[Position(c, e.slot)].acknowledged
    requires st' == Store(st.txRing[Position(c, e.slot) := TxElem(false, order[0], e.retry, e.pdu)],
                          st.snRing[order[0] := Some(SnElem(Some(e.slot)))], st.retx[1..], st.used + 1, st.pending)
    ensures StoreOk(c, entries[order[0] := e], order[1..], st')
  {
    var sn := order[0];
    TxRingFill(c, entries, st.txRing, sn, e);
    SnRingUpdate(entries, entries[sn := e], st.snRing, sn, Some(SnElem(Some(e.slot))));
    assert entries[sn := e].Keys == entries.Keys;
    CardinalityOfKeys(entries, entries[sn := e]);
    assert forall i :: 0 <= i < |order| - 1 ==> order[1..][i] == order[i + 1] && order[i + 1] != sn;
  }

  lemma SnStored(c: Config, entries: map<byte, Entry>, order: seq<byte>, st: Store, sn: byte)
    requires StoreOk(c, entries, order, st)
    ensures c.txSize > 0 && |st.snRing| == 0x100 && SnSlotOk(entries, st.snRing, sn)
  {}

  lemma FrontStored(c: Config, s: Arq, st: Store, e: Entry)
    requires StoreOk(c, s.entries, s.order, st) && OrderOk(s.entries, s.order) && |s.order| > 0
    requires e == s.entries[s.order[0]]
    ensures |st.retx| > 0 && st.retx[0] == RetxElem(e.retry, s.order[0], e.pdu)
    ensures TxRingOk(c, s.entries, st.txRing) && st.used == Busy(st.txRing)
  {}

  lemma StoreSendAgain(c: Config, s: Arq, slot: nat, e: Entry, st: Store, st': Store)
    requires ValidConfig(c) && StoreOk(c, s.entries, s.order, st) && OrderOk(s.entries, s.order) && |s.order| > 0
    requires e == s.entries[s.order[0]] && st.txRing[Position(c, slot)].acknowledged
    requires st' == Store(st.txRing[Position(c, slot) := TxElem(false, s.order[0], e.retry + 1, e.pdu)],
                          st.snRing[s.order[0] := Some(SnElem(Some(slot)))], st.retx[1..], st.used + 1, st.pending)
    ensures StoreOk(c, SendAgain(c, s, slot).entries, SendAgain(c, s, slot).order, st')
  {
    StoreAgain(c, s.entries, s.order, st, Waiting(e.id, slot, e.retry + 1, e.pdu), st');
  }

  lemma StoreNew(c: Config, entries: map<byte, Entry>, order: seq<byte>, st: Store, sn: byte, e: Entry, st': Store)
    requires StoreOk(c, entries, order, st) && sn !in entries
    requires e.Waiting? && st.txRing[Position(c, e.slot)].acknowledged
    requires st' == Store(st.txRing[Position(c, e.slot) := TxElem(false, sn, e.retry, e.pdu)],
                          st.snRing[sn := Some(SnElem(Some(e.slot)))], st.retx, st.used + 1, st.pending + 1)
    ensures StoreOk(c, entries[sn := e], order, st')
  {
    TxRingFill(c, entries, st.txRing, sn, e);
    SnRingUpdate(entries, entries[sn := e], st.snRing, sn, Some(SnElem(Some(e.slot))));
    assert entries[sn := e].Keys == entries.Keys + {sn};
    assert |entries[sn := e]| == |entries[sn := e].Keys|;
  }

  // ---- which entry is due ----

  lemma NoneDue(c: Config, s: Arq, txRing: seq<TxElem>, slot: nat)
    requires TxRingOk(c, s.entries, txRing) && txRing[Position(c, slot)].acknowledged
    requires ValidConfig(c) && c.acknowledged && slot == s.current + 1
    ensures Tick(c, s, slot) == (s.(current := slot, status := s.status - {DataPduAllocated}), true)
  {
    FreeIff(c, s.entries, txRing, slot);
    assert !exists sn :: DueAt(c, s.entries, slot, sn);
  }

  method CopyTo(target: array<byte>, pdu: seq<byte>)
    requires |pdu| <= target.Length
    modifies target
    ensures target[..] == pdu + old(target[..])[|pdu|..]
  {
    forall i | 0 <= i < |pdu| {
      target[i] := pdu[i];
    }
  }

  lemma SubmitFits(c: Config, s: Arq, p: seq<byte>, data: bool, place: Option<nat>)
    requires ValidConfig(c) && DataPduAllocated !in s.status && Fits(c.crc, p)
    requires data == (c.acknowledged && !IsAck(p)) && (data ==> s.sn !in s.entries) && place == Place(c, s, 0)
    ensures var q := Seal(c.crc, s.sn, p);
            Submit(c, s, p) ==
              if !data then (s.(status := s.status - {InvalidLlcPdu}, sn := (s.sn + 1) % 0x100), q, GetSize(p))
                               else if place.Some? then (AcceptNew(c, s, place.value, q), q, GetSize(p))
                               else (s.(status := s.status - {NoFreeSn} - {InvalidLlcPdu} + {NoTxSlot}), q, 0)
  {}

  // ---- the object ----

  class LlcUl {
    const config: Config
    var status: set<Bit>
    var currentSlotNumber: nat
    var snCounter: byte
    var txRing: seq<TxElem>
    var snRing: seq<Option<SnElem>>
    var retxList: seq<RetxElem>
    var usedTxSlots: int
    var pendingLlcPduCount: int
    ghost var arq: Arq

    ghost function Stored(): Store
      reads this
    {
      Store(txRing, snRing, retxList, usedTxSlots, pendingLlcPduCount)
    }

    /** The fields stand for the table `s`. */
    ghost predicate Represents(s: Arq)
      reads this
    {
      HoldsTable(s) && status == s.status
    }

    /** As far as everything but the status goes. */
    ghost predicate HoldsTable(s: Arq)
      reads this
    {
      StoreOk(config, s.entries, s.order, Stored()) && currentSlotNumber == s.current && snCounter == s.sn
    }

    ghost predicate Valid()
      reads this
    {
      Inv(config, arq) && Represents(arq)
    }

    constructor (config: Config)
      requires ValidConfig(config)
      ensures Valid() && arq == RESET && this.config == config
    {
      this.config := config;
      status, currentSlotNumber, snCounter := {}, 0, 0;
      txRing := seq(config.txSize, i => FREE_SLOT);
      snRing := seq(0x100, i => None);
      retxList, usedTxSlots, pendingLlcPduCount := [], 0, 0;
      arq := RESET;
      new;
      ResetInv(config);
      EmptyStoreOk(config);
      assert Stored() == EmptyStore(config);
    }

    method Reset()
      requires ValidConfig(config)
      modifies this
      ensures Valid() && arq == RESET
    {
      hide Inv, StoreOk;
      status, currentSlotNumber, snCounter := {}, 0, 0;
      txRing := seq(config.txSize, i => FREE_SLOT);
      snRing := seq(0x100, i => None);
      retxList, usedTxSlots, pendingLlcPduCount := [], 0, 0;
      arq := RESET;
      ResetInv(config);
      EmptyStoreOk(config);
      assert Stored() == EmptyStore(config);
    }

    method GetFreeTxSlot() returns (n: int)
      requires Valid()
      ensures n == |FreePositions(config, arq.entries)|
    {
      n := |txRing| - usedTxSlots;
      FreeSlotCount(config, arq.entries, txRing);
    }

    method GetPendingLlcPduCount() returns (n: int)
      requires Valid()
      ensures n == |arq.entries| == arq.accepted - arq.acked - arq.lost
    {
      n := pendingLlcPduCount;
    }

    method GetRetransmissionSize() returns (n: nat)
      ensures n == if |retxList| == 0 then 0 else |retxList[0].pdu|
    {
      n := if |retxList| == 0 then 0 else |retxList[0].pdu|;
    }

    /** The part of update_current_slot_number that moves an unacknowledged PDU to the
        retransmission list. */
    method MoveToRetransmission(ghost s: Arq, ghost sn: byte, i: nat)
      requires HoldsTable(s) && sn in s.entries && s.entries[sn].Waiting?
      requires i == Position(config, s.entries[sn].slot)
      modifies this`txRing, this`snRing, this`retxList, this`usedTxSlots, this`status
      ensures HoldsTable(MoveDue(s, sn)) && status == old(status) - {ShouldNotHappen, SpuriousAckSn}
    {
      ghost var st := Stored();
      var oldSlot := txRing[i];
      txRing := txRing[i := oldSlot.(acknowledged := true)];
      usedTxSlots := usedTxSlots - 1;
      status := status - {ShouldNotHappen, SpuriousAckSn};
      assert SnSlotOk(s.entries, snRing, sn);
      if snRing[oldSlot.sn].None? {
        assert false;  // an unacknowledged slot always has its SN entry
      }
      snRing := snRing[oldSlot.sn := Some(SnElem(None))];
      retxList := retxList + [RetxElem(oldSlot.retryCount, oldSlot.sn, oldSlot.pdu)];
      StoreMoveDue(config, s.entries, s.order, st, sn, Stored());
    }

    method AdvanceSlot(ghost s: Arq, slot: nat) returns (ok: bool)
      requires Inv(config, s) && Represents(s)
      modifies this`txRing, this`snRing, this`retxList, this`usedTxSlots, this`status, this`currentSlotNumber
      ensures Represents(Tick(config, s, slot).0) && ok == Tick(config, s, slot).1
    {
      if !config.acknowledged {
        return true;
      }
      if slot != currentSlotNumber + 1 {
        status := status + {SlotSkipped};
        return false;
      }
      status := status - {DataPduAllocated};
      currentSlotNumber := slot;
      var i := Position(config, slot);
      if !txRing[i].acknowledged {
        ghost var sn := txRing[i].sn;
        OneDue(config, s, slot, sn);
        MoveToRetransmission(s.(current := slot), sn, i);
      } else {
        NoneDue(config, s, txRing, slot);
      }
      return true;
    }

    /** Moves to the next slot. A PDU whose check falls due there goes to the retransmission
        list; that its SN entry could be missing is ruled out. */
    method UpdateCurrentSlotNumber(slot: nat) returns (ok: bool)
      requires Valid()
      modifies this
      ensures Valid() && (arq, ok) == Tick(config, old(arq), slot)
    {
      hide Tick, StoreOk, OrderOk, SlotsOk, EntriesOk, StatusOk, CountsOk, LogOk, TracedOk;
      ok := AdvanceSlot(arq, slot);
      TickInv(config, arq, slot, Tick(config, arq, slot).0);
      arq := Tick(config, arq, slot).0;
    }

    /** std::find_if over the retransmission list. */
    method FindRetx(sn: byte) returns (i: nat)
      ensures i <= |retxList| && (i < |retxList| ==> retxList[i].sn == sn)
      ensures forall j :: 0 <= j < i ==> retxList[j].sn != sn
    {
      i := 0;
      while i < |retxList| && retxList[i].sn != sn
        invariant i <= |retxList| && forall j :: 0 <= j < i ==> retxList[j].sn != sn
      {
        i := i + 1;
      }
    }

    /** An acknowledgement for a PDU in the retransmission list. */
    method DropQueued(ghost s: Arq, sn: byte)
      requires StoreOk(config, s.entries, s.order, Stored()) && OrderOk(s.entries, s.order)
      requires sn in s.entries && s.entries[sn].Queued?
      modifies this`snRing, this`retxList, this`pendingLlcPduCount
      ensures StoreOk(config, s.entries - {sn}, Without(s.order, sn), Stored())
    {
      ghost var st := Stored();
      var i := FindRetx(sn);
      assert forall j :: 0 <= j < |s.order| ==> retxList[j].sn == s.order[j];
      assert sn in s.order;
      if i == |retxList| {
        assert false;  // an SN entry without a slot always has a list element
      }
      retxList := Erase(retxList, i);
      snRing := snRing[sn := None];
      pendingLlcPduCount := pendingLlcPduCount - 1;
      WithoutIsErase(s.order, i);
      StoreDropQueued(config, s.entries, s.order, st, i, Stored());
    }

    /** An acknowledgement for a PDU waiting at ring position `i`. */
    method DropWaiting(ghost s: Arq, sn: byte, i: nat)
      requires StoreOk(config, s.entries, s.order, Stored()) && sn in s.entries && s.entries[sn].Waiting?
      requires i == Position(config, s.entries[sn].slot)
      modifies this`txRing, this`snRing, this`usedTxSlots, this`pendingLlcPduCount
      ensures StoreOk(config, s.entries - {sn}, s.order, Stored())
    {
      ghost var st := Stored();
      if txRing[i].acknowledged {
        assert false;  // the slot an SN entry points to is never acknowledged
      }
      txRing := txRing[i := txRing[i].(acknowledged := true)];
      pendingLlcPduCount := pendingLlcPduCount - 1;
      usedTxSlots := usedTxSlots - 1;
      snRing := snRing[sn := None];
      StoreAckWaiting(config, s.entries, s.order, st, sn, Stored());
    }

    method AcknowledgeStore(ghost s: Arq, sn: byte) returns (ok: bool)
      requires OrderOk(s.entries, s.order) && Represents(s)
      modifies this`txRing, this`snRing, this`retxList, this`usedTxSlots, this`pendingLlcPduCount, this`status
      ensures Represents(Ack(s, sn).0) && ok == Ack(s, sn).1
    {
      hide StoreOk, OrderOk;
      SnStored(config, s.entries, s.order, Stored(), sn);
      status := status - {SpuriousAckSn, SpuriousAckTx, ShouldNotHappen};
      if snRing[sn].None? {
        status := status + {SpuriousAckSn};
        return false;
      }
      if snRing[sn].value.checkTxSlotNumber.None? {
        DropQueued(s, sn);
        return true;
      }
      DropWaiting(s, sn, Position(config, snRing[sn].value.checkTxSlotNumber.value));
      return true;
    }

    /** Takes an acknowledged PDU out of whichever structure holds it. */
    method Acknowledge(sn: byte) returns (ok: bool)
      requires Valid()
      modifies this
      ensures Valid() && (arq, ok) == Ack(old(arq), sn)
      ensures ok == (sn in old(arq).entries) && sn !in arq.entries && sn !in arq.order
      ensures arq.acked == old(arq).acked + if ok then 1 else 0
    {
      hide Ack, StoreOk, OrderOk, SlotsOk, EntriesOk, StatusOk, CountsOk, LogOk, TracedOk, TakenOut;
      if sn !in arq.entries {
        OnlyInUse(arq.entries, arq.order, sn);
      }
      AckEffect(config, arq, sn, Ack(arq, sn).0, Ack(arq, sn).1);
      ok := AcknowledgeStore(arq, sn);
      AckInv(config, arq, sn, Ack(arq, sn).0);
      arq := Ack(arq, sn).0;
    }

    /** The scan for a free slot from `first`. */
    method FindFree(first: nat, ghost entries: map<byte, Entry>) returns (r: Option<nat>)
      requires TxRingOk(config, entries, txRing)
      ensures r == FirstFree(config, entries, first, config.txSize)
      ensures r.Some? <==> Busy(txRing) < config.txSize
      ensures r.Some? ==> txRing[Position(config, r.value)].acknowledged
    {
      var checkSlotNumber := first;
      var i := 0;
      while i < config.txSize
        invariant i <= config.txSize && checkSlotNumber == first + i
        invariant FirstFree(config, entries, first, config.txSize) ==
                  FirstFree(config, entries, checkSlotNumber, config.txSize - i)
      {
        FreeIff(config, entries, txRing, checkSlotNumber);
        if txRing[Position(config, checkSlotNumber)].acknowledged {
          BusyAll(txRing);
          return Some(checkSlotNumber);
        }
        checkSlotNumber := checkSlotNumber + 1;
        i := i + 1;
      }
      AllVisited(config, entries, txRing, first);
      return None;
    }

    /** enqueue_tx_check: the first free slot at or after the recheck distance, if any ring
        position is free; the PDU is stored there. */
    method EnqueueTxCheck(pdu: seq<byte>, sn: byte, retry: nat, ghost entries: map<byte, Entry>)
        returns (r: Option<nat>)
      requires ValidConfig(config) && TxRingOk(config, entries, txRing) && usedTxSlots == Busy(txRing)
      modifies this`txRing, this`usedTxSlots, this`status
      ensures r == FirstFree(config, entries, currentSlotNumber + Recheck(config, retry), config.txSize)
      ensures r.Some? <==> old(usedTxSlots) < config.txSize
      ensures r.None? ==> txRing == old(txRing) && usedTxSlots == old(usedTxSlots) && status == old(status) + {NoTxSlot}
      ensures r.Some? ==>
                && old(txRing)[Position(config, r.value)].acknowledged
                && txRing == old(txRing)[Position(config, r.value) := TxElem(false, sn, retry, pdu)]
                && usedTxSlots == old(usedTxSlots) + 1 && status == old(status) - {NoTxSlot}
    {
      status := status - {NoTxSlot};
      r := FindFree(currentSlotNumber + Recheck(config, retry), entries);
      if r.Some? {
        txRing := txRing[Position(config, r.value) := TxElem(false, sn, retry, pdu)];
        usedTxSlots := usedTxSlots + 1;
      } else {
        status := status + {NoTxSlot};
      }
    }

    /** The PDU at the front of the retransmission list is given up. */
    method DropFront(ghost s: Arq)
      requires OrderOk(s.entries, s.order) && |s.order| > 0 && HoldsTable(s)
      requires status == s.status - {WriteBufferTooSmall, SpuriousAckSn, ShouldNotHappen, SnLost}
      modifies this`snRing, this`retxList, this`pendingLlcPduCount, this`status
      ensures Represents(GiveUp(s))
    {
      ghost var st := Stored();
      assert retxList[0].sn == s.order[0];
      status := status + {SnLost};
      snRing := snRing[retxList[0].sn := None];
      retxList := retxList[1..];
      pendingLlcPduCount := pendingLlcPduCount - 1;
      StoreGiveUp(config, s, st, Stored());
    }

    /** The PDU at the front of the retransmission list has been given slot `slot`. */
    method LinkFront(ghost s: Arq, ghost st: Store, ghost e: Entry, slot: nat)
      requires ValidConfig(config) && OrderOk(s.entries, s.order) && StoreOk(config, s.entries, s.order, st)
      requires |s.order| > 0 && e == s.entries[s.order[0]] && st.txRing[Position(config, slot)].acknowledged
      requires Stored() == Store(st.txRing[Position(config, slot) := TxElem(false, s.order[0], e.retry + 1, e.pdu)],
                                 st.snRing, st.retx, st.used + 1, st.pending)
      requires currentSlotNumber == s.current && snCounter == s.sn
      requires status == s.status - {WriteBufferTooSmall, SpuriousAckSn, ShouldNotHappen, SnLost} - {NoTxSlot}
      modifies this`snRing, this`retxList, this`status
      ensures Represents(SendAgain(config, s, slot))
    {
      snRing := snRing[retxList[0].sn := Some(SnElem(Some(slot)))];
      retxList := retxList[1..];
      status := status + {DataPduAllocated};
      StoreSendAgain(config, s, slot, e, st, Stored());
    }

    /** The PDU at the front of the retransmission list is given a new slot to be checked at. */
    method PlaceFront(ghost s: Arq, ghost e: Entry, ghost place: Option<nat>) returns (sent: bool)
      requires ValidConfig(config) && OrderOk(s.entries, s.order) && |s.order| > 0 && HoldsTable(s)
      requires status == s.status - {WriteBufferTooSmall, SpuriousAckSn, ShouldNotHappen, SnLost}
      requires e == s.entries[s.order[0]] && place == Place(config, s, e.retry + 1)
      modifies this`txRing, this`snRing, this`retxList, this`usedTxSlots, this`status
      ensures sent == place.Some?
      ensures place.Some? ==> Represents(SendAgain(config, s, place.value))
      ensures place.None? ==> Represents(KeepFront(s))
    {
      hide StoreOk, TxRingOk, OrderOk, Busy, FirstFree, Recheck, SendAgain;
      ghost var st := Stored();
      FrontStored(config, s, st, e);
      var front := retxList[0];
      var r := EnqueueTxCheck(front.pdu, front.sn, front.retryCount + 1, s.entries);
      if r.None? {
        assert Stored() == st;
        return false;
      }
      LinkFront(s, st, e, r.value);
      return true;
    }

    /** write_retransmission_pdu once the front PDU is known to fit the target and may be retried. */
    method CopyFront(ghost s: Arq, ghost e: Entry, ghost place: Option<nat>, target: array<byte>) returns (size: nat)
      requires ValidConfig(config) && OrderOk(s.entries, s.order) && |s.order| > 0 && HoldsTable(s)
      requires status == s.status - {WriteBufferTooSmall, SpuriousAckSn, ShouldNotHappen, SnLost}
      requires e == s.entries[s.order[0]] && place == Place(config, s, e.retry + 1) && |e.pdu| <= target.Length
      modifies this`txRing, this`snRing, this`retxList, this`usedTxSlots, this`status, target
      ensures size == if place.Some? then |e.pdu| else 0
      ensures Represents(if place.Some? then SendAgain(config, s, place.value) else KeepFront(s))
      ensures target[..] == e.pdu + old(target[..])[|e.pdu|..]
    {
      var front := retxList[0];
      assert front == RetxElem(e.retry, s.order[0], e.pdu);
      CopyTo(target, front.pdu);
      var sent := PlaceFront(s, e, place);
      size := if sent then |front.pdu| else 0;
    }

    /** write_retransmission_pdu once the front PDU is known to fit the target. */
    method SendFront(ghost s: Arq, ghost e: Entry, ghost place: Option<nat>, target: array<byte>) returns (size: nat)
      requires ValidConfig(config) && OrderOk(s.entries, s.order) && |s.order| > 0 && HoldsTable(s)
      requires status == s.status - {WriteBufferTooSmall}
      requires e == s.entries[s.order[0]] && place == Place(config, s, e.retry + 1) && |e.pdu| <= target.Length
      modifies this`txRing, this`snRing, this`retxList, this`usedTxSlots, this`pendingLlcPduCount, this`status, target
      ensures e.retry >= config.maxRetx ==> Represents(GiveUp(s)) && target[..] == old(target[..]) && size == 0
      ensures e.retry < config.maxRetx ==>
                && Represents(if place.Some? then SendAgain(config, s, place.value) else KeepFront(s))
                && target[..] == e.pdu + old(target[..])[|e.pdu|..]
                && size == if place.Some? then |e.pdu| else 0
    {
      var front := retxList[0];
      assert front == RetxElem(e.retry, s.order[0], e.pdu);
      assert SnSlotOk(s.entries, snRing, front.sn);
      status := status - {SpuriousAckSn, ShouldNotHappen};
      if snRing[front.sn].None? {
        assert false;  // a list element always has its SN entry
      }
      status := status - {SnLost};
      if front.retryCount >= config.maxRetx {
        DropFront(s);
        return 0;
      }
      size := CopyFront(s, e, place, target);
    }

    method RetransmitStore(ghost s: Arq, ghost s': Arq, ghost w: Written, target: array<byte>) returns (size: nat)
      requires ValidConfig(config) && OrderOk(s.entries, s.order) && Represents(s)
      requires (s', w) == Retransmit(config, s, target.Length)
      modifies this`txRing, this`snRing, this`retxList, this`usedTxSlots, this`pendingLlcPduCount, this`status, target
      ensures Represents(s') && size == w.Size() && target[..] == w.Apply(old(target[..]))
    {
      hide SnRingOk, TxRingOk, Busy, SendAgain, GiveUp, Place;
      if DataPduAllocated in status {
        return 0;
      }
      if !config.acknowledged {
        return 0;
      }
      size := GetRetransmissionSize();
      if size == 0 {
        return 0;
      }
      status := status - {WriteBufferTooSmall};
      ghost var e := s.entries[s.order[0]];
      if size > target.Length {
        status := status + {WriteBufferTooSmall};
        RetransmitTooLarge(config, s, e, target.Length);
        return 0;
      }
      ghost var place := Place(config, s, e.retry + 1);
      RetransmitFits(config, s, e, place, target.Length);
      size := SendFront(s, e, place, target);
    }

    /** Sends the PDU at the front of the retransmission list again, or gives it up after
        max_retx_count retries. */
    method WriteRetransmissionPdu(target: array<byte>) returns (size: nat, ghost w: Written)
      requires Valid()
      modifies this, target
      ensures Valid() && (arq, w) == Retransmit(config, old(arq), target.Length)
      ensures size == w.Size() && target[..] == w.Apply(old(target[..]))
    {
      hide Retransmit, StoreOk, SlotsOk, EntriesOk, StatusOk, CountsOk, LogOk, TracedOk;
      ghost var s';
      s', w := Retransmit(config, arq, target.Length).0, Retransmit(config, arq, target.Length).1;
      size := RetransmitStore(arq, s', w, target);
      RetransmitInv(config, arq, target.Length, s');
      arq := s';
    }

    /** A sealed data PDU has been given slot `slot`. */
    method LinkNew(ghost s: Arq, ghost st: Store, slot: nat, ghost q: seq<byte>)
      requires ValidConfig(config) && StoreOk(config, s.entries, s.order, st)
      requires s.sn !in s.entries && st.txRing[Position(config, slot)].acknowledged
      requires Stored() == Store(st.txRing[Position(config, slot) := TxElem(false, s.sn, 0, q)],
                                 st.snRing, st.retx, st.used + 1, st.pending)
      requires currentSlotNumber == s.current && snCounter == s.sn
      requires status == s.status - {NoFreeSn} - {InvalidLlcPdu} - {NoTxSlot}
      modifies this`snRing, this`pendingLlcPduCount, this`status, this`snCounter
      ensures Represents(AcceptNew(config, s, slot, q))
    {
      snRing := snRing[snCounter := Some(SnElem(Some(slot)))];
      snCounter := (snCounter + 1) % 0x100;
      pendingLlcPduCount := pendingLlcPduCount + 1;
      status := status + {DataPduAllocated};
      StoreNew(config, s.entries, s.order, st, s.sn, Waiting(s.accepted, slot, 0, q), Stored());
    }

    /** A sealed data PDU enters the table under the current SN. */
    method PlaceNew(ghost s: Arq, ghost place: Option<nat>, q: seq<byte>) returns (sent: bool)
      requires ValidConfig(config) && HoldsTable(s) && status == s.status - {NoFreeSn} - {InvalidLlcPdu}
      requires s.sn !in s.entries && place == Place(config, s, 0)
      modifies this`txRing, this`snRing, this`usedTxSlots, this`pendingLlcPduCount, this`status, this`snCounter
      ensures sent == place.Some?
      ensures place.Some? ==> Represents(AcceptNew(config, s, place.value, q))
      ensures place.None? ==> Represents(s.(status := s.status - {NoFreeSn} - {InvalidLlcPdu} + {NoTxSlot}))
    {
      ghost var st := Stored();
      var r := EnqueueTxCheck(q, snCounter, 0, s.entries);
      if r.None? {
        assert Stored() == st;
        return false;
      }
      LinkNew(s, st, r.value, q);
      return true;
    }

    /** write_llc_pdu once the SN and the SIZE field are known to be good. */
    method SealAndPlace(ghost s: Arq, ghost p: seq<byte>, ghost place: Option<nat>, data: bool, target: array<byte>)
        returns (size: nat)
      requires ValidConfig(config) && HoldsTable(s) && p == target[..] && Fits(config.crc, p)
      requires status == (if data then s.status - {NoFreeSn} else s.status) - {InvalidLlcPdu}
      requires data == (config.acknowledged && !IsAck(p)) && (data ==> s.sn !in s.entries)
      requires place == Place(config, s, 0)
      modifies this`txRing, this`snRing, this`usedTxSlots, this`pendingLlcPduCount, this`status, this`snCounter, target
      ensures target[..] == Seal(config.crc, s.sn, p)
      ensures size == if data && place.None? then 0 else GetSize(p)
      ensures data && place.Some? ==> Represents(AcceptNew(config, s, place.value, Seal(config.crc, s.sn, p)))
      ensures data && place.None? ==> Represents(s.(status := s.status - {NoFreeSn} - {InvalidLlcPdu} + {NoTxSlot}))
      ensures !data ==> Represents(s.(status := s.status - {InvalidLlcPdu}, sn := (s.sn + 1) % 0x100))
    {
      SealInPlace(config.crc, snCounter, target);
      size := GetSize(target[..]);
      if data {
        var sent := PlaceNew(s, place, target[..]);
        size := if sent then size else 0;
      } else {
        snCounter := (snCounter + 1) % 0x100;
      }
    }

    method SubmitStore(ghost s: Arq, ghost p: seq<byte>, ghost r: (Arq, seq<byte>, nat), target: array<byte>)
        returns (size: nat)
      requires ValidConfig(config) && Represents(s) && p == target[..] && HeaderSize(config.crc) <= |p|
      requires r == Submit(config, s, p)
      modifies this`txRing, this`snRing, this`usedTxSlots, this`pendingLlcPduCount, this`status, this`snCounter, target
      ensures Represents(r.0) && target[..] == r.1 && size == r.2
    {
      hide StoreOk, Seal, Place;
      if DataPduAllocated in status {
        return 0;
      }
      var data := config.acknowledged && !IsAck(target[..]);
      SnStored(config, s.entries, s.order, Stored(), snCounter);
      if data {
        status := status - {NoFreeSn};
        if snRing[snCounter].Some? {
          status := status + {NoFreeSn};
          assert status == s.status + {NoFreeSn};
          return 0;
        }
      }
      status := status - {InvalidLlcPdu};
      if GetSize(target[..]) > target.Length {
        status := status + {InvalidLlcPdu};
        return 0;
      }
      ghost var place := Place(config, s, 0);
      SubmitFits(config, s, p, data, place);
      size := SealAndPlace(s, p, place, data, target);
    }

    /** Numbers and seals a PDU in place; a data PDU is also kept until it is acknowledged or lost. */
    method WriteLlcPdu(target: array<byte>) returns (size: nat)
      requires Valid() && HeaderSize(config.crc) <= target.Length
      modifies this, target
      ensures Valid() && (arq, target[..], size) == Submit(config, old(arq), old(target[..]))
      ensures GoesOut(config, old(arq), old(target[..])) ==>
                size == GetSize(old(target[..])) && arq.sn == (old(arq).sn + 1) % 0x100
      ensures !GoesOut(config, old(arq), old(target[..])) ==> size == 0 && arq.sn == old(arq).sn
    {
      hide Submit, GoesOut, IsData, FirstFrom, StoreOk, OrderOk, SlotsOk, EntriesOk, StatusOk, CountsOk, LogOk,
        TracedOk;
      ghost var p := target[..];
      ghost var r := Submit(config, arq, p);
      SubmitEffect(config, arq, p, r.0, r.1, r.2);
      size := SubmitStore(arq, p, r, target);
      SubmitInv(config, arq, p, r.0);
      arq := r.0;
    }
  }

  lemma OnlyInUse(entries: map<byte, Entry>, order: seq<byte>, sn: byte)
    requires OrderOk(entries, order) && sn !in entries
    ensures sn !in order
  {}

  /** A full turn of consecutive slot numbers visits every ring position. */
  lemma AllVisited(c: Config, entries: map<byte, Entry>, txRing: seq<TxElem>, first: nat)
    requires TxRingOk(c, entries, txRing) && FirstFree(c, entries, first, c.txSize).None?
    ensures Busy(txRing) == c.txSize
  {
    forall k | 0 <= k < |txRing| ensures !txRing[k].acknowledged {
      var x := ResidueOccurs(c.txSize, first, k);
      FreeIff(c, entries, txRing, x);
    }
    BusyAll(txRing);
  }
}
