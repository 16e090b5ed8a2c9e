/** Pieces in any order, packing and number of copies, for any ring size: of a frame that is held in two
    places each place keeps its own pieces, and the frame is handed out exactly when one of them has all
    of it. */
module PdcpPlaces {
  import opened Bytes
  import opened PdcpSegment
  import opened PdcpSender
  import opened PdcpReceiver
  import opened Reassembly
  import opened PdcpLedger
  import opened PdcpWindow
  import opened PdcpHomes
  import U = PdcpUnsegmented

  // ---- the arrivals, and where their pieces go ----

  ghost predicate GenuinePdu(cuts: Ledger, p: Pdu) {
    forall j :: 0 <= j < |p| ==> p[j].frame < |cuts| && p[j].seg in cuts[p[j].frame]
  }

  ghost predicate Genuine(cuts: Ledger, pdus: seq<Pdu>) {
    forall i :: 0 <= i < |pdus| ==> GenuinePdu(cuts, pdus[i])
  }

  function Add(fed: Ledger, p: Piece): (fed': Ledger)
    ensures |fed'| == |fed|
    ensures forall k :: 0 <= k < |fed| ==> fed'[k] == if k == p.frame then fed[k] + {p.seg} else fed[k]
  {
    if p.frame < |fed| then fed[p.frame := fed[p.frame] + {p.seg}] else fed
  }

  /** For each frame the pieces that went to its ring slot and those that went to the overflow list. */
  datatype Places = Places(ring: Ledger, list: Ledger) {

    /** One more piece: get_or_put_slot decides, by whether it finds or makes room. */
    function Note(rx: Receiver, p: Piece): Places {
      if rx.FitsRing(p.seg.sn) then this.(ring := Add(ring, p)) else this.(list := Add(list, p))
    }

    ghost predicate Of(n: nat) {
      |ring| == |list| == n
    }
  }

  function NoPlaces(n: nat): Places {
    Places(seq(n, i => {}), seq(n, i => {}))
  }

  function Placed(f: Flags, rx: Receiver, pl: Places, p: Pdu): Places
    decreases |p|
  {
    if |p| == 0 then pl else Placed(f, rx.Take(f, p[0].seg), pl.Note(rx, p[0]), p[1..])
  }

  /** What has been noted of `n` frames after the PDUs. */
  function PlacedAll(f: Flags, n: nat, rx: Receiver, pdus: seq<Pdu>): Places
    decreases |pdus|
  {
    if |pdus| == 0 then NoPlaces(n)
    else
      var before := pdus[..|pdus| - 1];
      Placed(f, ReceiveAll(f, rx, before), PlacedAll(f, n, rx, before), pdus[|pdus| - 1])
  }

  /** One of the two places has been given all of frame k. */
  ghost predicate InOnePlace(frames: seq<Frame>, pl: Places, k: nat)
    requires k < |frames| && pl.Of(|frames|)
  {
    Covers(frames[k], pl.ring[k]) || Covers(frames[k], pl.list[k])
  }

  // ---- what each place holds for an SN ----

  function RingState(rx: Receiver, sn: word): State {
    if U.InSlot(rx, sn) then rx.ring[rx.SlotIndex(sn)].state else FRESH
  }

  function ListState(rx: Receiver, sn: word): State {
    var i := FirstPending(rx.overflow, sn);
    if i < |rx.overflow| then rx.overflow[i].state else FRESH
  }

  lemma LookupPlace(rx: Receiver, sn: word)
    ensures rx.Lookup(sn) == if rx.FitsRing(sn) then RingState(rx, sn) else ListState(rx, sn)
  {}

  /** Putting a state back changes one place of one SN. */
  lemma PutPlaces(rx: Receiver, sn: word, st: State, rx': Receiver, sn': word)
    requires rx' == rx.Put(sn, st)
    ensures RingState(rx', sn') == if sn' == sn && rx.FitsRing(sn) then st else RingState(rx, sn')
    ensures ListState(rx', sn') == if sn' == sn && !rx.FitsRing(sn) then st else ListState(rx, sn')
  {
    if !rx.FitsRing(sn) {
      PutPending(rx.overflow, sn, st, rx'.overflow, sn');
    }
  }

  lemma PutDistinct(rx: Receiver, sn: word, st: State)
    requires DistinctSns(rx.overflow)
    ensures DistinctSns(rx.Put(sn, st).overflow)
  {}

  /** Handing out the next SN from one place leaves both places of all other SNs as they were. */
  lemma RingOthers(rx: Receiver, sn: word)
    requires rx.RingReady() && sn != rx.next
    ensures RingState(rx.AdvanceRing(), sn) == RingState(rx, sn)
    ensures ListState(rx.AdvanceRing(), sn) == ListState(rx, sn)
  {}

  lemma ListOthers(rx: Receiver, sn: word)
    requires DistinctSns(rx.overflow) && rx.OverflowReady() && sn != rx.next
    ensures RingState(rx.AdvanceOverflow(), sn) == RingState(rx, sn)
    ensures ListState(rx.AdvanceOverflow(), sn) == ListState(rx, sn)
    ensures DistinctSns(rx.AdvanceOverflow().overflow)
  {
    EraseFirst(rx.overflow, FirstComplete(rx.overflow, rx.next), sn);
  }

  /** What is ready is what its place holds for the next SN; what is not ready is not complete. */
  lemma ReadyPlaces(rx: Receiver)
    requires DistinctSns(rx.overflow)
    ensures rx.RingReady() <==> RingState(rx, rx.next).complete
    ensures rx.OverflowReady() <==> ListState(rx, rx.next).complete
  {
    var i := FirstPending(rx.overflow, rx.next);
    if rx.OverflowReady() {
      assert i == FirstComplete(rx.overflow, rx.next);
    } else if i < |rx.overflow| {
      assert !rx.overflow[i].state.complete;
    }
  }

  // ---- the invariant ----

  /** Both places of the frames not yet handed out hold exactly the pieces noted for them. */
  ghost predicate Kept(cuts: Ledger, pl: Places, n: nat, rx: Receiver)
    requires pl.Of(|cuts|)
  {
    forall k :: n <= k < |cuts| ==> KeptFor(cuts, pl, rx, k)
  }

  ghost predicate KeptFor(cuts: Ledger, pl: Places, rx: Receiver, k: nat)
    requires pl.Of(|cuts|) && k < |cuts|
  {
    && Got(cuts[k], RingState(rx, k % SN_COUNT)) == pl.ring[k]
    && Got(cuts[k], ListState(rx, k % SN_COUNT)) == pl.list[k]
  }

  ghost predicate HandedOut(frames: seq<Frame>, pl: Places, n: nat)
    requires pl.Of(|frames|) && n <= |frames|
  {
    forall k :: 0 <= k < n ==> InOnePlace(frames, pl, k)
  }

  ghost predicate InPlaces(f: Flags, frames: seq<Frame>, cuts: Ledger, pl: Places, n: nat, rx: Receiver) {
    && f.reordering && LedgerOk(f, frames, cuts) && |frames| < SN_COUNT
    && RxSafe(frames, cuts, 0, n, [], rx) && DistinctSns(rx.overflow)
    && n <= |frames| == |cuts| && pl.Of(|frames|)
    && Kept(cuts, pl, n, rx) && HandedOut(frames, pl, n)
  }

  lemma NoteMore(frames: seq<Frame>, pl: Places, n: nat, rx: Receiver, p: Piece)
    requires pl.Of(|frames|) && n <= |frames| && HandedOut(frames, pl, n)
    ensures pl.Note(rx, p).Of(|frames|) && HandedOut(frames, pl.Note(rx, p), n)
  {
    var pl' := pl.Note(rx, p);
    forall k | 0 <= k < n ensures InOnePlace(frames, pl', k) {
      assert InOnePlace(frames, pl, k);
      MoreCovers(frames[k], pl.ring[k], pl'.ring[k]);
      MoreCovers(frames[k], pl.list[k], pl'.list[k]);
    }
  }

  lemma MoreCovers(frame: Frame, a: set<Segment>, b: set<Segment>)
    requires a <= b
    ensures Covers(frame, a) ==> Covers(frame, b)
  {
    if Covers(frame, a) {
      forall o: nat | o < |frame| ensures Covered(b, o) {
        assert Covered(a, o);
        var s :| s in a && Within(s, o);
        assert s in b;
      }
    }
  }

  lemma NoteKeeps(cuts: Ledger, pl: Places, n: nat, rx: Receiver, p: Piece, st: State, rx': Receiver)
    requires |cuts| < SN_COUNT && pl.Of(|cuts|) && Kept(cuts, pl, n, rx) && p.frame < |cuts|
    requires p.seg.sn == p.frame % SN_COUNT && rx' == rx.Put(p.seg.sn, st)
    requires Got(cuts[p.frame], st) == Got(cuts[p.frame], rx.Lookup(p.seg.sn)) + {p.seg}
    ensures pl.Note(rx, p).Of(|cuts|) && Kept(cuts, pl.Note(rx, p), n, rx')
  {
    LookupPlace(rx, p.seg.sn);
    forall k | n <= k < |cuts| ensures KeptFor(cuts, pl.Note(rx, p), rx', k) {
      assert KeptFor(cuts, pl, rx, k);
      PutPlaces(rx, p.seg.sn, st, rx', k % SN_COUNT);
      if k != p.frame { U.SnDiffers(0, k, p.frame); }
    }
  }

  /** Any piece, new or repeated, early or late. */
  lemma TakePlaces(f: Flags, frames: seq<Frame>, cuts: Ledger, pl: Places, n: nat, rx: Receiver, p: Piece,
                   rx': Receiver)
    requires InPlaces(f, frames, cuts, pl, n, rx)
    requires p.frame < |cuts| && p.seg in cuts[p.frame] && rx' == rx.Take(f, p.seg)
    ensures InPlaces(f, frames, cuts, pl.Note(rx, p), n, rx')
  {
    hide Kept, HandedOut, RxSafe, DistinctSns, Holds, Places.Note, Receiver.Put, Receiver.Take, Receiver.Lookup;
    var was, st := TakeSafe(f, frames, cuts, 0, n, [], rx, p.frame, p.seg, rx');
    NoteMore(frames, pl, n, rx, p);
    NoteKeeps(cuts, pl, n, rx, p, st, rx');
    PutDistinct(rx, p.seg.sn, st);
  }

  lemma {:induction false} TakeAllPlaces(f: Flags, frames: seq<Frame>, cuts: Ledger, pl: Places, n: nat,
                                         rx: Receiver, p: Pdu)
    requires InPlaces(f, frames, cuts, pl, n, rx) && GenuinePdu(cuts, p)
    ensures InPlaces(f, frames, cuts, Placed(f, rx, pl, p), n, TakeAll(f, rx, Segments(p)))
    decreases |p|
  {
    hide InPlaces;
    if |p| > 0 {
      var rx1 := rx.Take(f, p[0].seg);
      TakePlaces(f, frames, cuts, pl, n, rx, p[0], rx1);
      assert forall j :: 0 <= j < |p| - 1 ==> p[1..][j] == p[j + 1];
      TakeAllPlaces(f, frames, cuts, pl.Note(rx, p[0]), n, rx1, p[1..]);
      SegmentsTail(p);
    }
  }

  // ---- the flush loop ----

  /** Both places hold pieces of the frame the SN stands for. */
  lemma PlacesHold(frames: seq<Frame>, cuts: Ledger, rx: Receiver, k: nat)
    requires StoreOk(frames, cuts, 0, rx) && k < |frames| == |cuts| && k < SN_COUNT
    ensures Holds(frames[k], cuts[k], RingState(rx, k % SN_COUNT))
    ensures Holds(frames[k], cuts[k], ListState(rx, k % SN_COUNT))
  {
    IndexUnique(0, k);
    FreshHolds(frames[k], cuts[k]);
  }

  /** A place is complete for frame k exactly when it has been given all of it. */
  lemma PlaceComplete(f: Flags, frames: seq<Frame>, cuts: Ledger, pl: Places, rx: Receiver, k: nat)
    requires LedgerOk(f, frames, cuts) && StoreOk(frames, cuts, 0, rx) && k < |frames| < SN_COUNT
    requires pl.Of(|cuts|) && KeptFor(cuts, pl, rx, k)
    ensures RingState(rx, k % SN_COUNT).complete <==> Covers(frames[k], pl.ring[k])
    ensures ListState(rx, k % SN_COUNT).complete <==> Covers(frames[k], pl.list[k])
  {
    hide RingState, ListState, StoreOk;
    PlacesHold(frames, cuts, rx, k);
    CompleteIff(frames[k], cuts[k], RingState(rx, k % SN_COUNT));
    CompleteIff(frames[k], cuts[k], ListState(rx, k % SN_COUNT));
  }

  /** The flush loop has something to hand out exactly if one place has all of the next frame. */
  lemma ReadyIff(f: Flags, frames: seq<Frame>, cuts: Ledger, pl: Places, n: nat, rx: Receiver)
    requires InPlaces(f, frames, cuts, pl, n, rx) && n < |frames|
    ensures rx.RingReady() || rx.OverflowReady() <==> InOnePlace(frames, pl, n)
  {
    hide StoreOk, OutputOk, LedgerOk, HandedOut, DistinctSns;
    hide Receiver.RingReady, Receiver.OverflowReady, RingState, ListState;
    assert KeptFor(cuts, pl, rx, n);
    PlaceComplete(f, frames, cuts, pl, rx, n);
    ReadyPlaces(rx);
  }

  lemma OthersKept(cuts: Ledger, pl: Places, n: nat, rx: Receiver, rx': Receiver)
    requires |cuts| < SN_COUNT && pl.Of(|cuts|) && Kept(cuts, pl, n, rx) && rx.next == n % SN_COUNT && n < SN_COUNT
    requires forall sn :: sn != rx.next ==> RingState(rx', sn) == RingState(rx, sn)
    requires forall sn :: sn != rx.next ==> ListState(rx', sn) == ListState(rx, sn)
    ensures Kept(cuts, pl, n + 1, rx')
  {
    hide RingState, ListState;
    forall k | n + 1 <= k < |cuts| ensures KeptFor(cuts, pl, rx', k) {
      assert KeptFor(cuts, pl, rx, k);
      U.SnDiffers(0, k, n);
    }
  }

  lemma RingPlaces(f: Flags, frames: seq<Frame>, cuts: Ledger, pl: Places, n: nat, rx: Receiver)
    requires InPlaces(f, frames, cuts, pl, n, rx) && rx.RingReady()
    ensures InPlaces(f, frames, cuts, pl, n + 1, rx.AdvanceRing())
  {
    hide StoreOk, OutputOk, LedgerOk, Kept, RingState, ListState;
    AdvanceRingSafe(f, frames, cuts, 0, n, [], rx);
    ReadyIff(f, frames, cuts, pl, n, rx);
    forall sn: word | sn != rx.next
      ensures RingState(rx.AdvanceRing(), sn) == RingState(rx, sn)
      ensures ListState(rx.AdvanceRing(), sn) == ListState(rx, sn)
    {
      RingOthers(rx, sn);
    }
    OthersKept(cuts, pl, n, rx, rx.AdvanceRing());
  }

  lemma ListPlaces(f: Flags, frames: seq<Frame>, cuts: Ledger, pl: Places, n: nat, rx: Receiver)
    requires InPlaces(f, frames, cuts, pl, n, rx) && rx.OverflowReady()
    ensures InPlaces(f, frames, cuts, pl, n + 1, rx.AdvanceOverflow())
  {
    hide StoreOk, OutputOk, LedgerOk, Kept, RingState, ListState, DistinctSns;
    AdvanceOverflowSafe(f, frames, cuts, 0, n, [], rx);
    ReadyIff(f, frames, cuts, pl, n, rx);
    ListOthers(rx, (rx.next + 1) % SN_COUNT);
    forall sn: word | sn != rx.next
      ensures RingState(rx.AdvanceOverflow(), sn) == RingState(rx, sn)
      ensures ListState(rx.AdvanceOverflow(), sn) == ListState(rx, sn)
    {
      ListOthers(rx, sn);
    }
    OthersKept(cuts, pl, n, rx, rx.AdvanceOverflow());
  }

  /** The loop stops at the first frame of which neither place has been given all. */
  lemma {:induction false} FlushPlaces(f: Flags, frames: seq<Frame>, cuts: Ledger, pl: Places, n: nat, rx: Receiver)
      returns (n': nat)
    requires InPlaces(f, frames, cuts, pl, n, rx)
    ensures InPlaces(f, frames, cuts, pl, n', rx.Flush())
    ensures n' <= |frames| && pl.Of(|frames|) && (n' < |frames| ==> !InOnePlace(frames, pl, n'))
    decreases rx.Held()
  {
    hide LedgerOk, RxSafe, Kept, HandedOut, DistinctSns, InOnePlace;
    HeldDecreases(rx);
    if rx.RingReady() {
      RingPlaces(f, frames, cuts, pl, n, rx);
      n' := FlushPlaces(f, frames, cuts, pl, n + 1, rx.AdvanceRing());
    } else if rx.OverflowReady() {
      ListPlaces(f, frames, cuts, pl, n, rx);
      n' := FlushPlaces(f, frames, cuts, pl, n + 1, rx.AdvanceOverflow());
    } else {
      n' := n;
      if n < |frames| { ReadyIff(f, frames, cuts, pl, n, rx); }
    }
  }

  // ---- runs ----

  lemma StartPlaces(f: Flags, frames: seq<Frame>, cuts: Ledger, r: nat)
    requires f.reordering && LedgerOk(f, frames, cuts) && |frames| < SN_COUNT
    ensures InPlaces(f, frames, cuts, NoPlaces(|frames|), 0, Initial(r))
    ensures 0 < |frames| ==> !InOnePlace(frames, NoPlaces(|frames|), 0)
  {
    var rx, pl := Initial(r), NoPlaces(|frames|);
    assert AllOctets(frames[..0]) == [];
    forall k | 0 <= k < |cuts| ensures KeptFor(cuts, pl, rx, k) {
      FreshHolds(frames[k], cuts[k]);
    }
    if 0 < |frames| { ReadyIff(f, frames, cuts, pl, 0, rx); }
  }

  lemma {:induction false} PlacesRun(f: Flags, frames: seq<Frame>, cuts: Ledger, r: nat, pdus: seq<Pdu>)
      returns (n: nat)
    requires f.reordering && LedgerOk(f, frames, cuts) && |frames| < SN_COUNT && Genuine(cuts, pdus)
    ensures InPlaces(f, frames, cuts, PlacedAll(f, |frames|, Initial(r), pdus), n, ReceiveAll(f, Initial(r), pdus))
    ensures n < |frames| ==> !InOnePlace(frames, PlacedAll(f, |frames|, Initial(r), pdus), n)
    decreases |pdus|
  {
    hide LedgerOk, RxSafe, Kept, HandedOut, DistinctSns, InOnePlace, NoPlaces, Initial;
    if |pdus| == 0 {
      n := 0;
      StartPlaces(f, frames, cuts, r);
    } else {
      var before, p := pdus[..|pdus| - 1], pdus[|pdus| - 1];
      assert forall i :: 0 <= i < |before| ==> before[i] == pdus[i];
      var n0 := PlacesRun(f, frames, cuts, r, before);
      var rx, pl := ReceiveAll(f, Initial(r), before), PlacedAll(f, |frames|, Initial(r), before);
      TakeAllPlaces(f, frames, cuts, pl, n0, rx, p);
      n := FlushPlaces(f, frames, cuts, Placed(f, rx, pl, p), n0, TakeAll(f, rx, Segments(p)));
    }
  }

  /** With fewer than 65536 frames and any ring size, whatever pieces of them arrive, in any order,
      packing and number of copies, late ones included: the output is exactly the frames before the first
      one of which neither the ring nor the overflow list has been given all. */
  lemma DeliversExactly(f: Flags, frames: seq<Frame>, cuts: Ledger, r: nat, pdus: seq<Pdu>)
    requires f.reordering && LedgerOk(f, frames, cuts) && |frames| < SN_COUNT && Genuine(cuts, pdus)
    ensures var rx, pl := ReceiveAll(f, Initial(r), pdus), PlacedAll(f, |frames|, Initial(r), pdus);
            var n := |rx.completed|;
            && pl.Of(|frames|) && n <= |frames| && rx.completed == AllOctets(frames[..n])
            && (forall k :: 0 <= k < n ==> InOnePlace(frames, pl, k))
            && (n < |frames| ==> !InOnePlace(frames, pl, n))
  {
    hide LedgerOk, Genuine, StoreOk, Kept, DistinctSns, InOnePlace, ReceiveAll, PlacedAll;
    var n := PlacesRun(f, frames, cuts, r, pdus);
    DeliveredCount(frames, n, ReceiveAll(f, Initial(r), pdus));
  }

  /** All frames are handed out if and only if each has been given to one place completely. */
  lemma DeliveredIff(f: Flags, frames: seq<Frame>, cuts: Ledger, r: nat, pdus: seq<Pdu>)
    requires f.reordering && LedgerOk(f, frames, cuts) && |frames| < SN_COUNT && Genuine(cuts, pdus)
    ensures var pl := PlacedAll(f, |frames|, Initial(r), pdus);
            && pl.Of(|frames|)
            && (ReceiveAll(f, Initial(r), pdus).completed == AllOctets(frames) <==>
                forall k :: 0 <= k < |frames| ==> InOnePlace(frames, pl, k))
  {
    hide LedgerOk, Genuine, InOnePlace, ReceiveAll, PlacedAll;
    DeliversExactly(f, frames, cuts, r, pdus);
    assert frames[..|frames|] == frames;
  }

  // ---- what has been noted, and pieces that come once ----

  ghost predicate Noted(pl: Places, k: nat, s: Segment)
    requires k < |pl.ring| == |pl.list|
  {
    s in pl.ring[k] || s in pl.list[k]
  }

  lemma {:induction false} PlacedContents(f: Flags, rx: Receiver, pl: Places, p: Pdu, n: nat, k: nat)
    requires pl.Of(n) && k < n
    ensures Placed(f, rx, pl, p).Of(n)
    ensures forall s :: Noted(Placed(f, rx, pl, p), k, s) <==> Noted(pl, k, s) || Piece(k, s) in p
    decreases |p|
  {
    if |p| > 0 {
      PlacedContents(f, rx.Take(f, p[0].seg), pl.Note(rx, p[0]), p[1..], n, k);
      assert forall x :: x in p <==> x == p[0] || x in p[1..];
    }
  }

  /** Together the two places have been given exactly what has arrived. */
  lemma {:induction false} NotedArrived(f: Flags, n: nat, rx: Receiver, pdus: seq<Pdu>, k: nat)
    requires k < n
    ensures PlacedAll(f, n, rx, pdus).Of(n)
    ensures forall s :: Noted(PlacedAll(f, n, rx, pdus), k, s) <==> Arrived(pdus, k, s)
    decreases |pdus|
  {
    if |pdus| > 0 {
      var before, p := pdus[..|pdus| - 1], pdus[|pdus| - 1];
      NotedArrived(f, n, rx, before, k);
      PlacedContents(f, ReceiveAll(f, rx, before), PlacedAll(f, n, rx, before), p, n, k);
      forall s ensures Noted(PlacedAll(f, n, rx, pdus), k, s) <==> Arrived(pdus, k, s) {
        ArrivedLast(pdus, k, s);
      }
    }
  }

  ghost predicate NoTwice(p: Pdu) {
    forall a, b :: 0 <= a < b < |p| ==> p[a] != p[b]
  }

  ghost predicate Apart(p: Pdu, q: Pdu) {
    forall x :: x in p ==> x !in q
  }

  /** No piece arrives twice. */
  ghost predicate Once(pdus: seq<Pdu>) {
    && (forall i :: 0 <= i < |pdus| ==> NoTwice(pdus[i]))
    && (forall i, j :: 0 <= i < j < |pdus| ==> Apart(pdus[i], pdus[j]))
  }

  lemma {:induction false} PlacedApart(f: Flags, rx: Receiver, pl: Places, p: Pdu, n: nat, k: nat)
    requires pl.Of(n) && k < n && pl.ring[k] !! pl.list[k] && NoTwice(p)
    requires forall j :: 0 <= j < |p| && p[j].frame == k ==> !Noted(pl, k, p[j].seg)
    ensures Placed(f, rx, pl, p).Of(n) && Placed(f, rx, pl, p).ring[k] !! Placed(f, rx, pl, p).list[k]
    decreases |p|
  {
    if |p| > 0 {
      assert forall j :: 0 <= j < |p| - 1 ==> p[1..][j] == p[j + 1] && p[j + 1] != p[0];
      PlacedApart(f, rx.Take(f, p[0].seg), pl.Note(rx, p[0]), p[1..], n, k);
    }
  }

  lemma {:induction false} OnceApart(f: Flags, n: nat, rx: Receiver, pdus: seq<Pdu>, k: nat)
    requires Once(pdus) && k < n
    ensures var pl := PlacedAll(f, n, rx, pdus); pl.Of(n) && pl.ring[k] !! pl.list[k]
    decreases |pdus|
  {
    if |pdus| > 0 {
      var before, p := pdus[..|pdus| - 1], pdus[|pdus| - 1];
      assert forall i :: 0 <= i < |before| ==> before[i] == pdus[i];
      OnceApart(f, n, rx, before, k);
      NotedArrived(f, n, rx, before, k);
      forall j | 0 <= j < |p| && p[j].frame == k ensures !Arrived(before, k, p[j].seg) {
        assert p[j] == Piece(k, p[j].seg);
        assert forall i :: 0 <= i < |before| ==> Apart(before[i], p);
      }
      PlacedApart(f, ReceiveAll(f, rx, before), PlacedAll(f, n, rx, before), p, n, k);
    }
  }

  lemma OneIsAll(frame: Frame, cut: set<Segment>, a: set<Segment>, b: set<Segment>)
    requires CutOf(frame, cut) && Covers(frame, cut) && a + b == cut && a !! b
    ensures Covers(frame, a) || Covers(frame, b) <==> a == {} || b == {}
  {
    CoversAllPieces(frame, cut, a);
    CoversAllPieces(frame, cut, b);
    assert a == {} <==> b == cut;
    assert b == {} <==> a == cut;
  }

  /** When every piece arrives exactly once, all frames are handed out if and only if no frame has
      pieces in both places. */
  lemma DeliveredOnce(f: Flags, frames: seq<Frame>, cuts: Ledger, r: nat, pdus: seq<Pdu>)
    requires f.reordering && LedgerOk(f, frames, cuts) && |frames| < SN_COUNT && Genuine(cuts, pdus) && Once(pdus)
    requires forall k :: 0 <= k < |frames| ==> Covers(frames[k], cuts[k]) && AllArrived(cuts, pdus, k)
    ensures var pl := PlacedAll(f, |frames|, Initial(r), pdus);
            && pl.Of(|frames|)
            && (ReceiveAll(f, Initial(r), pdus).completed == AllOctets(frames) <==>
                forall k :: 0 <= k < |frames| ==> pl.ring[k] == {} || pl.list[k] == {})
  {
    hide PlacedAll, ReceiveAll, Once, Covers, CutOf;
    var pl := PlacedAll(f, |frames|, Initial(r), pdus);
    DeliveredIff(f, frames, cuts, r, pdus);
    forall k | 0 <= k < |frames| ensures InOnePlace(frames, pl, k) <==> pl.ring[k] == {} || pl.list[k] == {} {
      NotedArrived(f, |frames|, Initial(r), pdus, k);
      OnceApart(f, |frames|, Initial(r), pdus, k);
      forall s ensures s in pl.ring[k] + pl.list[k] <==> s in cuts[k] {
        assert Noted(pl, k, s) <==> Arrived(pdus, k, s);
      }
      OneIsAll(frames[k], cuts[k], pl.ring[k], pl.list[k]);
    }
  }
}
