/** What one scheduler tick guarantees, for every behaviour of the LLCs. */
module ScheduleLaws {
  import opened Arith
  import opened Bytes
  import opened Schedule

  // ---- the payload ----

  /** The calls in the log, from entry `from` on, were made in a row: each is offered a part of what
      is left, takes no more than offered, and the next starts where it ended. */
  ghost predicate Packed(log: seq<Offer>, from: nat, cursor: nat, remaining: nat) {
    && (forall k :: from <= k < |log| ==> log[k].taken <= log[k].size <= log[k].room)
    && (forall k :: from <= k < |log| - 1 ==> Follows(log[k], log[k + 1]))
    && (from < |log| ==>
          && cursor == log[|log| - 1].base + log[|log| - 1].taken
          && remaining == log[|log| - 1].room - log[|log| - 1].taken)
  }

  predicate Follows(a: Offer, b: Offer) {
    b.base == a.base + a.taken && b.room + a.taken == a.room
  }

  ghost predicate PayloadOk(s0: State, s: State) {
    && |s0.log| <= |s.log| && s.log[..|s0.log|] == s0.log
    && s.cursor + s.remaining == s0.cursor + s0.remaining && s0.cursor <= s.cursor
    && Packed(s.log, |s0.log|, s.cursor, s.remaining)
    && (|s.log| == |s0.log| ==> s.cursor == s0.cursor)
    && (|s.log| > |s0.log| ==> s.log[|s0.log|].base == s0.cursor && s.log[|s0.log|].room == s0.remaining)
  }

  lemma CallPayload(replies: Replies, s0: State, s: State, i: nat, data: bool, size: nat, x: Sched)
    requires PayloadOk(s0, s) && i < |s.scheds| && size <= s.remaining
    ensures PayloadOk(s0, Call(replies, s, i, data, size, x))
  {
    var s' := Call(replies, s, i, data, size, x);
    assert s'.log[..|s0.log|] == s.log[..|s0.log|];
    forall k | |s0.log| <= k < |s'.log| - 1 ensures Follows(s'.log[k], s'.log[k + 1]) {
      assert s'.log[k] == s.log[k];
      if k + 1 < |s.log| {
        assert s'.log[k + 1] == s.log[k + 1];
      }
    }
  }

  lemma {:induction false} VisitPayload(replies: Replies, s0: State, s: State, order: seq<nat>, most: nat)
    requires Distinct(order, |s.scheds|) && PayloadOk(s0, s)
    ensures PayloadOk(s0, Visit(replies, s, order, most).0)
    decreases |order|
  {
    hide PayloadOk;
    if |order| > 0 && !s.scheds[order[0]].loaded {
      DistinctTail(order, |s.scheds|);
      var size := Min(s.remaining, s.scheds[order[0]].deficit);
      CallPayload(replies, s0, s, order[0], true, size,
                  s.scheds[order[0]].(loaded := replies(s.calls).loaded,
                                      currentAlloc := Min(replies(s.calls).wants, size)));
      VisitPayload(replies, s0, OfferOne(replies, s, order[0]), order[1..], Max(most, s.scheds[order[0]].deficit));
    }
  }

  lemma {:induction false} RoundsPayload(replies: Replies, cache: seq<nat>, s: State, orders: seq<seq<nat>>)
    requires Distinct(cache, |s.scheds|) && AllDistinct(orders, |s.scheds|)
    ensures PayloadOk(s, After(replies, cache, s, orders).0)
  {
    if |orders| > 0 {
      var before := orders[..|orders| - 1];
      RoundsPayload(replies, cache, s, before);
      var s1 := After(replies, cache, s, before).0;
      VisitPayload(replies, s, s1.(scheds := AddQuanta(s1.scheds, cache)), orders[|orders| - 1], 0);
    }
  }

  lemma PayloadSame(s: State)
    ensures PayloadOk(s, s)
  {}

  lemma {:induction false} ProbePayload(replies: Replies, present: seq<bool>, s: State, n: nat)
    requires n <= |present| == |s.scheds|
    ensures PayloadOk(s, Probed(replies, present, s, n))
  {
    hide PayloadOk, Call;
    if n == 0 {
      PayloadSame(s);
    } else {
      ProbePayload(replies, present, s, n - 1);
      if present[n - 1] {
        var b := Probed(replies, present, s, n - 1);
        var x, r := b.scheds[n - 1], replies(b.calls);
        CallPayload(replies, s, b, n - 1, false, Min(b.remaining, x.ndMax),
                    x.(schedulable := r.available, loaded := r.loaded,
                       deficit := if r.available then x.deficit else x.deficit * 8 / 10));
      }
    }
  }

  /** What the probe leaves of a context: detached LLCs are untouched, an LLC with something to send
      keeps its deficit, and one without loses at least a fifth of it. */
  predicate ProbedFrom(x: Sched, y: Sched, attached: bool) {
    && y.quanta == x.quanta && y.ndMax == x.ndMax && y.currentAlloc == x.currentAlloc
    && (!attached ==> y == x)
    && (attached && y.schedulable ==> y.deficit == x.deficit)
    && (attached && !y.schedulable ==> 10 * y.deficit <= 8 * x.deficit < 10 * (y.deficit + 1))
  }

  /** Entry `k` of the log offers the smaller of what is left and the limit of its LLC, and the LLC's answer
      is what is noted of it. */
  ghost predicate ProbeNoted(scheds: seq<Sched>, scheds': seq<Sched>, o: Offer, r: Reply) {
    && o.llc < |scheds| == |scheds'| && !o.data
    && o.size == Min(o.room, scheds[o.llc].ndMax) && o.taken == Min(r.wants, o.size)
    && scheds'[o.llc].schedulable == r.available && scheds'[o.llc].loaded == r.loaded == o.loaded
  }

  /** The probe asks every attached LLC exactly once, in order, offering what is left up to its limit. */
  lemma {:induction false} ProbeEffect(replies: Replies, present: seq<bool>, s: State, n: nat, s': State)
    requires n <= |present| == |s.scheds| && s' == Probed(replies, present, s, n)
    ensures forall i :: 0 <= i < n ==> ProbedFrom(s.scheds[i], s'.scheds[i], present[i])
    ensures forall i :: n <= i < |s.scheds| ==> s'.scheds[i] == s.scheds[i]
    ensures |s.log| <= |s'.log| && forall k :: |s.log| <= k < |s'.log| ==>
              && s'.log[k].llc < n && present[s'.log[k].llc]
              && ProbeNoted(s.scheds, s'.scheds, s'.log[k], replies(s.calls + k - |s.log|))
    ensures s'.calls == s.calls + |s'.log| - |s.log|
    ensures forall a, b :: |s.log| <= a < b < |s'.log| ==> s'.log[a].llc < s'.log[b].llc
    ensures |s'.log| - |s.log| == Attached(present, n)
  {
    if n > 0 {
      ProbeEffect(replies, present, s, n - 1, Probed(replies, present, s, n - 1));
    }
  }

  function Attached(present: seq<bool>, n: nat): (k: nat)
    requires n <= |present|
    ensures k <= n
  {
    if n == 0 then 0 else Attached(present, n - 1) + if present[n - 1] then 1 else 0
  }

  // ---- who is offered space in a round ----

  /** How many LLCs at the front of the order have no data. */
  function Leading(scheds: seq<Sched>, order: seq<nat>): (n: nat)
    requires Distinct(order, |scheds|)
    ensures n <= |order|
    ensures forall k :: 0 <= k < n ==> !scheds[order[k]].loaded
    ensures n < |order| ==> scheds[order[n]].loaded
    decreases |order|
  {
    if |order| == 0 || scheds[order[0]].loaded then 0
    else
      DistinctTail(order, |scheds|);
      var m := Leading(scheds, order[1..]);
      assert forall k :: 0 < k < 1 + m ==> order[k] == order[1..][k - 1];
      1 + m
  }

  /** The entry of the log for a data offer to LLC `i`, and what it left behind in its context. */
  ghost predicate OfferedTo(o: Offer, i: nat, x: Sched, x': Sched) {
    && o.llc == i && o.data && o.size == Min(o.room, x.deficit)
    && x' == x.(loaded := o.loaded, currentAlloc := o.taken)
  }

  /** A round from quanta-credited contexts `scheds`: the first `n` LLCs of the order were offered
      space, in that order, once each, and nobody else was touched. */
  ghost predicate Offered(scheds: seq<Sched>, scheds': seq<Sched>, offers: seq<Offer>, order: seq<nat>, n: nat)
    requires Distinct(order, |scheds|) && n <= |order|
  {
    && |scheds'| == |scheds| && |offers| == n
    && (forall k :: 0 <= k < n ==> OfferedTo(offers[k], order[k], scheds[order[k]], scheds'[order[k]]))
    && (forall i :: 0 <= i < |scheds| && i !in order[..n] ==> scheds'[i] == scheds[i])
  }

  lemma {:induction false} VisitOffers(replies: Replies, s: State, order: seq<nat>, most: nat, s': State)
    requires Distinct(order, |s.scheds|) && s' == Visit(replies, s, order, most).0
    ensures |s.log| <= |s'.log| && s'.log[..|s.log|] == s.log
    ensures Offered(s.scheds, s'.scheds, s'.log[|s.log|..], order, Leading(s.scheds, order))
    decreases |order|
  {
    if |order| > 0 && !s.scheds[order[0]].loaded {
      DistinctTail(order, |s.scheds|);
      var s1 := OfferOne(replies, s, order[0]);
      VisitOffers(replies, s1, order[1..], Max(most, s.scheds[order[0]].deficit), s');
      LeadingSame(s.scheds, s1.scheds, order[1..]);
      OfferedNext(s, s1, s', order, Leading(s.scheds, order[1..]));
    }
  }

  lemma {:induction false} LeadingSame(a: seq<Sched>, b: seq<Sched>, order: seq<nat>)
    requires |a| == |b| && Distinct(order, |a|)
    requires forall k :: 0 <= k < |order| ==> a[order[k]].loaded == b[order[k]].loaded
    ensures Leading(a, order) == Leading(b, order)
    decreases |order|
  {
    if |order| > 0 {
      DistinctTail(order, |a|);
      assert forall k :: 0 <= k < |order| - 1 ==> order[1..][k] == order[k + 1];
      LeadingSame(a, b, order[1..]);
    }
  }

  lemma OfferedNext(s: State, s1: State, s': State, order: seq<nat>, m: nat)
    requires |order| > 0 && Distinct(order, |s.scheds|) && Distinct(order[1..], |s.scheds|)
    requires order[0] !in order[1..] && m < |order|
    requires |s1.scheds| == |s.scheds| && |s1.log| == |s.log| + 1 && s1.log[..|s.log|] == s.log
    requires OfferedTo(s1.log[|s.log|], order[0], s.scheds[order[0]], s1.scheds[order[0]])
    requires forall i :: 0 <= i < |s.scheds| && i != order[0] ==> s1.scheds[i] == s.scheds[i]
    requires |s1.log| <= |s'.log| && s'.log[..|s1.log|] == s1.log
    requires Offered(s1.scheds, s'.scheds, s'.log[|s1.log|..], order[1..], m)
    ensures s'.log[..|s.log|] == s.log && Offered(s.scheds, s'.scheds, s'.log[|s.log|..], order, m + 1)
  {
    assert s'.log[..|s.log|] == s'.log[..|s1.log|][..|s.log|];
    var offers, later := s'.log[|s.log|..], s'.log[|s1.log|..];
    assert offers[0] == s'.log[..|s1.log|][|s.log|];
    assert order[0] !in order[1..][..m];
    forall k | 0 <= k < m + 1 ensures OfferedTo(offers[k], order[k], s.scheds[order[k]], s'.scheds[order[k]]) {
      if k > 0 {
        assert offers[k] == later[k - 1] && order[k] == order[1..][k - 1];
      }
    }
    forall i | 0 <= i < |s.scheds| && i !in order[..m + 1] ensures s'.scheds[i] == s.scheds[i] {
      assert order[..m + 1] == [order[0]] + order[1..][..m];
    }
  }

  /** Sorting puts every LLC without data first, if all of them have a positive deficit. */
  lemma UnloadedFirst(scheds: seq<Sched>, cache: seq<nat>, order: seq<nat>, i: nat)
    requires Distinct(cache, |scheds|) && SortedOrder(scheds, cache, order) && i in cache
    requires forall j :: j in cache && !scheds[j].loaded ==> scheds[j].deficit > 0
    ensures i in order && (i in order[..Leading(scheds, order)] <==> !scheds[i].loaded)
  {
    assert i in multiset(cache) && i in multiset(order);
    var k :| 0 <= k < |order| && order[k] == i;
    var n := Leading(scheds, order);
    if k >= n {
      assert order[n] in multiset(order);
      assert Key(scheds[order[n]]) == 0;
      if k > n {
        assert Key(scheds[order[n]]) >= Key(scheds[order[k]]);
      }
      assert scheds[i].loaded;
    } else {
      assert order[..n][k] == i;
    }
    assert forall a :: 0 <= a < n ==> !scheds[order[..n][a]].loaded;
  }

  /** In every round that starts, each schedulable LLC without data is offered space exactly once, the
      largest deficit first, each time as much as is left or its deficit covers, and no other is. */
  lemma RoundOffers(replies: Replies, cache: seq<nat>, s: State, order: seq<nat>, s': State)
    requires Distinct(cache, |s.scheds|) && SortedOrder(AddQuanta(s.scheds, cache), cache, order)
    requires s' == Round(replies, cache, s, order).0
    requires forall j :: j in cache && !s.scheds[j].loaded ==> s.scheds[j].quanta > 0
    ensures var credited := AddQuanta(s.scheds, cache);
            var n := Leading(credited, order);
            && |s.log| <= |s'.log| && s'.log[..|s.log|] == s.log
            && Offered(credited, s'.scheds, s'.log[|s.log|..], order, n)
            && (forall i :: i in cache ==> (i in order[..n] <==> !s.scheds[i].loaded))
            && (forall a, b :: 0 <= a < b < n ==> credited[order[a]].deficit >= credited[order[b]].deficit)
  {
    var credited := AddQuanta(s.scheds, cache);
    VisitOffers(replies, s.(scheds := credited), order, 0, s');
    forall i | i in cache ensures i in order[..Leading(credited, order)] <==> !s.scheds[i].loaded {
      UnloadedFirst(credited, cache, order, i);
    }
    var n := Leading(credited, order);
    forall a, b | 0 <= a < b < n ensures credited[order[a]].deficit >= credited[order[b]].deficit {
      assert Key(credited[order[a]]) >= Key(credited[order[b]]);
    }
  }

  // ---- how many rounds ----

  /** Every schedulable LLC without data has at least `q` quanta. */
  predicate Positive(scheds: seq<Sched>, cache: seq<nat>, q: nat)
    requires forall k :: 0 <= k < |cache| ==> cache[k] < |scheds|
  {
    q > 0 && forall k :: 0 <= k < |cache| && !scheds[cache[k]].loaded ==> scheds[cache[k]].quanta >= q
  }

  /** The deficit after `n` credits. */
  function Credit(x: Sched, n: nat): nat {
    if n == 0 then x.deficit else Credit(x, n - 1) + x.quanta
  }

  lemma {:induction false} CreditIs(x: Sched, n: nat)
    ensures Credit(x, n) == x.deficit + n * x.quanta
  {
    if n > 0 {
      CreditIs(x, n - 1);
      assert n * x.quanta == (n - 1) * x.quanta + x.quanta;
    }
  }

  /** The context has been credited its quanta `n` times and keeps its settings. */
  predicate CreditedTimes(x: Sched, y: Sched, n: nat) {
    y == x.(deficit := Credit(x, n), loaded := y.loaded, currentAlloc := y.currentAlloc)
  }

  lemma CreditOnce(x: Sched, y: Sched, z: Sched, n: nat)
    requires CreditedTimes(x, y, n)
    requires z == y.(deficit := y.deficit + y.quanta, loaded := z.loaded, currentAlloc := z.currentAlloc)
    ensures CreditedTimes(x, z, n + 1)
  {}

  /** Every schedulable LLC has been credited in each of `n` rounds, and nobody else has changed. */
  ghost predicate Credited(cache: seq<nat>, a: seq<Sched>, b: seq<Sched>, n: nat) {
    |a| == |b| && forall i :: 0 <= i < |a| ==> if i in cache then CreditedTimes(a[i], b[i], n) else b[i] == a[i]
  }

  /** One round credits the schedulable LLCs once. */
  lemma RoundCreditsOnce(replies: Replies, cache: seq<nat>, s: State, order: seq<nat>, s': State, i: nat)
    requires Distinct(cache, |s.scheds|) && SortedOrder(AddQuanta(s.scheds, cache), cache, order)
    requires s' == Round(replies, cache, s, order).0 && i < |s.scheds|
    ensures var x, y := s.scheds[i], s'.scheds[i];
            if i in cache
            then y == x.(deficit := x.deficit + x.quanta, loaded := y.loaded, currentAlloc := y.currentAlloc)
            else y == x
  {
    var credited := AddQuanta(s.scheds, cache);
    var m := Leading(credited, order);
    VisitOffers(replies, s.(scheds := credited), order, 0, s');
    if i in order[..m] {
      var k :| 0 <= k < m && order[..m][k] == i;
      assert OfferedTo(s'.log[|s.log|..][k], order[k], credited[order[k]], s'.scheds[order[k]]);
      assert i in multiset(order);
    }
  }

  lemma RoundCredits(replies: Replies, cache: seq<nat>, s0: seq<Sched>, n: nat, s: State, order: seq<nat>, s': State)
    requires Distinct(cache, |s.scheds|) && SortedOrder(AddQuanta(s.scheds, cache), cache, order)
    requires s' == Round(replies, cache, s, order).0 && Credited(cache, s0, s.scheds, n)
    ensures Credited(cache, s0, s'.scheds, n + 1)
  {
    forall i | 0 <= i < |s0|
      ensures if i in cache then CreditedTimes(s0[i], s'.scheds[i], n + 1) else s'.scheds[i] == s0[i]
    {
      RoundCreditsOnce(replies, cache, s, order, s', i);
      if i in cache {
        CreditOnce(s0[i], s.scheds[i], s'.scheds[i], n);
      }
    }
  }

  lemma {:induction false} RoundsCredit(replies: Replies, cache: seq<nat>, s: State, orders: seq<seq<nat>>)
    requires Distinct(cache, |s.scheds|) && AllDistinct(orders, |s.scheds|) && Rounds(replies, cache, s, orders)
    ensures Credited(cache, s.scheds, After(replies, cache, s, orders).0.scheds, |orders|)
  {
    if |orders| > 0 {
      var before := orders[..|orders| - 1];
      RoundsCredit(replies, cache, s, before);
      RoundCredits(replies, cache, s.scheds, |before|, After(replies, cache, s, before).0, orders[|orders| - 1],
                   After(replies, cache, s, orders).0);
    }
  }

  lemma {:induction false} MostOffered(replies: Replies, s: State, order: seq<nat>, most: nat)
    requires Distinct(order, |s.scheds|)
    ensures Visit(replies, s, order, most).1 >= most
    ensures |order| > 0 && !s.scheds[order[0]].loaded ==> Visit(replies, s, order, most).1 >= s.scheds[order[0]].deficit
    decreases |order|
  {
    if |order| > 0 && !s.scheds[order[0]].loaded {
      DistinctTail(order, |s.scheds|);
      MostOffered(replies, OfferOne(replies, s, order[0]), order[1..], Max(most, s.scheds[order[0]].deficit));
    }
  }

  /** A round that is not the last one offered somebody a deficit that is still available. */
  lemma NotLast(replies: Replies, cache: seq<nat>, s: State, order: seq<nat>, s': State)
    requires Distinct(cache, |s.scheds|) && SortedOrder(AddQuanta(s.scheds, cache), cache, order)
    requires Round(replies, cache, s, order) == (s', false)
    ensures exists i :: i in cache && !s.scheds[i].loaded && AddQuanta(s.scheds, cache)[i].deficit <= s'.remaining
  {
    var s1 := s.(scheds := AddQuanta(s.scheds, cache));
    MostOffered(replies, s1, order, 0);
    assert order[0] in multiset(order);
  }

  lemma QuantaAtLeast(x: Sched, y: Sched, n: nat, q: nat)
    requires CreditedTimes(x, y, n) && x.quanta >= q
    ensures n * q <= y.deficit
  {
    CreditIs(x, n);
    MulMonotone(q, x.quanta, n);
    assert n * q == q * n && n * x.quanta == x.quanta * n;
  }

  /** While rounds go on, the rounds so far, at the least quanta each, fit in what is left. */
  lemma {:induction false} RoundsFit(replies: Replies, cache: seq<nat>, s: State, orders: seq<seq<nat>>, q: nat)
    requires Distinct(cache, |s.scheds|) && AllDistinct(orders, |s.scheds|) && Rounds(replies, cache, s, orders)
    requires Positive(s.scheds, cache, q) && !After(replies, cache, s, orders).1
    ensures |orders| * q <= After(replies, cache, s, orders).0.remaining
  {
    hide Round, SortedOrder;
    var n := |orders|;
    if n > 0 {
      var before := orders[..n - 1];
      var s1, s2 := After(replies, cache, s, before).0, After(replies, cache, s, orders).0;
      RoundsCredit(replies, cache, s, before);
      NotLast(replies, cache, s1, orders[n - 1], s2);
      var i :| i in cache && !s1.scheds[i].loaded && AddQuanta(s1.scheds, cache)[i].deficit <= s2.remaining;
      RoundsLoad(replies, cache, s, before);
      assert LoadOk(s, s1, i);
      CreditOnce(s.scheds[i], s1.scheds[i], AddQuanta(s1.scheds, cache)[i], n - 1);
      QuantaAtLeast(s.scheds[i], AddQuanta(s1.scheds, cache)[i], n, q);
    }
  }

  /** A tick has at most payload / least quanta + 1 rounds. */
  lemma RoundBound(replies: Replies, cache: seq<nat>, s: State, orders: seq<seq<nat>>, q: nat)
    requires Distinct(cache, |s.scheds|) && AllDistinct(orders, |s.scheds|) && Rounds(replies, cache, s, orders)
    requires Positive(s.scheds, cache, q)
    ensures |orders| <= s.remaining / q + 1
  {
    if |orders| > 0 {
      var before := orders[..|orders| - 1];
      RoundsFit(replies, cache, s, before, q);
      RoundsPayload(replies, cache, s, before);
      QuotientBound(|before|, q, s.remaining);
    }
  }

  // ---- who has loaded data ----

  /** The offers of this tick's rounds to LLC `i` that ended with data loaded. */
  predicate LoadedBy(o: Offer, i: nat, amount: nat) {
    o.llc == i && o.data && o.loaded && o.taken == amount
  }

  /** An LLC that has data either claimed it in the probe, and is as it was, or loaded it in the
      round logged, which is then what it will be charged, and no more than its deficit. */
  ghost predicate LoadOk(s0: State, s: State, i: nat)
    requires i < |s0.scheds| == |s.scheds|
  {
    if s0.scheds[i].loaded then s.scheds[i].loaded && s.scheds[i].currentAlloc == s0.scheds[i].currentAlloc
    else s.scheds[i].loaded ==>
      && s.scheds[i].currentAlloc <= s.scheds[i].deficit
      && exists k :: |s0.log| <= k < |s.log| && LoadedBy(s.log[k], i, s.scheds[i].currentAlloc)
  }

  ghost predicate LoadsOk(s0: State, s: State) {
    |s0.scheds| == |s.scheds| && forall i :: 0 <= i < |s.scheds| ==> LoadOk(s0, s, i)
  }

  /** Once an LLC has loaded data in this tick it has been offered nothing more. */
  ghost predicate LoadedOnce(log: seq<Offer>, from: nat) {
    forall a, b :: from <= a < b < |log| && log[a].llc == log[b].llc ==> !log[a].loaded
  }

  ghost predicate LogLoaded(s0: State, s: State) {
    forall k :: |s0.log| <= k < |s.log| && s.log[k].loaded ==>
      s.log[k].llc < |s.scheds| && s.scheds[s.log[k].llc].loaded
  }

  ghost predicate LoadInv(s0: State, s: State) {
    |s0.log| <= |s.log| && LoadsOk(s0, s) && LoadedOnce(s.log, |s0.log|) && LogLoaded(s0, s)
  }

  lemma QuantaKeepLoads(cache: seq<nat>, s0: State, s: State)
    requires Distinct(cache, |s.scheds|) && LoadInv(s0, s)
    ensures LoadInv(s0, s.(scheds := AddQuanta(s.scheds, cache)))
  {
    var s1 := s.(scheds := AddQuanta(s.scheds, cache));
    forall i | 0 <= i < |s.scheds| ensures LoadOk(s0, s1, i) {
      assert LoadOk(s0, s, i);
    }
  }

  lemma OfferLoads(replies: Replies, s0: State, s: State, i: nat, s': State)
    requires LoadInv(s0, s) && i < |s.scheds| && !s.scheds[i].loaded && s' == OfferOne(replies, s, i)
    ensures LoadInv(s0, s')
  {
    assert forall k :: 0 <= k < |s.log| ==> s'.log[k] == s.log[k];
    assert LoadOk(s0, s, i);
    forall j | 0 <= j < |s.scheds| ensures LoadOk(s0, s', j) {
      assert LoadOk(s0, s, j);
      if j == i {
        if s'.scheds[i].loaded {
          assert LoadedBy(s'.log[|s.log|], i, s'.scheds[i].currentAlloc);
        }
      } else if !s0.scheds[j].loaded && s.scheds[j].loaded {
        var k :| |s0.log| <= k < |s.log| && LoadedBy(s.log[k], j, s.scheds[j].currentAlloc);
        assert LoadedBy(s'.log[k], j, s'.scheds[j].currentAlloc);
      }
    }
  }

  lemma {:induction false} VisitLoads(replies: Replies, s0: State, s: State, order: seq<nat>, most: nat)
    requires Distinct(order, |s.scheds|) && LoadInv(s0, s)
    ensures LoadInv(s0, Visit(replies, s, order, most).0)
    decreases |order|
  {
    if |order| > 0 && !s.scheds[order[0]].loaded {
      DistinctTail(order, |s.scheds|);
      OfferLoads(replies, s0, s, order[0], OfferOne(replies, s, order[0]));
      VisitLoads(replies, s0, OfferOne(replies, s, order[0]), order[1..], Max(most, s.scheds[order[0]].deficit));
    }
  }

  /** In one tick an LLC loads data at most once, and then gets no further offer. */
  lemma {:induction false} RoundsLoad(replies: Replies, cache: seq<nat>, s: State, orders: seq<seq<nat>>)
    requires Distinct(cache, |s.scheds|) && AllDistinct(orders, |s.scheds|)
    ensures LoadInv(s, After(replies, cache, s, orders).0)
  {
    if |orders| > 0 {
      var before := orders[..|orders| - 1];
      var s1 := After(replies, cache, s, before).0;
      RoundsLoad(replies, cache, s, before);
      QuantaKeepLoads(cache, s, s1);
      VisitLoads(replies, s, s1.(scheds := AddQuanta(s1.scheds, cache)), orders[|orders| - 1], 0);
    }
  }

  // ---- charging ----

  /** The new deficit is the old one plus the rounds' quanta minus what was charged. */
  predicate ChargedExactly(x: Sched, x': Sched, n: nat, charge: nat) {
    x'.deficit + charge == x.deficit + n * x.quanta
  }

  /** Charging after the rounds: an LLC that loaded data in a round is charged that offer, an LLC
      without data nothing; one that claimed data in the probe is charged what an earlier tick left in
      its context, and the subtraction wraps exactly if that exceeds its deficit. */
  lemma Charging(replies: Replies, cache: seq<nat>, s: State, orders: seq<seq<nat>>, i: nat, s1: State, x: Sched,
                 x': Sched)
    requires Distinct(cache, |s.scheds|) && AllDistinct(orders, |s.scheds|) && Rounds(replies, cache, s, orders)
    requires i in cache && s1 == After(replies, cache, s, orders).0 && x == s.scheds[i]
    requires x' == Charged(s1.scheds, cache)[i]
    ensures !s1.scheds[i].loaded ==> !x.loaded && ChargedExactly(x, x', |orders|, 0)
    ensures s1.scheds[i].loaded && !x.loaded ==>
              exists k ::
                && |s.log| <= k < |s1.log| && LoadedBy(s1.log[k], i, s1.log[k].taken)
                && ChargedExactly(x, x', |orders|, s1.log[k].taken)
    ensures x.loaded ==>
              (ChargedExactly(x, x', |orders|, x.currentAlloc) <==> x.currentAlloc <= x.deficit + |orders| * x.quanta)
    ensures s1.scheds[i].loaded ==> x'.currentAlloc == 0
  {
    RoundsCredit(replies, cache, s, orders);
    RoundsLoad(replies, cache, s, orders);
    CreditIs(x, |orders|);
    assert LoadOk(s, s1, i);
    if s1.scheds[i].loaded && !x.loaded {
      var k :| |s.log| <= k < |s1.log| && LoadedBy(s1.log[k], i, s1.scheds[i].currentAlloc);
      assert ChargedExactly(x, x', |orders|, s1.log[k].taken);
    }
  }

  /** One that claimed data in the probe is charged exactly if what was left in its context did not
      exceed its deficit even before the tick's rounds. */
  lemma SmallClaim(replies: Replies, cache: seq<nat>, s: State, orders: seq<seq<nat>>, i: nat, s1: State,
                   x: Sched, x': Sched)
    requires Distinct(cache, |s.scheds|) && AllDistinct(orders, |s.scheds|) && Rounds(replies, cache, s, orders)
    requires i in cache && s1 == After(replies, cache, s, orders).0
    requires x == s.scheds[i] && x' == Charged(s1.scheds, cache)[i]
    requires x.loaded && x.currentAlloc <= x.deficit
    ensures ChargedExactly(x, x', |orders|, x.currentAlloc)
  {
    MulMonotone(0, |orders|, x.quanta);
    Charging(replies, cache, s, orders, i, s1, x, x');
  }

  /** If no answer of the probe claims data, no attached LLC has data when the rounds start. */
  lemma {:induction false} NothingClaimed(replies: Replies, present: seq<bool>, s: State, n: nat, s': State)
    requires n <= |present| == |s.scheds| && s' == Probed(replies, present, s, n)
    requires forall c: nat :: s.calls <= c < s'.calls ==> !replies(c).loaded
    ensures s.calls <= s'.calls && forall i :: 0 <= i < n && present[i] ==> !s'.scheds[i].loaded
  {
    if n > 0 {
      NothingClaimed(replies, present, s, n - 1, Probed(replies, present, s, n - 1));
    }
  }

  /** Then every charge of the tick is exact: what the LLC was given in the round in which it loaded
      data, or nothing. */
  lemma UnclaimedCharges(replies: Replies, present: seq<bool>, s: State, orders: seq<seq<nat>>, i: nat)
    requires |present| == |s.scheds|
    requires var probed := Probed(replies, present, s, |present|);
             var cache := Cache(present, probed.scheds, |present|);
             && (forall c: nat :: s.calls <= c < probed.calls ==> !replies(c).loaded)
             && AllDistinct(orders, |probed.scheds|) && Rounds(replies, cache, probed, orders) && i in cache
    ensures var probed := Probed(replies, present, s, |present|);
            var cache := Cache(present, probed.scheds, |present|);
            var done := After(replies, cache, probed, orders).0;
            var x, x' := probed.scheds[i], Charged(done.scheds, cache)[i];
            if !done.scheds[i].loaded then ChargedExactly(x, x', |orders|, 0)
            else exists k :: |probed.log| <= k < |done.log| && LoadedBy(done.log[k], i, done.log[k].taken)
                             && ChargedExactly(x, x', |orders|, done.log[k].taken)
  {
    var probed := Probed(replies, present, s, |present|);
    var cache := Cache(present, probed.scheds, |present|);
    var done := After(replies, cache, probed, orders).0;
    NothingClaimed(replies, present, s, |present|, probed);
    Charging(replies, cache, probed, orders, i, done, probed.scheds[i], Charged(done.scheds, cache)[i]);
  }

  /** One more round at the end of a sequence of rounds. */
  lemma MoreRounds(replies: Replies, cache: seq<nat>, s: State, orders: seq<seq<nat>>, t: State, order: seq<nat>)
    requires Distinct(cache, |s.scheds|) && AllDistinct(orders, |s.scheds|) && Rounds(replies, cache, s, orders)
    requires After(replies, cache, s, orders) == (t, false) && t.remaining > 0
    requires SortedOrder(AddQuanta(t.scheds, cache), cache, order)
    ensures AllDistinct(orders + [order], |s.scheds|) && Rounds(replies, cache, s, orders + [order])
    ensures After(replies, cache, s, orders + [order]) == Round(replies, cache, t, order)
  {
    assert (orders + [order])[..|orders + [order]| - 1] == orders;
  }
}
