/** When the deficit rounds of a tick end: the exact condition, and the run without end where it
    fails. */
module ScheduleEnds {
  import opened Bytes
  import opened Schedule
  import opened ScheduleLaws
  import opened ScheduleSort

  // ---- the condition ----

  /** Some schedulable LLC without data will be offered more than is left. */
  predicate Overtops(cache: seq<nat>, s: State)
    requires forall k :: 0 <= k < |cache| ==> cache[k] < |s.scheds|
  {
    exists k :: 0 <= k < |cache| && !s.scheds[cache[k]].loaded &&
      s.scheds[cache[k]].deficit + s.scheds[cache[k]].quanta > s.remaining
  }

  /** What a caller can read off the contexts after the probe: nothing is left, or every schedulable
      LLC without data has quanta, or one of them overtops what is left at once. */
  predicate Ends(cache: seq<nat>, s: State)
    requires forall k :: 0 <= k < |cache| ==> cache[k] < |s.scheds|
  {
    s.remaining == 0 || Positive(s.scheds, cache, 1) || Overtops(cache, s)
  }

  // ---- where it holds ----

  /** The LLC that overtops, or one with a larger deficit, is sorted first: the round is the last. */
  lemma OvertopIsLast(replies: Replies, cache: seq<nat>, s: State, order: seq<nat>)
    requires Distinct(cache, |s.scheds|) && SortedOrder(AddQuanta(s.scheds, cache), cache, order)
    requires Overtops(cache, s)
    ensures Round(replies, cache, s, order).1
  {
    hide Visit, PayloadOk;
    var credited := AddQuanta(s.scheds, cache);
    var s1 := s.(scheds := credited);
    var k :| 0 <= k < |cache| && !s.scheds[cache[k]].loaded &&
      s.scheds[cache[k]].deficit + s.scheds[cache[k]].quanta > s.remaining;
    assert cache[k] in multiset(cache) && cache[k] in multiset(order);
    var p :| 0 <= p < |order| && order[p] == cache[k];
    if p > 0 {
      assert Key(credited[order[0]]) >= Key(credited[order[p]]);
    }
    MostOffered(replies, s1, order, 0);
    VisitShrinks(replies, s1, order, 0);
  }

  lemma VisitShrinks(replies: Replies, s: State, order: seq<nat>, most: nat)
    requires Distinct(order, |s.scheds|)
    ensures Visit(replies, s, order, most).0.remaining <= s.remaining
  {
    hide Visit;
    PayloadSame(s);
    VisitPayload(replies, s, s, order, most);
  }

  lemma {:induction false} OnlyOneRound(replies: Replies, cache: seq<nat>, s: State, orders: seq<seq<nat>>)
    requires Distinct(cache, |s.scheds|) && AllDistinct(orders, |s.scheds|) && Rounds(replies, cache, s, orders)
    requires Overtops(cache, s)
    ensures |orders| <= 1
    decreases |orders|
  {
    hide Round, SortedOrder, AddQuanta, Overtops, Distinct;
    if |orders| > 1 {
      var before := orders[..|orders| - 1];
      OnlyOneRound(replies, cache, s, before);
      assert before[..0] == [];
      OvertopIsLast(replies, cache, s, before[0]);
    }
  }

  /** Under the condition a tick has at most one round more than there are octets left. */
  lemma EndsBounded(replies: Replies, cache: seq<nat>, s: State, orders: seq<seq<nat>>)
    requires Distinct(cache, |s.scheds|) && AllDistinct(orders, |s.scheds|) && Rounds(replies, cache, s, orders)
    requires Ends(cache, s)
    ensures |orders| <= s.remaining + 1
  {
    if s.remaining == 0 {
      if |orders| > 0 {
        RoundsPayload(replies, cache, s, orders[..|orders| - 1]);
      }
    } else if Positive(s.scheds, cache, 1) {
      RoundBound(replies, cache, s, orders, 1);
    } else {
      OnlyOneRound(replies, cache, s, orders);
    }
  }

  // ---- where it fails ----

  /** LLC `j` alone has no data, earns nothing, and never asks for more than is left. */
  ghost predicate Stuck(cache: seq<nat>, t: State, j: nat) {
    && j in cache && j < |t.scheds| && !t.scheds[j].loaded && t.scheds[j].quanta == 0
    && t.scheds[j].deficit <= t.remaining && t.remaining > 0
    && forall i :: i in cache && i != j ==> i < |t.scheds| && t.scheds[i].loaded
  }

  /** If it then takes nothing, the round changes nothing that matters and is not the last. */
  lemma StuckRound(replies: Replies, cache: seq<nat>, t: State, j: nat, again: seq<nat>, t': State)
    requires Distinct(cache, |t.scheds|) && Stuck(cache, t, j) && replies(t.calls) == Reply(0, true, false)
    requires Distinct(again, |t.scheds|) && multiset(again) == multiset(cache) && |again| > 0 && again[0] == j
    requires t' == Round(replies, cache, t, again).0
    ensures SortedOrder(AddQuanta(t.scheds, cache), cache, again) && !Round(replies, cache, t, again).1
    ensures Stuck(cache, t', j) && t'.remaining == t.remaining && t'.calls == t.calls + 1
  {
    var credited := AddQuanta(t.scheds, cache);
    var t1 := t.(scheds := credited);
    DistinctTail(again, |t.scheds|);
    forall k | 0 < k < |again| ensures credited[again[k]].loaded {
      assert again[k] in multiset(again) && again[k] in multiset(cache);
      assert again[k] == again[1..][k - 1];
    }
    var t2 := OfferOne(replies, t1, j);
    if |again| > 1 {
      assert again[1..][0] == again[1];
    }
    assert Visit(replies, t2, again[1..], Max(0, credited[j].deficit)) == (t2, credited[j].deficit);
  }

  /** From `from` on no LLC takes anything. */
  ghost predicate Quiet(replies: Replies, from: nat) {
    forall c: nat :: c >= from ==> replies(c).wants == 0
  }

  /** The context after an offer that was answered by call `c` and not used. */
  predicate AnsweredBy(replies: Replies, c: nat, x: Sched, x': Sched) {
    x' == x.(loaded := replies(c).loaded, currentAlloc := 0)
  }

  /** The first `n` LLCs of the order were answered by the calls from `from` on, nobody else changed. */
  ghost predicate Answered(replies: Replies, from: nat, scheds: seq<Sched>, scheds': seq<Sched>, order: seq<nat>,
                           n: nat)
    requires Distinct(order, |scheds|) && n <= |order|
  {
    && |scheds'| == |scheds|
    && (forall k :: 0 <= k < n ==> AnsweredBy(replies, from + k, scheds[order[k]], scheds'[order[k]]))
    && (forall i :: 0 <= i < |scheds| && i !in order[..n] ==> scheds'[i] == scheds[i])
  }

  ghost predicate SameBut(i: nat, scheds: seq<Sched>, scheds': seq<Sched>) {
    |scheds'| == |scheds| && forall k :: 0 <= k < |scheds| && k != i ==> scheds'[k] == scheds[k]
  }

  lemma AnsweredNext(replies: Replies, from: nat, scheds: seq<Sched>, scheds1: seq<Sched>, scheds': seq<Sched>,
                     order: seq<nat>, m: nat)
    requires |order| > 0 && Distinct(order, |scheds|) && Distinct(order[1..], |scheds|)
    requires m < |order| && SameBut(order[0], scheds, scheds1)
    requires AnsweredBy(replies, from, scheds[order[0]], scheds1[order[0]])
    requires Answered(replies, from + 1, scheds1, scheds', order[1..], m)
    ensures Answered(replies, from, scheds, scheds', order, m + 1)
  {
    DistinctTail(order, |scheds|);
    assert order[..m + 1] == [order[0]] + order[1..][..m];
    assert order[0] !in order[1..][..m];
    forall k | 0 <= k < m + 1 ensures AnsweredBy(replies, from + k, scheds[order[k]], scheds'[order[k]]) {
      if k > 0 {
        assert order[k] == order[1..][k - 1] && (from + 1) + (k - 1) == from + k;
        assert AnsweredBy(replies, (from + 1) + (k - 1), scheds1[order[1..][k - 1]], scheds'[order[1..][k - 1]]);
      }
    }
  }

  /** Nobody in the order who has no data has more credit than there is space. */
  ghost predicate Affordable(s: State, order: seq<nat>)
    requires Distinct(order, |s.scheds|)
  {
    forall k :: 0 <= k < |order| && !s.scheds[order[k]].loaded ==> s.scheds[order[k]].deficit <= s.remaining
  }

  /** A pass in which nobody takes anything uses up nothing. */
  lemma {:induction false} QuietVisit(replies: Replies, s: State, order: seq<nat>, most: nat, s': State, n: nat)
    requires Distinct(order, |s.scheds|) && Quiet(replies, s.calls) && s' == Visit(replies, s, order, most).0
    requires most <= s.remaining && n == Leading(s.scheds, order) <= |order|
    requires Affordable(s, order)
    ensures s'.remaining == s.remaining && Visit(replies, s, order, most).1 <= s.remaining
    ensures |s'.log| == |s.log| + n && s'.calls == s.calls + n
    ensures Answered(replies, s.calls, s.scheds, s'.scheds, order, n)
    decreases |order|
  {
    hide *;
    if n == 0 {
      QuietEnd(replies, s, order, most);
    } else {
      var s1, most1 := QuietOffer(replies, s, order, most);
      QuietVisit(replies, s1, order[1..], most1, s', n - 1);
      AnsweredNext(replies, s.calls, s.scheds, s1.scheds, s'.scheds, order, n - 1);
    }
  }

  /** A pass that makes no offer. */
  lemma QuietEnd(replies: Replies, s: State, order: seq<nat>, most: nat)
    requires Distinct(order, |s.scheds|) && Leading(s.scheds, order) == 0
    ensures Visit(replies, s, order, most) == (s, most)
    ensures Answered(replies, s.calls, s.scheds, s.scheds, order, 0)
  {}

  /** The first offer of such a pass. */
  lemma QuietOffer(replies: Replies, s: State, order: seq<nat>, most: nat) returns (s1: State, most1: nat)
    requires Distinct(order, |s.scheds|) && Quiet(replies, s.calls) && most <= s.remaining
    requires 0 < Leading(s.scheds, order) <= |order|
    requires Affordable(s, order)
    ensures SameBut(order[0], s.scheds, s1.scheds) && Distinct(order[1..], |s.scheds|)
    ensures Visit(replies, s, order, most) == Visit(replies, s1, order[1..], most1)
    ensures Leading(s.scheds, order) == Leading(s1.scheds, order[1..]) + 1
    ensures s1.remaining == s.remaining && most1 <= s.remaining
    ensures |s1.log| == |s.log| + 1 && s1.calls == s.calls + 1 && Quiet(replies, s1.calls)
    ensures AnsweredBy(replies, s.calls, s.scheds[order[0]], s1.scheds[order[0]])
    ensures Affordable(s1, order[1..])
  {
    DistinctTail(order, |s.scheds|);
    s1, most1 := OfferOne(replies, s, order[0]), Max(most, s.scheds[order[0]].deficit);
    var rest := order[1..];
    forall k | 0 <= k < |rest| ensures rest[k] == order[k + 1] && s1.scheds[rest[k]] == s.scheds[rest[k]] {
      assert rest[k] in rest;
    }
    LeadingSame(s.scheds, s1.scheds, rest);
  }

  /** Of the `n` calls from `from` on all but number `p` load data; nobody takes anything. */
  ghost predicate AllButOne(replies: Replies, from: nat, n: nat, p: nat) {
    forall c: nat :: c >= from ==> replies(c) == Reply(0, true, c != from + p && c < from + n)
  }

  /** The first round, in which everybody but the LLC at place `p` loads zero octets. */
  lemma FirstRound(replies: Replies, cache: seq<nat>, s: State, first: seq<nat>, n: nat, p: nat, t: State)
    requires Distinct(cache, |s.scheds|) && SortedOrder(AddQuanta(s.scheds, cache), cache, first)
    requires n == Leading(AddQuanta(s.scheds, cache), first) && p < n && s.remaining > 0
    requires forall i :: i in cache ==> (i in first[..n] <==> !s.scheds[i].loaded)
    requires forall i :: i in cache && !s.scheds[i].loaded ==> s.scheds[i].deficit + s.scheds[i].quanta <= s.remaining
    requires first[p] in cache && s.scheds[first[p]].quanta == 0 && AllButOne(replies, s.calls, n, p)
    requires t == Round(replies, cache, s, first).0
    ensures !Round(replies, cache, s, first).1 && Stuck(cache, t, first[p])
    ensures t.remaining == s.remaining && t.calls == s.calls + n
  {
    var credited := AddQuanta(s.scheds, cache);
    forall k | 0 <= k < |first| ensures first[k] in cache {
      assert first[k] in multiset(first);
    }
    QuietVisit(replies, s.(scheds := credited), first, 0, t, n);
    OneLeft(replies, cache, s.calls, credited, t.scheds, first, n, p);
  }

  /** After such a pass only the LLC at place `p` is without data. */
  lemma OneLeft(replies: Replies, cache: seq<nat>, from: nat, scheds: seq<Sched>, scheds': seq<Sched>,
                order: seq<nat>, n: nat, p: nat)
    requires Distinct(cache, |scheds|) && Distinct(order, |scheds|) && p < n <= |order|
    requires Answered(replies, from, scheds, scheds', order, n) && AllButOne(replies, from, n, p)
    requires forall i :: i in cache ==> (i in order[..n] <==> !scheds[i].loaded)
    ensures scheds'[order[p]] == scheds[order[p]].(loaded := false, currentAlloc := 0)
    ensures forall i :: i in cache && i != order[p] ==> scheds'[i].loaded
  {
    assert AnsweredBy(replies, from + p, scheds[order[p]], scheds'[order[p]]);
    forall i | i in cache && i != order[p] ensures scheds'[i].loaded {
      if i in order[..n] {
        var k :| 0 <= k < n && order[..n][k] == i;
        assert AnsweredBy(replies, from + k, scheds[order[k]], scheds'[order[k]]);
      }
    }
  }

  /** The first round and `n` more, of which none is the last, and nothing is used up. */
  ghost predicate EndlessRun(replies: Replies, cache: seq<nat>, s: State, first: seq<nat>, again: seq<nat>, n: nat)
    requires Distinct(cache, |s.scheds|)
  {
    var orders := Repeated(first, again, n);
    && AllDistinct(orders, |s.scheds|) && Rounds(replies, cache, s, orders)
    && var (t, last) := After(replies, cache, s, orders);
       !last && t.remaining == s.remaining > 0
  }

  function Repeated(first: seq<nat>, again: seq<nat>, n: nat): (orders: seq<seq<nat>>)
    ensures |orders| == n + 1
  {
    [first] + seq(n, i => again)
  }

  lemma {:induction false} StuckForever(replies: Replies, cache: seq<nat>, s: State, first: seq<nat>, again: seq<nat>,
                                        j: nat, t: State, n: nat) returns (u: State)
    requires Distinct(cache, |s.scheds|) && SortedOrder(AddQuanta(s.scheds, cache), cache, first)
    requires Round(replies, cache, s, first) == (t, false) && Stuck(cache, t, j) && t.remaining == s.remaining > 0
    requires Distinct(again, |s.scheds|) && multiset(again) == multiset(cache) && |again| > 0 && again[0] == j
    requires forall c: nat :: c >= t.calls ==> replies(c) == Reply(0, true, false)
    ensures EndlessRun(replies, cache, s, first, again, n)
    ensures After(replies, cache, s, Repeated(first, again, n)) == (u, false)
    ensures |u.scheds| == |s.scheds| && Stuck(cache, u, j) && u.remaining == s.remaining && u.calls >= t.calls
  {
    hide Round, Stuck, SortedOrder, AddQuanta;
    if n == 0 {
      MoreRounds(replies, cache, s, [], s, first);
      assert Repeated(first, again, 0) == [] + [first];
      u := t;
    } else {
      var v := StuckForever(replies, cache, s, first, again, j, t, n - 1);
      u := Round(replies, cache, v, again).0;
      StuckRound(replies, cache, v, j, again, u);
      MoreRounds(replies, cache, s, Repeated(first, again, n - 1), v, again);
      assert Repeated(first, again, n) == Repeated(first, again, n - 1) + [again];
    }
  }

  /** The same contexts with every deficit one larger, which tells an empty deficit from data. */
  function Raised(scheds: seq<Sched>): (r: seq<Sched>)
    ensures |r| == |scheds| && forall i :: 0 <= i < |r| ==> r[i] == scheds[i].(deficit := scheds[i].deficit + 1)
  {
    seq(|scheds|, i requires 0 <= i < |scheds| => scheds[i].(deficit := scheds[i].deficit + 1))
  }

  /** A sorted order that puts the LLCs without data first, even those without any deficit. */
  lemma UnloadedFirstOrder(scheds: seq<Sched>, cache: seq<nat>) returns (order: seq<nat>)
    requires Distinct(cache, |scheds|)
    ensures SortedOrder(scheds, cache, order)
    ensures forall i :: i in cache ==> (i in order[..Leading(scheds, order)] <==> !scheds[i].loaded)
  {
    var raised := Raised(scheds);
    order := Sortable(raised, cache);
    forall a, b | 0 <= a < b < |order| ensures Key(scheds[order[a]]) >= Key(scheds[order[b]]) {
      assert Key(raised[order[a]]) >= Key(raised[order[b]]);
    }
    LeadingSame(scheds, raised, order);
    forall i | i in cache ensures i in order[..Leading(scheds, order)] <==> !scheds[i].loaded {
      UnloadedFirst(raised, cache, order, i);
    }
  }

  /** One of the LLCs of the order moved to its front. */
  lemma ToFront(order: seq<nat>, p: nat, n: nat) returns (again: seq<nat>)
    requires Distinct(order, n) && p < |order|
    ensures Distinct(again, n) && multiset(again) == multiset(order) && |again| > 0 && again[0] == order[p]
  {
    var before, after := order[..p], order[p + 1..];
    again := [order[p]] + before + after;
    assert order == before + [order[p]] + after;
    forall k | 0 <= k < |again| ensures again[k] == order[if k == 0 then p else if k <= p then k - 1 else k] {}
  }

  /** Whatever the LLCs answered in the probe, they can answer the rounds so that these never end. */
  lemma Endless(cache: seq<nat>, s: State, before: Replies)
      returns (replies: Replies, first: seq<nat>, again: seq<nat>)
    requires Distinct(cache, |s.scheds|) && !Ends(cache, s)
    ensures forall c: nat :: c < s.calls ==> replies(c) == before(c)
    ensures forall n: nat :: EndlessRun(replies, cache, s, first, again, n)
  {
    var p, m;
    first, m, p := WhoIsStuck(cache, s);
    replies := Silent(before, s.calls, m, p);
    var t := Round(replies, cache, s, first).0;
    FirstRound(replies, cache, s, first, m, p, t);
    again := ToFront(first, p, |s.scheds|);
    forall n: nat ensures EndlessRun(replies, cache, s, first, again, n) {
      var _ := StuckForever(replies, cache, s, first, again, first[p], t, n);
    }
  }

  /** Answers that agree with `before` for the calls already made, and then load data without
      taking anything, except at place `p`. */
  function Silent(before: Replies, from: nat, n: nat, p: nat): (replies: Replies)
    ensures forall c: nat :: replies(c) == if c < from then before(c) else Reply(0, true, c != from + p && c < from + n)
  {
    (c: nat) => if c < from then before(c) else Reply(0, true, c != from + p && c < from + n)
  }

  /** The first order, how many LLCs in it have no data, and which of them earns nothing. */
  lemma WhoIsStuck(cache: seq<nat>, s: State) returns (first: seq<nat>, m: nat, p: nat)
    requires Distinct(cache, |s.scheds|) && !Ends(cache, s)
    ensures SortedOrder(AddQuanta(s.scheds, cache), cache, first)
    ensures m == Leading(AddQuanta(s.scheds, cache), first) && p < m
    ensures first[p] in cache && s.scheds[first[p]].quanta == 0
    ensures forall i :: i in cache ==> (i in first[..m] <==> !s.scheds[i].loaded)
    ensures forall i :: i in cache && !s.scheds[i].loaded ==> s.scheds[i].deficit + s.scheds[i].quanta <= s.remaining
  {
    var credited := AddQuanta(s.scheds, cache);
    first := UnloadedFirstOrder(credited, cache);
    m := Leading(credited, first);
    var k :| 0 <= k < |cache| && !s.scheds[cache[k]].loaded && s.scheds[cache[k]].quanta < 1;
    assert cache[k] in first[..m];
    p :| 0 <= p < m && first[..m][p] == cache[k];
    forall i | i in cache && !s.scheds[i].loaded ensures s.scheds[i].deficit + s.scheds[i].quanta <= s.remaining {
      var a :| 0 <= a < |cache| && cache[a] == i;
    }
  }

  /** With these LLCs no sort results make the tick longer than `n` rounds. */
  ghost predicate EndsWithin(replies: Replies, cache: seq<nat>, s: State, n: nat)
    requires Distinct(cache, |s.scheds|)
  {
    forall orders: seq<seq<nat>> ::
      AllDistinct(orders, |s.scheds|) && Rounds(replies, cache, s, orders) ==> |orders| <= n
  }

  /** Nor do they with any LLCs. */
  ghost predicate AlwaysWithin(cache: seq<nat>, s: State, n: nat)
    requires Distinct(cache, |s.scheds|)
  {
    forall replies: Replies :: EndsWithin(replies, cache, s, n)
  }

  /** The rounds end for all LLCs and all sort results if and only if the condition holds: there is a
      common bound exactly then, and one round more than octets left is one. */
  lemma EndsExactly(cache: seq<nat>, s: State)
    requires Distinct(cache, |s.scheds|)
    ensures Ends(cache, s) <==> AlwaysWithin(cache, s, s.remaining + 1)
    ensures Ends(cache, s) <==> exists n: nat :: AlwaysWithin(cache, s, n)
  {
    if Ends(cache, s) {
      forall replies: Replies, orders: seq<seq<nat>> |
        AllDistinct(orders, |s.scheds|) && Rounds(replies, cache, s, orders)
        ensures |orders| <= s.remaining + 1
      {
        EndsBounded(replies, cache, s, orders);
      }
      assert AlwaysWithin(cache, s, s.remaining + 1);
    } else {
      var replies, first, again := Endless(cache, s, (c: nat) => Reply(0, true, false));
      forall n: nat ensures !AlwaysWithin(cache, s, n) {
        assert EndlessRun(replies, cache, s, first, again, n);
        assert !EndsWithin(replies, cache, s, n);
      }
    }
  }

  /** Attached LLCs with positive quanta are enough, whatever they answer in the probe. */
  lemma AttachedQuanta(replies: Replies, present: seq<bool>, s: State, q: nat)
    requires |present| == |s.scheds| && q > 0
    requires forall i :: 0 <= i < |present| && present[i] ==> s.scheds[i].quanta >= q
    ensures var probed := Probed(replies, present, s, |present|);
            var cache := Cache(present, probed.scheds, |present|);
            Positive(probed.scheds, cache, q) && Ends(cache, probed)
  {
    var probed := Probed(replies, present, s, |present|);
    ProbeEffect(replies, present, s, |present|, probed);
    var cache := Cache(present, probed.scheds, |present|);
    forall k | 0 <= k < |cache| ensures probed.scheds[cache[k]].quanta >= q {
      assert cache[k] in cache;
      assert ProbedFrom(s.scheds[cache[k]], probed.scheds[cache[k]], present[cache[k]]);
    }
  }

  /** The smallest case: one LLC as it is when nothing configures it, with something to send. */
  lemma Unconfigured(replies: Replies, s: State, n: nat)
    requires s.scheds == [Sched(0, 0, 0, 0, true, false)] && s.remaining > 0
    requires forall c: nat :: replies(c) == Reply(0, true, false)
    ensures !Ends([0], s) && EndlessRun(replies, [0], s, [0], [0], n)
  {
    var t := Round(replies, [0], s, [0]).0;
    assert multiset([0]) == multiset([0]);
    StuckRound(replies, [0], s, 0, [0], t);
    var u := StuckForever(replies, [0], s, [0], [0], 0, t, n);
  }
}
