/** The scheduler object: a tick over the scheduling contexts, updated in place. */
module TxScheduler {
  import opened Bytes
  import opened Schedule
  import opened ScheduleEnds
  import opened ScheduleLaws
  import opened ScheduleSort

  // ---- the cache and the sort ----

  lemma {:induction false} CacheSame(present: seq<bool>, a: seq<Sched>, b: seq<Sched>, n: nat)
    requires n <= |present| == |a| == |b| && forall k :: 0 <= k < n ==> a[k] == b[k]
    ensures Cache(present, a, n) == Cache(present, b, n)
  {
    if n > 0 { CacheSame(present, a, b, n - 1); }
  }

  /** One LLC inserted into a sorted order, in front of the first with a smaller key. */
  method Insert(scheds: seq<Sched>, order: seq<nat>, x: nat) returns (longer: seq<nat>)
    requires Distinct(order, |scheds|) && Descending(scheds, order) && x < |scheds| && x !in order
    ensures Distinct(longer, |scheds|) && Descending(scheds, longer)
    ensures multiset(longer) == multiset(order) + multiset{x}
  {
    var p := 0;
    while p < |order| && Key(scheds[order[p]]) >= Key(scheds[x])
      invariant p <= |order| && forall k :: 0 <= k < p ==> Key(scheds[order[k]]) >= Key(scheds[x])
    {
      p := p + 1;
    }
    longer := order[..p] + [x] + order[p..];
    InsertedMultiset(order, x, p);
    InsertedAt(scheds, order, x, p, longer);
  }

  /** Sorts by operator>; how ties end up is left open by every result that relies on it. */
  method Sort(scheds: seq<Sched>, cache: seq<nat>) returns (order: seq<nat>)
    requires Distinct(cache, |scheds|)
    ensures SortedOrder(scheds, cache, order)
  {
    order := [];
    var i := 0;
    while i < |cache|
      invariant i <= |cache| && Distinct(order, |scheds|) && Descending(scheds, order)
      invariant multiset(order) == multiset(cache[..i])
    {
      assert cache[..i + 1] == cache[..i] + [cache[i]];
      assert cache[i] !in multiset(cache[..i]);
      assert cache[i] !in multiset(order);
      order := Insert(scheds, order, cache[i]);
      i := i + 1;
    }
    assert cache[..i] == cache;
  }

  class TxScheduler {
    const replies: Replies
    const llcs: seq<bool>
    var schedulesInfo: seq<Sched>
    var cursor: nat
    var framePayloadRemaining: nat
    var calls: nat
    ghost var log: seq<Offer>

    ghost function Now(): State
      reads this
    {
      State(schedulesInfo, cursor, framePayloadRemaining, calls, log)
    }

    /** on_tx on LLC `i` with `size` octets at the cursor, then the cursor is moved. */
    method OnTx(i: nat, data: bool, size: nat) returns (reply: Reply, taken: nat)
      requires i < |schedulesInfo| && size <= framePayloadRemaining
      modifies this`cursor, this`framePayloadRemaining, this`calls, this`log
      ensures reply == replies(old(calls)) && taken == Min(reply.wants, size)
      ensures forall x :: Now().(scheds := old(schedulesInfo)[i := x]) == Call(replies, old(Now()), i, data, size, x)
    {
      reply := replies(calls);
      taken := Min(reply.wants, size);
      log := log + [Offer(i, data, cursor, framePayloadRemaining, size, taken, reply.loaded)];
      calls := calls + 1;
      cursor := cursor + taken;
      framePayloadRemaining := framePayloadRemaining - taken;
    }

    /** Probes every attached LLC and collects those that have something to send. */
    method Probe() returns (cache: seq<nat>)
      requires |llcs| == |schedulesInfo|
      modifies this
      ensures Now() == Probed(replies, llcs, old(Now()), |llcs|)
      ensures cache == Cache(llcs, schedulesInfo, |llcs|)
    {
      ghost var s := Now();
      cache := [];
      var i := 0;
      while i < |llcs|
        invariant i <= |llcs| == |schedulesInfo| && Now() == Probed(replies, llcs, s, i)
        invariant cache == Cache(llcs, schedulesInfo, i)
      {
        ghost var before := schedulesInfo;
        if llcs[i] {
          var x := schedulesInfo[i];
          var size := Min(framePayloadRemaining, x.ndMax);
          var r, taken := OnTx(i, false, size);
          x := x.(schedulable := r.available, loaded := r.loaded);
          if x.schedulable {
            cache := cache + [i];
          } else {
            x := x.(deficit := x.deficit * 8 / 10);
          }
          schedulesInfo := schedulesInfo[i := x];
          CacheSame(llcs, before, schedulesInfo, i);
        }
        i := i + 1;
      }
    }

    method CreditQuanta(cache: seq<nat>)
      requires Distinct(cache, |schedulesInfo|)
      modifies this`schedulesInfo
      ensures schedulesInfo == AddQuanta(old(schedulesInfo), cache)
    {
      var k := 0;
      while k < |cache|
        invariant k <= |cache| && |schedulesInfo| == |old(schedulesInfo)|
        invariant forall i :: 0 <= i < |schedulesInfo| ==>
                    var x := old(schedulesInfo)[i];
                    schedulesInfo[i] == if i in cache[..k] then x.(deficit := x.deficit + x.quanta) else x
      {
        assert cache[..k + 1] == cache[..k] + [cache[k]];
        assert cache[k] !in cache[..k];
        var x := schedulesInfo[cache[k]];
        schedulesInfo := schedulesInfo[cache[k] := x.(deficit := x.deficit + x.quanta)];
        k := k + 1;
      }
      assert cache[..k] == cache;
    }

    /** Offers space in the given order up to the first LLC that has data. */
    method Offers(order: seq<nat>) returns (count: nat, most: nat)
      requires Distinct(order, |schedulesInfo|)
      modifies this
      ensures (Now(), most) == Visit(replies, old(Now()), order, 0)
      ensures count == |log| - |old(log)|
    {
      count, most := 0, 0;
      ghost var result := Visit(replies, Now(), order, 0);
      var k := 0;
      assert order[0..] == order;
      while k < |order|
        invariant k <= |order| && Distinct(order[k..], |schedulesInfo|) && count == |log| - |old(log)|
        invariant result == Visit(replies, Now(), order[k..], most)
      {
        var i := order[k];
        var x := schedulesInfo[i];
        assert order[k..][1..] == order[k + 1..];
        DistinctTail(order[k..], |schedulesInfo|);
        if x.loaded {
          break;
        }
        count := count + 1;
        most := Max(most, x.deficit);
        var r, taken := OnTx(i, true, Min(framePayloadRemaining, x.deficit));
        schedulesInfo := schedulesInfo[i := x.(loaded := r.loaded, currentAlloc := taken)];
        k := k + 1;
      }
    }

    method Charge(cache: seq<nat>)
      requires Distinct(cache, |schedulesInfo|)
      modifies this`schedulesInfo
      ensures schedulesInfo == Charged(old(schedulesInfo), cache)
    {
      var k := 0;
      while k < |cache|
        invariant k <= |cache| && |schedulesInfo| == |old(schedulesInfo)|
        invariant forall i :: 0 <= i < |schedulesInfo| ==>
                    schedulesInfo[i] ==
                    if i in cache[..k] then ChargeOne(old(schedulesInfo)[i]) else old(schedulesInfo)[i]
      {
        assert cache[..k + 1] == cache[..k] + [cache[k]];
        assert cache[k] !in cache[..k];
        schedulesInfo := schedulesInfo[cache[k] := ChargeOne(schedulesInfo[cache[k]])];
        k := k + 1;
      }
      assert cache[..k] == cache;
    }

    /** The body of the outer loop. */
    method OneRound(cache: seq<nat>) returns (last: bool, ghost order: seq<nat>)
      requires Distinct(cache, |schedulesInfo|)
      modifies this
      ensures SortedOrder(AddQuanta(old(schedulesInfo), cache), cache, order)
      ensures (Now(), last) == Round(replies, cache, old(Now()), order)
    {
      CreditQuanta(cache);
      var sorted := Sort(schedulesInfo, cache);
      var count, most := Offers(sorted);
      last := most > framePayloadRemaining || count == 0;
      order := sorted;
    }

    /** The deficit rounds: they end, and the state is that of a sequence of rounds of which the last
        one met a reason to stop. */
    method RunRounds(cache: seq<nat>, ghost n: nat) returns (ghost orders: seq<seq<nat>>)
      requires Distinct(cache, |schedulesInfo|) && EndsWithin(replies, cache, Now(), n)
      modifies this
      ensures AllDistinct(orders, |old(schedulesInfo)|) && Rounds(replies, cache, old(Now()), orders)
      ensures Now() == After(replies, cache, old(Now()), orders).0
      ensures framePayloadRemaining == 0 || After(replies, cache, old(Now()), orders).1
      ensures |orders| <= n
    {
      ghost var s := Now();
      orders := [];
      var last := false;
      while framePayloadRemaining > 0 && !last
        invariant |schedulesInfo| == |s.scheds| && AllDistinct(orders, |s.scheds|) && Rounds(replies, cache, s, orders)
        invariant (Now(), last) == After(replies, cache, s, orders)
        decreases n - |orders|
      {
        ghost var t := Now();
        ghost var order;
        last, order := OneRound(cache);
        MoreRounds(replies, cache, s, orders, t, order);
        orders := orders + [order];
      }
    }

    /** One tick over a payload of `room` octets: the probe pass, the rounds and the charging. What
        is sent is what was allocated, and nothing is allocated beyond the payload. It asks only that
        with the LLCs at hand the rounds end after some number `n` of them; for attached LLCs with
        positive quanta one more than the octets left is enough (TickEnds). */
    method Tick(base: nat, room: nat, framePayloadSize: nat, ghost n: nat)
      returns (sendSize: nat, transmit: bool, cache: seq<nat>, ghost probed: State, ghost orders: seq<seq<nat>>,
               ghost done: State)
      requires |llcs| == |schedulesInfo| && room <= framePayloadSize
      requires var probed := Probed(replies, llcs, State(schedulesInfo, base, room, calls, log), |llcs|);
               EndsWithin(replies, Cache(llcs, probed.scheds, |llcs|), probed, n)
      modifies this
      ensures probed == Probed(replies, llcs, old(State(schedulesInfo, base, room, calls, log)), |llcs|)
      ensures cache == Cache(llcs, probed.scheds, |llcs|) && Distinct(cache, |probed.scheds|)
      ensures AllDistinct(orders, |probed.scheds|) && Rounds(replies, cache, probed, orders)
      ensures done == After(replies, cache, probed, orders).0 && Now() == done.(scheds := schedulesInfo)
      ensures done.remaining == 0 || After(replies, cache, probed, orders).1
      ensures schedulesInfo == Charged(done.scheds, cache)
      ensures |orders| <= n
      ensures Ends(cache, probed) ==> |orders| <= probed.remaining + 1
      ensures forall q: nat :: Positive(probed.scheds, cache, q) ==> |orders| <= probed.remaining / q + 1
      ensures PayloadOk(old(State(schedulesInfo, base, room, calls, log)), Now())
      ensures sendSize == framePayloadSize - room + cursor - base <= framePayloadSize && transmit == (sendSize > 1)
    {
      cursor, framePayloadRemaining := base, room;
      ghost var s := Now();
      cache := Probe();
      probed := Now();
      orders := RunRounds(cache, n);
      done := Now();
      TickPayload(replies, llcs, s, cache, probed, orders, done);
      RoundsBounded(replies, cache, probed, orders);
      Charge(cache);
      sendSize := framePayloadSize - framePayloadRemaining;
      transmit := sendSize > 1;
    }
  }

  /** Attached LLCs with positive quanta let every tick end. */
  lemma {:induction false} TickEnds(replies: Replies, present: seq<bool>, s: State)
    requires |present| == |s.scheds|
    requires forall i :: 0 <= i < |present| && present[i] ==> s.scheds[i].quanta > 0
    ensures var probed := Probed(replies, present, s, |present|);
            EndsWithin(replies, Cache(present, probed.scheds, |present|), probed, probed.remaining + 1)
  {
    hide Ends, Positive, EndsWithin, Probed, Cache;
    var probed := Probed(replies, present, s, |present|);
    var cache := Cache(present, probed.scheds, |present|);
    AttachedQuanta(replies, present, s, 1);
    EndsExactly(cache, probed);
  }

  /** The bounds on the number of rounds. */
  lemma RoundsBounded(replies: Replies, cache: seq<nat>, s: State, orders: seq<seq<nat>>)
    requires Distinct(cache, |s.scheds|) && AllDistinct(orders, |s.scheds|) && Rounds(replies, cache, s, orders)
    ensures Ends(cache, s) ==> |orders| <= s.remaining + 1
    ensures forall q: nat :: Positive(s.scheds, cache, q) ==> |orders| <= s.remaining / q + 1
  {
    if Ends(cache, s) { EndsBounded(replies, cache, s, orders); }
    forall q: nat | Positive(s.scheds, cache, q) ensures |orders| <= s.remaining / q + 1 {
      RoundBound(replies, cache, s, orders, q);
    }
  }

  /** Probe and rounds together stay inside the payload. */
  lemma {:induction false} TickPayload(replies: Replies, present: seq<bool>, s: State, cache: seq<nat>, probed: State,
                    orders: seq<seq<nat>>, done: State)
    requires |present| == |s.scheds| && probed == Probed(replies, present, s, |present|)
    requires Distinct(cache, |probed.scheds|) && AllDistinct(orders, |probed.scheds|)
    requires Rounds(replies, cache, probed, orders) && done == After(replies, cache, probed, orders).0
    ensures PayloadOk(s, done)
  {
    ProbePayload(replies, present, s, |present|);
    RoundsPayload(replies, cache, probed, orders);
    PayloadTrans(s, probed, done);
  }

  lemma PayloadTrans(a: State, b: State, c: State)
    requires PayloadOk(a, b) && PayloadOk(b, c)
    ensures PayloadOk(a, c)
  {
    assert c.log[..|a.log|] == c.log[..|b.log|][..|a.log|];
    forall k | 0 <= k < |b.log| ensures c.log[k] == b.log[k] {
      assert c.log[k] == c.log[..|b.log|][k];
    }
    forall k | |a.log| <= k < |c.log| - 1 ensures Follows(c.log[k], c.log[k + 1]) {
      if k + 1 < |b.log| {
        assert Follows(b.log[k], b.log[k + 1]);
      }
    }
  }

  // ---- when the charge wraps ----

  /** The contexts a tick leaves, for given results of its sorts. */
  ghost predicate Ticks(replies: Replies, present: seq<bool>, s: State, orders: seq<seq<nat>>, s': State)
    requires |present| == |s.scheds|
  {
    var probed := Probed(replies, present, s, |present|);
    var cache := Cache(present, probed.scheds, |present|);
    && AllDistinct(orders, |probed.scheds|) && Rounds(replies, cache, probed, orders)
    && var (done, last) := After(replies, cache, probed, orders);
       (done.remaining == 0 || last) && s' == done.(scheds := Charged(done.scheds, cache))
  }

  /** Three ticks of one LLC: it takes space without loading data, then has nothing to send, then
      claims data in the probe. */
  predicate Idles(replies: Replies) {
    && replies(0) == Reply(0, true, false) && replies(1) == Reply(10, true, false)
    && replies(2) == Reply(0, false, false)
    && replies(3) == Reply(5, true, true)
  }

  lemma ProbedOne(replies: Replies, s: State, x: Sched)
    requires s.scheds == [x]
    ensures var r, size := replies(s.calls), Min(s.remaining, x.ndMax);
            var taken := Min(r.wants, size);
            Probed(replies, [true], s, 1) ==
            State([x.(schedulable := r.available, loaded := r.loaded,
                      deficit := if r.available then x.deficit else x.deficit * 8 / 10)],
                  s.cursor + taken, s.remaining - taken, s.calls + 1,
                  s.log + [Offer(0, false, s.cursor, s.remaining, size, taken, r.loaded)])
  {
    assert Probed(replies, [true], s, 0) == s;
    assert Probed(replies, [true], s, 1) == ProbeOne(replies, s, 0);
  }

  /** A tick of one round. */
  lemma OneRoundTick(replies: Replies, present: seq<bool>, s: State, probed: State, cache: seq<nat>, order: seq<nat>,
                     done: State, s': State)
    requires |present| == |s.scheds| && probed == Probed(replies, present, s, |present|) && probed.remaining > 0
    requires cache == Cache(present, probed.scheds, |present|)
    requires SortedOrder(AddQuanta(probed.scheds, cache), cache, order)
    requires var (t, last) := Round(replies, cache, probed, order); t == done && (t.remaining == 0 || last)
    requires s' == done.(scheds := Charged(done.scheds, cache))
    ensures Ticks(replies, present, s, [order], s')
  {
    hide Round, SortedOrder, AddQuanta, Probed;
    MoreRounds(replies, cache, probed, [], probed, order);
    assert [] + [order] == [order];
  }

  lemma TakesSpace(replies: Replies, s: State, s': State)
    requires Idles(replies) && s == State([Sched(0, 10, 5, 0, false, false)], 0, 10, 0, [])
    requires s'.scheds == [Sched(10, 10, 5, 10, true, false)] && s'.calls == 2 && s'.cursor == 10 && s'.remaining == 0
    requires s'.log == [Offer(0, false, 0, 10, 5, 0, false), Offer(0, true, 0, 10, 10, 10, false)]
    ensures Ticks(replies, [true], s, [[0]], s')
  {
    hide Ticks, Round, SortedOrder, AddQuanta, Probed;
    var probed := Probed(replies, [true], s, 1);
    ProbedOne(replies, s, Sched(0, 10, 5, 0, false, false));
    assert Cache([true], probed.scheds, 1) == [0];
    OnlyRound(replies, probed, s');
    assert Charged(s'.scheds, [0]) == s'.scheds;
    OneRoundTick(replies, [true], s, probed, [0], [0], s', s');
  }

  lemma OnlyRound(replies: Replies, s: State, s': State)
    requires Idles(replies) && s == State([Sched(0, 10, 5, 0, true, false)], 0, 10, 1, s.log)
    requires s' == State([Sched(10, 10, 5, 10, true, false)], 10, 0, 2, s.log + [Offer(0, true, 0, 10, 10, 10, false)])
    ensures Round(replies, [0], s, [0]).0 == s' && SortedOrder(AddQuanta(s.scheds, [0]), [0], [0])
  {
    var credited := s.(scheds := [Sched(10, 10, 5, 0, true, false)]);
    assert credited.scheds == AddQuanta(s.scheds, [0]);
    OnlyOffer(replies, credited, s');
  }

  lemma OnlyOffer(replies: Replies, s: State, s': State)
    requires Idles(replies) && s == State([Sched(10, 10, 5, 0, true, false)], 0, 10, 1, s.log)
    requires s' == State([Sched(10, 10, 5, 10, true, false)], 10, 0, 2, s.log + [Offer(0, true, 0, 10, 10, 10, false)])
    ensures Visit(replies, s, [0], 0) == (s', 10)
  {
    var s1 := OfferOne(replies, s, 0);
    assert s1 == s';
    DistinctTail([0], 1);
    assert [0][1..] == [];
    assert Visit(replies, s1, [0][1..], 10) == (s1, 10);
  }

  lemma IsIdle(replies: Replies, s: State, s': State)
    requires Idles(replies) && s.scheds == [Sched(10, 10, 5, 10, true, false)] && s.calls == 2 && s.remaining == 5
    requires s' == s.(scheds := [Sched(8, 10, 5, 10, false, false)], calls := 3,
                      log := s.log + [Offer(0, false, s.cursor, 5, 5, 0, false)])
    ensures Ticks(replies, [true], s, [[]], s')
  {
    hide Ticks, Round, Probed;
    var probed := Probed(replies, [true], s, 1);
    ProbedOne(replies, s, Sched(10, 10, 5, 10, true, false));
    assert Cache([true], probed.scheds, 1) == [];
    NobodyToServe(replies, probed);
    assert Charged(s'.scheds, []) == s'.scheds;
    OneRoundTick(replies, [true], s, probed, [], [], s', s');
  }

  /** With nothing schedulable the first round is the last and changes nothing. */
  lemma NobodyToServe(replies: Replies, s: State)
    ensures Round(replies, [], s, []) == (s, true)
  {
    assert AddQuanta(s.scheds, []) == s.scheds;
    assert Visit(replies, s, [], 0) == (s, 0);
  }

  lemma ClaimsData(replies: Replies, s: State, s': State)
    requires Idles(replies) && s.scheds == [Sched(8, 10, 5, 10, false, false)] && s.calls == 3 && s.remaining == 5
    requires s' == State([Sched(U64 - 2, 10, 5, 0, true, true)], s.cursor + 5, 0, 4,
                         s.log + [Offer(0, false, s.cursor, 5, 5, 5, true)])
    ensures Ticks(replies, [true], s, [], s')
  {
    var probed := Probed(replies, [true], s, 1);
    ProbedOne(replies, s, Sched(8, 10, 5, 10, false, false));
    assert Cache([true], probed.scheds, 1) == [0];
    assert Charged(probed.scheds, [0]) == s'.scheds;
  }

  /** The charge of the third tick is what the first one left behind, more than the decayed deficit:
      the subtraction wraps around. */
  lemma StaleCharge(replies: Replies) returns (first: State, second: State, third: State)
    requires Idles(replies)
    ensures |first.scheds| == |second.scheds| == |third.scheds| == 1
    ensures Ticks(replies, [true], State([Sched(0, 10, 5, 0, false, false)], 0, 10, 0, []), [[0]], first)
    ensures Ticks(replies, [true], first.(remaining := 5), [[]], second)
    ensures Ticks(replies, [true], second.(remaining := 5), [], third)
    ensures third.scheds[0].deficit == U64 - 2
  {
    first := State([Sched(10, 10, 5, 10, true, false)], 10, 0, 2,
                   [Offer(0, false, 0, 10, 5, 0, false), Offer(0, true, 0, 10, 10, 10, false)]);
    TakesSpace(replies, State([Sched(0, 10, 5, 0, false, false)], 0, 10, 0, []), first);
    second := State([Sched(8, 10, 5, 10, false, false)], 10, 5, 3, first.log + [Offer(0, false, 10, 5, 5, 0, false)]);
    IsIdle(replies, first.(remaining := 5), second);
    third := State([Sched(U64 - 2, 10, 5, 0, true, true)], 15, 0, 4, second.log + [Offer(0, false, 10, 5, 5, 5, true)]);
    ClaimsData(replies, second.(remaining := 5), third);
  }
}
