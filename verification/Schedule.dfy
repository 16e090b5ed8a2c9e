/** One tick of the transmission scheduler as functions: the probe pass, the deficit rounds and
    the charging. Each LLC is an arbitrary answerer of on_tx calls. */
module Schedule {
  import opened Arith
  import opened Bytes

  /** The scheduling context of one LLC. */
  datatype Sched = Sched(deficit: nat, quanta: nat, ndMax: nat, currentAlloc: nat, schedulable: bool, loaded: bool)

  /** How an LLC answers a call: what it would like to allocate, whether it has something to send,
      and whether it loaded data. It never allocates more than it is offered. */
  datatype Reply = Reply(wants: nat, available: bool, loaded: bool)

  /** The answer to each call of on_tx, by the number of the call. */
  type Replies = nat -> Reply

  datatype Offer = Offer(llc: nat, data: bool, base: nat, room: nat, size: nat, taken: nat, loaded: bool)

  datatype State = State(scheds: seq<Sched>, cursor: nat, remaining: nat, calls: nat, log: seq<Offer>)

  const U64: nat := 0x1_0000_0000_0000_0000

  /** A call of on_tx with `size` octets at the cursor, and the cursor moved past what it took. */
  function Call(replies: Replies, s: State, i: nat, data: bool, size: nat, x: Sched): State
    requires i < |s.scheds| && size <= s.remaining
  {
    var r := replies(s.calls);
    var a := Min(r.wants, size);
    State(s.scheds[i := x], s.cursor + a, s.remaining - a, s.calls + 1,
          s.log + [Offer(i, data, s.cursor, s.remaining, size, a, r.loaded)])
  }

  // ---- the probe pass ----

  function ProbeOne(replies: Replies, s: State, i: nat): State
    requires i < |s.scheds|
  {
    var x, r := s.scheds[i], replies(s.calls);
    Call(replies, s, i, false, Min(s.remaining, x.ndMax),
         x.(schedulable := r.available, loaded := r.loaded,
            deficit := if r.available then x.deficit else x.deficit * 8 / 10))
  }

  /** The pass over the first `n` LLCs, of which those with `present` are attached. */
  function Probed(replies: Replies, present: seq<bool>, s: State, n: nat): (s': State)
    requires n <= |present| == |s.scheds|
    ensures |s'.scheds| == |s.scheds|
  {
    if n == 0 then s
    else
      var before := Probed(replies, present, s, n - 1);
      if present[n - 1] then ProbeOne(replies, before, n - 1) else before
  }

  /** The schedulable ones among the first `n` LLCs. */
  function Cache(present: seq<bool>, scheds: seq<Sched>, n: nat): (cache: seq<nat>)
    requires n <= |present| == |scheds|
    ensures forall i :: i in cache <==> 0 <= i < n && present[i] && scheds[i].schedulable
    ensures forall k :: 0 <= k < |cache| ==> cache[k] < n
    ensures forall a, b :: 0 <= a < b < |cache| ==> cache[a] < cache[b]
  {
    if n == 0 then []
    else if present[n - 1] && scheds[n - 1].schedulable then Cache(present, scheds, n - 1) + [n - 1]
    else Cache(present, scheds, n - 1)
  }

  // ---- one round ----

  /** Indices of distinct LLCs. */
  ghost predicate Distinct(order: seq<nat>, n: nat) {
    (forall k :: 0 <= k < |order| ==> order[k] < n) && forall a, b :: 0 <= a < b < |order| ==> order[a] != order[b]
  }

  function AddQuanta(scheds: seq<Sched>, cache: seq<nat>): (r: seq<Sched>)
    requires Distinct(cache, |scheds|)
    ensures |r| == |scheds|
    ensures forall i :: 0 <= i < |scheds| ==>
              r[i] == if i in cache then scheds[i].(deficit := scheds[i].deficit + scheds[i].quanta) else scheds[i]
  {
    seq(|scheds|, i requires 0 <= i < |scheds| =>
      if i in cache then scheds[i].(deficit := scheds[i].deficit + scheds[i].quanta) else scheds[i])
  }

  /** What the sort compares: deficit * !has_data_allocated. */
  function Key(x: Sched): nat {
    if x.loaded then 0 else x.deficit
  }

  /** A result std::sort may leave: the same LLCs, in descending order of their keys. */
  ghost predicate SortedOrder(scheds: seq<Sched>, cache: seq<nat>, order: seq<nat>) {
    && Distinct(order, |scheds|) && multiset(order) == multiset(cache)
    && forall a, b :: 0 <= a < b < |order| ==> Key(scheds[order[a]]) >= Key(scheds[order[b]])
  }

  function OfferOne(replies: Replies, s: State, i: nat): State
    requires i < |s.scheds|
  {
    var x, r := s.scheds[i], replies(s.calls);
    var size := Min(s.remaining, x.deficit);
    Call(replies, s, i, true, size, x.(loaded := r.loaded, currentAlloc := Min(r.wants, size)))
  }

  function Max(a: nat, b: nat): nat { if a >= b then a else b }

  /** The offers of one round, up to the first LLC that has data, and the largest deficit offered. */
  function Visit(replies: Replies, s: State, order: seq<nat>, most: nat): (r: (State, nat))
    requires Distinct(order, |s.scheds|)
    ensures |r.0.scheds| == |s.scheds|
    decreases |order|
  {
    if |order| == 0 || s.scheds[order[0]].loaded then (s, most)
    else
      DistinctTail(order, |s.scheds|);
      Visit(replies, OfferOne(replies, s, order[0]), order[1..], Max(most, s.scheds[order[0]].deficit))
  }

  lemma DistinctTail(order: seq<nat>, n: nat)
    requires Distinct(order, n) && |order| > 0
    ensures Distinct(order[1..], n) && order[0] !in order[1..]
  {
    assert forall a :: 0 <= a < |order| - 1 ==> order[1..][a] == order[a + 1];
  }

  /** A round, and whether it is the last one. */
  function Round(replies: Replies, cache: seq<nat>, s: State, order: seq<nat>): (r: (State, bool))
    requires Distinct(cache, |s.scheds|) && Distinct(order, |s.scheds|)
    ensures |r.0.scheds| == |s.scheds|
  {
    var s1 := s.(scheds := AddQuanta(s.scheds, cache));
    var (s2, most) := Visit(replies, s1, order, 0);
    (s2, most > s2.remaining || |s2.log| == |s1.log|)
  }

  // ---- the rounds of a tick ----

  ghost predicate AllDistinct(orders: seq<seq<nat>>, n: nat) {
    forall k :: 0 <= k < |orders| ==> Distinct(orders[k], n)
  }

  /** The state after the rounds with the given sort results, and whether the last one ended it. */
  function After(replies: Replies, cache: seq<nat>, s: State, orders: seq<seq<nat>>): (r: (State, bool))
    requires Distinct(cache, |s.scheds|) && AllDistinct(orders, |s.scheds|)
    ensures |r.0.scheds| == |s.scheds|
  {
    if |orders| == 0 then (s, false)
    else Round(replies, cache, After(replies, cache, s, orders[..|orders| - 1]).0, orders[|orders| - 1])
  }

  /** Each round started because space was left and no round before it was the last, and its sort
      result is one that std::sort may leave. */
  ghost predicate Rounds(replies: Replies, cache: seq<nat>, s: State, orders: seq<seq<nat>>)
    requires Distinct(cache, |s.scheds|) && AllDistinct(orders, |s.scheds|)
  {
    |orders| > 0 ==>
      var before := orders[..|orders| - 1];
      var (s1, last) := After(replies, cache, s, before);
      && Rounds(replies, cache, s, before) && !last && s1.remaining > 0
      && SortedOrder(AddQuanta(s1.scheds, cache), cache, orders[|orders| - 1])
  }

  // ---- charging ----

  /** size_t subtraction. */
  function Minus(a: nat, b: nat): nat {
    if b <= a then a - b else (a - b) % U64
  }

  function ChargeOne(x: Sched): Sched {
    if x.loaded then x.(deficit := Minus(x.deficit, x.currentAlloc), currentAlloc := 0) else x
  }

  function Charged(scheds: seq<Sched>, cache: seq<nat>): (r: seq<Sched>)
    ensures |r| == |scheds|
    ensures forall i :: 0 <= i < |scheds| ==> r[i] == if i in cache then ChargeOne(scheds[i]) else scheds[i]
  {
    seq(|scheds|, i requires 0 <= i < |scheds| => if i in cache then ChargeOne(scheds[i]) else scheds[i])
  }
}
