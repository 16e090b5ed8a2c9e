/** Putting LLCs into descending order of their keys, one at a time. */
module ScheduleSort {
  import opened Schedule

  ghost predicate Descending(scheds: seq<Sched>, order: seq<nat>)
    requires forall k :: 0 <= k < |order| ==> order[k] < |scheds|
  {
    forall a, b :: 0 <= a < b < |order| ==> Key(scheds[order[a]]) >= Key(scheds[order[b]])
  }

  /** Entry `k` of the order with `x` put in at `p`. */
  function Entry(order: seq<nat>, x: nat, p: nat, k: nat): nat
    requires p <= |order| && k <= |order|
  {
    if k < p then order[k] else if k == p then x else order[k - 1]
  }

  lemma InsertedMultiset(order: seq<nat>, x: nat, p: nat)
    requires p <= |order|
    ensures multiset(order[..p] + [x] + order[p..]) == multiset(order) + multiset{x}
  {
    assert order == order[..p] + order[p..];
  }

  lemma InsertedAt(scheds: seq<Sched>, order: seq<nat>, x: nat, p: nat, longer: seq<nat>)
    requires Distinct(order, |scheds|) && Descending(scheds, order) && x < |scheds| && x !in order
    requires p <= |order| && |longer| == |order| + 1
    requires forall k :: 0 <= k < |longer| ==> longer[k] == Entry(order, x, p, k)
    requires forall k :: 0 <= k < p ==> Key(scheds[order[k]]) >= Key(scheds[x])
    requires p < |order| ==> Key(scheds[order[p]]) < Key(scheds[x])
    ensures Distinct(longer, |scheds|) && Descending(scheds, longer)
  {
    forall a, b | 0 <= a < b < |longer|
      ensures longer[a] != longer[b] && Key(scheds[longer[a]]) >= Key(scheds[longer[b]])
    {
      InsertedPair(scheds, order, x, p, a, b);
    }
  }

  lemma InsertedPair(scheds: seq<Sched>, order: seq<nat>, x: nat, p: nat, a: nat, b: nat)
    requires Distinct(order, |scheds|) && Descending(scheds, order) && x < |scheds| && x !in order
    requires p <= |order| && a < b <= |order|
    requires forall k :: 0 <= k < p ==> Key(scheds[order[k]]) >= Key(scheds[x])
    requires p < |order| ==> Key(scheds[order[p]]) < Key(scheds[x])
    ensures var u, v := Entry(order, x, p, a), Entry(order, x, p, b);
            u < |scheds| && v < |scheds| && u != v && Key(scheds[u]) >= Key(scheds[v])
  {
    if a == p && p < b - 1 {
      assert Key(scheds[order[p]]) >= Key(scheds[order[b - 1]]);
    }
  }

  /** Where `x` belongs in a sorted order: in front of the first with a smaller key. */
  function Spot(scheds: seq<Sched>, order: seq<nat>, x: nat): (p: nat)
    requires x < |scheds| && forall k :: 0 <= k < |order| ==> order[k] < |scheds|
    ensures p <= |order| && forall k :: 0 <= k < p ==> Key(scheds[order[k]]) >= Key(scheds[x])
    ensures p < |order| ==> Key(scheds[order[p]]) < Key(scheds[x])
  {
    if |order| == 0 || Key(scheds[order[0]]) < Key(scheds[x]) then 0
    else
      var q := Spot(scheds, order[1..], x);
      assert forall k :: 0 < k < |order| ==> order[k] == order[1..][k - 1];
      1 + q
  }

  /** There is always a sorted order. */
  lemma {:induction false} Sortable(scheds: seq<Sched>, cache: seq<nat>) returns (order: seq<nat>)
    requires Distinct(cache, |scheds|)
    ensures SortedOrder(scheds, cache, order)
    decreases |cache|
  {
    if |cache| == 0 {
      order := [];
    } else {
      var before, x := cache[..|cache| - 1], cache[|cache| - 1];
      assert cache == before + [x];
      var shorter := Sortable(scheds, before);
      assert x !in multiset(before) && x !in multiset(shorter);
      var p := Spot(scheds, shorter, x);
      order := shorter[..p] + [x] + shorter[p..];
      InsertedMultiset(shorter, x, p);
      InsertedAt(scheds, shorter, x, p, order);
    }
  }
}
