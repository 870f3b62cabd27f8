/** The loops of the deletion path: spine walks, the fused-child decoder and the rank buckets. */
module ActionHeapLists {
  import opened Machine
  import opened Options
  import opened ActionPolicy
  import opened ActionEntries
  import opened ActionHeapKernel

  /** The entries of a list of logical trees, as a multiset. */
  ghost function ListEntries<E, P, A>(pol: Policy<P, A>, ts: seq<Tree<E, P, A>>): multiset<Entry<E, P>> {
    if ts == [] then multiset{}
    else ListEntries(pol, ts[..|ts| - 1]) + multiset(Entries(pol, ts[|ts| - 1]))
  }

  ghost predicate GoodList<E(!new), P(!new), A>(pol: Policy<P, A>, ts: seq<Tree<E, P, A>>) {
    forall i :: 0 <= i < |ts| ==> Good(pol, ts[i])
  }

  function RanksOf<E, P, A>(ts: seq<Tree<E, P, A>>): (r: seq<nat>)
    ensures |r| == |ts| && forall i :: 0 <= i < |ts| ==> r[i] == ts[i].rank
  {
    seq(|ts|, i requires 0 <= i < |ts| => ts[i].rank)
  }

  lemma NoEntries<E, P, A>(pol: Policy<P, A>)
    ensures ListEntries<E, P, A>(pol, []) == multiset{} && ForestEntries<E, P, A>(pol, Nil) == []
  {
  }

  lemma PushEntries<E, P, A>(pol: Policy<P, A>, ts: seq<Tree<E, P, A>>, t: Tree<E, P, A>)
    ensures ListEntries(pol, ts + [t]) == ListEntries(pol, ts) + multiset(Entries(pol, t))
  {
    assert (ts + [t])[..|ts|] == ts;
  }

  lemma {:induction false} ConcatEntries<E, P, A>(pol: Policy<P, A>, ts: seq<Tree<E, P, A>>, us: seq<Tree<E, P, A>>)
    ensures ListEntries(pol, ts + us) == ListEntries(pol, ts) + ListEntries(pol, us)
    decreases |us|
  {
    hide Entries;
    if us == [] {
      assert ts + us == ts;
    } else {
      var n := |us| - 1;
      ConcatEntries(pol, ts, us[..n]);
      assert (ts + us)[..|ts + us| - 1] == ts + us[..n];
    }
  }

  lemma NextEntries<E, P, A>(pol: Policy<P, A>, ts: seq<Tree<E, P, A>>, i: nat)
    requires i < |ts|
    ensures ListEntries(pol, ts[..i + 1]) == ListEntries(pol, ts[..i]) + multiset(Entries(pol, ts[i]))
  {
    assert ts[..i + 1][..i] == ts[..i];
  }

  lemma SplitEntries<E, P, A>(pol: Policy<P, A>, ts: seq<Tree<E, P, A>>, i: nat)
    requires i <= |ts|
    ensures ListEntries(pol, ts) == ListEntries(pol, ts[..i]) + ListEntries(pol, ts[i..])
  {
    assert ts == ts[..i] + ts[i..];
    ConcatEntries(pol, ts[..i], ts[i..]);
  }

  lemma {:induction false} MemberEntries<E, P, A>(pol: Policy<P, A>, ts: seq<Tree<E, P, A>>, i: nat)
    requires i < |ts|
    ensures multiset(Entries(pol, ts[i])) <= ListEntries(pol, ts)
    decreases |ts|
  {
    if i < |ts| - 1 { MemberEntries(pol, ts[..|ts| - 1], i); }
  }

  // ----- Spine walks -----

  lemma WalkStep<E(!new), P(!new), A(!new)>(pol: Policy<P, A>, cursor: Forest<E, P, A>, list: seq<Tree<E, P, A>>)
    requires Lawful(pol) && cursor.Cons? && GoodForest(pol, cursor)
    ensures Good(pol, Head(pol, cursor)) && GoodForest(pol, Tail(pol, cursor))
    ensures |Ranks(Tail(pol, cursor))| < |Ranks(cursor)|
    ensures RanksOf(list + [Head(pol, cursor)]) + Ranks(Tail(pol, cursor)) == RanksOf(list) + Ranks(cursor)
  {
    HeadTailFacts(pol, cursor);
    var head := Head(pol, cursor);
    assert RanksOf(list + [head]) == RanksOf(list) + [head.rank];
  }

  lemma WalkEntries<E(!new), P(!new), A(!new)>(pol: Policy<P, A>, cursor: Forest<E, P, A>, list: seq<Tree<E, P, A>>)
    requires Lawful(pol) && cursor.Cons? && GoodForest(pol, cursor)
    ensures ListEntries(pol, list + [Head(pol, cursor)]) + multiset(ForestEntries(pol, Tail(pol, cursor)))
         == ListEntries(pol, list) + multiset(ForestEntries(pol, cursor))
  {
    HeadTailFacts(pol, cursor);
    var head := Head(pol, cursor);
    PushEntries(pol, list, head);
    SumShift(ListEntries(pol, list), multiset(Entries(pol, head)), multiset(ForestEntries(pol, Tail(pol, cursor))));
  }

  /** The logical root entries of a list of trees. */
  ghost function RootsOf<E, P, A>(pol: Policy<P, A>, ts: seq<Tree<E, P, A>>): (r: seq<Entry<E, P>>)
    ensures |r| == |ts| && forall i :: 0 <= i < |ts| ==> r[i] == RootEntry(pol, ts[i])
  {
    seq(|ts|, i requires 0 <= i < |ts| => RootEntry(pol, ts[i]))
  }

  lemma WalkRoots<E(!new), P(!new), A(!new)>(pol: Policy<P, A>, cursor: Forest<E, P, A>, list: seq<Tree<E, P, A>>)
    requires Lawful(pol) && cursor.Cons? && GoodForest(pol, cursor)
    ensures RootsOf(pol, list + [Head(pol, cursor)]) + Roots(pol, Tail(pol, cursor)) == RootsOf(pol, list) + Roots(pol, cursor)
  {
    hide *;
    HeadTailRoots(pol, cursor);
    RootsPush(pol, list, Head(pol, cursor));
  }

  lemma RootsPush<E, P, A>(pol: Policy<P, A>, list: seq<Tree<E, P, A>>, t: Tree<E, P, A>)
    ensures RootsOf(pol, list + [t]) == RootsOf(pol, list) + [RootEntry(pol, t)]
  {
  }

  /** The listed trees followed by the rest of the spine are the whole forest. */
  ghost predicate Walked<E(!new), P(!new), A>(
    pol: Policy<P, A>, forest: Forest<E, P, A>, list: seq<Tree<E, P, A>>, cursor: Forest<E, P, A>)
  {
    && GoodForest(pol, cursor) && GoodList(pol, list)
    && RanksOf(list) + Ranks(cursor) == Ranks(forest)
    && RootsOf(pol, list) + Roots(pol, cursor) == Roots(pol, forest)
    && ListEntries(pol, list) + multiset(ForestEntries(pol, cursor)) == multiset(ForestEntries(pol, forest))
  }

  lemma WalkStarts<E(!new), P(!new), A(!new)>(pol: Policy<P, A>, forest: Forest<E, P, A>)
    requires GoodForest(pol, forest)
    ensures Walked(pol, forest, [], forest)
  {
    NoEntries<E, P, A>(pol);
  }

  lemma WalkGoesOn<E(!new), P(!new), A(!new)>(
    pol: Policy<P, A>, forest: Forest<E, P, A>, list: seq<Tree<E, P, A>>, cursor: Forest<E, P, A>)
    requires Lawful(pol) && Walked(pol, forest, list, cursor) && cursor.Cons?
    ensures Walked(pol, forest, list + [Head(pol, cursor)], Tail(pol, cursor))
    ensures |Ranks(Tail(pol, cursor))| < |Ranks(cursor)| && |Ranks(forest)| == |list| + |Ranks(cursor)|
  {
    hide Lawful, Good, GoodForest, Head, Tail, Roots, RootsOf, Entries, ForestEntries, ListEntries, Ranks;
    WalkStep(pol, cursor, list);
    WalkEntries(pol, cursor, list);
    WalkRoots(pol, cursor, list);
  }

  lemma WalkEnds<E(!new), P(!new), A(!new)>(pol: Policy<P, A>, forest: Forest<E, P, A>, list: seq<Tree<E, P, A>>)
    requires Walked(pol, forest, list, Nil)
    ensures GoodList(pol, list) && RanksOf(list) == Ranks(forest) && RootsOf(pol, list) == Roots(pol, forest)
    ensures ListEntries(pol, list) == multiset(ForestEntries(pol, forest)) && |Ranks(forest)| == |list|
  {
    hide Good, Entries, ListEntries, RootsOf;
  }

  /** Collects the logical trees of a spine, in its order. The bound trips exactly when the spine is longer. */
  method ForestToList<E(!new), P(!new), A(!new)>(pol: Policy<P, A>, forest: Forest<E, P, A>, bound: nat)
    returns (status: Status, list: seq<Tree<E, P, A>>)
    requires Lawful(pol) && GoodForest(pol, forest)
    ensures status == if |Ranks(forest)| <= bound then Ok else InconsistentPolicy
    ensures status.Ok? ==> GoodList(pol, list) && RanksOf(list) == Ranks(forest) && RootsOf(pol, list) == Roots(pol, forest)
    ensures status.Ok? ==> ListEntries(pol, list) == multiset(ForestEntries(pol, forest))
  {
    hide *;
    list := [];
    var cursor := forest;
    WalkStarts(pol, forest);
    while cursor.Cons?
      invariant Walked(pol, forest, list, cursor) && |list| <= bound
      decreases |Ranks(cursor)|
    {
      WalkGoesOn(pol, forest, list, cursor);
      if |list| == bound {
        return InconsistentPolicy, list;
      }
      list := list + [Head(pol, cursor)];
      cursor := Tail(pol, cursor);
    }
    WalkEnds(pol, forest, list);
    status := Ok;
  }

  lemma RebuildStep<E(!new), P(!new), A(!new)>(
    pol: Policy<P, A>, list: seq<Tree<E, P, A>>, index: nat, forest: Forest<E, P, A>)
    requires Lawful(pol) && index < |list| && Good(pol, list[index]) && GoodForest(pol, forest)
    requires Ranks(forest) == RanksOf(list[index + 1..])
    ensures var next := Prepend(pol, list[index], forest);
      && GoodForest(pol, next) && Ranks(next) == RanksOf(list[index..])
      && ListEntries(pol, list[..index]) + multiset(ForestEntries(pol, next))
         == ListEntries(pol, list[..index + 1]) + multiset(ForestEntries(pol, forest))
  {
    hide Entries, ForestEntries, Good, GoodForest, ListEntries;
    PrependFacts(pol, list[index], forest);
    NextEntries(pol, list, index);
    assert list[index..] == [list[index]] + list[index + 1..];
    assert RanksOf(list[index..]) == [list[index].rank] + RanksOf(list[index + 1..]);
    SumShift(ListEntries(pol, list[..index]), multiset(Entries(pol, list[index])), multiset(ForestEntries(pol, forest)));
  }

  method ListToForest<E(!new), P(!new), A(!new)>(pol: Policy<P, A>, list: seq<Tree<E, P, A>>)
    returns (forest: Forest<E, P, A>)
    requires Lawful(pol) && GoodList(pol, list)
    ensures GoodForest(pol, forest) && Ranks(forest) == RanksOf(list)
    ensures multiset(ForestEntries(pol, forest)) == ListEntries(pol, list)
  {
    forest := Nil;
    var index: nat := |list|;
    assert list[..index] == list;
    while index != 0
      invariant index <= |list|
      invariant GoodForest(pol, forest) && Ranks(forest) == RanksOf(list[index..])
      invariant ListEntries(pol, list[..index]) + multiset(ForestEntries(pol, forest)) == ListEntries(pol, list)
    {
      index := index - 1;
      RebuildStep(pol, list, index, forest);
      forest := Prepend(pol, list[index], forest);
    }
    assert list[0..] == list;
  }

  // ----- Decoding the fused child list -----

  /** The first `index` children have been dealt out to the two lists, none lost and none repeated. */
  ghost predicate Dealt<E(!new), P(!new), A(!new)>(pol: Policy<P, A>, children: seq<Tree<E, P, A>>, index: nat,
                                                   zeros: seq<Tree<E, P, A>>, trees: seq<Tree<E, P, A>>)
  {
    && index <= |children| && GoodList(pol, zeros) && GoodList(pol, trees)
    && (forall i :: 0 <= i < |zeros| ==> zeros[i].rank == 0)
    && ListEntries(pol, children[..index]) == ListEntries(pol, zeros) + ListEntries(pol, trees)
  }

  lemma DealNone<E(!new), P(!new), A(!new)>(pol: Policy<P, A>, children: seq<Tree<E, P, A>>)
    ensures Dealt(pol, children, 0, [], [])
  {
  }

  lemma DealOne<E(!new), P(!new), A(!new)>(pol: Policy<P, A>, children: seq<Tree<E, P, A>>, index: nat,
                                           zeros: seq<Tree<E, P, A>>, trees: seq<Tree<E, P, A>>)
    requires index < |children| && GoodList(pol, children) && Dealt(pol, children, index, zeros, trees)
    ensures Dealt(pol, children, index + 1, zeros, trees + [children[index]])
    ensures children[index].rank == 0 ==> Dealt(pol, children, index + 1, zeros + [children[index]], trees)
  {
    hide Entries, ListEntries, Good;
    var t := children[index];
    NextEntries(pol, children, index);
    PushEntries(pol, trees, t);
    PushEntries(pol, zeros, t);
    SumShift(ListEntries(pol, zeros), ListEntries(pol, trees), multiset(Entries(pol, t)));
  }

  lemma DealPair<E(!new), P(!new), A(!new)>(pol: Policy<P, A>, children: seq<Tree<E, P, A>>, index: nat,
                                            zeros: seq<Tree<E, P, A>>, trees: seq<Tree<E, P, A>>)
    requires index + 1 < |children| && GoodList(pol, children) && Dealt(pol, children, index, zeros, trees)
    ensures Dealt(pol, children, index + 2, zeros, trees + [children[index + 1]] + [children[index]])
    ensures children[index].rank == 0 ==>
      Dealt(pol, children, index + 2, zeros + [children[index]], trees + [children[index + 1]])
  {
    hide Entries, ListEntries, Good;
    var first, second := children[index], children[index + 1];
    DealOne(pol, children, index, zeros, trees);
    DealOne(pol, children, index + 1, zeros, trees + [first]);
    if first.rank == 0 {
      DealOne(pol, children, index + 1, zeros + [first], trees);
    }
    PushEntries(pol, trees, first);
    PushEntries(pol, trees, second);
    PushEntries(pol, trees + [first], second);
    PushEntries(pol, trees + [second], first);
    SumShift(ListEntries(pol, trees), multiset(Entries(pol, first)), multiset(Entries(pol, second)));
  }

  ghost predicate FusedAt(rank: nat, ranks: seq<nat>, i: nat) {
    i <= |ranks| && Fused(rank, ranks[i..])
  }

  /** One decoding step: which of the three encodings a fused list starts with, and what follows it. */
  lemma FusedStep(rank: nat, ranks: seq<nat>, i: nat)
    requires i <= |ranks| && FusedAt(rank, ranks, i) && rank > 0
    ensures i < |ranks| && (i + 1 == |ranks| ==> rank == 1)
    ensures rank == 1 ==> ranks[i] == 0
    ensures rank > 1 ==> (if ranks[i] == 0 && ranks[i + 1] != 0 then ranks[i + 1] else ranks[i]) == rank - 1
    ensures rank == 1 && i + 1 < |ranks| && ranks[i + 1] == 0 ==> FusedAt(0, ranks, i + 2)
    ensures rank == 1 && i + 1 < |ranks| && ranks[i + 1] != 0 ==> FusedAt(0, ranks, i + 1)
    ensures rank > 1 && ranks[i] == ranks[i + 1] ==> FusedAt(0, ranks, i + 2)
    ensures rank > 1 && ranks[i] != ranks[i + 1] && ranks[i] == 0 ==> FusedAt(rank - 1, ranks, i + 2)
    ensures rank > 1 && ranks[i] != ranks[i + 1] && ranks[i] != 0 ==> FusedAt(rank - 1, ranks, i + 1)
    ensures FusedAt(0, ranks, |ranks|)
  {
    var s := ranks[i..];
    if i < |ranks| { assert s[1..] == ranks[i + 1..]; }
    if i + 1 < |ranks| { assert s[2..] == ranks[i + 2..]; }
  }

  /** The children split into rank-zero trees, structural trees and, from `start` on, a skew forest. */
  ghost predicate SplitsInto<E(!new), P(!new), A(!new)>(pol: Policy<P, A>, children: seq<Tree<E, P, A>>, start: nat,
                                                        zeros: seq<Tree<E, P, A>>, trees: seq<Tree<E, P, A>>)
  {
    && start <= |children| && GoodList(pol, zeros) && GoodList(pol, trees) && GoodList(pol, children[start..])
    && (forall i :: 0 <= i < |zeros| ==> zeros[i].rank == 0)
    && Skew(RanksOf(children[start..]))
    && ListEntries(pol, children)
       == ListEntries(pol, zeros) + ListEntries(pol, trees) + ListEntries(pol, children[start..])
  }

  lemma SplitEnds<E(!new), P(!new), A(!new)>(pol: Policy<P, A>, children: seq<Tree<E, P, A>>, start: nat,
                                             zeros: seq<Tree<E, P, A>>, trees: seq<Tree<E, P, A>>)
    requires GoodList(pol, children) && Dealt(pol, children, start, zeros, trees) && FusedAt(0, RanksOf(children), start)
    ensures SplitsInto(pol, children, start, zeros, trees)
  {
    hide Entries, ListEntries, Good;
    assert RanksOf(children[start..]) == RanksOf(children)[start..];
    SplitEntries(pol, children, start);
  }

  /** Ranks rank - 1, rank - 2, and so on. */
  ghost predicate Descends(rank: nat, ranks: seq<nat>) {
    forall i :: 0 <= i < |ranks| ==> ranks[i] == rank - 1 - i
  }

  /** One tree of every lower rank, or a descent that ends early with two trees of one rank. */
  ghost predicate Stairs(rank: nat, ranks: seq<nat>) {
    || (|ranks| == rank && Descends(rank, ranks))
    || (2 <= |ranks| <= rank && Descends(rank, ranks[..|ranks| - 1]) && ranks[|ranks| - 1] == ranks[|ranks| - 2])
  }

  lemma DescendPush<E, P, A>(rank: nat, trees: seq<Tree<E, P, A>>, t: Tree<E, P, A>)
    requires Descends(rank, RanksOf(trees)) && t.rank == rank - 1 - |trees|
    ensures Descends(rank, RanksOf(trees + [t])) && (|trees| + 1 == rank ==> Stairs(rank, RanksOf(trees + [t])))
  {
  }

  lemma TiePush<E, P, A>(rank: nat, trees: seq<Tree<E, P, A>>, t: Tree<E, P, A>, u: Tree<E, P, A>)
    requires Descends(rank, RanksOf(trees)) && t.rank == u.rank == rank - 1 - |trees| && |trees| + 2 <= rank
    ensures Stairs(rank, RanksOf(trees + [t] + [u]))
  {
    DescendPush(rank, trees, t);
    var s := RanksOf(trees + [t] + [u]);
    assert s[..|s| - 1] == RanksOf(trees + [t]);
  }

  /** Splits the children of a rank-r tree into detached rank-zero trees, structural trees and the
      embedded skew forest. A rank-zero first embedded tree is read as structural, which is harmless. */
  method SplitForest<E(!new), P(!new), A(!new)>(pol: Policy<P, A>, rank: nat, children: seq<Tree<E, P, A>>)
    returns (status: Status, zeros: seq<Tree<E, P, A>>, trees: seq<Tree<E, P, A>>, embeddedStart: nat)
    requires GoodList(pol, children) && Fused(rank, RanksOf(children))
    ensures status.Ok? && |trees| <= rank && Stairs(rank, RanksOf(trees))
    ensures SplitsInto(pol, children, embeddedStart, zeros, trees)
  {
    ghost var ranks := RanksOf(children);
    assert FusedAt(rank, ranks, 0) by {
      assert ranks[0..] == ranks;
    }
    DealNone(pol, children);
    zeros, trees := [], [];
    var index: nat, left: nat := 0, rank;
    assert Descends(rank, RanksOf(trees)) && (rank == 0 ==> Stairs(rank, RanksOf(trees)));
    hide *;
    while left != 0
      invariant index <= |children| && |trees| <= rank
      invariant if left == 0 then Stairs(rank, RanksOf(trees)) else |trees| + left == rank && Descends(rank, RanksOf(trees))
      invariant FusedAt(left, ranks, index)
      invariant Dealt(pol, children, index, zeros, trees)
      decreases left
    {
      FusedStep(left, ranks, index);
      if index == |children| {
        assert false;
      }
      var first := children[index];
      DealOne(pol, children, index, zeros, trees);
      if index + 1 == |children| {
        if left != 1 {
          assert false;
        }
        DescendPush(rank, trees, first);
        trees := trees + [first];
        index, left := |children|, 0;
      } else {
        var second := children[index + 1];
        DealPair(pol, children, index, zeros, trees);
        if left == 1 {
          if second.rank == 0 {
            DescendPush(rank, trees, second);
            zeros, trees, index := zeros + [first], trees + [second], index + 2;
          } else {
            DescendPush(rank, trees, first);
            trees, index := trees + [first], index + 1;
          }
          left := 0;
        } else if first.rank == second.rank {
          TiePush(rank, trees, second, first);
          trees, index := trees + [second] + [first], index + 2;
          left := 0;
        } else if first.rank == 0 {
          DescendPush(rank, trees, second);
          zeros, trees, index := zeros + [first], trees + [second], index + 2;
          left := left - 1;
        } else {
          DescendPush(rank, trees, first);
          trees, index := trees + [first], index + 1;
          left := left - 1;
        }
      }
    }
    SplitEnds(pol, children, index, zeros, trees);
    return Ok, zeros, trees, index;
  }

  // ----- Rank buckets -----

  ghost function SlotEntries<E, P, A>(pol: Policy<P, A>, slot: Option<Tree<E, P, A>>): multiset<Entry<E, P>> {
    if slot.None? then multiset{} else multiset(Entries(pol, slot.value))
  }

  /** The entries in the first n buckets. */
  ghost function BucketSum<E, P, A>(pol: Policy<P, A>, b: seq<Option<Tree<E, P, A>>>, n: nat): multiset<Entry<E, P>>
    requires n <= |b|
  {
    if n == 0 then multiset{} else BucketSum(pol, b, n - 1) + SlotEntries(pol, b[n - 1])
  }

  ghost function BucketEntries<E, P, A>(pol: Policy<P, A>, b: seq<Option<Tree<E, P, A>>>): multiset<Entry<E, P>> {
    BucketSum(pol, b, |b|)
  }

  ghost function OccupiedBelow<E, P, A>(b: seq<Option<Tree<E, P, A>>>, n: nat): nat
    requires n <= |b|
  {
    if n == 0 then 0 else OccupiedBelow(b, n - 1) + if b[n - 1].Some? then 1 else 0
  }

  ghost function Occupied<E, P, A>(b: seq<Option<Tree<E, P, A>>>): nat {
    OccupiedBelow(b, |b|)
  }

  /** Bucket i holds nothing or a good tree of rank i. */
  ghost predicate GoodBuckets<E(!new), P(!new), A>(pol: Policy<P, A>, b: seq<Option<Tree<E, P, A>>>) {
    forall i :: 0 <= i < |b| && b[i].Some? ==> Good(pol, b[i].value) && b[i].value.rank == i
  }

  /** Each link frees a bucket, so no rank can climb past `top` less the buckets still in use. */
  ghost predicate Headroom<E(!new), P(!new), A(!new)>(b: seq<Option<Tree<E, P, A>>>, top: nat) {
    forall i :: 0 <= i < |b| && b[i].Some? ==> i + Occupied(b) <= top
  }

  lemma {:induction false} UpdateSum<E, P, A>(
    pol: Policy<P, A>, b: seq<Option<Tree<E, P, A>>>, i: nat, slot: Option<Tree<E, P, A>>, n: nat)
    requires i < |b| && n <= |b|
    ensures n <= i ==> BucketSum(pol, b[i := slot], n) == BucketSum(pol, b, n)
    ensures i < n ==> BucketSum(pol, b[i := slot], n) + SlotEntries(pol, b[i]) == BucketSum(pol, b, n) + SlotEntries(pol, slot)
  {
    hide SlotEntries, Entries;
    if n > 0 {
      UpdateSum(pol, b, i, slot, n - 1);
      var below, above := BucketSum(pol, b, n - 1), BucketSum(pol, b[i := slot], n - 1);
      if i < n - 1 {
        SumExchange(above, SlotEntries(pol, b[i]), below, SlotEntries(pol, slot), SlotEntries(pol, b[n - 1]));
      } else if i == n - 1 {
        SumShift(below, SlotEntries(pol, slot), SlotEntries(pol, b[i]));
      }
    }
  }

  lemma {:induction false} UpdateOccupied<E, P, A>(
    b: seq<Option<Tree<E, P, A>>>, i: nat, slot: Option<Tree<E, P, A>>, n: nat)
    requires i < |b| && n <= |b|
    ensures OccupiedBelow(b[i := slot], n) + (if i < n && b[i].Some? then 1 else 0)
         == OccupiedBelow(b, n) + (if i < n && slot.Some? then 1 else 0)
  {
    if n > 0 { UpdateOccupied(b, i, slot, n - 1); }
  }

  lemma {:induction false} EmptyBuckets<E, P, A>(pol: Policy<P, A>, b: seq<Option<Tree<E, P, A>>>, n: nat)
    requires n <= |b| && forall i :: 0 <= i < |b| ==> b[i].None?
    ensures BucketSum(pol, b, n) == multiset{} && OccupiedBelow(b, n) == 0
  {
    if n > 0 { EmptyBuckets(pol, b, n - 1); }
  }

  /** The buckets and the tree in hand, while a tree is being filed. */
  ghost predicate Filing<E(!new), P(!new), A(!new)>(
    pol: Policy<P, A>, b: seq<Option<Tree<E, P, A>>>, current: Tree<E, P, A>, top: nat, total: multiset<Entry<E, P>>)
  {
    && Good(pol, current) && GoodBuckets(pol, b)
    && Headroom(b, top) && current.rank + Occupied(b) <= top
    && BucketEntries(pol, b) + multiset(Entries(pol, current)) == total
  }

  lemma FilingLinks<E(!new), P(!new), A(!new)>(
    pol: Policy<P, A>, b: seq<Option<Tree<E, P, A>>>, current: Tree<E, P, A>, top: nat, total: multiset<Entry<E, P>>)
    requires Lawful(pol) && Filing(pol, b, current, top, total) && |total| <= SIZE_MAX
    requires current.rank < |b| && b[current.rank].Some?
    ensures var linked := Link(pol, b[current.rank].value, current);
      && linked.Success? && linked.value.rank == current.rank + 1
      && Occupied(b[current.rank := None]) + 1 == Occupied(b)
      && Filing(pol, b[current.rank := None], linked.value, top, total)
  {
    hide Entries, ForestEntries, Good, GoodForest, Link, BucketSum, OccupiedBelow, Lawful;
    var slot := b[current.rank].value;
    UpdateSum(pol, b, current.rank, None, |b|);
    UpdateOccupied(b, current.rank, None, |b|);
    assert |Entries(pol, current)| <= SIZE_MAX by {
      assert |total| == |BucketEntries(pol, b)| + |multiset(Entries(pol, current))|;
    }
    RankFitsMachine(pol, current);
    LinkFacts(pol, slot, current);
    assert BucketEntries(pol, b[current.rank := None]) + multiset(Entries(pol, slot)) == BucketEntries(pol, b);
    SumShift(BucketEntries(pol, b[current.rank := None]), multiset(Entries(pol, slot)), multiset(Entries(pol, current)));
  }

  lemma FilingEnds<E(!new), P(!new), A(!new)>(
    pol: Policy<P, A>, b: seq<Option<Tree<E, P, A>>>, current: Tree<E, P, A>, top: nat, total: multiset<Entry<E, P>>)
    requires Filing(pol, b, current, top, total) && current.rank < |b| && b[current.rank].None?
    ensures var c := b[current.rank := Some(current)];
      && GoodBuckets(pol, c) && Headroom(c, top + 1) && Occupied(c) == Occupied(b) + 1 && BucketEntries(pol, c) == total
  {
    UpdateSum(pol, b, current.rank, Some(current), |b|);
    UpdateOccupied(b, current.rank, Some(current), |b|);
  }

  /** Files one tree, linking upward through occupied ranks. Under the headroom bound it never overflows. */
  method BucketAdd<E(!new), P(!new), A(!new)>(
    pol: Policy<P, A>, buckets: array<Option<Tree<E, P, A>>>, source: Tree<E, P, A>, ghost top: nat)
    returns (status: Status)
    requires Lawful(pol) && Good(pol, source) && GoodBuckets(pol, buckets[..])
    requires Headroom(buckets[..], top) && source.rank + Occupied(buckets[..]) <= top < buckets.Length
    requires |BucketEntries(pol, buckets[..])| + |Entries(pol, source)| <= SIZE_MAX
    modifies buckets
    ensures status.Ok? && GoodBuckets(pol, buckets[..])
    ensures Headroom(buckets[..], top + 1) && Occupied(buckets[..]) <= old(Occupied(buckets[..])) + 1
    ensures BucketEntries(pol, buckets[..]) == old(BucketEntries(pol, buckets[..])) + multiset(Entries(pol, source))
  {
    var current := source;
    var rank := source.rank;
    ghost var total := BucketEntries(pol, buckets[..]) + multiset(Entries(pol, source));
    while rank < buckets.Length && buckets[rank].Some?
      invariant current.rank == rank && Filing(pol, buckets[..], current, top, total)
      invariant Occupied(buckets[..]) <= old(Occupied(buckets[..]))
      decreases buckets.Length - rank
    {
      FilingLinks(pol, buckets[..], current, top, total);
      var linked := Link(pol, buckets[rank].value, current);
      ghost var after := buckets[..][rank := None];
      buckets[rank] := None;
      assert buckets[..] == after;
      if linked.Failure? {
        assert false;
      }
      current := linked.value;
      rank := current.rank;
    }
    if rank >= buckets.Length {
      assert false;
    }
    FilingEnds(pol, buckets[..], current, top, total);
    ghost var after := buckets[..][rank := Some(current)];
    buckets[rank] := Some(current);
    assert buckets[..] == after;
    status := Ok;
  }

  /** Files a whole list, one tree at a time. */
  method FileAll<E(!new), P(!new), A(!new)>(
    pol: Policy<P, A>, buckets: array<Option<Tree<E, P, A>>>, list: seq<Tree<E, P, A>>,
    ghost maximum: nat, ghost filed: nat)
    requires Lawful(pol) && GoodList(pol, list) && GoodBuckets(pol, buckets[..])
    requires forall i :: 0 <= i < |list| ==> list[i].rank <= maximum
    requires Headroom(buckets[..], maximum + filed) && Occupied(buckets[..]) <= filed
    requires maximum + filed + |list| <= buckets.Length
    requires |BucketEntries(pol, buckets[..])| + |ListEntries(pol, list)| <= SIZE_MAX
    modifies buckets
    ensures GoodBuckets(pol, buckets[..])
    ensures Headroom(buckets[..], maximum + filed + |list|) && Occupied(buckets[..]) <= filed + |list|
    ensures BucketEntries(pol, buckets[..]) == old(BucketEntries(pol, buckets[..])) + ListEntries(pol, list)
  {
    NoEntries<E, P, A>(pol);
    assert list[..0] == [] && list[..|list|] == list;
    hide Lawful, Good, Headroom, BucketEntries, Occupied, ListEntries, GoodBuckets, Entries;
    ghost var start := BucketEntries(pol, buckets[..]);
    var index: nat := 0;
    while index != |list|
      invariant index <= |list| && GoodBuckets(pol, buckets[..])
      invariant Headroom(buckets[..], maximum + filed + index) && Occupied(buckets[..]) <= filed + index
      invariant BucketEntries(pol, buckets[..]) == start + ListEntries(pol, list[..index])
    {
      NextEntries(pol, list, index);
      PrefixEntries(pol, list, index);
      SumShift(start, ListEntries(pol, list[..index]), multiset(Entries(pol, list[index])));
      var status := BucketAdd(pol, buckets, list[index], maximum + filed + index);
      if !status.Ok? {
        assert false;
      }
      index := index + 1;
    }
  }

  lemma PrefixEntries<E, P, A>(pol: Policy<P, A>, ts: seq<Tree<E, P, A>>, i: nat)
    requires i < |ts|
    ensures |ListEntries(pol, ts[..i])| + |Entries(pol, ts[i])| <= |ListEntries(pol, ts)|
  {
    hide ListEntries, Entries;
    SplitEntries(pol, ts, i + 1);
    NextEntries(pol, ts, i);
  }

  method MaximumRank<E, P, A>(list: seq<Tree<E, P, A>>, floor: nat) returns (maximum: nat)
    ensures floor <= maximum && forall i :: 0 <= i < |list| ==> list[i].rank <= maximum
    ensures maximum == floor || exists i :: 0 <= i < |list| && list[i].rank == maximum
  {
    maximum := floor;
    for index := 0 to |list|
      invariant floor <= maximum && forall i :: 0 <= i < index ==> list[i].rank <= maximum
      invariant maximum == floor || exists i :: 0 <= i < index && list[i].rank == maximum
    {
      if list[index].rank > maximum {
        maximum := list[index].rank;
      }
    }
  }

  /** Reads the buckets back in rank order. */
  method CollectBuckets<E(!new), P(!new), A(!new)>(pol: Policy<P, A>, buckets: array<Option<Tree<E, P, A>>>)
    returns (result: seq<Tree<E, P, A>>)
    requires GoodBuckets(pol, buckets[..])
    ensures GoodList(pol, result) && Increasing(RanksOf(result))
    ensures ListEntries(pol, result) == BucketEntries(pol, buckets[..])
  {
    hide Good, Entries, ListEntries;
    NoEntries<E, P, A>(pol);
    result := [];
    ghost var b := buckets[..];
    for index := 0 to buckets.Length
      invariant b == buckets[..]
      invariant GoodList(pol, result)
      invariant forall i :: 0 <= i < |result| ==> result[i].rank < index
      invariant forall i, j :: 0 <= i < j < |result| ==> result[i].rank < result[j].rank
      invariant ListEntries(pol, result) == BucketSum(pol, b, index)
    {
      if buckets[index].Some? {
        PushEntries(pol, result, buckets[index].value);
        result := result + [buckets[index].value];
      }
    }
  }

  lemma ListRanksFitMachine<E(!new), P(!new), A(!new)>(pol: Policy<P, A>, ts: seq<Tree<E, P, A>>)
    requires GoodList(pol, ts) && |ListEntries(pol, ts)| <= SIZE_MAX
    ensures forall i :: 0 <= i < |ts| ==> ts[i].rank < 64
  {
    hide Good, Entries, ListEntries;
    forall i | 0 <= i < |ts| ensures ts[i].rank < 64 {
      PrefixEntries(pol, ts, i);
      RankFitsMachine(pol, ts[i]);
    }
  }

  /** m is the greatest rank of the two lists, or 0 if both are empty. */
  ghost predicate TopRank<E, P, A>(left: seq<Tree<E, P, A>>, right: seq<Tree<E, P, A>>, m: nat) {
    && (forall i :: 0 <= i < |left| ==> left[i].rank <= m) && (forall i :: 0 <= i < |right| ==> right[i].rank <= m)
    && (m == 0 || (exists i :: 0 <= i < |left| && left[i].rank == m) || (exists i :: 0 <= i < |right| && right[i].rank == m))
  }

  /** The meld overflows exactly when its buckets, two more than trees and greatest rank together, cannot be sized. */
  ghost predicate BucketsDecide<E, P, A>(left: seq<Tree<E, P, A>>, right: seq<Tree<E, P, A>>, status: Status) {
    exists m :: TopRank(left, right, m) && status == BucketStatus(|left| + |right| + m + 2)
  }

  ghost function BucketStatus(capacity: nat): Status {
    if capacity * POINTER_SIZE > SIZE_MAX then Overflow else Ok
  }

  /** Melds two lists of trees into one list of strictly increasing ranks. */
  method SkewMeld<E(!new), P(!new), A(!new)>(pol: Policy<P, A>, left: seq<Tree<E, P, A>>, right: seq<Tree<E, P, A>>)
    returns (status: Status, result: seq<Tree<E, P, A>>)
    requires Lawful(pol) && GoodList(pol, left) && GoodList(pol, right)
    requires |ListEntries(pol, left)| + |ListEntries(pol, right)| <= SIZE_MAX
    ensures BucketsDecide(left, right, status)
    ensures (|left| + |right| + 65) * POINTER_SIZE <= SIZE_MAX ==> status.Ok?
    ensures status.Ok? ==> GoodList(pol, result) && Increasing(RanksOf(result))
    ensures status.Ok? ==> ListEntries(pol, result) == ListEntries(pol, left) + ListEntries(pol, right)
  {
    NoEntries<E, P, A>(pol);
    hide Lawful, Good, Entries, ListEntries, BucketEntries, Occupied;
    ListRanksFitMachine(pol, left);
    ListRanksFitMachine(pol, right);
    result := [];
    var maximum := MaximumRank(left, 0);
    maximum := MaximumRank(right, maximum);
    assert TopRank(left, right, maximum);
    hide TopRank;
    var capacity := |left| + |right| + maximum + 2;
    if capacity * POINTER_SIZE > SIZE_MAX {
      return Overflow, [];
    }
    if |left| == 0 && |right| == 0 {
      return Ok, [];
    }
    var buckets := new Option<Tree<E, P, A>>[capacity](_ => None);
    EmptyBuckets(pol, buckets[..], capacity);
    BucketTotals(pol, buckets[..]);
    FileAll(pol, buckets, left, maximum, 0);
    FileAll(pol, buckets, right, maximum, |left|);
    result := CollectBuckets(pol, buckets);
    status := Ok;
  }

  lemma BucketTotals<E, P, A>(pol: Policy<P, A>, b: seq<Option<Tree<E, P, A>>>)
    ensures BucketEntries(pol, b) == BucketSum(pol, b, |b|) && Occupied(b) == OccupiedBelow(b, |b|)
  {
  }
}
