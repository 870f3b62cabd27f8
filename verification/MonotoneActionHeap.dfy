/** The persistent monotone-action heap: insertion, melding, whole-heap transformation and deletion,
    against an eager multiset that applies every action to every entry at once. */
module MonotoneActionHeap {
  import opened Machine
  import opened Options
  import opened ActionPolicy
  import opened ActionEntries
  import opened ActionHeapKernel
  import opened ActionHeapLists

  datatype Heap<E, P, A> = Heap(root: Option<Tree<E, P, A>>, count: nat)

  function HeapEntries<E, P, A>(pol: Policy<P, A>, h: Heap<E, P, A>): seq<Entry<E, P>> {
    if h.root.None? then [] else Entries(pol, h.root.value)
  }

  /** The heap's logical contents. */
  ghost function Contents<E, P, A>(pol: Policy<P, A>, h: Heap<E, P, A>): multiset<Entry<E, P>> {
    multiset(HeapEntries(pol, h))
  }

  /** The root is kept exposed, has rank zero, and the count fits a machine word. */
  ghost predicate Valid<E(!new), P(!new), A>(pol: Policy<P, A>, h: Heap<E, P, A>) {
    && h.count == |HeapEntries(pol, h)| <= SIZE_MAX
    && (h.root.Some? ==> Good(pol, h.root.value) && h.root.value.rank == 0 && Neutral(pol, h.root.value.action))
  }

  /** The entry the minimum accessor hands back. */
  function Minimum<E, P, A>(h: Heap<E, P, A>): Entry<E, P>
    requires h.root.Some?
  {
    (h.root.value.element, h.root.value.priority)
  }

  lemma RootFacts<E(!new), P(!new), A(!new)>(pol: Policy<P, A>, h: Heap<E, P, A>)
    requires Lawful(pol) && Valid(pol, h) && h.root.Some?
    ensures HeapEntries(pol, h) == [Minimum(h)] + ForestEntries(pol, h.root.value.children)
    ensures LogicalPriority(pol, h.root.value) == Minimum(h).1
  {
    var t := h.root.value;
    ActNeutral(pol, t.action, [(t.element, t.priority)] + ForestEntries(pol, t.children));
  }

  /** The accessor's entry is in the heap and no entry has a smaller priority. */
  lemma MinimumIsLeast<E(!new), P(!new), A(!new)>(pol: Policy<P, A>, h: Heap<E, P, A>)
    requires Lawful(pol) && Valid(pol, h) && h.root.Some?
    ensures Minimum(h) in Contents(pol, h)
    ensures forall e :: e in Contents(pol, h) ==> pol.cmp(Minimum(h).1, e.1) <= 0
  {
    RootFacts(pol, h);
    RootIsLeast(pol, h.root.value);
    assert HeapEntries(pol, h)[0] == Minimum(h);
  }

  // ----- Insertion -----

  function Insert<E, P, A>(pol: Policy<P, A>, h: Heap<E, P, A>, e: E, p: P): Outcome<Heap<E, P, A>> {
    if h.count == SIZE_MAX then Failure(Overflow)
    else
      var singleton := Tree(0, e, p, Nil, pol.identity);
      if h.root.None? then Success(Heap(Some(singleton), h.count + 1))
      else
        var root := h.root.value;
        if pol.Le(LogicalPriority(pol, singleton), LogicalPriority(pol, root)) then
          Success(Heap(Some(Tree(0, e, p, Prepend(pol, root, Nil), pol.identity)), h.count + 1))
        else
          var children := SkewInsert(pol, singleton, root.children);
          if children.Failure? then Failure(children.status)
          else Success(Heap(Some(Tree(0, root.element, root.priority, children.value, pol.identity)), h.count + 1))
  }

  lemma SingletonFacts<E(!new), P(!new), A(!new)>(pol: Policy<P, A>, e: E, p: P)
    requires Lawful(pol)
    ensures var t: Tree<E, P, A> := Tree(0, e, p, Nil, pol.identity);
      Good(pol, t) && Entries(pol, t) == [(e, p)] && LogicalPriority(pol, t) == p
  {
    BuildFacts<E, P, A>(pol, 0, e, p, Nil);
  }

  /** Insertion adds exactly one entry, and fails only when the count is exhausted. */
  lemma InsertFacts<E(!new), P(!new), A(!new)>(pol: Policy<P, A>, h: Heap<E, P, A>, e: E, p: P)
    requires Lawful(pol) && Valid(pol, h)
    ensures h.count == SIZE_MAX <==> Insert(pol, h, e, p).Failure?
    ensures h.count < SIZE_MAX ==>
      var r := Insert(pol, h, e, p).value;
      Valid(pol, r) && Contents(pol, r) == Contents(pol, h) + multiset{(e, p)}
  {
    if h.count < SIZE_MAX {
      SingletonFacts<E, P, A>(pol, e, p);
      var singleton: Tree<E, P, A> := Tree(0, e, p, Nil, pol.identity);
      if h.root.Some? {
        RootFacts(pol, h);
        var root := h.root.value;
        if pol.Le(p, Minimum(h).1) {
          UnderNewRoot(pol, h, e, p);
        } else {
          AttachToRoot(pol, h, singleton);
        }
      }
    }
  }

  /** The new entry becomes the minimum exactly when the old minimum is not smaller. */
  lemma InsertMinimum<E(!new), P(!new), A(!new)>(pol: Policy<P, A>, h: Heap<E, P, A>, e: E, p: P)
    requires Lawful(pol) && Valid(pol, h) && h.count < SIZE_MAX
    ensures Insert(pol, h, e, p).Success? && Insert(pol, h, e, p).value.root.Some?
    ensures Minimum(Insert(pol, h, e, p).value)
         == if h.root.None? || pol.cmp(p, Minimum(h).1) <= 0 then (e, p) else Minimum(h)
  {
    InsertFacts(pol, h, e, p);
    SingletonFacts<E, P, A>(pol, e, p);
    if h.root.Some? { RootFacts(pol, h); }
  }

  lemma UnderNewRoot<E(!new), P(!new), A(!new)>(pol: Policy<P, A>, h: Heap<E, P, A>, e: E, p: P)
    requires Lawful(pol) && Valid(pol, h) && h.root.Some? && h.count < SIZE_MAX && pol.Le(p, Minimum(h).1)
    ensures var r := Heap(Some(Tree(0, e, p, Prepend(pol, h.root.value, Nil), pol.identity)), h.count + 1);
      Valid(pol, r) && Contents(pol, r) == Contents(pol, h) + multiset{(e, p)}
  {
    var root := h.root.value;
    RootFacts(pol, h);
    RootIsLeast(pol, root);
    PrependFacts(pol, root, Nil);
    AtLeastTransitive(pol, p, Minimum(h).1, Entries(pol, root));
    var f := Prepend(pol, root, Nil);
    assert Ranks(f) == [0];
    assert ForestEntries(pol, f) == Entries(pol, root);
    BuildFacts(pol, 0, e, p, f);
  }

  /** Skew-inserting a losing rank-zero tree under an exposed root. */
  lemma AttachToRoot<E(!new), P(!new), A(!new)>(pol: Policy<P, A>, h: Heap<E, P, A>, t: Tree<E, P, A>)
    requires Lawful(pol) && Valid(pol, h) && h.root.Some? && Good(pol, t) && t.rank == 0
    requires h.count + |Entries(pol, t)| <= SIZE_MAX
    requires pol.Le(Minimum(h).1, LogicalPriority(pol, t))
    ensures SkewInsert(pol, t, h.root.value.children).Success?
    ensures
      var root := h.root.value;
      var f := SkewInsert(pol, t, root.children).value;
      var r := Heap(Some(Tree(0, root.element, root.priority, f, pol.identity)), h.count + |Entries(pol, t)|);
      Valid(pol, r) && Contents(pol, r) == Contents(pol, h) + multiset(Entries(pol, t))
  {
    hide Entries, ForestEntries, SkewInsert, GoodForest, Lawful, Expose, LogicalPriority;
    var root := h.root.value;
    RootFacts(pol, h);
    RootIsLeast(pol, t);
    AtLeastTransitive(pol, root.priority, LogicalPriority(pol, t), Entries(pol, t));
    SkewInsertFacts(pol, t, root.children);
    var f := SkewInsert(pol, t, root.children).value;
    hide AtLeast, Ranks, Skew;
    AtLeastUnion(pol, root.priority, Entries(pol, t), ForestEntries(pol, root.children), ForestEntries(pol, f));
    BuildFacts(pol, 0, root.element, root.priority, f);
    assert |multiset(ForestEntries(pol, f))| == |ForestEntries(pol, f)|;
    SumShift(multiset{Minimum(h)}, multiset(ForestEntries(pol, root.children)), multiset(Entries(pol, t)));
  }

  lemma AtLeastUnion<E(!new), P(!new), A>(
    pol: Policy<P, A>, p: P, a: seq<Entry<E, P>>, b: seq<Entry<E, P>>, both: seq<Entry<E, P>>)
    requires AtLeast(pol, p, a) && AtLeast(pol, p, b) && multiset(both) == multiset(a) + multiset(b)
    ensures AtLeast(pol, p, both)
  {
    forall e | e in both ensures pol.Le(p, e.1) {
      assert e in multiset(both);
    }
  }

  // ----- Transformation -----

  function TransformAll<E, P, A>(pol: Policy<P, A>, h: Heap<E, P, A>, a: A): Heap<E, P, A> {
    if h.root.None? || pol.isIdentity(a) then h
    else h.(root := Some(Expose(pol, TagTree(pol, h.root.value, a))))
  }

  /** One constant-work tag has the effect of applying the action to every entry. */
  lemma TransformAllFacts<E(!new), P(!new), A(!new)>(pol: Policy<P, A>, h: Heap<E, P, A>, a: A)
    requires Lawful(pol) && Valid(pol, h) && pol.admissible(a)
    ensures Valid(pol, TransformAll(pol, h, a))
    ensures HeapEntries(pol, TransformAll(pol, h, a)) == Act(pol, a, HeapEntries(pol, h))
  {
    if h.root.Some? {
      if pol.isIdentity(a) {
        ActNeutral(pol, a, HeapEntries(pol, h));
      } else {
        TagTreeFacts(pol, h.root.value, a);
        ExposeFacts(pol, TagTree(pol, h.root.value, a));
      }
    }
  }

  // ----- Melding -----

  function Meld<E, P, A>(pol: Policy<P, A>, left: Heap<E, P, A>, right: Heap<E, P, A>): Outcome<Heap<E, P, A>> {
    if left.count + right.count > SIZE_MAX then Failure(Overflow)
    else if left.root.None? then Success(right)
    else if right.root.None? then Success(left)
    else
      var leftWins := pol.Le(LogicalPriority(pol, left.root.value), LogicalPriority(pol, right.root.value));
      var winner := if leftWins then left.root.value else right.root.value;
      var loser := if leftWins then right.root.value else left.root.value;
      var children := SkewInsert(pol, loser, winner.children);
      if children.Failure? then Failure(children.status)
      else Success(Heap(Some(Tree(0, winner.element, winner.priority, children.value, pol.identity)), left.count + right.count))
  }

  /** Melding unites the two contents unchanged: neither operand picks up the other's actions. */
  lemma MeldFacts<E(!new), P(!new), A(!new)>(pol: Policy<P, A>, left: Heap<E, P, A>, right: Heap<E, P, A>)
    requires Lawful(pol) && Valid(pol, left) && Valid(pol, right)
    ensures left.count + right.count > SIZE_MAX <==> Meld(pol, left, right).Failure?
    ensures left.count + right.count <= SIZE_MAX ==>
      var r := Meld(pol, left, right).value;
      Valid(pol, r) && Contents(pol, r) == Contents(pol, left) + Contents(pol, right)
  {
    if left.root.Some? && right.root.Some? && left.count + right.count <= SIZE_MAX {
      hide *;
      MeldRoots(pol, left, right);
    }
  }

  lemma MeldRoots<E(!new), P(!new), A(!new)>(pol: Policy<P, A>, left: Heap<E, P, A>, right: Heap<E, P, A>)
    requires Lawful(pol) && Valid(pol, left) && Valid(pol, right)
    requires left.root.Some? && right.root.Some? && left.count + right.count <= SIZE_MAX
    ensures Meld(pol, left, right).Success?
    ensures var r := Meld(pol, left, right).value;
      Valid(pol, r) && Contents(pol, r) == Contents(pol, left) + Contents(pol, right)
  {
    RootFacts(pol, left);
    RootFacts(pol, right);
    var leftWins := pol.Le(Minimum(left).1, Minimum(right).1);
    var winner, loser := if leftWins then left else right, if leftWins then right else left;
    assert Good(pol, loser.root.value) && loser.root.value.rank == 0 && loser.count == |Entries(pol, loser.root.value)|;
    hide Entries, SkewInsert, Good, Lawful, LogicalPriority, Valid, HeapEntries;
    LeTotal(pol, Minimum(left).1, Minimum(right).1);
    AttachToRoot(pol, winner, loser.root.value);
    ContentsOf(pol, loser);
    RootContents(pol, loser);
  }

  lemma RootContents<E, P, A>(pol: Policy<P, A>, h: Heap<E, P, A>)
    requires h.root.Some?
    ensures Contents(pol, h) == multiset(Entries(pol, h.root.value))
  {
  }

  /** The smaller minimum is the minimum, and on a tie the left one. */
  lemma MeldMinimum<E(!new), P(!new), A(!new)>(pol: Policy<P, A>, left: Heap<E, P, A>, right: Heap<E, P, A>)
    requires Lawful(pol) && Valid(pol, left) && Valid(pol, right) && left.count + right.count <= SIZE_MAX
    requires left.root.Some? || right.root.Some?
    ensures Meld(pol, left, right).Success? && Meld(pol, left, right).value.root.Some?
    ensures Minimum(Meld(pol, left, right).value)
         == if right.root.None? || (left.root.Some? && pol.cmp(Minimum(left).1, Minimum(right).1) <= 0) then Minimum(left)
            else Minimum(right)
  {
    MeldFacts(pol, left, right);
    if left.root.Some? { RootFacts(pol, left); }
    if right.root.Some? { RootFacts(pol, right); }
  }

  // ----- Deletion -----

  method FindMinimum<E(!new), P(!new), A(!new)>(pol: Policy<P, A>, list: seq<Tree<E, P, A>>) returns (index: nat)
    requires Lawful(pol) && list != []
    ensures index < |list|
    ensures forall i :: 0 <= i < |list| ==> pol.Le(LogicalPriority(pol, list[index]), LogicalPriority(pol, list[i]))
    ensures FirstLeast(pol, RootsOf(pol, list), RootEntry(pol, list[index]))
  {
    hide LogicalPriority, RootEntry, FirstLeast;
    index := 0;
    var i := 1;
    while i != |list|
      invariant index < i <= |list|
      invariant forall j :: 0 <= j < i ==> pol.Le(LogicalPriority(pol, list[index]), LogicalPriority(pol, list[j]))
      invariant forall j :: 0 <= j < index ==> pol.Lt(LogicalPriority(pol, list[index]), LogicalPriority(pol, list[j]))
    {
      if pol.Lt(LogicalPriority(pol, list[i]), LogicalPriority(pol, list[index])) {
        assert pol.Le(LogicalPriority(pol, list[i]), LogicalPriority(pol, list[i]));
        assert pol.Le(LogicalPriority(pol, list[i]), LogicalPriority(pol, list[index]));
        index := i;
      }
      i := i + 1;
    }
    FirstIsLeast(pol, list, index);
  }

  lemma FirstIsLeast<E(!new), P(!new), A(!new)>(pol: Policy<P, A>, list: seq<Tree<E, P, A>>, index: nat)
    requires Lawful(pol) && index < |list|
    requires forall j :: 0 <= j < |list| ==> pol.Le(LogicalPriority(pol, list[index]), LogicalPriority(pol, list[j]))
    requires forall j :: 0 <= j < index ==> pol.Lt(LogicalPriority(pol, list[index]), LogicalPriority(pol, list[j]))
    ensures FirstLeast(pol, RootsOf(pol, list), RootEntry(pol, list[index]))
  {
    var roots := RootsOf(pol, list);
    forall j | 0 <= j < |list| ensures roots[j].1 == LogicalPriority(pol, list[j]) { RootPriority(pol, list[j]); }
    assert FirstLeastAt(pol, roots, index);
  }

  /** x is the first of the entries that have the least priority. */
  ghost predicate FirstLeast<E, P, A>(pol: Policy<P, A>, s: seq<Entry<E, P>>, x: Entry<E, P>) {
    exists i :: 0 <= i < |s| && s[i] == x && FirstLeastAt(pol, s, i)
  }

  ghost predicate FirstLeastAt<E, P, A>(pol: Policy<P, A>, s: seq<Entry<E, P>>, i: nat)
    requires i < |s|
  {
    && (forall j :: 0 <= j < |s| ==> pol.cmp(s[i].1, s[j].1) <= 0)
    && (forall j :: 0 <= j < i ==> pol.cmp(s[i].1, s[j].1) < 0)
  }

  method RemoveAt<E(!new), P(!new), A(!new)>(pol: Policy<P, A>, list: seq<Tree<E, P, A>>, index: nat)
    returns (rest: seq<Tree<E, P, A>>)
    requires index < |list| && GoodList(pol, list)
    ensures |rest| == |list| - 1 && GoodList(pol, rest)
    ensures ListEntries(pol, list) == multiset(Entries(pol, list[index])) + ListEntries(pol, rest)
  {
    hide Good, Entries, ListEntries;
    rest := [];
    NoEntries<E, P, A>(pol);
    assert list[..0] == [] && list[..|list|] == list;
    ghost var taken := multiset(Entries(pol, list[index]));
    var i: nat := 0;
    while i != |list|
      invariant i <= |list| && GoodList(pol, rest)
      invariant |rest| == if i <= index then i else i - 1
      invariant ListEntries(pol, list[..i]) == (if i <= index then multiset{} else taken) + ListEntries(pol, rest)
    {
      NextEntries(pol, list, i);
      PushEntries(pol, rest, list[i]);
      if i != index {
        rest := rest + [list[i]];
      }
      i := i + 1;
    }
  }

  /** Skew-inserts the detached rank-zero trees back. */
  method Reinsert<E(!new), P(!new), A(!new)>(pol: Policy<P, A>, zeros: seq<Tree<E, P, A>>, forest: Forest<E, P, A>)
    returns (result: Forest<E, P, A>)
    requires Lawful(pol) && GoodList(pol, zeros) && GoodForest(pol, forest) && Skew(Ranks(forest))
    requires forall i :: 0 <= i < |zeros| ==> zeros[i].rank == 0
    requires |ListEntries(pol, zeros)| + |ForestEntries(pol, forest)| <= SIZE_MAX
    ensures GoodForest(pol, result) && Skew(Ranks(result))
    ensures multiset(ForestEntries(pol, result)) == ListEntries(pol, zeros) + multiset(ForestEntries(pol, forest))
  {
    hide Good, GoodForest, Entries, ForestEntries, ListEntries, Skew, Ranks, SkewInsert, Lawful;
    NoEntries<E, P, A>(pol);
    assert zeros[..0] == [] && zeros[..|zeros|] == zeros;
    result := forest;
    ghost var base := multiset(ForestEntries(pol, forest));
    var index: nat := 0;
    while index != |zeros|
      invariant index <= |zeros| && GoodForest(pol, result) && Skew(Ranks(result))
      invariant multiset(ForestEntries(pol, result)) == ListEntries(pol, zeros[..index]) + base
    {
      PrefixEntries(pol, zeros, index);
      assert |multiset(ForestEntries(pol, result))| == |ListEntries(pol, zeros[..index])| + |base|;
      SkewInsertFacts(pol, zeros[index], result);
      var next := SkewInsert(pol, zeros[index], result);
      if next.Failure? {
        assert false;
      }
      NextEntries(pol, zeros, index);
      SumShift(ListEntries(pol, zeros[..index]), multiset(Entries(pol, zeros[index])), base);
      result := next.value;
      index := index + 1;
    }
  }

  lemma {:induction false} SpineLength<E, P, A>(pol: Policy<P, A>, f: Forest<E, P, A>)
    ensures |Ranks(f)| <= |ForestEntries(pol, f)|
  {
    if f.Cons? { SpineLength(pol, f.tail); }
  }

  /** A skew list whose entries fit a machine word has at most 65 trees. */
  lemma SkewLength<E(!new), P(!new), A(!new)>(pol: Policy<P, A>, list: seq<Tree<E, P, A>>)
    requires GoodList(pol, list) && Skew(RanksOf(list)) && |ListEntries(pol, list)| <= SIZE_MAX
    ensures |list| <= 65
  {
    hide Good, Entries, ListEntries;
    ListRanksFitMachine(pol, list);
    if |list| > 65 {
      var s := RanksOf(list)[1..];
      assert s[|s| - 1] == list[|list| - 1].rank;
      IncreasingReach(s);
    }
  }

  lemma {:induction false} IncreasingReach(ranks: seq<nat>)
    requires Increasing(ranks) && ranks != []
    ensures ranks[|ranks| - 1] >= |ranks| - 1
    decreases |ranks|
  {
    if |ranks| > 1 { IncreasingReach(ranks[..|ranks| - 1]); }
  }

  lemma IncreasingIsSkew(ranks: seq<nat>)
    requires Increasing(ranks)
    ensures Skew(ranks)
  {
  }

  /** Decodes the removed minimum's children and melds everything left into one skew forest. */
  method RebuildForest<E(!new), P(!new), A(!new)>(
    pol: Policy<P, A>, minimum: Tree<E, P, A>, remainder: seq<Tree<E, P, A>>, bound: nat)
    returns (forest: Forest<E, P, A>)
    requires Lawful(pol) && Good(pol, minimum) && GoodList(pol, remainder) && |remainder| <= 65
    requires |ForestEntries(pol, minimum.children)| + |ListEntries(pol, remainder)| < bound <= SIZE_MAX
    ensures GoodForest(pol, forest) && Skew(Ranks(forest))
    ensures multiset(ForestEntries(pol, forest))
         == multiset(ForestEntries(pol, minimum.children)) + ListEntries(pol, remainder)
  {
    assert GoodForest(pol, minimum.children) && Fused(minimum.rank, Ranks(minimum.children));
    assert |Entries(pol, minimum)| == 1 + |ForestEntries(pol, minimum.children)|;
    hide *;
    SpineLength(pol, minimum.children);
    RankFitsMachine(pol, minimum);
    var status, children := ForestToList(pol, minimum.children, bound);
    if !status.Ok? {
      assert false;
    }
    var zeros, trees, start;
    status, zeros, trees, start := SplitForest(pol, minimum.rank, children);
    if !status.Ok? {
      assert false;
    }
    forest := MeldParts(pol, children, zeros, trees, start, remainder);
  }

  method MeldParts<E(!new), P(!new), A(!new)>(
    pol: Policy<P, A>, children: seq<Tree<E, P, A>>, zeros: seq<Tree<E, P, A>>, trees: seq<Tree<E, P, A>>,
    start: nat, remainder: seq<Tree<E, P, A>>)
    returns (forest: Forest<E, P, A>)
    requires Lawful(pol) && SplitsInto(pol, children, start, zeros, trees) && GoodList(pol, remainder)
    requires |trees| <= 64 && |remainder| <= 65
    requires |ListEntries(pol, children)| + |ListEntries(pol, remainder)| <= SIZE_MAX
    ensures GoodForest(pol, forest) && Skew(Ranks(forest))
    ensures multiset(ForestEntries(pol, forest)) == ListEntries(pol, children) + ListEntries(pol, remainder)
  {
    hide Good, GoodForest, GoodList, Entries, ForestEntries, ListEntries, Skew, Ranks, Lawful, Increasing, RanksOf;
    var embedded := children[start..];
    SkewLength(pol, embedded);
    var status, merged := SkewMeld(pol, trees, remainder);
    if !status.Ok? {
      assert false;
    }
    IncreasingIsSkew(RanksOf(merged));
    SkewLength(pol, merged);
    var all;
    status, all := SkewMeld(pol, merged, embedded);
    if !status.Ok? {
      assert false;
    }
    IncreasingIsSkew(RanksOf(all));
    forest := ListToForest(pol, all);
    assert |multiset(ForestEntries(pol, forest))| == |ForestEntries(pol, forest)|;
    forest := Reinsert(pol, zeros, forest);
    PartsSum(ListEntries(pol, zeros), ListEntries(pol, trees), ListEntries(pol, embedded), ListEntries(pol, remainder));
  }

  lemma PartsSum<T>(z: multiset<T>, t: multiset<T>, e: multiset<T>, r: multiset<T>)
    ensures z + ((t + r) + e) == (z + t + e) + r
  {
  }

  /** What one deletion does: drop the reported minimum, keep everything else. */
  ghost predicate Deletes<E(!new), P(!new), A(!new)>(pol: Policy<P, A>, h: Heap<E, P, A>, r: Heap<E, P, A>) {
    && h.root.Some? && Valid(pol, r)
    && Contents(pol, h) == Contents(pol, r) + multiset{Minimum(h)}
  }

  method DeleteMinimum<E(!new), P(!new), A(!new)>(pol: Policy<P, A>, h: Heap<E, P, A>)
    returns (status: Status, r: Heap<E, P, A>)
    requires Lawful(pol) && Valid(pol, h)
    ensures status == if h.root.None? then EmptyHeap else Ok
    ensures status.Ok? ==> Deletes(pol, h, r)
    ensures status.Ok? && r.root.Some? ==> FirstLeast(pol, Roots(pol, h.root.value.children), Minimum(r))
  {
    if h.root.None? {
      return EmptyHeap, h;
    }
    RootFacts(pol, h);
    if h.root.value.children.Nil? {
      if h.count != 1 {
        assert false;
      }
      return Ok, Heap(None, 0);
    }
    r := DeleteFromChildren(pol, h);
    status := Ok;
  }

  method DeleteFromChildren<E(!new), P(!new), A(!new)>(pol: Policy<P, A>, h: Heap<E, P, A>)
    returns (r: Heap<E, P, A>)
    requires Lawful(pol) && Valid(pol, h) && h.root.Some? && h.root.value.children.Cons?
    ensures Deletes(pol, h, r) && r.root.Some? && FirstLeast(pol, Roots(pol, h.root.value.children), Minimum(r))
  {
    var below := h.root.value.children;
    RootFacts(pol, h);
    assert GoodForest(pol, below) && Skew(Ranks(below)) && |ForestEntries(pol, below)| + 1 == h.count <= SIZE_MAX;
    SpineLength(pol, below);
    var status, children := ForestToList(pol, below, h.count);
    if !status.Ok? {
      assert false;
    }
    r := DeleteLeastChild(pol, h, children);
  }

  method DeleteLeastChild<E(!new), P(!new), A(!new)>(pol: Policy<P, A>, h: Heap<E, P, A>, children: seq<Tree<E, P, A>>)
    returns (r: Heap<E, P, A>)
    requires Lawful(pol) && Valid(pol, h) && h.root.Some?
    requires children != [] && GoodList(pol, children) && Skew(RanksOf(children))
    requires ListEntries(pol, children) == multiset(ForestEntries(pol, h.root.value.children))
    ensures Deletes(pol, h, r) && r.root.Some? && FirstLeast(pol, RootsOf(pol, children), Minimum(r))
  {
    RootFacts(pol, h);
    assert |ListEntries(pol, children)| + 1 == h.count <= SIZE_MAX;
    assert GoodList(pol, children);
    hide Good, GoodForest, GoodList, Entries, ForestEntries, ListEntries, Skew, Ranks, Lawful, RanksOf, Expose, LogicalPriority, Valid, Deletes, Fused, AtLeast, RootsOf, RootEntry, FirstLeast;
    SkewLength(pol, children);
    var index := FindMinimum(pol, children);
    GoodMember(pol, children, index);
    ExposeFacts(pol, children[index]);
    RootPriority(pol, children[index]);
    var minimum := Expose(pol, children[index]);
    var remainder := RemoveAt(pol, children, index);
    ghost var m := (minimum.element, minimum.priority);
    assert multiset(Entries(pol, children[index])) == multiset{m} + multiset(ForestEntries(pol, minimum.children));
    SumShift(multiset{m}, multiset(ForestEntries(pol, minimum.children)), ListEntries(pol, remainder));
    var forest := RebuildForest(pol, minimum, remainder, h.count);
    r := Heap(Some(Tree(0, minimum.element, minimum.priority, forest, pol.identity)), h.count - 1);
    BelowAllEntries(pol, children, minimum.priority);
    NewRootIsValid(pol, h, ListEntries(pol, children), minimum.element, minimum.priority, forest);
  }

  lemma GoodMember<E(!new), P(!new), A(!new)>(pol: Policy<P, A>, list: seq<Tree<E, P, A>>, i: nat)
    requires GoodList(pol, list) && i < |list|
    ensures Good(pol, list[i])
  {
  }

  /** A bound below every root of a list is below every entry of its trees. */
  lemma {:induction false} BelowAllEntries<E(!new), P(!new), A(!new)>(pol: Policy<P, A>, list: seq<Tree<E, P, A>>, p: P)
    requires Lawful(pol) && GoodList(pol, list)
    requires forall i :: 0 <= i < |list| ==> pol.Le(p, LogicalPriority(pol, list[i]))
    ensures forall e :: e in ListEntries(pol, list) ==> pol.Le(p, e.1)
    decreases |list|
  {
    hide Entries, Good, LogicalPriority;
    if list != [] {
      var last := list[|list| - 1];
      BelowAllEntries(pol, list[..|list| - 1], p);
      RootIsLeast(pol, last);
      AtLeastTransitive(pol, p, LogicalPriority(pol, last), Entries(pol, last));
      forall e | e in ListEntries(pol, list) ensures pol.Le(p, e.1) {
        if e in multiset(Entries(pol, last)) {
          assert e in Entries(pol, last);
        }
      }
    }
  }

  lemma NewRootIsValid<E(!new), P(!new), A(!new)>(
    pol: Policy<P, A>, h: Heap<E, P, A>, entries: multiset<Entry<E, P>>, e: E, p: P, f: Forest<E, P, A>)
    requires Lawful(pol) && Valid(pol, h) && h.root.Some?
    requires entries == multiset(ForestEntries(pol, h.root.value.children))
    requires GoodForest(pol, f) && Skew(Ranks(f)) && entries == multiset{(e, p)} + multiset(ForestEntries(pol, f))
    requires forall x :: x in entries ==> pol.Le(p, x.1)
    ensures Deletes(pol, h, Heap(Some(Tree(0, e, p, f, pol.identity)), h.count - 1))
  {
    hide Entries, ForestEntries, Lawful, GoodForest;
    RootFacts(pol, h);
    assert AtLeast(pol, p, ForestEntries(pol, f)) by {
      forall x | x in ForestEntries(pol, f) ensures pol.Le(p, x.1) {
        assert x in multiset(ForestEntries(pol, f));
      }
    }
    BuildFacts(pol, 0, e, p, f);
    assert |multiset(ForestEntries(pol, f))| == |ForestEntries(pol, f)|;
    assert |multiset(ForestEntries(pol, h.root.value.children))| == |ForestEntries(pol, h.root.value.children)|;
  }

  // ----- Whole runs -----

  /** A run edits a growing pool of heap versions; old versions stay available to every later step. */
  datatype Op<E, P, A> =
    | OpInsert(source: nat, element: E, priority: P)
    | OpTransform(source: nat, action: A)
    | OpMeld(left: nat, right: nat)
    | OpDelete(source: nat)

  ghost predicate InPool(op: Op, size: nat) {
    match op
    case OpInsert(i, _, _) => i < size
    case OpTransform(i, _) => i < size
    case OpMeld(i, j) => i < size && j < size
    case OpDelete(i) => i < size
  }

  /** One step on eager bags: actions are applied to every entry at once, and a deletion may
      drop any entry of least priority. */
  ghost predicate EagerStep<E(!new), P(!new), A(!new)>(
    pol: Policy<P, A>, bags: seq<multiset<Entry<E, P>>>, op: Op<E, P, A>, r: multiset<Entry<E, P>>)
    requires InPool(op, |bags|)
  {
    match op
    case OpInsert(i, e, p) => r == bags[i] + multiset{(e, p)}
    case OpTransform(i, a) =>
      exists s: seq<Entry<E, P>> {:trigger multiset(s)} :: multiset(s) == bags[i] && r == multiset(Act(pol, a, s))
    case OpMeld(i, j) => r == bags[i] + bags[j]
    case OpDelete(i) =>
      exists x :: x in bags[i] && (forall e :: e in bags[i] ==> pol.cmp(x.1, e.1) <= 0) && r == bags[i] - multiset{x}
  }

  /** A whole run on eager bags, starting from the empty bag. */
  ghost predicate EagerRun<E(!new), P(!new), A(!new)>(
    pol: Policy<P, A>, bags: seq<multiset<Entry<E, P>>>, ops: seq<Op<E, P, A>>)
  {
    && |bags| == |ops| + 1 && bags[0] == multiset{}
    && forall k :: 0 <= k < |ops| ==> InPool(ops[k], k + 1) && EagerStep(pol, bags[..k + 1], ops[k], bags[k + 1])
  }

  ghost function Bags<E, P, A>(pol: Policy<P, A>, pool: seq<Heap<E, P, A>>): (b: seq<multiset<Entry<E, P>>>)
    ensures |b| == |pool| && forall i :: 0 <= i < |pool| ==> b[i] == Contents(pol, pool[i])
  {
    seq(|pool|, i requires 0 <= i < |pool| => Contents(pol, pool[i]))
  }

  lemma ContentsOf<E, P, A>(pol: Policy<P, A>, h: Heap<E, P, A>)
    ensures Contents(pol, h) == multiset(HeapEntries(pol, h))
  {
  }

  ghost predicate AllValid<E(!new), P(!new), A(!new)>(pol: Policy<P, A>, pool: seq<Heap<E, P, A>>) {
    forall i :: 0 <= i < |pool| ==> Valid(pol, pool[i])
  }

  /** What the operation asks of its caller: existing versions and an action of the family. */
  ghost predicate Asks<E, P, A>(pol: Policy<P, A>, op: Op<E, P, A>, size: nat) {
    InPool(op, size) && (op.OpTransform? ==> pol.admissible(op.action))
  }

  /** How an operation ends: only exhausted counts and an empty heap are refused. */
  ghost function Ending<E, P, A>(pool: seq<Heap<E, P, A>>, op: Op<E, P, A>): Status
    requires InPool(op, |pool|)
  {
    match op
    case OpInsert(i, _, _) => if pool[i].count == SIZE_MAX then Overflow else Ok
    case OpTransform(_, _) => Ok
    case OpMeld(i, j) => if pool[i].count + pool[j].count > SIZE_MAX then Overflow else Ok
    case OpDelete(i) => if pool[i].root.None? then EmptyHeap else Ok
  }

  /** Runs one operation and gets a valid version that is the eager step on contents. */
  method Perform<E(!new), P(!new), A(!new)>(pol: Policy<P, A>, pool: seq<Heap<E, P, A>>, op: Op<E, P, A>)
    returns (status: Status, r: Heap<E, P, A>)
    requires Lawful(pol) && AllValid(pol, pool) && Asks(pol, op, |pool|)
    ensures status == Ending(pool, op)
    ensures status.Ok? ==> Valid(pol, r) && EagerStep(pol, Bags(pol, pool), op, Contents(pol, r))
  {
    hide Lawful, Insert, Meld, TransformAll, Good, Contents;
    match op {
      case OpInsert(i, e, p) =>
        InsertFacts(pol, pool[i], e, p);
        InsertOverflows(pol, pool[i], e, p);
        var next := Insert(pol, pool[i], e, p);
        return if next.Success? then Ok else next.status, if next.Success? then next.value else pool[i];
      case OpTransform(i, a) =>
        TransformAllFacts(pol, pool[i], a);
        r := TransformAll(pol, pool[i], a);
        ContentsOf(pol, pool[i]);
        ContentsOf(pol, r);
        assert multiset(HeapEntries(pol, pool[i])) == Bags(pol, pool)[i];
        return Ok, r;
      case OpMeld(i, j) =>
        MeldFacts(pol, pool[i], pool[j]);
        MeldOverflows(pol, pool[i], pool[j]);
        var next := Meld(pol, pool[i], pool[j]);
        return if next.Success? then Ok else next.status, if next.Success? then next.value else pool[i];
      case OpDelete(i) =>
        status, r := DeleteMinimum(pol, pool[i]);
        if status.Ok? {
          MinimumIsLeast(pol, pool[i]);
          assert Contents(pol, r) == Contents(pol, pool[i]) - multiset{Minimum(pool[i])};
        }
    }
  }

  lemma InsertOverflows<E, P, A>(pol: Policy<P, A>, h: Heap<E, P, A>, e: E, p: P)
    ensures h.count == SIZE_MAX ==> Insert(pol, h, e, p) == Failure(Overflow)
  {
  }

  lemma MeldOverflows<E, P, A>(pol: Policy<P, A>, left: Heap<E, P, A>, right: Heap<E, P, A>)
    ensures left.count + right.count > SIZE_MAX ==> Meld(pol, left, right) == Failure(Overflow)
  {
  }

  /** The versions of a run: all valid, and together a run of the eager bags. */
  ghost predicate Reachable<E(!new), P(!new), A(!new)>(
    pol: Policy<P, A>, pool: seq<Heap<E, P, A>>, ops: seq<Op<E, P, A>>)
  {
    AllValid(pol, pool) && EagerRun(pol, Bags(pol, pool), ops)
  }

  lemma ReachableIsValid<E(!new), P(!new), A(!new)>(pol: Policy<P, A>, pool: seq<Heap<E, P, A>>, ops: seq<Op<E, P, A>>)
    requires Reachable(pol, pool, ops)
    ensures AllValid(pol, pool)
  {
  }

  lemma RunStarts<E(!new), P(!new), A(!new)>(pol: Policy<P, A>)
    ensures Reachable<E, P, A>(pol, [Heap(None, 0)], [])
  {
  }

  lemma RunGoesOn<E(!new), P(!new), A(!new)>(
    pol: Policy<P, A>, pool: seq<Heap<E, P, A>>, ops: seq<Op<E, P, A>>, op: Op<E, P, A>, r: Heap<E, P, A>)
    requires Reachable(pol, pool, ops) && InPool(op, |pool|)
    requires Valid(pol, r) && EagerStep(pol, Bags(pol, pool), op, Contents(pol, r))
    ensures Reachable(pol, pool + [r], ops + [op])
  {
    hide Valid, EagerStep, InPool, Contents;
    var bags, more := Bags(pol, pool), Bags(pol, pool + [r]);
    assert more == bags + [Contents(pol, r)];
    var longer := ops + [op];
    forall k | 0 <= k < |longer| ensures InPool(longer[k], k + 1) && EagerStep(pol, more[..k + 1], longer[k], more[k + 1]) {
      assert more[..k + 1] == bags[..k + 1];
      if k == |ops| { assert bags[..k + 1] == bags; }
    }
  }

  /** Runs operations on a growing pool of versions until one is refused. Every version is valid, and the whole
      run is a run of the eager bags. */
  method RunAll<E(!new), P(!new), A(!new)>(pol: Policy<P, A>, ops: seq<Op<E, P, A>>)
    returns (status: Status, pool: seq<Heap<E, P, A>>)
    requires Lawful(pol) && forall k :: 0 <= k < |ops| ==> Asks(pol, ops[k], k + 1)
    ensures 0 < |pool| <= |ops| + 1 && pool[0] == Heap(None, 0)
    ensures Reachable(pol, pool, ops[..|pool| - 1])
    ensures if |pool| == |ops| + 1 then status.Ok?
            else InPool(ops[|pool| - 1], |pool|) && status == Ending(pool, ops[|pool| - 1]) && !status.Ok?
  {
    hide Lawful, Valid, EagerStep, EagerRun, Contents, InPool, Ending, Reachable, AllValid;
    pool, status := [Heap(None, 0)], Ok;
    RunStarts<E, P, A>(pol);
    assert ops[..0] == [];
    while |pool| != |ops| + 1
      invariant 0 < |pool| <= |ops| + 1 && pool[0] == Heap(None, 0) && status.Ok?
      invariant Reachable(pol, pool, ops[..|pool| - 1])
      decreases |ops| - |pool|
    {
      var n := |pool| - 1;
      var r;
      ReachableIsValid(pol, pool, ops[..n]);
      assert Asks(pol, ops[n], n + 1);
      status, r := Perform(pol, pool, ops[n]);
      if !status.Ok? {
        return;
      }
      RunGoesOn(pol, pool, ops[..n], ops[n], r);
      assert ops[..n + 1] == ops[..n] + [ops[n]];
      pool := pool + [r];
    }
  }

  /** Transforming is a function of the bag: any listing of the entries gives the same result. */
  lemma EagerTransformIsDetermined<E(!new), P(!new), A(!new)>(
    pol: Policy<P, A>, bags: seq<multiset<Entry<E, P>>>, i: nat, a: A, r: multiset<Entry<E, P>>, s: multiset<Entry<E, P>>)
    requires i < |bags| && EagerStep(pol, bags, OpTransform(i, a), r) && EagerStep(pol, bags, OpTransform(i, a), s)
    ensures r == s
  {
    var x: seq<Entry<E, P>> :| multiset(x) == bags[i] && r == multiset(Act(pol, a, x));
    var y: seq<Entry<E, P>> :| multiset(y) == bags[i] && s == multiset(Act(pol, a, y));
    ActPermutation(pol, a, x, y);
  }

  // ----- Draining -----

  /** A chain of deletions that ends with the empty heap. */
  ghost predicate Drains<E(!new), P(!new), A(!new)>(pol: Policy<P, A>, chain: seq<Heap<E, P, A>>) {
    && chain != [] && chain[|chain| - 1].root.None?
    && (forall i :: 0 <= i < |chain| - 1 ==> chain[i].root.Some? && Valid(pol, chain[i]))
    && (forall i :: 0 <= i < |chain| - 1 ==> Deletes(pol, chain[i], chain[i + 1]))
  }

  /** The entries the chain's deletions report, in order. */
  function Reported<E, P, A>(chain: seq<Heap<E, P, A>>): (r: seq<Entry<E, P>>)
    requires chain != [] && forall i :: 0 <= i < |chain| - 1 ==> chain[i].root.Some?
    ensures |r| == |chain| - 1 && forall i :: 0 <= i < |chain| - 1 ==> r[i] == Minimum(chain[i])
  {
    seq(|chain| - 1, i requires 0 <= i < |chain| - 1 => Minimum(chain[i]))
  }

  /** Repeated deletion reports a sorted permutation of the contents. */
  lemma {:induction false} DrainIsSortedPermutation<E(!new), P(!new), A(!new)>(
    pol: Policy<P, A>, chain: seq<Heap<E, P, A>>)
    requires Lawful(pol) && Drains(pol, chain)
    ensures SortedByPriority(pol, Reported(chain)) && multiset(Reported(chain)) == Contents(pol, chain[0])
    decreases |chain|
  {
    hide Lawful, Valid, Contents, Deletes;
    if |chain| == 1 {
      ContentsOf(pol, chain[0]);
    } else {
      var rest := chain[1..];
      DrainsTail(pol, chain);
      DrainIsSortedPermutation(pol, rest);
      hide *;
      MinimumIsLeast(pol, chain[0]);
      ReportedTail(chain);
      SortedCons(pol, Minimum(chain[0]), Reported(rest));
    }
  }

  lemma ReportedTail<E, P, A>(chain: seq<Heap<E, P, A>>)
    requires |chain| > 1 && forall i :: 0 <= i < |chain| - 1 ==> chain[i].root.Some?
    ensures Reported(chain) == [Minimum(chain[0])] + Reported(chain[1..])
  {
  }

  ghost predicate SortedByPriority<E, P, A>(pol: Policy<P, A>, s: seq<Entry<E, P>>) {
    forall i, j :: 0 <= i < j < |s| ==> pol.cmp(s[i].1, s[j].1) <= 0
  }

  lemma SortedCons<E(!new), P(!new), A(!new)>(pol: Policy<P, A>, x: Entry<E, P>, s: seq<Entry<E, P>>)
    requires SortedByPriority(pol, s) && forall e :: e in multiset(s) ==> pol.Le(x.1, e.1)
    ensures SortedByPriority(pol, [x] + s) && multiset([x] + s) == multiset{x} + multiset(s)
  {
    forall i | 0 <= i < |s| ensures pol.Le(x.1, s[i].1) {
      assert s[i] in multiset(s);
    }
  }

  lemma DrainsTail<E(!new), P(!new), A(!new)>(pol: Policy<P, A>, chain: seq<Heap<E, P, A>>)
    requires Drains(pol, chain) && |chain| > 1
    ensures Drains(pol, chain[1..])
    ensures Contents(pol, chain[0]) == Contents(pol, chain[1..][0]) + multiset{Minimum(chain[0])}
  {
    hide Valid, Contents, Deletes;
    var rest := chain[1..];
    assert forall i :: 0 <= i < |rest| ==> rest[i] == chain[i + 1];
    assert Deletes(pol, chain[0], chain[1]);
    DeletesContents(pol, chain[0], chain[1]);
  }

  lemma DeletesContents<E(!new), P(!new), A(!new)>(pol: Policy<P, A>, h: Heap<E, P, A>, r: Heap<E, P, A>)
    requires Deletes(pol, h, r)
    ensures Contents(pol, h) == Contents(pol, r) + multiset{Minimum(h)}
  {
  }

  // ----- Rank bound on the root forest -----

  /** A root forest of length m needs at least 2^(m-1) entries below the root. */
  lemma RootForestBound<E(!new), P(!new), A(!new)>(pol: Policy<P, A>, h: Heap<E, P, A>)
    requires Lawful(pol) && Valid(pol, h) && h.root.Some? && h.root.value.children.Cons?
    ensures Power(|Ranks(h.root.value.children)| - 1) <= h.count - 1
  {
    var f := h.root.value.children;
    RootFacts(pol, h);
    SkewWeight(Ranks(f));
    ForestWeightBoundsSize(pol, f);
  }
}
