/** Trees and forests of the persistent monotone-action heap: tag-composing views, linking and
    skew insertion. Reference-counted immutable nodes are values here. */
module ActionHeapKernel {
  import opened Machine
  import opened ActionPolicy
  import opened ActionEntries

  const UINT_MAX: nat := 0xFFFF_FFFF

  datatype Status = Ok | EmptyHeap | Overflow | InconsistentPolicy | InvalidArgument

  datatype Outcome<+T> = Success(value: T) | Failure(status: Status)

  /** The logical priority is the action applied to `priority`; the logical children carry it too. */
  datatype Tree<E, P, A> = Tree(rank: nat, element: E, priority: P, children: Forest<E, P, A>, action: A)

  /** A spine cell's action is pending on its head and on its whole tail. */
  datatype Forest<E, P, A> = Nil | Cons(head: Tree<E, P, A>, tail: Forest<E, P, A>, action: A)

  // ----- Logical views -----

  function TagTree<E, P, A>(pol: Policy<P, A>, t: Tree<E, P, A>, outer: A): Tree<E, P, A> {
    if pol.isIdentity(outer) then t else t.(action := pol.Compose(outer, t.action))
  }

  function TagForest<E, P, A>(pol: Policy<P, A>, f: Forest<E, P, A>, outer: A): Forest<E, P, A>
    requires f.Cons?
  {
    if pol.isIdentity(outer) then f else f.(action := pol.Compose(outer, f.action))
  }

  function LogicalPriority<E, P, A>(pol: Policy<P, A>, t: Tree<E, P, A>): P {
    if pol.isIdentity(t.action) then t.priority else pol.Apply(t.action, t.priority)
  }

  function Expose<E, P, A>(pol: Policy<P, A>, t: Tree<E, P, A>): Tree<E, P, A> {
    if pol.isIdentity(t.action) then t
    else
      Tree(t.rank, t.element, pol.Apply(t.action, t.priority),
           if t.children.Nil? then Nil else TagForest(pol, t.children, t.action),
           pol.identity)
  }

  function Prepend<E, P, A>(pol: Policy<P, A>, head: Tree<E, P, A>, tail: Forest<E, P, A>): Forest<E, P, A> {
    Cons(head, tail, pol.identity)
  }

  function Head<E, P, A>(pol: Policy<P, A>, f: Forest<E, P, A>): Tree<E, P, A>
    requires f.Cons?
  {
    TagTree(pol, f.head, f.action)
  }

  function Tail<E, P, A>(pol: Policy<P, A>, f: Forest<E, P, A>): Forest<E, P, A>
    requires f.Cons?
  {
    if f.tail.Nil? then Nil else TagForest(pol, f.tail, f.action)
  }

  // ----- Denotation -----

  /** The logical entries of a tree, with every pending action applied. */
  function Entries<E, P, A>(pol: Policy<P, A>, t: Tree<E, P, A>): seq<Entry<E, P>> {
    Act(pol, t.action, [(t.element, t.priority)] + ForestEntries(pol, t.children))
  }

  function ForestEntries<E, P, A>(pol: Policy<P, A>, f: Forest<E, P, A>): seq<Entry<E, P>> {
    match f
    case Nil => []
    case Cons(head, tail, action) => Act(pol, action, Entries(pol, head) + ForestEntries(pol, tail))
  }

  function Ranks<E, P, A>(f: Forest<E, P, A>): (r: seq<nat>)
    ensures (f.Nil? <==> r == [])
  {
    match f
    case Nil => []
    case Cons(head, tail, _) => [head.rank] + Ranks(tail)
  }

  /** The logical entry at the root of a tree. */
  ghost function RootEntry<E, P, A>(pol: Policy<P, A>, t: Tree<E, P, A>): Entry<E, P> {
    (t.element, pol.Apply(t.action, t.priority))
  }

  /** The logical root entries of a forest, in spine order. */
  ghost function Roots<E, P, A>(pol: Policy<P, A>, f: Forest<E, P, A>): seq<Entry<E, P>> {
    match f
    case Nil => []
    case Cons(head, tail, action) => Act(pol, action, [RootEntry(pol, head)] + Roots(pol, tail))
  }

  // ----- Rank encoding, as the two structural validators audit it -----

  /** Ranks never decrease, and only the first two may be equal. */
  ghost predicate Skew(ranks: seq<nat>) {
    && (|ranks| > 1 ==> ranks[0] <= ranks[1])
    && (forall i, j :: 1 <= i < j < |ranks| ==> ranks[i] < ranks[j])
  }

  ghost predicate Increasing(ranks: seq<nat>) {
    forall i, j :: 0 <= i < j < |ranks| ==> ranks[i] < ranks[j]
  }

  /** The child list of a rank-r tree: a structural prefix that spends the rank, then a skew forest. */
  ghost predicate Fused(rank: nat, ranks: seq<nat>) {
    if rank == 0 then Skew(ranks)
    else if ranks == [] then false
    else if rank == 1 then
      ranks[0] == 0 && (|ranks| == 1 || Skew(if ranks[1] == 0 then ranks[2..] else ranks[1..]))
    else if |ranks| == 1 then false
    else if ranks[0] == ranks[1] then ranks[0] == rank - 1 && Skew(ranks[2..])
    else if ranks[0] == 0 then ranks[1] == rank - 1 && Fused(rank - 1, ranks[2..])
    else ranks[0] == rank - 1 && Fused(rank - 1, ranks[1..])
  }

  // ----- Structural invariant -----

  /** Heap order is kept on raw priorities; monotone actions carry it to logical ones. */
  ghost predicate Good<E(!new), P(!new), A>(pol: Policy<P, A>, t: Tree<E, P, A>) {
    && pol.admissible(t.action)
    && GoodForest(pol, t.children)
    && AtLeast(pol, t.priority, ForestEntries(pol, t.children))
    && Fused(t.rank, Ranks(t.children))
  }

  ghost predicate GoodForest<E(!new), P(!new), A>(pol: Policy<P, A>, f: Forest<E, P, A>) {
    match f
    case Nil => true
    case Cons(head, tail, action) => pol.admissible(action) && Good(pol, head) && GoodForest(pol, tail)
  }

  lemma TagTreeFacts<E(!new), P(!new), A(!new)>(pol: Policy<P, A>, t: Tree<E, P, A>, a: A)
    requires Lawful(pol) && Good(pol, t) && pol.admissible(a)
    ensures Good(pol, TagTree(pol, t, a)) && TagTree(pol, t, a).rank == t.rank
    ensures Entries(pol, TagTree(pol, t, a)) == Act(pol, a, Entries(pol, t))
  {
    if pol.isIdentity(a) {
      ActNeutral(pol, a, Entries(pol, t));
    } else {
      ActCompose(pol, a, t.action, [(t.element, t.priority)] + ForestEntries(pol, t.children));
    }
  }

  lemma TagForestFacts<E(!new), P(!new), A(!new)>(pol: Policy<P, A>, f: Forest<E, P, A>, a: A)
    requires Lawful(pol) && f.Cons? && GoodForest(pol, f) && pol.admissible(a)
    ensures GoodForest(pol, TagForest(pol, f, a)) && Ranks(TagForest(pol, f, a)) == Ranks(f)
    ensures ForestEntries(pol, TagForest(pol, f, a)) == Act(pol, a, ForestEntries(pol, f))
  {
    if pol.isIdentity(a) {
      ActNeutral(pol, a, ForestEntries(pol, f));
    } else {
      ActCompose(pol, a, f.action, Entries(pol, f.head) + ForestEntries(pol, f.tail));
    }
  }

  lemma HeadTailFacts<E(!new), P(!new), A(!new)>(pol: Policy<P, A>, f: Forest<E, P, A>)
    requires Lawful(pol) && f.Cons? && GoodForest(pol, f)
    ensures Good(pol, Head(pol, f)) && GoodForest(pol, Tail(pol, f))
    ensures ForestEntries(pol, f) == Entries(pol, Head(pol, f)) + ForestEntries(pol, Tail(pol, f))
    ensures Ranks(f) == [Head(pol, f).rank] + Ranks(Tail(pol, f))
  {
    TagTreeFacts(pol, f.head, f.action);
    ActConcat(pol, f.action, Entries(pol, f.head), ForestEntries(pol, f.tail));
    if f.tail.Cons? {
      TagForestFacts(pol, f.tail, f.action);
    }
  }

  lemma TagTreeRoot<E(!new), P(!new), A(!new)>(pol: Policy<P, A>, t: Tree<E, P, A>, a: A)
    requires Lawful(pol) && pol.admissible(t.action) && pol.admissible(a)
    ensures [RootEntry(pol, TagTree(pol, t, a))] == Act(pol, a, [RootEntry(pol, t)])
  {
    if pol.isIdentity(a) { ActNeutral(pol, a, [RootEntry(pol, t)]); }
  }

  lemma TagForestRoots<E(!new), P(!new), A(!new)>(pol: Policy<P, A>, f: Forest<E, P, A>, a: A)
    requires Lawful(pol) && f.Cons? && pol.admissible(f.action) && pol.admissible(a)
    ensures Roots(pol, TagForest(pol, f, a)) == Act(pol, a, Roots(pol, f))
  {
    if pol.isIdentity(a) {
      ActNeutral(pol, a, Roots(pol, f));
    } else {
      ActCompose(pol, a, f.action, [RootEntry(pol, f.head)] + Roots(pol, f.tail));
    }
  }

  /** The views keep the root entries and their order. */
  lemma HeadTailRoots<E(!new), P(!new), A(!new)>(pol: Policy<P, A>, f: Forest<E, P, A>)
    requires Lawful(pol) && f.Cons? && GoodForest(pol, f)
    ensures Roots(pol, f) == [RootEntry(pol, Head(pol, f))] + Roots(pol, Tail(pol, f))
  {
    hide Lawful, RootEntry, TagTree, TagForest, Act;
    TagTreeRoot(pol, f.head, f.action);
    ActConcat(pol, f.action, [RootEntry(pol, f.head)], Roots(pol, f.tail));
    if f.tail.Cons? { TagForestRoots(pol, f.tail, f.action); }
  }

  lemma RootPriority<E(!new), P(!new), A(!new)>(pol: Policy<P, A>, t: Tree<E, P, A>)
    requires Lawful(pol)
    ensures RootEntry(pol, t) == (t.element, LogicalPriority(pol, t))
  {
  }

  /** Exposing a tree changes its representation and nothing it denotes. */
  lemma ExposeFacts<E(!new), P(!new), A(!new)>(pol: Policy<P, A>, t: Tree<E, P, A>)
    requires Lawful(pol) && Good(pol, t)
    ensures var x := Expose(pol, t);
      && Good(pol, x) && Neutral(pol, x.action) && x.rank == t.rank && x.element == t.element
      && x.priority == LogicalPriority(pol, t)
      && Entries(pol, x) == Entries(pol, t)
      && Entries(pol, t) == [(t.element, LogicalPriority(pol, t))] + ForestEntries(pol, x.children)
  {
    var x := Expose(pol, t);
    var own, below := [(t.element, t.priority)], ForestEntries(pol, t.children);
    ActConcat(pol, t.action, own, below);
    ActNeutral(pol, x.action, [(x.element, x.priority)] + ForestEntries(pol, x.children));
    if pol.isIdentity(t.action) {
      ActNeutral(pol, t.action, own);
      ActNeutral(pol, t.action, below);
    } else {
      if t.children.Cons? {
        TagForestFacts(pol, t.children, t.action);
      }
      ActAtLeast(pol, t.action, t.priority, below);
      assert Act(pol, t.action, own) == [(x.element, x.priority)];
    }
  }

  lemma PrependFacts<E(!new), P(!new), A(!new)>(pol: Policy<P, A>, t: Tree<E, P, A>, f: Forest<E, P, A>)
    requires Lawful(pol) && Good(pol, t) && GoodForest(pol, f)
    ensures GoodForest(pol, Prepend(pol, t, f))
    ensures ForestEntries(pol, Prepend(pol, t, f)) == Entries(pol, t) + ForestEntries(pol, f)
    ensures Ranks(Prepend(pol, t, f)) == [t.rank] + Ranks(f)
  {
    ActNeutral(pol, pol.identity, Entries(pol, t) + ForestEntries(pol, f));
  }

  lemma BuildFacts<E(!new), P(!new), A(!new)>(pol: Policy<P, A>, rank: nat, e: E, p: P, f: Forest<E, P, A>)
    requires Lawful(pol) && GoodForest(pol, f) && AtLeast(pol, p, ForestEntries(pol, f)) && Fused(rank, Ranks(f))
    ensures Good(pol, Tree(rank, e, p, f, pol.identity))
    ensures Entries(pol, Tree(rank, e, p, f, pol.identity)) == [(e, p)] + ForestEntries(pol, f)
  {
    ActNeutral(pol, pol.identity, [(e, p)] + ForestEntries(pol, f));
  }

  /** The root of a tree is a logical minimum of its entries. */
  lemma RootIsLeast<E(!new), P(!new), A(!new)>(pol: Policy<P, A>, t: Tree<E, P, A>)
    requires Lawful(pol) && Good(pol, t)
    ensures AtLeast(pol, LogicalPriority(pol, t), Entries(pol, t))
  {
    ExposeFacts(pol, t);
    assert pol.Le(LogicalPriority(pol, t), LogicalPriority(pol, t));
  }

  // ----- Linking -----

  function Link<E, P, A>(pol: Policy<P, A>, first: Tree<E, P, A>, second: Tree<E, P, A>): Outcome<Tree<E, P, A>> {
    if first.rank != second.rank || first.rank == UINT_MAX then Failure(InconsistentPolicy)
    else
      var firstWins := pol.Le(LogicalPriority(pol, first), LogicalPriority(pol, second));
      var loser := if firstWins then second else first;
      var exposed := Expose(pol, if firstWins then first else second);
      Success(Tree(first.rank + 1, exposed.element, exposed.priority, Prepend(pol, loser, exposed.children), pol.identity))
  }

  function SkewLink<E, P, A>(pol: Policy<P, A>, zero: Tree<E, P, A>, first: Tree<E, P, A>, second: Tree<E, P, A>)
    : Outcome<Tree<E, P, A>>
  {
    if first.rank != second.rank || first.rank == UINT_MAX then Failure(InconsistentPolicy)
    else
      var z, a, b := LogicalPriority(pol, zero), LogicalPriority(pol, first), LogicalPriority(pol, second);
      var (winner, childFirst, childSecond) :=
        if pol.Le(a, z) && pol.Le(a, b) then (first, zero, second)
        else if pol.Le(b, z) && pol.Le(b, a) then (second, zero, first)
        else (zero, first, second);
      var exposed := Expose(pol, winner);
      var children := Prepend(pol, childFirst, Prepend(pol, childSecond, exposed.children));
      Success(Tree(first.rank + 1, exposed.element, exposed.priority, children, pol.identity))
  }

  function SkewInsert<E, P, A>(pol: Policy<P, A>, t: Tree<E, P, A>, f: Forest<E, P, A>): Outcome<Forest<E, P, A>> {
    if f.Nil? || f.tail.Nil? || f.head.rank != f.tail.head.rank then Success(Prepend(pol, t, f))
    else
      var tail := Tail(pol, f);
      var linked := SkewLink(pol, t, Head(pol, f), Head(pol, tail));
      if linked.Failure? then Failure(linked.status)
      else Success(Prepend(pol, linked.value, Tail(pol, tail)))
  }

  /** A loser pushed under an exposed winner keeps its own action history. */
  lemma AttachFacts<E(!new), P(!new), A(!new)>(
    pol: Policy<P, A>, winner: Tree<E, P, A>, loser: Tree<E, P, A>, f: Forest<E, P, A>)
    requires Lawful(pol) && Good(pol, winner) && Good(pol, loser) && GoodForest(pol, f)
    requires pol.Le(LogicalPriority(pol, winner), LogicalPriority(pol, loser))
    requires AtLeast(pol, LogicalPriority(pol, winner), ForestEntries(pol, f))
    ensures GoodForest(pol, Prepend(pol, loser, f))
    ensures ForestEntries(pol, Prepend(pol, loser, f)) == Entries(pol, loser) + ForestEntries(pol, f)
    ensures Ranks(Prepend(pol, loser, f)) == [loser.rank] + Ranks(f)
    ensures AtLeast(pol, LogicalPriority(pol, winner), ForestEntries(pol, Prepend(pol, loser, f)))
  {
    PrependFacts(pol, loser, f);
    RootIsLeast(pol, loser);
    AtLeastTransitive(pol, LogicalPriority(pol, winner), LogicalPriority(pol, loser), Entries(pol, loser));
  }

  lemma LinkFacts<E(!new), P(!new), A(!new)>(pol: Policy<P, A>, first: Tree<E, P, A>, second: Tree<E, P, A>)
    requires Lawful(pol) && Good(pol, first) && Good(pol, second)
    requires first.rank == second.rank < UINT_MAX
    ensures Link(pol, first, second).Success?
    ensures var t := Link(pol, first, second).value;
      && Good(pol, t) && t.rank == first.rank + 1
      && multiset(Entries(pol, t)) == multiset(Entries(pol, first)) + multiset(Entries(pol, second))
  {
    hide AtLeast, Entries, ForestEntries, Good, GoodForest, Fused, Ranks;
    var firstWins := pol.Le(LogicalPriority(pol, first), LogicalPriority(pol, second));
    var winner, loser := if firstWins then first else second, if firstWins then second else first;
    var x := Expose(pol, winner);
    ExposeFacts(pol, winner);
    AttachFacts(pol, winner, loser, x.children);
    var f := Prepend(pol, loser, x.children);
    LinkFuses(first.rank, Ranks(x.children));
    BuildFacts(pol, first.rank + 1, x.element, x.priority, f);
    assert [(x.element, x.priority)] + ForestEntries(pol, f)
        == [(x.element, x.priority)] + Entries(pol, loser) + ForestEntries(pol, x.children);
  }

  /** The smaller root wins, and on a tie the first. */
  lemma LinkWinner<E(!new), P(!new), A(!new)>(pol: Policy<P, A>, first: Tree<E, P, A>, second: Tree<E, P, A>)
    requires Lawful(pol)
    ensures if first.rank != second.rank || first.rank == UINT_MAX then Link(pol, first, second) == Failure(InconsistentPolicy)
      else
        var a, b := RootEntry(pol, first), RootEntry(pol, second);
        && Link(pol, first, second).Success?
        && RootEntry(pol, Link(pol, first, second).value) == if pol.cmp(a.1, b.1) <= 0 then a else b
  {
    if first.rank == second.rank != UINT_MAX {
      RootPriority(pol, first);
      RootPriority(pol, second);
      RootPriority(pol, Link(pol, first, second).value);
    }
  }

  lemma LinkFuses(rank: nat, ranks: seq<nat>)
    requires Fused(rank, ranks)
    ensures Fused(rank + 1, [rank] + ranks)
  {
    var s := [rank] + ranks;
    assert s[1..] == ranks;
    if rank == 0 {
      if |ranks| > 0 { assert s[2..] == ranks[1..]; }
    } else {
      assert |ranks| > 0 && ranks[0] < rank;
    }
  }

  lemma SkewLinkFacts<E(!new), P(!new), A(!new)>(
    pol: Policy<P, A>, zero: Tree<E, P, A>, first: Tree<E, P, A>, second: Tree<E, P, A>)
    requires Lawful(pol) && Good(pol, zero) && Good(pol, first) && Good(pol, second)
    requires zero.rank == 0 && first.rank == second.rank < UINT_MAX
    ensures SkewLink(pol, zero, first, second).Success?
    ensures var t := SkewLink(pol, zero, first, second).value;
      && Good(pol, t) && t.rank == first.rank + 1
      && multiset(Entries(pol, t))
         == multiset(Entries(pol, zero)) + multiset(Entries(pol, first)) + multiset(Entries(pol, second))
  {
    hide AtLeast, Entries, ForestEntries, Good, GoodForest, Fused, Ranks, Expose, Prepend;
    var z, a, b := LogicalPriority(pol, zero), LogicalPriority(pol, first), LogicalPriority(pol, second);
    if pol.Le(a, z) && pol.Le(a, b) {
      SkewLinkBody(pol, first.rank, first, zero, second);
    } else if pol.Le(b, z) && pol.Le(b, a) {
      SkewLinkBody(pol, first.rank, second, zero, first);
    } else {
      assert pol.Le(z, a) && pol.Le(z, b);
      SkewLinkBody(pol, first.rank, zero, first, second);
    }
  }

  /** The least root wins: on a tie the first before the second, and both before the rank-zero tree. */
  lemma SkewLinkWinner<E(!new), P(!new), A(!new)>(
    pol: Policy<P, A>, zero: Tree<E, P, A>, first: Tree<E, P, A>, second: Tree<E, P, A>)
    requires Lawful(pol)
    ensures
      if first.rank != second.rank || first.rank == UINT_MAX then
        SkewLink(pol, zero, first, second) == Failure(InconsistentPolicy)
      else
        var z, a, b := RootEntry(pol, zero), RootEntry(pol, first), RootEntry(pol, second);
        && SkewLink(pol, zero, first, second).Success?
        && RootEntry(pol, SkewLink(pol, zero, first, second).value)
           == if pol.cmp(a.1, b.1) <= 0 then (if pol.cmp(a.1, z.1) <= 0 then a else z)
              else if pol.cmp(b.1, z.1) <= 0 then b else z
  {
    if first.rank == second.rank != UINT_MAX {
      RootPriority(pol, zero);
      RootPriority(pol, first);
      RootPriority(pol, second);
      RootPriority(pol, SkewLink(pol, zero, first, second).value);
    }
  }

  lemma SkewLinkBody<E(!new), P(!new), A(!new)>(
    pol: Policy<P, A>, rank: nat, winner: Tree<E, P, A>, one: Tree<E, P, A>, two: Tree<E, P, A>)
    requires Lawful(pol) && Good(pol, winner) && Good(pol, one) && Good(pol, two)
    requires (winner.rank == two.rank == rank && one.rank == 0) || (winner.rank == 0 && one.rank == two.rank == rank)
    requires pol.Le(LogicalPriority(pol, winner), LogicalPriority(pol, one))
    requires pol.Le(LogicalPriority(pol, winner), LogicalPriority(pol, two))
    ensures
      var x := Expose(pol, winner);
      var t := Tree(rank + 1, x.element, x.priority, Prepend(pol, one, Prepend(pol, two, x.children)), pol.identity);
      && Good(pol, t)
      && multiset(Entries(pol, t)) == multiset(Entries(pol, winner)) + multiset(Entries(pol, one)) + multiset(Entries(pol, two))
  {
    hide *;
    var x := Expose(pol, winner);
    ExposeFacts(pol, winner);
    var inner := Prepend(pol, two, x.children);
    var f := Prepend(pol, one, inner);
    AttachFacts(pol, winner, two, x.children);
    AttachFacts(pol, winner, one, inner);
    SkewLinkShape(rank, winner.rank, one.rank, two.rank, Ranks(x.children));
    BuildFacts(pol, rank + 1, x.element, x.priority, f);
    MultisetOfFour([(x.element, x.priority)], Entries(pol, one), Entries(pol, two), ForestEntries(pol, x.children));
    assert multiset(Entries(pol, winner)) == multiset{(x.element, x.priority)} + multiset(ForestEntries(pol, x.children));
  }

  lemma SkewLinkShape(rank: nat, winner: nat, one: nat, two: nat, ranks: seq<nat>)
    requires (winner == two == rank && one == 0) || (winner == 0 && one == two == rank)
    requires Fused(winner, ranks)
    ensures Fused(rank + 1, [one] + ([two] + ranks))
  {
    var s := [one] + ([two] + ranks);
    assert s[2..] == ranks;
    if winner == two == rank && one == 0 && rank == 0 {
      assert s[1] == 0;
    }
  }

  /** Inserting a rank-zero tree keeps the skew form and adds exactly its entries. */
  lemma SkewInsertFacts<E(!new), P(!new), A(!new)>(pol: Policy<P, A>, t: Tree<E, P, A>, f: Forest<E, P, A>)
    requires Lawful(pol) && Good(pol, t) && t.rank == 0 && GoodForest(pol, f) && Skew(Ranks(f))
    requires |ForestEntries(pol, f)| <= SIZE_MAX
    ensures SkewInsert(pol, t, f).Success?
    ensures var r := SkewInsert(pol, t, f).value;
      && r.Cons? && GoodForest(pol, r) && Skew(Ranks(r))
      && multiset(ForestEntries(pol, r)) == multiset(Entries(pol, t)) + multiset(ForestEntries(pol, f))
  {
    if f.Cons? && f.tail.Cons? && f.head.rank == f.tail.head.rank {
      SkewInsertLinks(pol, t, f);
    } else {
      PrependFacts(pol, t, f);
      SkewPrepend(Ranks(f));
    }
  }

  lemma SkewPrepend(ranks: seq<nat>)
    requires Skew(ranks) && (|ranks| > 1 ==> ranks[0] != ranks[1])
    ensures Skew([0] + ranks)
  {
    assert forall i :: 1 <= i <= |ranks| ==> ([0] + ranks)[i] == ranks[i - 1];
  }

  lemma SkewCarry(rank: nat, rest: seq<nat>)
    requires Skew([rank] + ([rank] + rest))
    ensures Skew([rank + 1] + rest)
  {
    var s := [rank] + ([rank] + rest);
    assert forall i :: 0 <= i < |rest| ==> rest[i] == s[i + 2];
    assert s[1] == rank;
  }

  lemma SkewInsertLinks<E(!new), P(!new), A(!new)>(pol: Policy<P, A>, t: Tree<E, P, A>, f: Forest<E, P, A>)
    requires Lawful(pol) && Good(pol, t) && t.rank == 0 && GoodForest(pol, f) && Skew(Ranks(f))
    requires |ForestEntries(pol, f)| <= SIZE_MAX
    requires f.Cons? && f.tail.Cons? && f.head.rank == f.tail.head.rank
    ensures SkewInsert(pol, t, f).Success?
    ensures var r := SkewInsert(pol, t, f).value;
      && r.Cons? && GoodForest(pol, r) && Skew(Ranks(r))
      && multiset(ForestEntries(pol, r)) == multiset(Entries(pol, t)) + multiset(ForestEntries(pol, f))
  {
    hide AtLeast, Entries, ForestEntries, Good, GoodForest, Fused, Skew, SkewLink, Link, Expose, TagTree, TagForest;
    HeadTailFacts(pol, f);
    var tail := Tail(pol, f);
    HeadTailFacts(pol, tail);
    var first, second, rest := Head(pol, f), Head(pol, tail), Tail(pol, tail);
    assert Ranks(f)[0] == f.head.rank && Ranks(f)[1] == f.tail.head.rank;
    assert Ranks(f) == [first.rank] + ([second.rank] + Ranks(rest));
    RankFitsMachine(pol, first);
    SkewLinkFacts(pol, t, first, second);
    var linked := SkewLink(pol, t, first, second).value;
    PrependFacts(pol, linked, rest);
    SkewCarry(first.rank, Ranks(rest));
    MultisetOfFour([], Entries(pol, first), Entries(pol, second), ForestEntries(pol, rest));
    MultisetOfFour([], [], Entries(pol, linked), ForestEntries(pol, rest));
  }

  // ----- Rank arithmetic -----

  /** The weight a list of child ranks is worth when every child meets its own bound. */
  function Weight(ranks: seq<nat>): nat {
    if ranks == [] then 0 else Power(ranks[0]) + Weight(ranks[1..])
  }

  lemma {:induction false} FusedWeight(rank: nat, ranks: seq<nat>)
    requires Fused(rank, ranks)
    ensures Power(rank) <= 1 + Weight(ranks)
    decreases rank
  {
    if rank == 0 {
    } else if rank == 1 {
    } else {
      assert Weight(ranks) == Power(ranks[0]) + Weight(ranks[1..]);
      assert ranks[1..][1..] == ranks[2..];
      if ranks[0] == ranks[1] {
      } else if ranks[0] == 0 {
        FusedWeight(rank - 1, ranks[2..]);
      } else {
        FusedWeight(rank - 1, ranks[1..]);
      }
    }
  }

  /** Every rank-r tree holds at least 2^r entries. */
  lemma {:induction false} RankBoundsSize<E(!new), P(!new), A(!new)>(pol: Policy<P, A>, t: Tree<E, P, A>)
    requires Good(pol, t)
    ensures Power(t.rank) <= |Entries(pol, t)|
  {
    ForestWeightBoundsSize(pol, t.children);
    FusedWeight(t.rank, Ranks(t.children));
  }

  lemma {:induction false} ForestWeightBoundsSize<E(!new), P(!new), A(!new)>(pol: Policy<P, A>, f: Forest<E, P, A>)
    requires GoodForest(pol, f)
    ensures Weight(Ranks(f)) <= |ForestEntries(pol, f)|
  {
    if f.Cons? {
      RankBoundsSize(pol, f.head);
      ForestWeightBoundsSize(pol, f.tail);
    }
  }

  /** A tree whose entries can be counted by a machine word has a rank below 64. */
  lemma RankFitsMachine<E(!new), P(!new), A(!new)>(pol: Policy<P, A>, t: Tree<E, P, A>)
    requires Good(pol, t) && |Entries(pol, t)| <= SIZE_MAX
    ensures t.rank < 64
  {
    hide *;
    RankBoundsSize(pol, t);
    if t.rank >= 64 {
      PowerMonotone(64, t.rank);
      PowerWord();
    }
  }

  lemma {:induction false} PowerConvex(low: nat, high: nat, n: nat)
    requires low <= high
    ensures Power(low + n) + Power(high) <= Power(high + n) + Power(low)
  {
    if low < high {
      PowerConvex(low, high - 1, n);
      PowerMonotone(high - 1, high - 1 + n);
    }
  }

  lemma {:induction false} IncreasingWeight(ranks: seq<nat>, low: nat)
    requires Increasing(ranks) && (forall i :: 0 <= i < |ranks| ==> low <= ranks[i])
    ensures Power(low + |ranks|) <= Power(low) + Weight(ranks)
    decreases |ranks|
  {
    if ranks != [] {
      IncreasingWeight(ranks[1..], ranks[0] + 1);
      PowerConvex(low, ranks[0], |ranks|);
    }
  }

  /** A skew forest of length m carries at least 2^(m-1) entries' worth of rank. */
  lemma SkewWeight(ranks: seq<nat>)
    requires Skew(ranks) && ranks != []
    ensures Power(|ranks| - 1) <= Weight(ranks)
  {
    IncreasingWeight(ranks[1..], 0);
    assert Power(ranks[0]) >= 1 by { PowerMonotone(0, ranks[0]); }
  }
}
