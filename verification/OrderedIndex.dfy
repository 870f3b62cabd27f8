/** The weight-balanced tree as an ordered finite map: edits and searches in terms of the sorted entries. */
module OrderedIndex {
  import opened Comparisons
  import opened Options
  import opened KeyOrder
  import opened SortedEntries
  import opened WeightBalanced

  /** The tree is balanced and its entries are strictly ascending. */
  ghost predicate Valid<E, K>(ord: Order<E, K>, t: Tree<E>) {
    Balanced(t) && Sorted(ord, Flat(t))
  }

  // ----- Edits -----

  lemma Subtrees<E, K>(ord: Order<E, K>, t: Tree<E>)
    requires Valid(ord, t) && t.Node?
    ensures Valid(ord, t.left) && Valid(ord, t.right)
    ensures AllBelow(ord, Flat(t.left), ord.key(t.entry)) && AllAbove(ord, Flat(t.right), ord.key(t.entry))
    ensures Balanced(t.left) && Balanced(t.right)
  {
    SortedParts(ord, Flat(t.left), t.entry, Flat(t.right));
  }

  /** Setting replaces the tied entry or adds one, and removing drops it; all else stays in order. */
  ghost predicate Edits<E, K>(ord: Order<E, K>, fromLarger: bool, t: Tree<E>, e: E, a: seq<E>, m: seq<E>, b: seq<E>)
    requires Balanced(t)
  {
    && Cut(ord, Flat(t), ord.key(e), a, m, b)
    && Flat(Set(ord, t, e)) == a + [e] + b && Flat(Remove(ord, fromLarger, t, ord.key(e))) == a + b
  }

  lemma {:induction false} EditCut<E(!new), K(!new)>(ord: Order<E, K>, fromLarger: bool, t: Tree<E>, e: E)
    returns (a: seq<E>, m: seq<E>, b: seq<E>)
    requires Lawful(ord) && Valid(ord, t)
    ensures Edits(ord, fromLarger, t, e, a, m, b)
  {
    var k := ord.key(e);
    if t.Nil? {
      a, m, b := [], [], [];
    } else {
      Subtrees(ord, t);
      hide *;
      var x := ord.key(t.entry);
      OrderFacts(ord.cmp, k, x, k);
      if ord.Tied(k, x) {
        a, m, b := EditRoot(ord, fromLarger, t, e);
      } else if ord.Less(k, x) {
        a, m, b := EditCut(ord, fromLarger, t.left, e);
        b := EditLeft(ord, fromLarger, t, e, a, m, b);
      } else {
        a, m, b := EditCut(ord, fromLarger, t.right, e);
        a := EditRight(ord, fromLarger, t, e, a, m, b);
      }
    }
  }

  lemma EditRoot<E(!new), K(!new)>(ord: Order<E, K>, fromLarger: bool, t: Tree<E>, e: E)
    returns (a: seq<E>, m: seq<E>, b: seq<E>)
    requires Lawful(ord) && Valid(ord, t) && t.Node? && ord.Tied(ord.key(e), ord.key(t.entry))
    ensures Edits(ord, fromLarger, t, e, a, m, b)
  {
    a, m, b := Flat(t.left), [t.entry], Flat(t.right);
    Subtrees(ord, t);
    EditNode(ord, fromLarger, t, e);
    hide TotalPreorder, Sorted, AllBelow, AllAbove, Balanced, Cut, Set, Remove, Flat;
    var k, x := ord.key(e), ord.key(t.entry);
    OrderFacts(ord.cmp, k, x, k);
    OrderFacts(ord.cmp, x, k, x);
    AllBelowTrans(ord, a, x, k);
    AllAboveTrans(ord, b, x, k);
    TiedCut(ord, k, a, t.entry, b);
  }

  lemma EditLeft<E(!new), K(!new)>(
    ord: Order<E, K>, fromLarger: bool, t: Tree<E>, e: E, a: seq<E>, m: seq<E>, b: seq<E>) returns (b': seq<E>)
    requires Lawful(ord) && Valid(ord, t) && t.Node? && Balanced(t.left) && Edits(ord, fromLarger, t.left, e, a, m, b)
    requires !ord.Tied(ord.key(e), ord.key(t.entry)) && ord.Less(ord.key(e), ord.key(t.entry))
    ensures Edits(ord, fromLarger, t, e, a, m, b')
  {
    Subtrees(ord, t);
    EditNode(ord, fromLarger, t, e);
    hide TotalPreorder, Sorted, AllBelow, AllAbove, Balanced, Cut, Set, Remove, Flat;
    CutLeft(ord, t.entry, Flat(t.right), ord.key(e), Flat(t.left), a, m, b);
    JoinLeft(a, [e], b, t.entry, Flat(t.right));
    b' := b + [t.entry] + Flat(t.right);
  }

  lemma EditRight<E(!new), K(!new)>(
    ord: Order<E, K>, fromLarger: bool, t: Tree<E>, e: E, a: seq<E>, m: seq<E>, b: seq<E>) returns (a': seq<E>)
    requires Lawful(ord) && Valid(ord, t) && t.Node? && Balanced(t.right) && Edits(ord, fromLarger, t.right, e, a, m, b)
    requires !ord.Tied(ord.key(e), ord.key(t.entry)) && ord.Less(ord.key(t.entry), ord.key(e))
    ensures Edits(ord, fromLarger, t, e, a', m, b)
  {
    Subtrees(ord, t);
    EditNode(ord, fromLarger, t, e);
    OrderFacts(ord.cmp, ord.key(t.entry), ord.key(e), ord.key(e));
    hide TotalPreorder, Sorted, AllBelow, AllAbove, Balanced, Cut, Set, Remove, Flat;
    CutRight(ord, t.entry, Flat(t.left), ord.key(e), Flat(t.right), a, m, b);
    JoinRight(Flat(t.left), t.entry, a, [e], b);
    a' := Flat(t.left) + [t.entry] + a;
  }

  /** One level of an edit, as sequences. */
  lemma EditNode<E, K>(ord: Order<E, K>, fromLarger: bool, t: Tree<E>, e: E)
    requires Balanced(t) && t.Node?
    ensures Balanced(t.left) && Balanced(t.right) && Flat(t) == Flat(t.left) + [t.entry] + Flat(t.right)
    ensures var k, x, l, r := ord.key(e), ord.key(t.entry), Flat(t.left), Flat(t.right);
      if ord.Tied(k, x) then
        Flat(Set(ord, t, e)) == l + [e] + r && Flat(Remove(ord, fromLarger, t, k)) == l + r
      else if ord.Less(k, x) then
        && Flat(Set(ord, t, e)) == Flat(Set(ord, t.left, e)) + [t.entry] + r
        && Flat(Remove(ord, fromLarger, t, k)) == Flat(Remove(ord, fromLarger, t.left, k)) + [t.entry] + r
      else
        && Flat(Set(ord, t, e)) == l + [t.entry] + Flat(Set(ord, t.right, e))
        && Flat(Remove(ord, fromLarger, t, k)) == l + [t.entry] + Flat(Remove(ord, fromLarger, t.right, k))
  {
    hide Balance, Glue;
    var k, x := ord.key(e), ord.key(t.entry);
    if ord.Tied(k, x) {
      GlueFlat(fromLarger, t.left, t.right);
    } else if ord.Less(k, x) {
      BalanceFlat(t.entry, Set(ord, t.left, e), t.right);
      BalanceFlat(t.entry, Remove(ord, fromLarger, t.left, k), t.right);
    } else {
      BalanceFlat(t.entry, t.left, Set(ord, t.right, e));
      BalanceFlat(t.entry, t.left, Remove(ord, fromLarger, t.right, k));
    }
  }

  // ----- Search -----

  function Find<E, K>(ord: Order<E, K>, t: Tree<E>, k: K): Option<E> {
    if t.Nil? then None
    else if ord.Tied(k, ord.key(t.entry)) then Some(t.entry)
    else if ord.Less(k, ord.key(t.entry)) then Find(ord, t.left, k)
    else Find(ord, t.right, k)
  }

  /** The search descends in a loop. */
  method FindLoop<E, K>(ord: Order<E, K>, root: Tree<E>, k: K) returns (found: Option<E>)
    ensures found == Find(ord, root, k)
  {
    var t := root;
    while t.Node?
      invariant Find(ord, t, k) == Find(ord, root, k)
      decreases t
    {
      if ord.Tied(k, ord.key(t.entry)) {
        return Some(t.entry);
      }
      t := if ord.Less(k, ord.key(t.entry)) then t.left else t.right;
    }
    return None;
  }

  /** Search finds the only entry of the key's class, if there is one. */
  lemma {:induction false} FindCut<E(!new), K(!new)>(ord: Order<E, K>, t: Tree<E>, k: K)
    returns (a: seq<E>, m: seq<E>, b: seq<E>)
    requires Lawful(ord) && Valid(ord, t)
    ensures Cut(ord, Flat(t), k, a, m, b)
    ensures Find(ord, t, k) == if m == [] then None else Some(m[0])
  {
    hide TotalPreorder, Sorted, AllBelow, AllAbove, Balanced, Cut;
    if t.Nil? {
      a, m, b := [], [], [];
      EmptyCut(ord, k);
    } else {
      Subtrees(ord, t);
      var x := ord.key(t.entry);
      OrderFacts(ord.cmp, k, x, k);
      if ord.Tied(k, x) {
        a, m, b := Flat(t.left), [t.entry], Flat(t.right);
        OrderFacts(ord.cmp, x, k, x);
        AllBelowTrans(ord, a, x, k);
        AllAboveTrans(ord, b, x, k);
        TiedCut(ord, k, a, t.entry, b);
      } else if ord.Less(k, x) {
        a, m, b := FindCut(ord, t.left, k);
        CutLeft(ord, t.entry, Flat(t.right), k, Flat(t.left), a, m, b);
        b := b + [t.entry] + Flat(t.right);
      } else {
        a, m, b := FindCut(ord, t.right, k);
        CutRight(ord, t.entry, Flat(t.left), k, Flat(t.right), a, m, b);
        a := Flat(t.left) + [t.entry] + a;
      }
    }
  }

  lemma FindFacts<E(!new), K(!new)>(ord: Order<E, K>, t: Tree<E>, k: K, e: E)
    requires Lawful(ord) && Valid(ord, t)
    ensures Find(ord, t, k) == Some(e) <==> e in Flat(t) && ord.Tied(k, ord.key(e))
  {
    hide TotalPreorder, Sorted, Balanced, Find;
    var a, m, b := FindCut(ord, t, k);
    if e in Flat(t) && ord.Tied(k, ord.key(e)) {
      OrderFacts(ord.cmp, k, ord.key(e), k);
      OrderFacts(ord.cmp, ord.key(e), k, k);
      assert e in a || e in m || e in b;
    }
  }

  lemma SetIsValid<E(!new), K(!new)>(ord: Order<E, K>, t: Tree<E>, e: E)
    requires Lawful(ord) && Valid(ord, t)
    ensures Valid(ord, Set(ord, t, e))
  {
    hide TotalPreorder, Sorted, Set;
    var a, m, b := EditCut(ord, false, t, e);
    CutSorted(ord, Flat(t), ord.key(e), a, m, b);
    SortedJoin(ord, a, e, b);
  }

  lemma RemoveIsValid<E(!new), K(!new)>(ord: Order<E, K>, fromLarger: bool, t: Tree<E>, e: E)
    requires Lawful(ord) && Valid(ord, t)
    ensures Valid(ord, Remove(ord, fromLarger, t, ord.key(e)))
  {
    hide TotalPreorder, Sorted, Remove;
    var a, m, b := EditCut(ord, fromLarger, t, e);
    CutSorted(ord, Flat(t), ord.key(e), a, m, b);
  }

  /** A set is seen by its own class and by no other. */
  lemma FindAfterSet<E(!new), K(!new)>(ord: Order<E, K>, t: Tree<E>, e: E, k: K)
    requires Lawful(ord) && Valid(ord, t)
    ensures Valid(ord, Set(ord, t, e))
    ensures Find(ord, Set(ord, t, e), k) == if ord.Tied(k, ord.key(e)) then Some(e) else Find(ord, t, k)
  {
    hide TotalPreorder, Sorted, Balanced, AllBelow, AllAbove, Find, Set, Flat;
    SetIsValid(ord, t, e);
    var a, m, b := EditCut(ord, false, t, e);
    var after := Set(ord, t, e);
    var f, g := Find(ord, after, k), Find(ord, t, k);
    if ord.Tied(k, ord.key(e)) {
      FindFacts(ord, after, k, e);
    } else {
      if g.Some? {
        FindFacts(ord, t, k, g.value);
        NotInCut(ord, m, g.value, k, ord.key(e));
        FindFacts(ord, after, k, g.value);
      }
      if f.Some? {
        FindFacts(ord, after, k, f.value);
        FindFacts(ord, t, k, f.value);
      }
    }
  }

  lemma FindAfterRemove<E(!new), K(!new)>(ord: Order<E, K>, fromLarger: bool, t: Tree<E>, e: E, k: K)
    requires Lawful(ord) && Valid(ord, t)
    ensures Valid(ord, Remove(ord, fromLarger, t, ord.key(e)))
    ensures Find(ord, Remove(ord, fromLarger, t, ord.key(e)), k) == if ord.Tied(k, ord.key(e)) then None else Find(ord, t, k)
  {
    hide TotalPreorder, Sorted, Balanced, Find, Remove, Flat;
    RemoveIsValid(ord, fromLarger, t, e);
    var a, m, b := EditCut(ord, fromLarger, t, e);
    var after := Remove(ord, fromLarger, t, ord.key(e));
    var f, g := Find(ord, after, k), Find(ord, t, k);
    if f.Some? {
      FindFacts(ord, after, k, f.value);
      FindFacts(ord, t, k, f.value);
      OrderFacts(ord.cmp, k, ord.key(f.value), ord.key(e));
      OrderFacts(ord.cmp, ord.key(f.value), k, ord.key(e));
      OrderFacts(ord.cmp, ord.key(e), ord.key(f.value), k);
    }
    if g.Some? && !ord.Tied(k, ord.key(e)) {
      FindFacts(ord, t, k, g.value);
      NotInCut(ord, m, g.value, k, ord.key(e));
      FindFacts(ord, after, k, g.value);
    }
  }

  // ----- Edits at a known place -----

  lemma EditAt<E(!new), K(!new)>(
    ord: Order<E, K>, fromLarger: bool, t: Tree<E>, e: E, a: seq<E>, m: seq<E>, b: seq<E>)
    requires Lawful(ord) && Valid(ord, t) && Cut(ord, Flat(t), ord.key(e), a, m, b)
    ensures Valid(ord, Set(ord, t, e)) && Flat(Set(ord, t, e)) == a + [e] + b
    ensures Valid(ord, Remove(ord, fromLarger, t, ord.key(e))) && Flat(Remove(ord, fromLarger, t, ord.key(e))) == a + b
  {
    SetIsValid(ord, t, e);
    RemoveIsValid(ord, fromLarger, t, e);
    hide TotalPreorder, Sorted, Balanced, Cut, Set, Remove, Flat;
    var a', m', b' := EditCut(ord, fromLarger, t, e);
    CutIsUnique(ord, Flat(t), ord.key(e), a, m, b, a', m', b');
  }
}
