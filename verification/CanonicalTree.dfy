/** The zip-zip tree behind the canonical sorted set: a search tree on values that is also a heap on
    (geometric rank, secondary rank, smaller value). Contents alone dictate its shape. */
module CanonicalTree {
  import opened Comparisons

  /** The keyed hash of a value, cut into two ranks and a content word. */
  datatype Rank = Rank(geometric: nat, secondary: nat, content: nat)

  datatype Policy<!V> = Policy(cmp: (V, V) -> int, rank: V -> Rank)
  {
    predicate Less(x: V, y: V) {
      cmp(x, y) < 0
    }

    predicate Tied(x: V, y: V) {
      cmp(x, y) == 0
    }
  }

  /** The comparison is a total preorder and tied values share one rank. */
  ghost predicate Lawful<V(!new)>(pol: Policy<V>) {
    TotalPreorder(pol.cmp) && RanksAgree(pol)
  }

  ghost predicate RanksAgree<V(!new)>(pol: Policy<V>) {
    forall x, y {:trigger pol.Tied(x, y)} :: pol.Tied(x, y) ==> pol.rank(x) == pol.rank(y)
  }

  datatype Tree<V> = Leaf | Node(value: V, rank: Rank, left: Tree<V>, right: Tree<V>)

  /** The heap order on nodes: bigger ranks first, ties to the smaller value. */
  predicate Higher<V>(pol: Policy<V>, x: V, xr: Rank, y: V, yr: Rank) {
    if xr.geometric != yr.geometric then xr.geometric > yr.geometric
    else if xr.secondary != yr.secondary then xr.secondary > yr.secondary
    else pol.Less(x, y)
  }

  predicate Above<V>(pol: Policy<V>, x: V, y: V) {
    Higher(pol, x, pol.rank(x), y, pol.rank(y))
  }

  function Height<V>(t: Tree<V>): nat {
    if t.Leaf? then 0
    else 1 + if Height(t.left) > Height(t.right) then Height(t.left) else Height(t.right)
  }

  function Size<V>(t: Tree<V>): nat {
    if t.Leaf? then 0 else 1 + Size(t.left) + Size(t.right)
  }

  // ----- Contents and canonicity -----

  /** Some node holds a value tied with x. */
  ghost predicate Has<V>(pol: Policy<V>, t: Tree<V>, x: V) {
    t.Node? && (pol.Tied(x, t.value) || Has(pol, t.left, x) || Has(pol, t.right, x))
  }

  /** Some node holds exactly x. */
  ghost predicate Holds<V>(t: Tree<V>, x: V) {
    t.Node? && (x == t.value || Holds(t.left, x) || Holds(t.right, x))
  }

  ghost predicate AllBelow<V(!new)>(pol: Policy<V>, t: Tree<V>, x: V) {
    forall y :: Holds(t, y) ==> pol.Less(y, x)
  }

  ghost predicate AllAbove<V(!new)>(pol: Policy<V>, t: Tree<V>, x: V) {
    forall y :: Holds(t, y) ==> pol.Less(x, y)
  }

  ghost predicate Dominates<V(!new)>(pol: Policy<V>, x: V, t: Tree<V>) {
    forall y :: Holds(t, y) ==> Above(pol, x, y)
  }

  /** Search order, heap order and honest ranks at every node. */
  ghost predicate Canonical<V(!new)>(pol: Policy<V>, t: Tree<V>) {
    t.Node? ==>
      && t.rank == pol.rank(t.value)
      && AllBelow(pol, t.left, t.value) && AllAbove(pol, t.right, t.value)
      && Dominates(pol, t.value, t.left) && Dominates(pol, t.value, t.right)
      && Canonical(pol, t.left) && Canonical(pol, t.right)
  }

  /** Node by node tied: the same shape over the same comparison classes. */
  ghost predicate Same<V>(pol: Policy<V>, t: Tree<V>, u: Tree<V>) {
    if t.Leaf? || u.Leaf? then t.Leaf? && u.Leaf?
    else pol.Tied(t.value, u.value) && Same(pol, t.left, u.left) && Same(pol, t.right, u.right)
  }

  lemma {:induction false} HasHolds<V(!new)>(pol: Policy<V>, t: Tree<V>, x: V)
    ensures Has(pol, t, x) <==> exists y :: Holds(t, y) && pol.Tied(x, y)
  {
    if t.Node? {
      HasHolds(pol, t.left, x);
      HasHolds(pol, t.right, x);
      if Has(pol, t.left, x) {
        var y :| Holds(t.left, y) && pol.Tied(x, y);
        assert Holds(t, y);
      } else if Has(pol, t.right, x) {
        var y :| Holds(t.right, y) && pol.Tied(x, y);
        assert Holds(t, y);
      } else if pol.Tied(x, t.value) {
        assert Holds(t, t.value);
      }
    }
  }

  /** The heap order is a strict order that ignores representatives and separates unrelated values. */
  lemma AboveFacts<V(!new)>(pol: Policy<V>, x: V, y: V, z: V)
    requires Lawful(pol)
    ensures Above(pol, x, y) && Above(pol, y, z) ==> Above(pol, x, z)
    ensures !(Above(pol, x, y) && Above(pol, y, x))
    ensures Above(pol, x, y) || Above(pol, y, x) || pol.Tied(x, y)
    ensures pol.Tied(x, y) ==> !Above(pol, x, y) && !Above(pol, y, x)
    ensures pol.Tied(x, y) && Above(pol, y, z) ==> Above(pol, x, z)
    ensures pol.Tied(x, y) && Above(pol, z, x) ==> Above(pol, z, y)
  {
    OrderFacts(pol.cmp, x, y, z);
    OrderFacts(pol.cmp, y, x, z);
    OrderFacts(pol.cmp, z, x, y);
  }

  // ----- Uniqueness -----

  /** In a canonical tree, the class of x lies on the side its comparison with the root says. */
  lemma HasSide<V(!new)>(pol: Policy<V>, t: Tree<V>, x: V)
    requires Lawful(pol) && Canonical(pol, t) && t.Node?
    ensures Has(pol, t.left, x) <==> Has(pol, t, x) && pol.Less(x, t.value)
    ensures Has(pol, t.right, x) <==> Has(pol, t, x) && pol.Less(t.value, x)
  {
    hide TotalPreorder, RanksAgree;
    HasHolds(pol, t.left, x);
    HasHolds(pol, t.right, x);
    OrderFacts(pol.cmp, x, t.value, x);
    OrderFacts(pol.cmp, t.value, x, x);
    if Has(pol, t.left, x) {
      var y :| Holds(t.left, y) && pol.Tied(x, y);
      OrderFacts(pol.cmp, x, y, t.value);
    }
    if Has(pol, t.right, x) {
      var y :| Holds(t.right, y) && pol.Tied(x, y);
      OrderFacts(pol.cmp, x, y, t.value);
      OrderFacts(pol.cmp, y, x, t.value);
    }
  }

  /** The root is above every other class. */
  lemma RootIsAbove<V(!new)>(pol: Policy<V>, t: Tree<V>, x: V)
    requires Lawful(pol) && Canonical(pol, t) && t.Node? && Has(pol, t, x)
    ensures pol.Tied(x, t.value) || Above(pol, t.value, x)
  {
    hide TotalPreorder, RanksAgree, Above;
    if !pol.Tied(x, t.value) {
      var s := if Has(pol, t.left, x) then t.left else t.right;
      HasHolds(pol, s, x);
      var y :| Holds(s, y) && pol.Tied(x, y);
      OrderFacts(pol.cmp, x, y, x);
      AboveFacts(pol, y, x, t.value);
    }
  }

  /** Contents dictate the tree: two canonical trees with the same classes have the same shape. */
  lemma {:induction false} CanonicalIsUnique<V(!new)>(pol: Policy<V>, t: Tree<V>, u: Tree<V>)
    requires Lawful(pol) && Canonical(pol, t) && Canonical(pol, u)
    requires forall x :: Has(pol, t, x) <==> Has(pol, u, x)
    ensures Same(pol, t, u)
  {
    hide TotalPreorder, RanksAgree;
    if t.Node? || u.Node? {
      var some := if t.Node? then t.value else u.value;
      OrderFacts(pol.cmp, some, some, some);
      assert Has(pol, if t.Node? then t else u, some);
      assert t.Node? && u.Node?;
      RootsTie(pol, t, u);
      forall x ensures Has(pol, t.left, x) <==> Has(pol, u.left, x)
               ensures Has(pol, t.right, x) <==> Has(pol, u.right, x)
      {
        HasSide(pol, t, x);
        HasSide(pol, u, x);
        OrderFacts(pol.cmp, t.value, u.value, x);
        OrderFacts(pol.cmp, u.value, t.value, x);
      }
      CanonicalIsUnique(pol, t.left, u.left);
      CanonicalIsUnique(pol, t.right, u.right);
    }
  }

  lemma RootsTie<V(!new)>(pol: Policy<V>, t: Tree<V>, u: Tree<V>)
    requires Lawful(pol) && Canonical(pol, t) && Canonical(pol, u) && t.Node? && u.Node?
    requires forall x :: Has(pol, t, x) <==> Has(pol, u, x)
    ensures pol.Tied(t.value, u.value)
  {
    hide TotalPreorder, RanksAgree, Above;
    OrderFacts(pol.cmp, t.value, t.value, t.value);
    OrderFacts(pol.cmp, u.value, u.value, u.value);
    assert Has(pol, t, t.value) && Has(pol, u, u.value);
    RootIsAbove(pol, u, t.value);
    RootIsAbove(pol, t, u.value);
    AboveFacts(pol, t.value, u.value, t.value);
    OrderFacts(pol.cmp, u.value, t.value, u.value);
  }

  /** Trees of the same shape hold the same classes. */
  lemma {:induction false} SameContents<V(!new)>(pol: Policy<V>, t: Tree<V>, u: Tree<V>, x: V)
    requires Lawful(pol) && Same(pol, t, u)
    ensures Has(pol, t, x) <==> Has(pol, u, x)
  {
    hide TotalPreorder, RanksAgree;
    if t.Node? {
      SameContents(pol, t.left, u.left, x);
      SameContents(pol, t.right, u.right, x);
      OrderFacts(pol.cmp, x, t.value, u.value);
      OrderFacts(pol.cmp, x, u.value, t.value);
      OrderFacts(pol.cmp, t.value, u.value, x);
    }
  }
}
