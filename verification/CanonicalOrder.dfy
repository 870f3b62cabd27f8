/** What a canonical tree is in the policy's own terms: an ascending listing, and at the root of every subtree the
    value with the greatest ranks. */
module CanonicalOrder {
  import opened Comparisons
  import opened Options
  import opened CanonicalTree
  import opened CanonicalSet

  ghost function InOrder<V>(t: Tree<V>): seq<V> {
    if t.Leaf? then [] else InOrder(t.left) + [t.value] + InOrder(t.right)
  }

  lemma {:induction false} InOrderHolds<V>(t: Tree<V>, x: V)
    ensures x in InOrder(t) <==> Holds(t, x)
  {
    if t.Node? {
      InOrderHolds(t.left, x);
      InOrderHolds(t.right, x);
    }
  }

  lemma {:induction false} InOrderSize<V>(t: Tree<V>)
    ensures Size(t) == |InOrder(t)|
  {
    if t.Node? {
      InOrderSize(t.left);
      InOrderSize(t.right);
    }
  }

  ghost predicate Ascends<V>(pol: Policy<V>, s: seq<V>) {
    forall i, j :: 0 <= i < j < |s| ==> pol.cmp(s[i], s[j]) < 0
  }

  /** No smaller geometric rank; on a tie no smaller secondary rank; on both ties no greater value. */
  ghost predicate Leads<V>(pol: Policy<V>, x: V, y: V) {
    var r, s := pol.rank(x), pol.rank(y);
    && r.geometric >= s.geometric
    && (r.geometric == s.geometric ==> r.secondary >= s.secondary)
    && (r.geometric == s.geometric && r.secondary == s.secondary ==> pol.cmp(x, y) <= 0)
  }

  /** Every node stores its own rank and leads its subtree. */
  ghost predicate ZipOrdered<V(!new)>(pol: Policy<V>, t: Tree<V>) {
    t.Node? ==>
      && t.rank == pol.rank(t.value) && (forall y :: y in InOrder(t) ==> Leads(pol, t.value, y))
      && ZipOrdered(pol, t.left) && ZipOrdered(pol, t.right)
  }

  lemma LeadsAbove<V(!new)>(pol: Policy<V>, x: V, y: V)
    requires Lawful(pol)
    ensures Above(pol, x, y) ==> Leads(pol, x, y)
    ensures Leads(pol, x, y) && pol.cmp(x, y) != 0 ==> Above(pol, x, y)
    ensures Leads(pol, x, x)
  {
  }

  /** The middle of the listing separates its two parts. */
  ghost predicate Separates<V(!new)>(pol: Policy<V>, l: seq<V>, x: V, r: seq<V>) {
    (forall y :: y in l ==> pol.cmp(y, x) < 0) && (forall y :: y in r ==> pol.cmp(x, y) < 0)
  }

  lemma AscendingParts<V(!new)>(pol: Policy<V>, l: seq<V>, x: V, r: seq<V>)
    requires Ascends(pol, l + [x] + r)
    ensures Ascends(pol, l) && Ascends(pol, r) && Separates(pol, l, x, r)
  {
    var s, n := l + [x] + r, |l|;
    assert s[n] == x;
    forall i, j | 0 <= i < j < |l| ensures pol.cmp(l[i], l[j]) < 0 { assert s[i] == l[i] && s[j] == l[j]; }
    forall i, j | 0 <= i < j < |r| ensures pol.cmp(r[i], r[j]) < 0 { assert s[n + 1 + i] == r[i] && s[n + 1 + j] == r[j]; }
    forall y | y in l ensures pol.cmp(y, x) < 0 {
      var i :| 0 <= i < |l| && l[i] == y;
      assert s[i] == y;
    }
    forall y | y in r ensures pol.cmp(x, y) < 0 {
      var i :| 0 <= i < |r| && r[i] == y;
      assert s[n + 1 + i] == y;
    }
  }

  lemma AscendingWhole<V(!new)>(pol: Policy<V>, l: seq<V>, x: V, r: seq<V>)
    requires TotalPreorder(pol.cmp) && Ascends(pol, l) && Ascends(pol, r) && Separates(pol, l, x, r)
    ensures Ascends(pol, l + [x] + r)
  {
    var s, n := l + [x] + r, |l|;
    hide TotalPreorder;
    forall i, j | 0 <= i < j < |s| ensures pol.cmp(s[i], s[j]) < 0 {
      if i < n { assert s[i] in l; }
      if j > n { assert s[j] == r[j - n - 1] && s[j] in r; }
      if i > n { assert s[i] == r[i - n - 1]; }
      OrderFacts(pol.cmp, s[i], x, s[j]);
    }
  }

  /** Canonical trees are exactly those whose listing ascends and whose every node leads its subtree. */
  lemma {:induction false} CanonicalMeans<V(!new)>(pol: Policy<V>, t: Tree<V>)
    requires Lawful(pol)
    ensures Canonical(pol, t) <==> Ascends(pol, InOrder(t)) && ZipOrdered(pol, t)
  {
    if t.Node? {
      CanonicalMeans(pol, t.left);
      CanonicalMeans(pol, t.right);
      SubtreesMean(pol, t);
      var l, x, r := InOrder(t.left), t.value, InOrder(t.right);
      hide Above, Leads, Holds, Ascends, AllBelow, AllAbove, Dominates, Separates;
      LeadsAbove(pol, x, x);
      if Ascends(pol, InOrder(t)) {
        AscendingParts(pol, l, x, r);
      } else if Ascends(pol, l) && Ascends(pol, r) && Separates(pol, l, x, r) {
        AscendingWhole(pol, l, x, r);
      }
    }
  }

  /** The conditions on the two subtrees of a node, in terms of their listings. */
  lemma SubtreesMean<V(!new)>(pol: Policy<V>, t: Tree<V>)
    requires Lawful(pol) && t.Node?
    ensures var l, x, r := InOrder(t.left), t.value, InOrder(t.right);
      && (AllBelow(pol, t.left, x) && AllAbove(pol, t.right, x) <==> Separates(pol, l, x, r))
      && (Separates(pol, l, x, r) ==>
            (Dominates(pol, x, t.left) && Dominates(pol, x, t.right)
             <==> (forall y :: y in l ==> Leads(pol, x, y)) && (forall y :: y in r ==> Leads(pol, x, y))))
  {
    var l, x, r := InOrder(t.left), t.value, InOrder(t.right);
    forall y ensures y in l <==> Holds(t.left, y)
             ensures y in r <==> Holds(t.right, y)
    {
      InOrderHolds(t.left, y);
      InOrderHolds(t.right, y);
    }
    hide TotalPreorder, RanksAgree, Above, Leads, Holds, InOrder;
    forall y ensures Above(pol, x, y) ==> Leads(pol, x, y)
             ensures Leads(pol, x, y) && (pol.Less(x, y) || pol.Less(y, x)) ==> Above(pol, x, y)
    {
      LeadsAbove(pol, x, y);
      OrderFacts(pol.cmp, x, y, x);
    }
  }

  /** The comparison with the root says where a value is held. */
  lemma SideFacts<V(!new)>(pol: Policy<V>, t: Tree<V>, x: V)
    requires Lawful(pol) && Canonical(pol, t) && t.Node?
    ensures Holds(t.left, x) <==> Holds(t, x) && pol.Less(x, t.value)
    ensures Holds(t.right, x) <==> Holds(t, x) && pol.Less(t.value, x)
    ensures Holds(t, x) && pol.Tied(t.value, x) ==> x == t.value
  {
    hide TotalPreorder, RanksAgree, Dominates;
    OrderFacts(pol.cmp, t.value, x, t.value);
    OrderFacts(pol.cmp, t.value, t.value, x);
  }

  /** Canonical trees with the same values, representatives included, are equal. */
  lemma {:induction false} CanonicalIsExact<V(!new)>(pol: Policy<V>, t: Tree<V>, u: Tree<V>)
    requires Lawful(pol) && Canonical(pol, t) && Canonical(pol, u)
    requires forall x :: Holds(t, x) <==> Holds(u, x)
    ensures t == u
  {
    hide TotalPreorder, RanksAgree, Dominates;
    if t.Node? || u.Node? {
      assert Holds(if t.Node? then t else u, if t.Node? then t.value else u.value);
      forall x ensures Has(pol, t, x) <==> Has(pol, u, x) {
        HasHolds(pol, t, x);
        HasHolds(pol, u, x);
      }
      RootsTie(pol, t, u);
      assert Holds(u, u.value) && Holds(t, u.value);
      SideFacts(pol, t, u.value);
      hide Holds;
      forall x ensures Holds(t.left, x) <==> Holds(u.left, x)
               ensures Holds(t.right, x) <==> Holds(u.right, x)
      {
        SideFacts(pol, t, x);
        SideFacts(pol, u, x);
        assert Holds(t, x) <==> Holds(u, x);
      }
      CanonicalIsExact(pol, t.left, u.left);
      CanonicalIsExact(pol, t.right, u.right);
    }
  }

  // ----- Runs -----

  /** The representative of the class of y that a run keeps: the first one added since the class was last removed. */
  ghost function Kept<V>(pol: Policy<V>, edits: seq<Edit<V>>, y: V): Option<V> {
    if edits == [] then None
    else
      var before, last := Kept(pol, edits[..|edits| - 1], y), edits[|edits| - 1];
      if !pol.Tied(y, last.value) then before
      else if last.RemoveEdit? then None
      else if before.Some? then before
      else Some(last.value)
  }

  lemma {:induction false} KeptFacts<V(!new)>(pol: Policy<V>, edits: seq<Edit<V>>, y: V, z: V)
    requires Lawful(pol)
    ensures Kept(pol, edits, y).Some? ==> pol.Tied(y, Kept(pol, edits, y).value)
    ensures pol.Tied(y, z) ==> Kept(pol, edits, y) == Kept(pol, edits, z)
    ensures Kept(pol, edits, y).Some? <==> Present(pol, edits, y)
    decreases |edits|
  {
    hide TotalPreorder, RanksAgree;
    if edits != [] {
      KeptFacts(pol, edits[..|edits| - 1], y, z);
      var v := edits[|edits| - 1].value;
      OrderFacts(pol.cmp, y, z, v);
      OrderFacts(pol.cmp, z, y, v);
    }
  }

  /** After every run the tree lists exactly the kept representatives, in ascending order, each node leading its
      subtree. */
  lemma {:induction false} RunMeans<V(!new)>(pol: Policy<V>, edits: seq<Edit<V>>)
    requires Lawful(pol)
    ensures Ascends(pol, InOrder(Run(pol, edits))) && ZipOrdered(pol, Run(pol, edits))
    ensures forall y :: y in InOrder(Run(pol, edits)) <==> Kept(pol, edits, y) == Some(y)
    decreases |edits|
  {
    RunFacts(pol, edits);
    CanonicalMeans(pol, Run(pol, edits));
    hide TotalPreorder, RanksAgree, Canonical, Ascends, ZipOrdered, InOrder, Run;
    forall y ensures y in InOrder(Run(pol, edits)) <==> Kept(pol, edits, y) == Some(y) {
      RunKeeps(pol, edits, y);
      InOrderHolds(Run(pol, edits), y);
    }
  }

  lemma {:induction false} RunKeeps<V(!new)>(pol: Policy<V>, edits: seq<Edit<V>>, y: V)
    requires Lawful(pol)
    ensures Holds(Run(pol, edits), y) <==> Kept(pol, edits, y) == Some(y)
    decreases |edits|
  {
    hide TotalPreorder, RanksAgree, Canonical, Has, Insert, Remove;
    if edits != [] {
      var init, last := edits[..|edits| - 1], edits[|edits| - 1];
      var before, x := Run(pol, init), last.value;
      RunKeeps(pol, init, y);
      RunFacts(pol, init);
      KeptFacts(pol, init, y, x);
      KeptFacts(pol, init, x, y);
      OrderFacts(pol.cmp, x, y, x);
      OrderFacts(pol.cmp, y, x, y);
      OrderFacts(pol.cmp, x, x, x);
      if last.RemoveEdit? {
        RemoveFacts(pol, before, x);
      } else if !Has(pol, before, x) {
        InsertFacts(pol, before, x);
      }
    }
  }

  /** Runs that keep the same representatives leave the very same tree. */
  lemma SameKeptSameTree<V(!new)>(pol: Policy<V>, one: seq<Edit<V>>, two: seq<Edit<V>>)
    requires Lawful(pol) && forall y :: Kept(pol, one, y) == Kept(pol, two, y)
    ensures Run(pol, one) == Run(pol, two)
  {
    hide TotalPreorder, RanksAgree, Canonical, Run;
    RunFacts(pol, one);
    RunFacts(pol, two);
    forall y ensures Holds(Run(pol, one), y) <==> Holds(Run(pol, two), y) {
      RunKeeps(pol, one, y);
      RunKeeps(pol, two, y);
    }
    CanonicalIsExact(pol, Run(pol, one), Run(pol, two));
  }
}
