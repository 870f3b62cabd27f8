/** Sorted sequences of keyed entries, and the place of a key in them. */
module SortedEntries {
  import opened Comparisons
  import opened KeyOrder

  ghost predicate Sorted<E, K>(ord: Order<E, K>, s: seq<E>) {
    forall i, j :: 0 <= i < j < |s| ==> ord.Less(ord.key(s[i]), ord.key(s[j]))
  }

  ghost predicate AllBelow<E, K>(ord: Order<E, K>, s: seq<E>, k: K) {
    forall i :: 0 <= i < |s| ==> ord.Less(ord.key(s[i]), k)
  }

  ghost predicate AllAbove<E, K>(ord: Order<E, K>, s: seq<E>, k: K) {
    forall i :: 0 <= i < |s| ==> ord.Less(k, ord.key(s[i]))
  }

  lemma SortedParts<E, K>(ord: Order<E, K>, a: seq<E>, e: E, b: seq<E>)
    requires Sorted(ord, a + [e] + b)
    ensures Sorted(ord, a) && Sorted(ord, b) && AllBelow(ord, a, ord.key(e)) && AllAbove(ord, b, ord.key(e))
  {
    var s := a + [e] + b;
    assert forall i :: 0 <= i < |a| ==> s[i] == a[i];
    assert s[|a|] == e;
    assert forall i :: 0 <= i < |b| ==> s[|a| + 1 + i] == b[i];
  }

  lemma SortedJoin<E(!new), K(!new)>(ord: Order<E, K>, a: seq<E>, e: E, b: seq<E>)
    requires Lawful(ord) && Sorted(ord, a) && Sorted(ord, b)
    requires AllBelow(ord, a, ord.key(e)) && AllAbove(ord, b, ord.key(e))
    ensures Sorted(ord, a + [e] + b)
  {
    hide TotalPreorder;
    var s := a + [e] + b;
    forall i, j | 0 <= i < j < |s| ensures ord.Less(ord.key(s[i]), ord.key(s[j])) {
      if i < |a| && j > |a| {
        OrderFacts(ord.cmp, ord.key(a[i]), ord.key(e), ord.key(b[j - |a| - 1]));
      }
    }
  }

  lemma WithoutMiddle<E, K>(ord: Order<E, K>, a: seq<E>, x: E, b: seq<E>)
    requires Sorted(ord, a + [x] + b)
    ensures Sorted(ord, a + b)
  {
    var s, both := a + [x] + b, a + b;
    forall i, j | 0 <= i < j < |both| ensures ord.Less(ord.key(both[i]), ord.key(both[j])) {
      var i', j' := if i < |a| then i else i + 1, if j < |a| then j else j + 1;
      assert s[i'] == both[i] && s[j'] == both[j];
    }
  }

  /** The place of a key: s splits into what is below, at most one tied entry, and what is above. */
  ghost predicate Cut<E, K>(ord: Order<E, K>, s: seq<E>, k: K, a: seq<E>, m: seq<E>, b: seq<E>) {
    && s == a + m + b && |m| <= 1 && (m != [] ==> ord.Tied(k, ord.key(m[0])))
    && AllBelow(ord, a, k) && AllAbove(ord, b, k)
  }

  lemma CutSorted<E(!new), K(!new)>(ord: Order<E, K>, s: seq<E>, k: K, a: seq<E>, m: seq<E>, b: seq<E>)
    requires Lawful(ord) && Sorted(ord, s) && Cut(ord, s, k, a, m, b)
    ensures Sorted(ord, a) && Sorted(ord, b) && Sorted(ord, a + b)
  {
    hide TotalPreorder;
    forall i | 0 <= i < |a| ensures a[i] == s[i] {}
    forall i | 0 <= i < |b| ensures b[i] == s[|a| + |m| + i] {}
    var both := a + b;
    forall i, j | 0 <= i < j < |both| ensures ord.Less(ord.key(both[i]), ord.key(both[j])) {
      if i < |a| <= j { OrderFacts(ord.cmp, ord.key(a[i]), k, ord.key(b[j - |a|])); }
    }
  }

  lemma AllBelowTrans<E(!new), K(!new)>(ord: Order<E, K>, s: seq<E>, x: K, k: K)
    requires Lawful(ord) && AllBelow(ord, s, x) && !ord.Less(k, x)
    ensures AllBelow(ord, s, k)
  {
    hide TotalPreorder;
    forall i | 0 <= i < |s| ensures ord.Less(ord.key(s[i]), k) {
      OrderFacts(ord.cmp, ord.key(s[i]), x, k);
      OrderFacts(ord.cmp, x, k, ord.key(s[i]));
    }
  }

  lemma AllAboveTrans<E(!new), K(!new)>(ord: Order<E, K>, s: seq<E>, x: K, k: K)
    requires Lawful(ord) && AllAbove(ord, s, x) && !ord.Less(x, k)
    ensures AllAbove(ord, s, k)
  {
    hide TotalPreorder;
    forall i | 0 <= i < |s| ensures ord.Less(k, ord.key(s[i])) {
      OrderFacts(ord.cmp, k, x, ord.key(s[i]));
      OrderFacts(ord.cmp, x, k, ord.key(s[i]));
    }
  }

  /** Grows a cut of the left subtree into one of the tree, or one of the right subtree. */
  lemma CutLeft<E(!new), K(!new)>(ord: Order<E, K>, x: E, right: seq<E>, k: K, s: seq<E>, a: seq<E>, m: seq<E>, b: seq<E>)
    requires Lawful(ord) && Cut(ord, s, k, a, m, b) && ord.Less(k, ord.key(x)) && AllAbove(ord, right, ord.key(x))
    ensures Cut(ord, s + [x] + right, k, a, m, b + [x] + right)
  {
    hide TotalPreorder;
    OrderFacts(ord.cmp, k, ord.key(x), k);
    AllAboveTrans(ord, right, ord.key(x), k);
  }

  lemma CutRight<E(!new), K(!new)>(ord: Order<E, K>, x: E, left: seq<E>, k: K, s: seq<E>, a: seq<E>, m: seq<E>, b: seq<E>)
    requires Lawful(ord) && Cut(ord, s, k, a, m, b) && ord.Less(ord.key(x), k) && AllBelow(ord, left, ord.key(x))
    ensures Cut(ord, left + [x] + s, k, left + [x] + a, m, b)
  {
    hide TotalPreorder;
    OrderFacts(ord.cmp, ord.key(x), k, k);
    AllBelowTrans(ord, left, ord.key(x), k);
  }

  lemma JoinLeft<E>(a: seq<E>, m: seq<E>, b: seq<E>, x: E, r: seq<E>)
    ensures a + m + b + [x] + r == a + m + (b + [x] + r) && a + b + [x] + r == a + (b + [x] + r)
  {
  }

  lemma JoinRight<E>(l: seq<E>, x: E, a: seq<E>, m: seq<E>, b: seq<E>)
    ensures l + [x] + (a + m + b) == (l + [x] + a) + m + b && l + [x] + (a + b) == (l + [x] + a) + b
  {
  }

  lemma EmptyCut<E, K>(ord: Order<E, K>, k: K)
    ensures Cut(ord, [], k, [], [], [])
  {
  }

  lemma TiedCut<E, K>(ord: Order<E, K>, k: K, a: seq<E>, e: E, b: seq<E>)
    requires ord.Tied(k, ord.key(e)) && AllBelow(ord, a, k) && AllAbove(ord, b, k)
    ensures Cut(ord, a + [e] + b, k, a, [e], b)
  {
  }

  lemma NotInCut<E(!new), K(!new)>(ord: Order<E, K>, m: seq<E>, x: E, k: K, k': K)
    requires Lawful(ord) && |m| <= 1 && (m != [] ==> ord.Tied(k', ord.key(m[0])))
    requires ord.Tied(k, ord.key(x)) && !ord.Tied(k, k')
    ensures x !in m
  {
    hide TotalPreorder;
    OrderFacts(ord.cmp, k', ord.key(x), k);
    OrderFacts(ord.cmp, k, ord.key(x), k');
  }

  /** A key has only one place. */
  lemma CutIsUnique<E(!new), K(!new)>(
    ord: Order<E, K>, s: seq<E>, k: K, a: seq<E>, m: seq<E>, b: seq<E>, a': seq<E>, m': seq<E>, b': seq<E>)
    requires Lawful(ord) && Cut(ord, s, k, a, m, b) && Cut(ord, s, k, a', m', b')
    ensures a == a' && m == m' && b == b'
  {
    hide TotalPreorder;
    CutOrder(ord, s, k, a, m, b, a', m', b');
    CutOrder(ord, s, k, a', m', b', a, m, b);
    assert a == s[..|a|] && a' == s[..|a|];
    assert m == s[|a|..|a| + |m|] && m' == s[|a|..|a| + |m|];
    assert b == s[|a| + |m|..] && b' == s[|a| + |m|..];
  }

  lemma CutOrder<E(!new), K(!new)>(
    ord: Order<E, K>, s: seq<E>, k: K, a: seq<E>, m: seq<E>, b: seq<E>, a': seq<E>, m': seq<E>, b': seq<E>)
    requires Lawful(ord) && Cut(ord, s, k, a, m, b) && Cut(ord, s, k, a', m', b')
    ensures |a| <= |a'| && |a| + |m| <= |a'| + |m'|
  {
    hide TotalPreorder;
    if |a| > |a'| { PlaceOf(ord, s, k, a, m, b, a', m', b', |a'|); }
    if |a| + |m| > |a'| + |m'| { PlaceOf(ord, s, k, a, m, b, a', m', b', |a'| + |m'|); }
  }

  /** A position is on the same side of both cuts. */
  lemma PlaceOf<E(!new), K(!new)>(
    ord: Order<E, K>, s: seq<E>, k: K, a: seq<E>, m: seq<E>, b: seq<E>, a': seq<E>, m': seq<E>, b': seq<E>, i: nat)
    requires Lawful(ord) && Cut(ord, s, k, a, m, b) && Cut(ord, s, k, a', m', b') && i < |s|
    ensures i < |a| <==> i < |a'|
    ensures i < |a| + |m| <==> i < |a'| + |m'|
  {
    SideOf(ord, s, k, a, m, b, i);
    SideOf(ord, s, k, a', m', b', i);
    OrderFacts(ord.cmp, ord.key(s[i]), k, k);
    OrderFacts(ord.cmp, k, ord.key(s[i]), k);
  }

  lemma SideOf<E, K>(ord: Order<E, K>, s: seq<E>, k: K, a: seq<E>, m: seq<E>, b: seq<E>, i: nat)
    requires Cut(ord, s, k, a, m, b) && i < |s|
    ensures if i < |a| then ord.Less(ord.key(s[i]), k)
            else if i < |a| + |m| then ord.Tied(k, ord.key(s[i]))
            else ord.Less(k, ord.key(s[i]))
  {
    if i < |a| {
      assert s[i] == a[i];
    } else if i < |a| + |m| {
      assert s[i] == m[0];
    } else {
      assert s[i] == b[i - |a| - |m|];
    }
  }

  /** Any entry of a sorted sequence sits at its own place. */
  lemma OwnCut<E(!new), K(!new)>(ord: Order<E, K>, a: seq<E>, e: E, b: seq<E>, k: K)
    requires Lawful(ord) && Sorted(ord, a + [e] + b) && k == ord.key(e)
    ensures Cut(ord, a + [e] + b, k, a, [e], b)
  {
    SortedParts(ord, a, e, b);
    OrderFacts(ord.cmp, ord.key(e), k, k);
  }
}
