/** Sequences of logical (element, priority) entries, and what an action does to all of them at once. */
module ActionEntries {
  import opened ActionPolicy

  type Entry<E, P> = (E, P)

  /** The eager reading of an action: apply it to every entry now. */
  function Act<E, P, A>(pol: Policy<P, A>, a: A, s: seq<Entry<E, P>>): (r: seq<Entry<E, P>>)
    ensures |r| == |s|
    ensures forall i :: 0 <= i < |s| ==> r[i] == (s[i].0, pol.Apply(a, s[i].1))
  {
    seq(|s|, i requires 0 <= i < |s| => (s[i].0, pol.Apply(a, s[i].1)))
  }

  ghost predicate Neutral<P, A>(pol: Policy<P, A>, a: A) {
    pol.isIdentity(a) || a == pol.identity
  }

  lemma ActConcat<E, P, A>(pol: Policy<P, A>, a: A, s: seq<Entry<E, P>>, t: seq<Entry<E, P>>)
    ensures Act(pol, a, s + t) == Act(pol, a, s) + Act(pol, a, t)
  {
  }

  lemma ActNeutral<E, P(!new), A(!new)>(pol: Policy<P, A>, a: A, s: seq<Entry<E, P>>)
    requires Lawful(pol) && Neutral(pol, a)
    ensures Act(pol, a, s) == s
  {
  }

  lemma ActCompose<E, P(!new), A(!new)>(pol: Policy<P, A>, a: A, b: A, s: seq<Entry<E, P>>)
    requires Lawful(pol) && pol.admissible(a) && pol.admissible(b)
    ensures Act(pol, pol.Compose(a, b), s) == Act(pol, a, Act(pol, b, s))
  {
  }

  function Without<T>(s: seq<T>, i: nat): seq<T>
    requires i < |s|
  {
    s[..i] + s[i + 1..]
  }

  lemma WithoutMultiset<T>(s: seq<T>, i: nat)
    requires i < |s|
    ensures multiset(s) == multiset(Without(s, i)) + multiset{s[i]}
  {
    assert s == s[..i] + [s[i]] + s[i + 1..];
  }

  lemma ActWithout<E, P, A>(pol: Policy<P, A>, a: A, s: seq<Entry<E, P>>, i: nat)
    requires i < |s|
    ensures Without(Act(pol, a, s), i) == Act(pol, a, Without(s, i))
  {
  }

  /** Acting on every entry only sees the entries as a multiset. */
  lemma {:induction false} ActPermutation<E(!new), P(!new), A(!new)>(
    pol: Policy<P, A>, a: A, s: seq<Entry<E, P>>, t: seq<Entry<E, P>>)
    requires multiset(s) == multiset(t)
    ensures multiset(Act(pol, a, s)) == multiset(Act(pol, a, t))
    decreases |s|
  {
    if s == [] {
      assert |multiset(t)| == 0;
    } else {
      assert s[0] in multiset(t);
      var i :| 0 <= i < |t| && t[i] == s[0];
      WithoutMultiset(s, 0);
      WithoutMultiset(t, i);
      assert multiset(Without(s, 0)) == multiset(s) - multiset{s[0]};
      assert multiset(Without(t, i)) == multiset(s) - multiset{s[0]};
      ActPermutation(pol, a, Without(s, 0), Without(t, i));
      WithoutMultiset(Act(pol, a, s), 0);
      WithoutMultiset(Act(pol, a, t), i);
      ActWithout(pol, a, s, 0);
      ActWithout(pol, a, t, i);
    }
  }

  lemma SumExchange<T>(x: multiset<T>, s: multiset<T>, y: multiset<T>, t: multiset<T>, u: multiset<T>)
    requires x + s == y + t
    ensures (x + u) + s == (y + u) + t
  {
    assert (x + u) + s == (x + s) + u;
    assert (y + u) + t == (y + t) + u;
  }

  lemma SumShift<T>(x: multiset<T>, y: multiset<T>, z: multiset<T>)
    ensures (x + y) + z == x + (y + z)
    ensures (x + y) + z == (x + z) + y
  {
  }

  lemma MultisetOfFour<T>(a: seq<T>, b: seq<T>, c: seq<T>, d: seq<T>)
    ensures multiset(a + (b + (c + d))) == multiset(a) + multiset(b) + multiset(c) + multiset(d)
  {
  }

  /** Every entry has at least the given priority. */
  ghost predicate AtLeast<E(!new), P(!new), A>(pol: Policy<P, A>, p: P, s: seq<Entry<E, P>>) {
    forall e :: e in s ==> pol.Le(p, e.1)
  }

  lemma ActAtLeast<E(!new), P(!new), A(!new)>(pol: Policy<P, A>, a: A, p: P, s: seq<Entry<E, P>>)
    requires Lawful(pol) && pol.admissible(a) && AtLeast(pol, p, s)
    ensures AtLeast(pol, pol.Apply(a, p), Act(pol, a, s))
  {
  }

  lemma LeTotal<P(!new), A(!new)>(pol: Policy<P, A>, p: P, q: P)
    requires Lawful(pol)
    ensures pol.Le(p, q) || pol.Le(q, p)
  {
  }

  lemma AtLeastTransitive<E(!new), P(!new), A(!new)>(pol: Policy<P, A>, p: P, q: P, s: seq<Entry<E, P>>)
    requires Lawful(pol) && pol.Le(p, q) && AtLeast(pol, q, s)
    ensures AtLeast(pol, p, s)
  {
  }
}
