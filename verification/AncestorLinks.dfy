/** The parent and jump links of the level-ancestor arena, as an append-only sequence of records. */
module AncestorLinks {
  import opened Options
  import opened SkewBinary

  /** The bottom node 0 sits at depth -1 and links to itself. */
  datatype Links = Links(parent: nat, skip: nat, depth: int, distance: nat)

  datatype Record<+T> = Record(links: Links, value: Option<T>)

  const BOTTOM_LINKS := Links(0, 0, -1, 0)

  /** Every link leads to an older record. */
  ghost predicate Backward<T>(rs: seq<Record<T>>) {
    && |rs| > 0 && rs[0].links == BOTTOM_LINKS
    && (forall k :: 0 < k < |rs| ==> rs[k].links.parent < k && rs[k].links.skip < k)
  }

  /** The jump of a new leaf: one level, or the parent's jump joined with the one it lands on. */
  function Jump<T>(rs: seq<Record<T>>, parent: nat): (nat, nat)
    requires Backward(rs) && parent < |rs|
  {
    var p := rs[parent].links;
    if parent == 0 || p.skip == 0 then (parent, 1)
    else
      var s := rs[p.skip].links;
      if s.distance <= p.distance then (s.skip, 1 + p.distance + s.distance) else (parent, 1)
  }

  ghost predicate Linked<T>(rs: seq<Record<T>>, k: nat)
    requires Backward(rs) && 0 < k < |rs|
  {
    var l := rs[k].links;
    l.depth == rs[l.parent].links.depth + 1 && (l.skip, l.distance) == Jump(rs, l.parent) && rs[k].value.Some?
  }

  /** What every reachable arena satisfies. */
  ghost predicate WellLinked<T>(rs: seq<Record<T>>) {
    Backward(rs) && forall k :: 0 < k < |rs| ==> Linked(rs, k)
  }

  /** The record a new leaf gets. */
  function Leaf<T>(rs: seq<Record<T>>, parent: nat, value: T): Record<T>
    requires Backward(rs) && parent < |rs|
  {
    var (skip, distance) := Jump(rs, parent);
    Record(Links(parent, skip, rs[parent].links.depth + 1, distance), Some(value))
  }

  // ----- Ancestors -----

  /** The node found by repeated parent steps. */
  ghost function Up<T>(rs: seq<Record<T>>, n: nat, steps: nat): (a: nat)
    requires Backward(rs) && n < |rs|
    ensures a < |rs|
    decreases steps
  {
    if steps == 0 then n else Up(rs, rs[n].links.parent, steps - 1)
  }

  ghost function Level<T>(rs: seq<Record<T>>, n: nat): int
    requires n < |rs|
  {
    rs[n].links.depth + 1
  }

  lemma {:induction false} UpUp<T>(rs: seq<Record<T>>, n: nat, i: nat, j: nat)
    requires Backward(rs) && n < |rs|
    ensures Up(rs, Up(rs, n, i), j) == Up(rs, n, i + j)
    decreases i
  {
    if i > 0 { UpUp(rs, rs[n].links.parent, i - 1, j); }
  }

  lemma {:induction false} LevelFacts<T>(rs: seq<Record<T>>, n: nat)
    requires WellLinked(rs) && n < |rs|
    ensures 0 <= Level(rs, n) <= n && (Level(rs, n) == 0 <==> n == 0)
  {
    if n > 0 {
      assert Linked(rs, n);
      LevelFacts(rs, rs[n].links.parent);
    }
  }

  lemma {:induction false} UpLevel<T>(rs: seq<Record<T>>, n: nat, steps: nat)
    requires WellLinked(rs) && n < |rs| && steps <= Level(rs, n)
    ensures Level(rs, Up(rs, n, steps)) == Level(rs, n) - steps
    decreases steps
  {
    if steps > 0 {
      LevelFacts(rs, n);
      assert Linked(rs, n);
      UpLevel(rs, rs[n].links.parent, steps - 1);
    }
  }

  // ----- Jumps -----

  /** The jump lengths met by jumping all the way down. */
  ghost function Chain<T>(rs: seq<Record<T>>, n: nat): seq<nat>
    requires Backward(rs) && n < |rs|
  {
    if n == 0 then [] else [rs[n].links.distance] + Chain(rs, rs[n].links.skip)
  }

  ghost function Cons(w: nat, d: seq<nat>): seq<nat> {
    [w] + d
  }

  lemma ChainHead<T>(rs: seq<Record<T>>, n: nat)
    requires Backward(rs) && n < |rs|
    ensures n == 0 ==> Chain(rs, n) == []
    ensures n > 0 ==> rs[n].links.skip < |rs| && Chain(rs, n) == Cons(rs[n].links.distance, Chain(rs, rs[n].links.skip))
  {
  }

  lemma IncrementPair(v: nat, w: nat, rest: seq<nat>)
    ensures Increment(Cons(v, Cons(w, rest))) == if w <= v then Cons(1 + v + w, rest) else Cons(1, Cons(v, Cons(w, rest)))
    ensures Increment(Cons(v, [])) == Cons(1, Cons(v, [])) && Increment([]) == Cons(1, [])
  {
    assert Cons(v, Cons(w, rest))[2..] == rest;
  }

  lemma LinkedAt<T>(rs: seq<Record<T>>, n: nat)
    requires WellLinked(rs) && 0 < n < |rs|
    ensures Backward(rs) && rs[n].links.parent < |rs|
    ensures var l := rs[n].links; var p := rs[l.parent].links;
      && p.skip < |rs| && rs[p.skip].links.skip < |rs|
      && (l.skip, l.distance) == (
         if l.parent == 0 || p.skip == 0 then (l.parent, 1)
         else
           var s := rs[p.skip].links;
           if s.distance <= p.distance then (s.skip, 1 + p.distance + s.distance) else (l.parent, 1))
  {
    assert Linked(rs, n);
  }

  /** A new leaf's chain counts its parent's chain up by one. */
  lemma ChainStep<T>(rs: seq<Record<T>>, n: nat)
    requires WellLinked(rs) && 0 < n < |rs|
    ensures rs[n].links.parent < |rs| && Chain(rs, n) == Increment(Chain(rs, rs[n].links.parent))
  {
    hide *;
    LinkedAt(rs, n);
    var parent := rs[n].links.parent;
    var p := rs[parent].links;
    ChainHead(rs, n);
    ChainHead(rs, parent);
    ChainHead(rs, p.skip);
    IncrementPair(p.distance, rs[p.skip].links.distance, Chain(rs, rs[p.skip].links.skip));
  }

  /** The jump chain is the canonical skew-binary form of depth + 1. */
  lemma {:induction false} ChainIsCanonical<T>(rs: seq<Record<T>>, n: nat)
    requires WellLinked(rs) && n < |rs|
    ensures Level(rs, n) >= 0 && Chain(rs, n) == Digits(Level(rs, n))
    ensures Canonical(Chain(rs, n)) && Sum(Chain(rs, n)) == Level(rs, n)
  {
    if n > 0 {
      assert Linked(rs, n);
      ChainIsCanonical(rs, rs[n].links.parent);
      ChainStep(rs, n);
    }
    DigitsAreCanonical(Level(rs, n));
  }

  /** Each jump link is the true ancestor its distance says. */
  lemma {:induction false} JumpIsAncestor<T>(rs: seq<Record<T>>, n: nat)
    requires WellLinked(rs) && 0 < n < |rs|
    ensures rs[n].links.skip == Up(rs, n, rs[n].links.distance)
    ensures 0 < rs[n].links.distance <= Level(rs, n)
  {
    assert Linked(rs, n);
    var parent := rs[n].links.parent;
    var p := rs[parent].links;
    LevelFacts(rs, n);
    if parent != 0 && p.skip != 0 && rs[p.skip].links.distance <= p.distance {
      var s := rs[p.skip].links;
      JumpIsAncestor(rs, parent);
      JumpIsAncestor(rs, p.skip);
      UpUp(rs, parent, p.distance, s.distance);
      UpLevel(rs, parent, p.distance);
    } else {
      assert rs[n].links.skip == parent && rs[n].links.distance == 1;
      assert Up(rs, n, 1) == Up(rs, parent, 0);
    }
  }

  /** A jump is never longer than the path it skips. */
  lemma JumpFits<T>(rs: seq<Record<T>>, parent: nat)
    requires WellLinked(rs) && parent < |rs|
    ensures Jump(rs, parent).1 <= rs[parent].links.depth + 2
  {
    LevelFacts(rs, parent);
    var p := rs[parent].links;
    if parent != 0 && p.skip != 0 {
      JumpIsAncestor(rs, parent);
      JumpIsAncestor(rs, p.skip);
      UpLevel(rs, parent, p.distance);
    }
  }

  /** Stepping to the parent counts the chain down by one. */
  lemma ParentChain<T>(rs: seq<Record<T>>, n: nat)
    requires WellLinked(rs) && 0 < n < |rs|
    ensures rs[n].links.parent < |rs| && Canonical(Chain(rs, n)) && Chain(rs, n) != [] && Chain(rs, n)[0] > 0
    ensures Chain(rs, rs[n].links.parent) == Decrement(Chain(rs, n))
  {
    assert Linked(rs, n);
    hide *;
    ChainIsCanonical(rs, n);
    ChainIsCanonical(rs, rs[n].links.parent);
    ParentLevel(rs, n);
    PredecessorIsDecrement(Chain(rs, n), Chain(rs, rs[n].links.parent));
  }

  lemma ParentLevel<T>(rs: seq<Record<T>>, n: nat)
    requires WellLinked(rs) && 0 < n < |rs|
    ensures rs[n].links.parent < |rs| && Level(rs, rs[n].links.parent) == Level(rs, n) - 1
  {
    assert Linked(rs, n);
  }

  /** The hops a query makes by the rule: jump unless the jump overshoots. */
  ghost function QueryHops<T>(rs: seq<Record<T>>, n: nat, remaining: nat): nat
    requires WellLinked(rs) && n < |rs| && remaining <= Level(rs, n)
  {
    ChainIsCanonical(rs, n);
    Hops(Chain(rs, n), remaining)
  }

  lemma QueryStep<T>(rs: seq<Record<T>>, n: nat, remaining: nat)
    requires WellLinked(rs) && n < |rs| && 0 < remaining <= Level(rs, n)
    ensures 0 < n && rs[n].links.distance > 0
    ensures var l := rs[n].links;
      var jumps := l.distance <= remaining;
      var next := if jumps then l.skip else l.parent;
      var left := remaining - if jumps then l.distance else 1;
      && next < |rs| && 0 <= left <= Level(rs, next) && Level(rs, next) - left == Level(rs, n) - remaining
      && Up(rs, next, left) == Up(rs, n, remaining)
      && QueryHops(rs, n, remaining) == 1 + QueryHops(rs, next, left)
  {
    LevelFacts(rs, n);
    JumpIsAncestor(rs, n);
    ParentChain(rs, n);
    ChainIsCanonical(rs, n);
    assert Linked(rs, n);
    var l := rs[n].links;
    if l.distance <= remaining {
      UpUp(rs, n, l.distance, remaining - l.distance);
      UpLevel(rs, n, l.distance);
      assert Chain(rs, n)[1..] == Chain(rs, l.skip);
    }
    hide WellLinked, Canonical, Decrement, Jump;
  }

  /** Any query from a node takes at most 3 * floor(log2(depth + 2)) hops. */
  lemma QueryBound<T>(rs: seq<Record<T>>, n: nat, remaining: nat)
    requires WellLinked(rs) && n < |rs| && remaining <= Level(rs, n)
    ensures QueryHops(rs, n, remaining) <= 3 * Log2(rs[n].links.depth + 2)
  {
    ChainIsCanonical(rs, n);
    HopBound(Chain(rs, n), remaining);
  }

  // ----- Growth -----

  ghost predicate Prefix<T>(rs: seq<Record<T>>, later: seq<Record<T>>) {
    |rs| <= |later| && forall k :: 0 <= k < |rs| ==> rs[k] == later[k]
  }

  lemma LeafStaysLinked<T>(rs: seq<Record<T>>, parent: nat, value: T)
    requires WellLinked(rs) && parent < |rs|
    ensures WellLinked(rs + [Leaf(rs, parent, value)]) && Prefix(rs, rs + [Leaf(rs, parent, value)])
  {
    var more := rs + [Leaf(rs, parent, value)];
    forall k | 0 < k < |more| ensures Linked(more, k) {
      if k < |rs| { assert Linked(rs, k); }
    }
  }

  lemma {:induction false} UpIsStable<T>(rs: seq<Record<T>>, later: seq<Record<T>>, n: nat, steps: nat)
    requires Backward(rs) && Backward(later) && Prefix(rs, later) && n < |rs|
    ensures Up(later, n, steps) == Up(rs, n, steps)
    decreases steps
  {
    if steps > 0 { UpIsStable(rs, later, rs[n].links.parent, steps - 1); }
  }
}
