/** The persistent index of maximal dirty runs, a weight-balanced tree keyed by run starts. */
module RunIndex {
  import opened Comparisons
  import opened Options
  import opened KeyOrder
  import opened SortedEntries
  import opened WeightBalanced
  import opened OrderedIndex
  import opened DirtyRuns

  const BY_START: Order<Run, nat> := Order((r: Run) => r.start, (x: nat, y: nat) => x - y)

  lemma ByStartIsLawful()
    ensures Lawful(BY_START)
  {
  }

  lemma ByStartFacts(r: Run, x: nat, y: nat)
    ensures BY_START.key(r) == r.start
    ensures (BY_START.Less(x, y) <==> x < y) && (BY_START.Tied(x, y) <==> x == y)
  {
  }

  /** Balanced, and listing gapped runs. */
  ghost predicate Index(t: Tree<Run>) {
    Valid(BY_START, t) && Gapped(Flat(t))
  }

  // ----- Searches -----

  /** The run with the greatest start not above the key. */
  function Floor(t: Tree<Run>, key: nat): Option<Run> {
    if t.Nil? then None
    else if t.entry.start <= key then
      var r := Floor(t.right, key);
      if r.Some? then r else Some(t.entry)
    else Floor(t.left, key)
  }

  /** The run with the least start not below the key. */
  function Ceiling(t: Tree<Run>, key: nat): Option<Run> {
    if t.Nil? then None
    else if t.entry.start >= key then
      var l := Ceiling(t.left, key);
      if l.Some? then l else Some(t.entry)
    else Ceiling(t.right, key)
  }

  method FloorLoop(root: Tree<Run>, key: nat) returns (candidate: Option<Run>)
    ensures candidate == Floor(root, key)
  {
    var t := root;
    candidate := None;
    while t.Node?
      invariant Floor(root, key) == if Floor(t, key).Some? then Floor(t, key) else candidate
      decreases t
    {
      if t.entry.start <= key {
        candidate := Some(t.entry);
        t := t.right;
      } else {
        t := t.left;
      }
    }
  }

  method CeilingLoop(root: Tree<Run>, key: nat) returns (candidate: Option<Run>)
    ensures candidate == Ceiling(root, key)
  {
    var t := root;
    candidate := None;
    while t.Node?
      invariant Ceiling(root, key) == if Ceiling(t, key).Some? then Ceiling(t, key) else candidate
      decreases t
    {
      if t.entry.start >= key {
        candidate := Some(t.entry);
        t := t.left;
      } else {
        t := t.right;
      }
    }
  }

  /** The run covering a position, if any. */
  function Containing(t: Tree<Run>, i: nat): Option<Run> {
    var candidate := Floor(t, i);
    if candidate.Some? && candidate.value.end > i then candidate else None
  }

  /** Runs of s with start below, at and above the key. */
  ghost predicate Around(s: seq<Run>, key: nat, a: seq<Run>, m: seq<Run>, b: seq<Run>) {
    && s == a + m + b && |m| <= 1 && (m != [] ==> m[0].start == key)
    && (forall j :: 0 <= j < |a| ==> a[j].start < key)
    && (forall j :: 0 <= j < |b| ==> key < b[j].start)
  }

  lemma AroundIsCut(s: seq<Run>, key: nat, a: seq<Run>, m: seq<Run>, b: seq<Run>)
    ensures Around(s, key, a, m, b) <==> Cut(BY_START, s, key, a, m, b)
  {
  }

  /** Both searches, in terms of the place of the key. */
  ghost predicate Found(t: Tree<Run>, key: nat, a: seq<Run>, m: seq<Run>, b: seq<Run>) {
    && Around(Flat(t), key, a, m, b)
    && Floor(t, key) == (if m != [] then Some(m[0]) else if a != [] then Some(a[|a| - 1]) else None)
    && Ceiling(t, key) == (if m != [] then Some(m[0]) else if b != [] then Some(b[0]) else None)
  }

  ghost predicate Splits(t: Tree<Run>) {
    && t.Node? && Flat(t) == Flat(t.left) + [t.entry] + Flat(t.right)
    && (forall j :: 0 <= j < |Flat(t.left)| ==> Flat(t.left)[j].start < t.entry.start)
    && (forall j :: 0 <= j < |Flat(t.right)| ==> t.entry.start < Flat(t.right)[j].start)
  }

  lemma ValidSplits(t: Tree<Run>)
    requires Valid(BY_START, t) && t.Node?
    ensures Splits(t) && Valid(BY_START, t.left) && Valid(BY_START, t.right)
  {
    Subtrees(BY_START, t);
  }

  lemma {:induction false} SearchFacts(t: Tree<Run>, key: nat) returns (a: seq<Run>, m: seq<Run>, b: seq<Run>)
    requires Valid(BY_START, t)
    ensures Found(t, key, a, m, b)
  {
    if t.Nil? {
      a, m, b := [], [], [];
    } else {
      ValidSplits(t);
      hide *;
      var a1, m1, b1 := SearchFacts(t.left, key);
      var a2, m2, b2 := SearchFacts(t.right, key);
      if t.entry.start == key {
        a, m, b := FoundHere(t, key, a1, m1, b1, a2, m2, b2);
      } else if key < t.entry.start {
        a, m := a1, m1;
        b := FoundLeft(t, key, a1, m1, b1);
      } else {
        m, b := m2, b2;
        a := FoundRight(t, key, a2, m2, b2);
      }
    }
  }

  lemma FoundHere(
    t: Tree<Run>, key: nat, a1: seq<Run>, m1: seq<Run>, b1: seq<Run>, a2: seq<Run>, m2: seq<Run>, b2: seq<Run>)
    returns (a: seq<Run>, m: seq<Run>, b: seq<Run>)
    requires Splits(t) && t.entry.start == key && Found(t.left, key, a1, m1, b1) && Found(t.right, key, a2, m2, b2)
    ensures Found(t, key, a, m, b)
  {
    a, m, b := Flat(t.left), [t.entry], Flat(t.right);
    NoneAtOrBelow(Flat(t.right), key, a2, m2, b2);
    NoneAtOrAbove(Flat(t.left), key, a1, m1, b1);
  }

  /** Where each part sits. */
  lemma AroundEnds(s: seq<Run>, key: nat, a: seq<Run>, m: seq<Run>, b: seq<Run>)
    requires Around(s, key, a, m, b)
    ensures a + m != [] ==> s != [] && s[0].start <= key
    ensures m + b != [] ==> s != [] && key <= s[|s| - 1].start
  {
    if a != [] {
      assert s[0] == a[0];
    } else if m != [] {
      assert s[0] == m[0];
    }
    if b != [] {
      assert s[|s| - 1] == b[|b| - 1];
    } else if m != [] {
      assert s[|s| - 1] == m[0];
    }
  }

  lemma NoneAtOrBelow(s: seq<Run>, key: nat, a: seq<Run>, m: seq<Run>, b: seq<Run>)
    requires Around(s, key, a, m, b) && forall j :: 0 <= j < |s| ==> key < s[j].start
    ensures a == [] && m == []
  {
    AroundEnds(s, key, a, m, b);
  }

  lemma NoneAtOrAbove(s: seq<Run>, key: nat, a: seq<Run>, m: seq<Run>, b: seq<Run>)
    requires Around(s, key, a, m, b) && forall j :: 0 <= j < |s| ==> s[j].start < key
    ensures m == [] && b == []
  {
    AroundEnds(s, key, a, m, b);
  }

  lemma FoundLeft(t: Tree<Run>, key: nat, a: seq<Run>, m: seq<Run>, b: seq<Run>) returns (b': seq<Run>)
    requires Splits(t) && key < t.entry.start && Found(t.left, key, a, m, b)
    ensures Found(t, key, a, m, b')
  {
    JoinLeft(a, m, b, t.entry, Flat(t.right));
    b' := b + [t.entry] + Flat(t.right);
  }

  lemma FoundRight(t: Tree<Run>, key: nat, a: seq<Run>, m: seq<Run>, b: seq<Run>) returns (a': seq<Run>)
    requires Splits(t) && t.entry.start < key && Found(t.right, key, a, m, b)
    ensures Found(t, key, a', m, b)
  {
    JoinRight(Flat(t.left), t.entry, a, m, b);
    a' := Flat(t.left) + [t.entry] + a;
  }

  // ----- Marking and clearing a position -----

  /** Makes a clean position dirty: it merges, extends or starts a run. */
  function AddDirty(t: Tree<Run>, i: nat): Tree<Run>
    requires Balanced(t)
  {
    var left, right := Floor(t, i), Ceiling(t, i);
    var hasLeft := left.Some? && left.value.end == i;
    var hasRight := right.Some? && right.value.start == i + 1;
    if hasLeft && hasRight then
      Set(BY_START, Remove(BY_START, true, t, right.value.start), Run(left.value.start, right.value.end))
    else if hasLeft then Set(BY_START, t, Run(left.value.start, i + 1))
    else if hasRight then Set(BY_START, Remove(BY_START, true, t, right.value.start), Run(i, right.value.end))
    else Set(BY_START, t, Run(i, i + 1))
  }

  /** Clears a dirty position: it deletes, shrinks or splits the run around it. */
  function RemoveDirty(t: Tree<Run>, i: nat): Option<Tree<Run>>
    requires Balanced(t)
  {
    var containing := Containing(t, i);
    if containing.None? then None
    else
      var Run(start, end) := containing.value;
      if start == i && end == i + 1 then Some(Remove(BY_START, true, t, start))
      else if start == i then Some(Set(BY_START, Remove(BY_START, true, t, start), Run(i + 1, end)))
      else if end == i + 1 then Some(Set(BY_START, t, Run(start, i)))
      else Some(Set(BY_START, Set(BY_START, t, Run(start, i)), Run(i + 1, end)))
  }

  /** The balanced tree with exactly these runs in order. */
  ghost predicate Lists(t: Tree<Run>, s: seq<Run>) {
    Valid(BY_START, t) && Flat(t) == s
  }

  lemma ListsFacts(t: Tree<Run>, s: seq<Run>)
    requires Lists(t, s)
    ensures Balanced(t) && Flat(t) == s && (t.Nil? <==> s == []) && (Gapped(s) ==> Index(t))
  {
  }

  lemma IndexLists(t: Tree<Run>)
    requires Index(t)
    ensures Lists(t, Flat(t)) && Balanced(t)
  {
  }

  /** Setting a run where the list has no run or one with the same start. */
  lemma SetRun(t: Tree<Run>, s: seq<Run>, r: Run, a: seq<Run>, m: seq<Run>, b: seq<Run>)
    requires Lists(t, s) && Around(s, r.start, a, m, b)
    ensures Balanced(t) && Lists(Set(BY_START, t, r), a + [r] + b)
  {
    ListsFacts(t, s);
    hide TotalPreorder, Valid, Set, Cut, Around, Balanced, Flat;
    ByStartIsLawful();
    ByStartFacts(r, 0, 0);
    AroundIsCut(s, r.start, a, m, b);
    EditAt(BY_START, true, t, r, a, m, b);
  }

  lemma RemoveRun(t: Tree<Run>, a: seq<Run>, r: Run, b: seq<Run>)
    requires Lists(t, a + [r] + b)
    ensures Balanced(t) && Lists(Remove(BY_START, true, t, r.start), a + b)
  {
    ByStartIsLawful();
    OwnCut(BY_START, a, r, b, r.start);
    hide TotalPreorder, Valid, Remove;
    EditAt(BY_START, true, t, r, a, [r], b);
  }

  lemma GappedAround(a: seq<Run>, r: Run, b: seq<Run>)
    requires Gapped(a + [r] + b)
    ensures Around(a + [r] + b, r.start, a, [r], b)
  {
    GappedParts(a, r, b);
  }

  /** The three parts are gapped themselves, and only the last run before the key can reach over it. */
  lemma AroundParts(s: seq<Run>, i: nat, a: seq<Run>, m: seq<Run>, b: seq<Run>)
    requires Gapped(s) && Around(s, i, a, m, b)
    ensures Gapped(a) && Gapped(b) && StartAfter(b, i)
    ensures forall k: nat :: Covered(s, k) <==> Covered(a, k) || Covered(m, k) || Covered(b, k)
  {
    forall k: nat ensures Covered(s, k) <==> Covered(a, k) || Covered(m, k) || Covered(b, k) { CoveredJoin(a, m, b, k); }
    hide Covered;
    forall j | 0 <= j < |a| ensures a[j] == s[j] {}
    forall j | 0 <= j < |b| ensures b[j] == s[|a| + |m| + j] {}
  }

  lemma LastReaches(a: seq<Run>, i: nat)
    requires Gapped(a) && forall j :: 0 <= j < |a| ==> a[j].start < i
    ensures Covered(a, i) <==> a != [] && a[|a| - 1].end > i
    ensures !Covered(a, i) ==> EndBefore(a, i + 1)
  {
    if a != [] && a[|a| - 1].end > i { assert In(a[|a| - 1], i); }
    forall j | 0 <= j < |a| - 1 ensures a[j].end < i { assert a[j].end < a[|a| - 1].start; }
  }

  /** A clean position lies between the runs before it and those after it. */
  lemma CleanAround(s: seq<Run>, i: nat, a: seq<Run>, m: seq<Run>, b: seq<Run>)
    requires Gapped(s) && !Covered(s, i) && Around(s, i, a, m, b)
    ensures m == [] && s == a + b && Gapped(a) && Gapped(b) && EndBefore(a, i + 1) && StartAfter(b, i)
  {
    AroundParts(s, i, a, m, b);
    LastReaches(a, i);
    MiddleReaches(s, i, a, m, b);
  }

  lemma MiddleReaches(s: seq<Run>, i: nat, a: seq<Run>, m: seq<Run>, b: seq<Run>)
    requires Gapped(s) && Around(s, i, a, m, b)
    ensures m != [] ==> In(m[0], i) && Covered(m, i)
  {
    if m != [] {
      assert s[|a|] == m[0];
      assert In(m[0], i);
    }
  }

  lemma AddDirtyIs(t: Tree<Run>, i: nat, a: seq<Run>, b: seq<Run>)
    requires Balanced(t) && Found(t, i, a, [], b)
    ensures var l, r := TouchLeft(a, i), TouchRight(b, i);
      AddDirty(t, i) == Set(BY_START, if r == [] then t else Remove(BY_START, true, t, i + 1), Widened(l, r, i))
  {
    hide Floor, Ceiling, Around, Set, Remove, Balanced, Flat;
  }

  lemma WidenedAround(kept: seq<Run>, l: seq<Run>, rest: seq<Run>, w: Run)
    requires |l| <= 1 && (l != [] ==> l[0].start == w.start)
    requires Gapped(kept) && EndBefore(kept, w.start) && StartAfter(rest, w.end) && w.start < w.end
    ensures Around((kept + l) + rest, w.start, kept, l, rest)
  {
  }

  lemma WithoutTouched(t: Tree<Run>, x: seq<Run>, r: seq<Run>, rest: seq<Run>, i: nat)
    requires Lists(t, x + (r + rest)) && |r| <= 1 && (r != [] ==> r[0].start == i + 1)
    ensures Balanced(t) && Lists(if r == [] then t else Remove(BY_START, true, t, i + 1), x + rest)
  {
    ListsFacts(t, x + (r + rest));
    if r == [] {
      assert r + rest == rest;
    } else {
      assert x + (r + rest) == x + [r[0]] + rest;
      RemoveRun(t, x, r[0], rest);
    }
  }

  lemma SearchClean(t: Tree<Run>, i: nat) returns (a: seq<Run>, b: seq<Run>)
    requires Index(t) && !Covered(Flat(t), i)
    ensures Found(t, i, a, [], b)
    ensures Flat(t) == a + b && Gapped(a) && Gapped(b) && EndBefore(a, i + 1) && StartAfter(b, i)
  {
    hide Valid, Around, Floor, Ceiling, Flat, Covered, Gapped;
    var m;
    a, m, b := SearchFacts(t, i);
    CleanAround(Flat(t), i, a, m, b);
  }

  /** Marking a clean position adds just that position to what the runs cover. */
  lemma AddDirtyFacts(t: Tree<Run>, i: nat)
    requires Index(t) && !Covered(Flat(t), i)
    ensures Balanced(t) && Index(AddDirty(t, i)) && AddDirty(t, i).Node?
    ensures Total(Flat(AddDirty(t, i))) == Total(Flat(t)) + 1
    ensures forall k: nat :: Covered(Flat(AddDirty(t, i)), k) <==> Covered(Flat(t), k) || k == i
  {
    hide *;
    IndexLists(t);
    var a, b := SearchClean(t, i);
    var kept, l, r, rest := Shape(a, b, i);
    AddDirtyIs(t, i, a, b);
    WithoutTouched(t, kept + l, r, rest, i);
    var t1 := if r == [] then t else Remove(BY_START, true, t, i + 1);
    WidenedStart(l, r, i);
    WidenedAround(kept, l, rest, Widened(l, r, i));
    SetRun(t1, (kept + l) + rest, Widened(l, r, i), kept, l, rest);
    MarkedFacts(a, b, i);
    ListsFacts(AddDirty(t, i), Marked(a, b, i));
    NonemptyJoin(kept, Widened(l, r, i), rest);
  }

  lemma NonemptyJoin(a: seq<Run>, r: Run, b: seq<Run>)
    ensures a + [r] + b != []
  {
    assert |a + [r] + b| > 0;
  }

  lemma WidenedStart(l: seq<Run>, r: seq<Run>, i: nat)
    ensures l != [] ==> Widened(l, r, i).start == l[0].start
  {
  }

  /** The searched run is the one that covers the position. */
  lemma ContainingFacts(t: Tree<Run>, i: nat) returns (a: seq<Run>, b: seq<Run>)
    requires Index(t)
    ensures Containing(t, i).Some? <==> Covered(Flat(t), i)
    ensures Containing(t, i).Some? ==> Flat(t) == a + [Containing(t, i).value] + b && In(Containing(t, i).value, i)
  {
    hide Valid, Flat, Covered, Gapped;
    var a', m, b' := SearchFacts(t, i);
    a, b := a', b';
    AroundParts(Flat(t), i, a', m, b');
    MiddleReaches(Flat(t), i, a', m, b');
    LastReaches(a', i);
    OutsideIsClean(b', i);
    if m != [] {
      assert m == [m[0]];
    } else {
      CoveredOne(Run(0, 0), i);
      if Containing(t, i).Some? {
        a := a'[..|a'| - 1];
        assert Flat(t) == a + [a'[|a'| - 1]] + b;
      }
    }
  }

  /** The tree that clearing builds, for the run that covers the position. */
  function Shrunk(t: Tree<Run>, c: Run, i: nat): Tree<Run>
    requires Balanced(t)
  {
    if c.start == i && c.end == i + 1 then Remove(BY_START, true, t, c.start)
    else if c.start == i then Set(BY_START, Remove(BY_START, true, t, c.start), Run(i + 1, c.end))
    else if c.end == i + 1 then Set(BY_START, t, Run(c.start, i))
    else Set(BY_START, Set(BY_START, t, Run(c.start, i)), Run(i + 1, c.end))
  }

  lemma ShrunkLists(t: Tree<Run>, a: seq<Run>, c: Run, b: seq<Run>, i: nat)
    requires Balanced(t) && Lists(t, a + [c] + b) && Gapped(a + [c] + b) && In(c, i)
    ensures Lists(Shrunk(t, c, i), a + Cleared(c, i) + b)
  {
    ClearedIs(c, i);
    assert c.start <= i < c.end;
    hide *;
    if c.start == i && c.end == i + 1 {
      ShrunkWhole(t, a, c, b, i);
    } else if c.start == i {
      ShrunkHead(t, a, c, b, i);
    } else if c.end == i + 1 {
      ShrunkTail(t, a, c, b, i);
    } else {
      ShrunkMiddle(t, a, c, b, i);
    }
  }

  lemma ShrunkIs(t: Tree<Run>, c: Run, i: nat)
    requires Balanced(t)
    ensures c.start == i && c.end == i + 1 ==> Shrunk(t, c, i) == Remove(BY_START, true, t, c.start)
    ensures c.start == i && c.end != i + 1 ==>
      Shrunk(t, c, i) == Set(BY_START, Remove(BY_START, true, t, c.start), Run(i + 1, c.end))
    ensures c.start != i && c.end == i + 1 ==> Shrunk(t, c, i) == Set(BY_START, t, Run(c.start, i))
    ensures c.start != i && c.end != i + 1 ==>
      Shrunk(t, c, i) == Set(BY_START, Set(BY_START, t, Run(c.start, i)), Run(i + 1, c.end))
  {
    hide Set, Remove;
  }

  lemma HighAround(a: seq<Run>, low: Run, b: seq<Run>, c: Run, i: nat)
    requires Gapped(a + [c] + b) && In(c, i) && low.start == c.start && i + 1 < c.end
    ensures Around(a + b, i + 1, a, [], b) && Around(a + [low] + b, i + 1, a + [low], [], b)
  {
    hide Gapped, EndBefore, StartAfter, Around;
    GappedParts(a, c, b);
    PlaceHigh(a, low, b, c, i);
  }

  lemma ShrunkWhole(t: Tree<Run>, a: seq<Run>, c: Run, b: seq<Run>, i: nat)
    requires Balanced(t) && Lists(t, a + [c] + b) && c.start == i && c.end == i + 1
    ensures Lists(Shrunk(t, c, i), a + [] + b)
  {
    ShrunkIs(t, c, i);
    hide *;
    RemoveRun(t, a, c, b);
    Reassociate(a, c, c, b);
  }

  lemma ShrunkHead(t: Tree<Run>, a: seq<Run>, c: Run, b: seq<Run>, i: nat)
    requires Balanced(t) && Lists(t, a + [c] + b) && Gapped(a + [c] + b) && c.start == i && i + 1 < c.end
    ensures Lists(Shrunk(t, c, i), a + [Run(i + 1, c.end)] + b)
  {
    ShrunkIs(t, c, i);
    HighAround(a, c, b, c, i);
    hide *;
    RemoveRun(t, a, c, b);
    SetRun(Remove(BY_START, true, t, c.start), a + b, Run(i + 1, c.end), a, [], b);
  }

  lemma ShrunkTail(t: Tree<Run>, a: seq<Run>, c: Run, b: seq<Run>, i: nat)
    requires Balanced(t) && Lists(t, a + [c] + b) && Gapped(a + [c] + b) && In(c, i) && c.start < i && c.end == i + 1
    ensures Lists(Shrunk(t, c, i), a + [Run(c.start, i)] + b)
  {
    ShrunkIs(t, c, i);
    hide *;
    GappedAround(a, c, b);
    SetRun(t, a + [c] + b, Run(c.start, i), a, [c], b);
  }

  lemma ShrunkMiddle(t: Tree<Run>, a: seq<Run>, c: Run, b: seq<Run>, i: nat)
    requires Balanced(t) && Lists(t, a + [c] + b) && Gapped(a + [c] + b) && c.start < i && i + 1 < c.end
    ensures Lists(Shrunk(t, c, i), a + ([Run(c.start, i)] + [Run(i + 1, c.end)]) + b)
  {
    var low, high := Run(c.start, i), Run(i + 1, c.end);
    ShrunkIs(t, c, i);
    HighAround(a, low, b, c, i);
    hide *;
    GappedAround(a, c, b);
    SetRun(t, a + [c] + b, low, a, [c], b);
    SetRun(Set(BY_START, t, low), a + [low] + b, high, a + [low], [], b);
    Reassociate(a, low, high, b);
  }

  lemma Reassociate(a: seq<Run>, low: Run, high: Run, b: seq<Run>)
    ensures a + [] + b == a + b && (a + [low]) + [high] + b == a + ([low] + [high]) + b
  {
  }

  lemma ClearedIs(c: Run, i: nat)
    requires In(c, i)
    ensures var low, high := Run(c.start, i), Run(i + 1, c.end);
      Cleared(c, i) == if c.start == i then (if c.end == i + 1 then [] else [high])
                       else if c.end == i + 1 then [low] else [low] + [high]
  {
  }

  lemma PlaceHigh(a: seq<Run>, low: Run, b: seq<Run>, c: Run, i: nat)
    requires Gapped(a) && EndBefore(a, c.start) && StartAfter(b, c.end) && In(c, i) && low.start == c.start
    ensures i + 1 < c.end ==> Around(a + b, i + 1, a, [], b)
    ensures i + 1 < c.end ==> Around(a + [low] + b, i + 1, a + [low], [], b)
  {
    assert a + [] + b == a + b && (a + [low]) + [] + b == a + [low] + b;
  }

  /** Clearing a dirty position removes just that position from what the runs cover; it always finds its run. */
  lemma RemoveDirtyFacts(t: Tree<Run>, i: nat)
    requires Index(t) && Covered(Flat(t), i)
    ensures Balanced(t) && RemoveDirty(t, i).Some?
    ensures var u := RemoveDirty(t, i).value;
      && Index(u) && Total(Flat(u)) == Total(Flat(t)) - 1
      && (forall k: nat :: Covered(Flat(u), k) <==> Covered(Flat(t), k) && k != i)
  {
    var a, b := ContainingFacts(t, i);
    var c := Containing(t, i).value;
    assert RemoveDirty(t, i) == Some(Shrunk(t, c, i));
    IndexLists(t);
    hide Valid, Gapped, Covered, Flat, RemoveDirty, Shrunk, Total, Containing, Cleared, Lists;
    ShrunkLists(t, a, c, b, i);
    ListsFacts(Shrunk(t, c, i), a + Cleared(c, i) + b);
    ClearedFacts(a, c, b, i);
    ClearedTotal(a, c, b, i);
  }

  // ----- Selection by rank -----

  function NodeAt(t: Tree<Run>, rank: nat): Option<Run> {
    if t.Nil? then None
    else if rank < Size(t.left) then NodeAt(t.left, rank)
    else if rank == Size(t.left) then Some(t.entry)
    else NodeAt(t.right, rank - Size(t.left) - 1)
  }

  lemma {:induction false} NodeAtFacts(t: Tree<Run>, rank: nat)
    ensures |Flat(t)| == Size(t)
    ensures NodeAt(t, rank) == if rank < Size(t) then Some(Flat(t)[rank]) else None
  {
    FlatSize(t);
    if t.Node? {
      FlatSize(t.left);
      FlatSize(t.right);
      NodeAtFacts(t.left, rank);
      if rank > Size(t.left) { NodeAtFacts(t.right, rank - Size(t.left) - 1); }
    }
  }

  /** Dropping a whole run. */
  lemma DropRunFacts(t: Tree<Run>, a: seq<Run>, r: Run, b: seq<Run>)
    requires Index(t) && Flat(t) == a + [r] + b
    ensures Balanced(t) && Index(Remove(BY_START, true, t, r.start)) && r.start < r.end
    ensures Flat(Remove(BY_START, true, t, r.start)) == a + b
    ensures Total(a + b) == Total(Flat(t)) - (r.end - r.start)
    ensures forall k: nat :: Covered(a + b, k) <==> Covered(Flat(t), k) && !In(r, k)
  {
    IndexLists(t);
    RemoveRun(t, a, r, b);
    GappedParts(a, r, b);
    GappedWithout(a, r, b);
    ListsFacts(Remove(BY_START, true, t, r.start), a + b);
    ClearedTotal(a, r, b, r.start);
    hide Valid, Gapped, Covered, Flat, Remove, Total, Lists;
    forall k: nat ensures Covered(a + b, k) <==> Covered(Flat(t), k) && !In(r, k) {
      CoveredPair(a, b, k);
      CoveredJoin(a, [r], b, k);
      CoveredOne(r, k);
      if In(r, k) {
        OutsideCleared(a, b, r, k);
        OutsideIsClean(a, k);
        OutsideIsClean(b, k);
      }
    }
  }
}
