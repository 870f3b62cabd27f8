/** Building a canonical set in bulk: sort, keep the first of each class, then link the nodes in ascending
    order along a right spine. */
module CanonicalBuild {
  import opened Comparisons
  import opened CanonicalTree
  import opened CanonicalSet
  import opened CanonicalOrder
  import opened BulkSort
  import opened BulkMeasures
  import opened PostorderStack
  import opened Machine

  // ----- Dropping duplicates -----

  /** `reps` are the ascending first arrivals of the classes of items[..n], all before the later items. */
  ghost predicate Reps<V>(pol: Policy<V>, items: seq<Item<V>>, n: nat, reps: seq<Item<V>>) {
    && n <= |items|
    && (forall i, j :: 0 <= i < j < |reps| ==> pol.Less(reps[i].value, reps[j].value))
    && (forall i :: 0 <= i < |reps| ==> reps[i] in items)
    && (forall k :: 0 <= k < n ==> Represented(pol, reps, items[k]))
    && (forall i, k :: 0 <= i < |reps| && n <= k < |items| ==> pol.Less(reps[i].value, items[k].value))
  }

  /** An earlier or equal arrival of the item's class is among the representatives. */
  ghost predicate Represented<V>(pol: Policy<V>, reps: seq<Item<V>>, item: Item<V>) {
    exists i :: 0 <= i < |reps| && pol.Tied(reps[i].value, item.value) && reps[i].sequence <= item.sequence
  }

  lemma RepsStep<V(!new)>(pol: Policy<V>, items: seq<Item<V>>, index: nat, end: nat, reps: seq<Item<V>>)
    requires Lawful(pol) && Sorted(pol, items) && Reps(pol, items, index, reps) && index < end <= |items|
    requires forall k :: index <= k < end ==> pol.Tied(items[index].value, items[k].value)
    requires end < |items| ==> !pol.Tied(items[index].value, items[end].value)
    ensures Reps(pol, items, end, reps + [items[index]])
  {
    hide Sorted, Represented, TotalPreorder, RanksAgree;
    var rep := items[index];
    forall k | 0 <= k < end ensures Represented(pol, reps + [rep], items[k]) {
      if k < index {
        StillRepresented(pol, reps, rep, items[k]);
      } else {
        FirstRepresents(pol, items, index, k, reps);
      }
    }
    forall k | end <= k < |items| ensures pol.Less(rep.value, items[k].value) {
      LaterIsGreater(pol, items, index, end, k);
    }
  }

  lemma StillRepresented<V(!new)>(pol: Policy<V>, reps: seq<Item<V>>, rep: Item<V>, item: Item<V>)
    requires Represented(pol, reps, item)
    ensures Represented(pol, reps + [rep], item)
  {
    var i :| 0 <= i < |reps| && pol.Tied(reps[i].value, item.value) && reps[i].sequence <= item.sequence;
    assert (reps + [rep])[i] == reps[i];
  }

  /** Tied items stand in the order of their arrival. */
  lemma FirstRepresents<V(!new)>(pol: Policy<V>, items: seq<Item<V>>, index: nat, k: nat, reps: seq<Item<V>>)
    requires Lawful(pol) && Sorted(pol, items) && index <= k < |items| && pol.Tied(items[index].value, items[k].value)
    ensures Represented(pol, reps + [items[index]], items[k])
  {
    hide TotalPreorder, RanksAgree;
    assert (reps + [items[index]])[|reps|] == items[index];
    OrderFacts(pol.cmp, items[index].value, items[k].value, items[index].value);
    assert k > index ==> !Before(pol, items[k], items[index]);
  }

  lemma LaterIsGreater<V(!new)>(pol: Policy<V>, items: seq<Item<V>>, index: nat, end: nat, k: nat)
    requires Lawful(pol) && Sorted(pol, items) && index < end <= k < |items|
    requires !pol.Tied(items[index].value, items[end].value)
    ensures pol.Less(items[index].value, items[k].value)
  {
    hide TotalPreorder, RanksAgree;
    var x, y, z := items[index].value, items[end].value, items[k].value;
    assert !Before(pol, items[end], items[index]);
    assert k > end ==> !Before(pol, items[k], items[end]);
    OrderFacts(pol.cmp, x, y, z);
    OrderFacts(pol.cmp, z, y, x);
    OrderFacts(pol.cmp, y, z, x);
  }

  /** One pass over the sorted items. Tied items always agree on their rank, so the pass never fails. */
  method KeepFirst<V(!new)>(pol: Policy<V>, items: array<Item<V>>) returns (status: Status, reps: seq<Item<V>>)
    requires Lawful(pol) && Sorted(pol, items[..])
    ensures status.Ok? && |reps| <= items.Length && Reps(pol, items[..], items.Length, reps)
  {
    hide Sorted;
    var count, index := items.Length, 0;
    reps := [];
    while index < count
      invariant |reps| <= index <= count && Reps(pol, items[..], index, reps)
    {
      hide Reps, TotalPreorder, RanksAgree;
      var end, rank := index + 1, pol.rank(items[index].value);
      OrderFacts(pol.cmp, items[index].value, items[index].value, items[index].value);
      while end < count
        invariant index < end <= count
        invariant forall k :: index <= k < end ==> pol.Tied(items[index].value, items[k].value)
      {
        if !pol.Tied(items[index].value, items[end].value) {
          break;
        }
        TiedRanks(pol, items[index].value, items[end].value);
        if rank != pol.rank(items[end].value) {
          assert false;
        }
        end := end + 1;
      }
      RepsStep(pol, items[..], index, end, reps);
      reps := reps + [items[index]];
      index := end;
    }
    status := Ok;
  }

  lemma TiedRanks<V(!new)>(pol: Policy<V>, x: V, y: V)
    requires Lawful(pol)
    ensures pol.Tied(x, x) && (pol.Tied(x, y) ==> pol.rank(x) == pol.rank(y))
  {
  }

  // ----- Linking along the right spine -----

  ghost predicate Ascending<V>(pol: Policy<V>, v: seq<V>) {
    forall i, j :: 0 <= i < j < |v| ==> pol.Less(v[i], v[j])
  }

  /** v[i] is above every other value of v[lo..hi]. */
  ghost predicate Tops<V>(pol: Policy<V>, v: seq<V>, i: int, lo: int, hi: int)
    requires 0 <= lo <= hi <= |v| && 0 <= i < |v|
  {
    forall k :: lo <= k < hi && k != i ==> Above(pol, v[i], v[k])
  }

  /** The links reachable from node i form a heap over exactly the positions lo..hi, in order; -1 is no node. */
  ghost predicate Covers<V>(pol: Policy<V>, v: seq<V>, left: seq<int>, right: seq<int>, i: int, lo: int, hi: int)
    requires |left| == |right| == |v| && 0 <= lo <= hi <= |v|
    decreases hi - lo
  {
    if lo == hi then i == -1
    else
      && lo <= i < hi && Tops(pol, v, i, lo, hi)
      && Covers(pol, v, left, right, left[i], lo, i) && Covers(pol, v, left, right, right[i], i + 1, hi)
  }

  /** Only the links inside lo..hi matter. */
  lemma {:induction false} CoversFrame<V>(
    pol: Policy<V>, v: seq<V>, left: seq<int>, right: seq<int>, left': seq<int>, right': seq<int>, i: int, lo: int, hi: int)
    requires |left| == |right| == |left'| == |right'| == |v| && 0 <= lo <= hi <= |v|
    requires Covers(pol, v, left, right, i, lo, hi)
    requires forall k :: lo <= k < hi ==> left[k] == left'[k] && right[k] == right'[k]
    ensures Covers(pol, v, left', right', i, lo, hi)
    decreases hi - lo
  {
    hide Tops;
    if lo < hi {
      CoversFrame(pol, v, left, right, left', right', left[i], lo, i);
      CoversFrame(pol, v, left, right, left', right', right[i], i + 1, hi);
    }
  }

  /** Where the part left of spine node j begins. */
  ghost function From(spine: seq<int>, j: int): int
    requires 0 <= j <= |spine|
  {
    if j == 0 then 0 else spine[j - 1] + 1
  }

  /** What holds of spine node j once m nodes are linked: its left part is complete and it tops all from
      that part on. */
  ghost predicate SpineNode<V>(pol: Policy<V>, v: seq<V>, left: seq<int>, right: seq<int>, spine: seq<int>, j: int, m: int)
    requires |left| == |right| == |v| && 0 <= m <= |v| && 0 <= j < |spine|
  {
    && 0 <= From(spine, j) <= spine[j] < m
    && Covers(pol, v, left, right, left[spine[j]], From(spine, j), spine[j])
    && Tops(pol, v, spine[j], From(spine, j), m)
    && (j + 1 < |spine| ==> right[spine[j]] == spine[j + 1])
  }

  ghost predicate Spine<V>(pol: Policy<V>, v: seq<V>, left: seq<int>, right: seq<int>, spine: seq<int>, m: int) {
    && |left| == |right| == |v| && 0 <= m <= |v|
    && (forall j :: 0 <= j < |spine| ==> SpineNode(pol, v, left, right, spine, j, m))
  }

  /** While node m pops the spine: `below` heads what was popped, and node m tops all of it. */
  ghost predicate Popping<V>(
    pol: Policy<V>, v: seq<V>, left: seq<int>, right: seq<int>, spine: seq<int>, m: int, below: int)
  {
    && Spine(pol, v, left, right, spine, m) && m < |v| && 0 <= From(spine, |spine|) <= m
    && Covers(pol, v, left, right, below, From(spine, |spine|), m)
    && Tops(pol, v, m, From(spine, |spine|), m)
    && (spine != [] ==> 0 <= spine[|spine| - 1] && right[spine[|spine| - 1]] == below)
  }

  lemma PopStep<V(!new)>(
    pol: Policy<V>, v: seq<V>, left: seq<int>, right: seq<int>, spine: seq<int>, m: int, below: int)
    requires Lawful(pol) && Popping(pol, v, left, right, spine, m, below) && spine != []
    requires 0 <= spine[|spine| - 1] < |v| && Above(pol, v[m], v[spine[|spine| - 1]])
    ensures Popping(pol, v, left, right, spine[..|spine| - 1], m, spine[|spine| - 1])
  {
    var n := |spine| - 1;
    var top, rest := spine[n], spine[..n];
    assert SpineNode(pol, v, left, right, spine, n, m);
    assert Covers(pol, v, left, right, top, From(spine, n), m);
    assert From(rest, n) == From(spine, n);
    hide Covers;
    assert Tops(pol, v, m, From(spine, n), m) by {
      hide TotalPreorder, RanksAgree, Above;
      forall k | From(spine, n) <= k < m ensures Above(pol, v[m], v[k]) { AboveFacts(pol, v[m], v[top], v[k]); }
    }
    forall j | 0 <= j < n ensures SpineNode(pol, v, left, right, rest, j, m) {
      assert SpineNode(pol, v, left, right, spine, j, m) && From(rest, j) == From(spine, j);
    }
    if n > 0 { assert SpineNode(pol, v, left, right, spine, n - 1, m); }
  }

  /** Links node m: it takes the popped part as its left child and hangs from what is left of the spine. */
  lemma PushStep<V(!new)>(
    pol: Policy<V>, v: seq<V>, left: seq<int>, right: seq<int>, spine: seq<int>, m: int, below: int, left': seq<int>, right': seq<int>)
    requires Lawful(pol) && Ascending(pol, v) && Popping(pol, v, left, right, spine, m, below)
    requires spine != [] ==> 0 <= spine[|spine| - 1] < |v| && !Above(pol, v[m], v[spine[|spine| - 1]])
    requires left' == left[m := below]
    requires right' == if spine == [] then right else right[spine[|spine| - 1] := m]
    ensures Spine(pol, v, left', right', spine + [m], m + 1)
  {
    var n := |spine|;
    var next, done := spine + [m], m + 1;
    assert SpineNode(pol, v, left', right', next, n, done) by {
      if n > 0 { assert SpineNode(pol, v, left, right, spine, n - 1, m); }
      CoversFrame(pol, v, left, right, left', right', below, From(spine, n), m);
      assert From(next, n) == From(spine, n);
    }
    hide SpineNode, Popping;
    forall j | 0 <= j < n ensures SpineNode(pol, v, left', right', next, j, done) {
      OlderNode(pol, v, left, right, spine, m, below, left', right', j);
    }
  }

  /** The nodes that stay on the spine top node m too. */
  lemma OlderNode<V(!new)>(
    pol: Policy<V>, v: seq<V>, left: seq<int>, right: seq<int>, spine: seq<int>, m: int, below: int, left': seq<int>,
    right': seq<int>, j: nat)
    requires Lawful(pol) && Ascending(pol, v) && Popping(pol, v, left, right, spine, m, below) && j < |spine|
    requires 0 <= spine[|spine| - 1] < |v| && !Above(pol, v[m], v[spine[|spine| - 1]])
    requires left' == left[m := below] && right' == right[spine[|spine| - 1] := m]
    ensures SpineNode(pol, v, left', right', spine + [m], j, m + 1)
  {
    hide Covers, Lawful, Above, Ascending;
    var n := |spine|;
    assert SpineNode(pol, v, left, right, spine, j, m) && SpineNode(pol, v, left, right, spine, n - 1, m);
    assert From(spine + [m], j) == From(spine, j);
    SpineAscends(pol, v, left, right, spine, m, j, n - 1);
    CoversFrame(pol, v, left, right, left', right', left[spine[j]], From(spine, j), spine[j]);
    TopsNext(pol, v, spine[n - 1], m);
    AboveFacts(pol, v[spine[j]], v[spine[n - 1]], v[m]);
  }

  lemma TopsNext<V(!new)>(pol: Policy<V>, v: seq<V>, top: int, m: int)
    requires Lawful(pol) && Ascending(pol, v) && 0 <= top < m < |v| && !Above(pol, v[m], v[top])
    ensures Above(pol, v[top], v[m])
  {
    hide TotalPreorder, RanksAgree, Above;
    AboveFacts(pol, v[m], v[top], v[top]);
    OrderFacts(pol.cmp, v[top], v[m], v[top]);
  }

  lemma {:induction false} SpineAscends<V>(
    pol: Policy<V>, v: seq<V>, left: seq<int>, right: seq<int>, spine: seq<int>, m: int, i: int, j: int)
    requires Spine(pol, v, left, right, spine, m) && 0 <= i <= j < |spine|
    ensures 0 <= spine[i] <= spine[j] < m && (i < j ==> spine[i] < From(spine, j) && Above(pol, v[spine[i]], v[spine[j]]))
    decreases j - i
  {
    hide Covers, Above;
    assert SpineNode(pol, v, left, right, spine, j, m) && SpineNode(pol, v, left, right, spine, i, m);
    if i < j { SpineAscends(pol, v, left, right, spine, m, i, j - 1); }
  }

  /** The finished spine hangs from its first node. */
  lemma {:induction false} SpineCovers<V>(
    pol: Policy<V>, v: seq<V>, left: seq<int>, right: seq<int>, spine: seq<int>, j: int)
    requires Spine(pol, v, left, right, spine, |v|) && 0 <= j < |spine|
    requires |v| > 0 && spine[|spine| - 1] == |v| - 1 && right[|v| - 1] == -1
    ensures 0 <= From(spine, j) < |v| && Covers(pol, v, left, right, spine[j], From(spine, j), |v|)
    decreases |spine| - j
  {
    assert SpineNode(pol, v, left, right, spine, j, |v|);
    if j + 1 < |spine| {
      SpineCovers(pol, v, left, right, spine, j + 1);
    }
  }

  ghost predicate Unlinked(links: seq<int>, from: int) {
    forall k :: 0 <= from <= k < |links| ==> links[k] == -1
  }

  /** Before node m pops anything: the spine ends at node m - 1, which has no right child yet. */
  ghost predicate Ready<V>(pol: Policy<V>, v: seq<V>, left: seq<int>, right: seq<int>, spine: seq<int>, m: int) {
    && Spine(pol, v, left, right, spine, m)
    && if m == 0 then spine == [] else spine != [] && spine[|spine| - 1] == m - 1 && right[m - 1] == -1
  }

  lemma StartPopping<V>(pol: Policy<V>, v: seq<V>, left: seq<int>, right: seq<int>, spine: seq<int>, m: int)
    requires Ready(pol, v, left, right, spine, m) && m < |v|
    ensures Popping(pol, v, left, right, spine, m, -1)
  {
  }

  lemma TopInRange<V>(pol: Policy<V>, v: seq<V>, left: seq<int>, right: seq<int>, spine: seq<int>, m: int, below: int)
    requires Popping(pol, v, left, right, spine, m, below)
    ensures 0 <= m < |v| == |left| == |right| && (spine != [] ==> 0 <= spine[|spine| - 1] < m)
  {
    if spine != [] { assert SpineNode(pol, v, left, right, spine, |spine| - 1, m); }
  }

  /** Pops every spine node that node m is above. */
  method PopSpine<V(!new)>(pol: Policy<V>, v: seq<V>, left: array<int>, right: array<int>, whole: seq<int>, m: int)
    returns (spine: seq<int>, below: int)
    requires Lawful(pol) && Ready(pol, v, left[..], right[..], whole, m) && m < |v|
    ensures Popping(pol, v, left[..], right[..], spine, m, below)
    ensures spine != [] ==> 0 <= spine[|spine| - 1] < m && !Above(pol, v[m], v[spine[|spine| - 1]])
  {
    hide *;
    spine, below := whole, -1;
    StartPopping(pol, v, left[..], right[..], whole, m);
    TopInRange(pol, v, left[..], right[..], spine, m, below);
    while spine != []
      invariant Popping(pol, v, left[..], right[..], spine, m, below)
    {
      var n := |spine| - 1;
      TopInRange(pol, v, left[..], right[..], spine, m, below);
      if !Above(pol, v[m], v[spine[n]]) {
        break;
      }
      PopStep(pol, v, left[..], right[..], spine, m, below);
      spine, below := spine[..n], spine[n];
    }
    TopInRange(pol, v, left[..], right[..], spine, m, below);
  }

  /** Links ascending nodes into one heap over all of them and returns its root. */
  method LinkSpine<V(!new)>(pol: Policy<V>, v: seq<V>, left: array<int>, right: array<int>) returns (root: int)
    requires Lawful(pol) && Ascending(pol, v) && |v| > 0
    requires left != right && left.Length == right.Length == |v| && Unlinked(right[..], 0)
    modifies left, right
    ensures Covers(pol, v, left[..], right[..], root, 0, |v|)
  {
    hide *;
    var spine: seq<int>, index := [], 0;
    SpineStart(pol, v, left[..], right[..]);
    while index != |v|
      invariant 0 <= index <= |v| && Ready(pol, v, left[..], right[..], spine, index)
      invariant Unlinked(right[..], index)
    {
      ghost var left0, right0 := left[..], right[..];
      var below;
      spine, below := PopSpine(pol, v, left, right, spine, index);
      left[index] := below;
      assert left[..] == left0[index := below];
      if spine != [] {
        right[spine[|spine| - 1]] := index;
        assert right[..] == right0[spine[|spine| - 1] := index];
      } else {
        assert right[..] == right0;
      }
      LinkStep(pol, v, left0, right0, spine, index, below, left[..], right[..]);
      spine := spine + [index];
      index := index + 1;
    }
    LinkEnd(pol, v, left[..], right[..], spine);
    root := spine[0];
  }

  lemma SpineStart<V>(pol: Policy<V>, v: seq<V>, left: seq<int>, right: seq<int>)
    requires |left| == |right| == |v|
    ensures Ready(pol, v, left, right, [], 0)
  {
  }

  lemma LinkStep<V(!new)>(
    pol: Policy<V>, v: seq<V>, left: seq<int>, right: seq<int>, spine: seq<int>, m: int, below: int, left': seq<int>, right': seq<int>)
    requires Lawful(pol) && Ascending(pol, v) && Popping(pol, v, left, right, spine, m, below)
    requires 0 <= m < |v| == |left| == |right| && Unlinked(right, m)
    requires spine != [] ==> 0 <= spine[|spine| - 1] < m && !Above(pol, v[m], v[spine[|spine| - 1]])
    requires left' == left[m := below]
    requires right' == if spine == [] then right else right[spine[|spine| - 1] := m]
    ensures Ready(pol, v, left', right', spine + [m], m + 1) && Unlinked(right', m + 1)
  {
    hide TotalPreorder, RanksAgree, Ascending, Popping, Spine;
    PushStep(pol, v, left, right, spine, m, below, left', right');
  }

  lemma LinkEnd<V(!new)>(pol: Policy<V>, v: seq<V>, left: seq<int>, right: seq<int>, spine: seq<int>)
    requires |v| > 0 && Ready(pol, v, left, right, spine, |v|)
    ensures spine != [] && |left| == |right| == |v| && Covers(pol, v, left, right, spine[0], 0, |v|)
  {
    SpineCovers(pol, v, left, right, spine, 0);
  }

  // ----- The finished tree -----

  /** The tree that the links denote. */
  function Freeze<V>(pol: Policy<V>, v: seq<V>, left: seq<int>, right: seq<int>, i: int, lo: int, hi: int): Tree<V>
    requires |left| == |right| == |v| && 0 <= lo <= hi <= |v| && Covers(pol, v, left, right, i, lo, hi)
    decreases hi - lo
  {
    if lo == hi then Leaf
    else Node(v[i], pol.rank(v[i]), Freeze(pol, v, left, right, left[i], lo, i), Freeze(pol, v, left, right, right[i], i + 1, hi))
  }

  lemma {:induction false} FreezeFacts<V(!new)>(
    pol: Policy<V>, v: seq<V>, left: seq<int>, right: seq<int>, i: int, lo: int, hi: int)
    requires |left| == |right| == |v| && 0 <= lo <= hi <= |v| && Covers(pol, v, left, right, i, lo, hi)
    requires Ascending(pol, v)
    ensures Canonical(pol, Freeze(pol, v, left, right, i, lo, hi))
    ensures forall x :: Holds(Freeze(pol, v, left, right, i, lo, hi), x) <==> x in v[lo..hi]
    decreases hi - lo
  {
    if lo < hi {
      var l := Freeze(pol, v, left, right, left[i], lo, i);
      var r := Freeze(pol, v, left, right, right[i], i + 1, hi);
      FreezeFacts(pol, v, left, right, left[i], lo, i);
      FreezeFacts(pol, v, left, right, right[i], i + 1, hi);
      hide Above, Covers;
      forall y | Holds(l, y) ensures pol.Less(y, v[i]) && Above(pol, v[i], y) { PartFacts(pol, v, i, lo, hi, y); }
      forall y | Holds(r, y) ensures pol.Less(v[i], y) && Above(pol, v[i], y) { PartFacts(pol, v, i, lo, hi, y); }
      assert v[lo..hi] == v[lo..i] + [v[i]] + v[i + 1..hi];
    }
  }

  /** Values to the left of a top are below it, values to the right above it, and it tops them all. */
  lemma PartFacts<V(!new)>(pol: Policy<V>, v: seq<V>, i: int, lo: int, hi: int, y: V)
    requires 0 <= lo <= i < hi <= |v| && Ascending(pol, v) && Tops(pol, v, i, lo, hi)
    ensures y in v[lo..i] ==> pol.Less(y, v[i]) && Above(pol, v[i], y)
    ensures y in v[i + 1..hi] ==> pol.Less(v[i], y) && Above(pol, v[i], y)
  {
    hide Above;
    if y in v[lo..i] {
      var k :| lo <= k < i && v[k] == y;
    }
    if y in v[i + 1..hi] {
      var k :| i + 1 <= k < hi && v[k] == y;
    }
  }

  lemma {:induction false} FreezeSize<V>(pol: Policy<V>, v: seq<V>, left: seq<int>, right: seq<int>, i: int, lo: int, hi: int)
    requires |left| == |right| == |v| && 0 <= lo <= hi <= |v| && Covers(pol, v, left, right, i, lo, hi)
    ensures Size(Freeze(pol, v, left, right, i, lo, hi)) == hi - lo
    decreases hi - lo
  {
    hide Tops;
    if lo < hi {
      FreezeSize(pol, v, left, right, left[i], lo, i);
      FreezeSize(pol, v, left, right, right[i], i + 1, hi);
    }
  }

  /** The part of the tree under node i that hangs from node j. */
  ghost function SubtreeAt<V>(
    pol: Policy<V>, v: seq<V>, left: seq<int>, right: seq<int>, i: int, lo: int, hi: int, j: int): Tree<V>
    requires |left| == |right| == |v| && 0 <= lo <= j < hi <= |v| && Covers(pol, v, left, right, i, lo, hi)
    decreases hi - lo
  {
    if j == i then Freeze(pol, v, left, right, i, lo, hi)
    else if j < i then SubtreeAt(pol, v, left, right, left[i], lo, i, j)
    else SubtreeAt(pol, v, left, right, right[i], i + 1, hi, j)
  }

  lemma {:induction false} SubtreeLinks<V>(
    pol: Policy<V>, v: seq<V>, left: seq<int>, right: seq<int>, i: int, lo: int, hi: int, j: int)
    requires |left| == |right| == |v| && 0 <= lo <= j < hi <= |v| && Covers(pol, v, left, right, i, lo, hi)
    ensures var t := SubtreeAt(pol, v, left, right, i, lo, hi, j);
      && t.Node? && t.value == v[j]
      && (if left[j] == -1 then t.left.Leaf?
          else lo <= left[j] < hi && SubtreeAt(pol, v, left, right, i, lo, hi, left[j]) == t.left)
      && (if right[j] == -1 then t.right.Leaf?
          else lo <= right[j] < hi && SubtreeAt(pol, v, left, right, i, lo, hi, right[j]) == t.right)
    decreases hi - lo
  {
    hide Tops;
    if j < i {
      SubtreeLinks(pol, v, left, right, left[i], lo, i, j);
    } else if j > i {
      SubtreeLinks(pol, v, left, right, right[i], i + 1, hi, j);
    } else {
      var t := Freeze(pol, v, left, right, i, lo, hi);
      assert t.left == Freeze(pol, v, left, right, left[i], lo, i);
      assert t.right == Freeze(pol, v, left, right, right[i], i + 1, hi);
      assert left[i] == -1 <==> lo == i;
      assert right[i] == -1 <==> i + 1 == hi;
    }
  }

  /** The subtrees of all nodes. */
  ghost function Subtrees<V>(pol: Policy<V>, v: seq<V>, left: seq<int>, right: seq<int>, root: int): seq<Tree<V>>
    requires |left| == |right| == |v| && Covers(pol, v, left, right, root, 0, |v|)
  {
    seq(|v|, j requires 0 <= j < |v| => SubtreeAt(pol, v, left, right, root, 0, |v|, j))
  }

  lemma SubtreesDenote<V>(pol: Policy<V>, v: seq<V>, left: seq<int>, right: seq<int>, root: int)
    requires |left| == |right| == |v| > 0 && Covers(pol, v, left, right, root, 0, |v|)
    ensures var trees := Subtrees(pol, v, left, right, root);
      Denotes(trees, left, right) && 0 <= root < |v| == |trees| && trees[root] == Freeze(pol, v, left, right, root, 0, |v|)
  {
    var trees := Subtrees(pol, v, left, right, root);
    assert 0 <= root < |v| && SubtreeAt(pol, v, left, right, root, 0, |v|, root) == Freeze(pol, v, left, right, root, 0, |v|);
    hide Covers, SubtreeAt, Freeze;
    forall j | 0 <= j < |v| ensures NodeDenotes(trees, left, right, j) {
      SubtreeLinks(pol, v, left, right, root, 0, |v|, j);
    }
  }

  /** What contains a node and the children of its members contains every node below it. */
  lemma {:induction false} AllReached<V>(
    pol: Policy<V>, v: seq<V>, left: seq<int>, right: seq<int>, i: int, lo: int, hi: int, done: set<int>)
    requires |left| == |right| == |v| && 0 <= lo <= hi <= |v| && Covers(pol, v, left, right, i, lo, hi)
    requires i in done && forall j :: j in done && 0 <= j < |v| ==> left[j] in done && right[j] in done
    ensures forall j :: lo <= j < hi ==> j in done
    decreases hi - lo
  {
    hide Tops;
    if lo < hi {
      AllReached(pol, v, left, right, left[i], lo, i, done);
      AllReached(pol, v, left, right, right[i], i + 1, hi, done);
    }
  }

  // ----- The whole build -----

  /** x is the first arrival of its class among the values. */
  ghost predicate FirstArrival<V>(pol: Policy<V>, values: seq<V>, x: V) {
    exists q :: 0 <= q < |values| && FirstAt(pol, values, q) && values[q] == x
  }

  ghost predicate FirstAt<V>(pol: Policy<V>, values: seq<V>, q: nat)
    requires q < |values|
  {
    forall j :: 0 <= j < q ==> !pol.Tied(values[j], values[q])
  }

  ghost function Adds<V>(values: seq<V>): seq<Edit<V>> {
    seq(|values|, i requires 0 <= i < |values| => AddEdit(values[i]))
  }

  lemma {:induction false} FirstOfClass<V(!new)>(pol: Policy<V>, values: seq<V>, j: nat) returns (q: nat)
    requires Lawful(pol) && j < |values|
    ensures q <= j && FirstAt(pol, values, q) && pol.Tied(values[q], values[j])
  {
    hide TotalPreorder, RanksAgree;
    if FirstAt(pol, values, j) {
      OrderFacts(pol.cmp, values[j], values[j], values[j]);
      q := j;
    } else {
      var i :| 0 <= i < j && pol.Tied(values[i], values[j]);
      q := FirstOfClass(pol, values, i);
      OrderFacts(pol.cmp, values[q], values[i], values[j]);
    }
  }

  /** Adding one by one keeps exactly the first arrivals. */
  lemma {:induction false} AddsFacts<V(!new)>(pol: Policy<V>, values: seq<V>)
    requires Lawful(pol)
    ensures Canonical(pol, Run(pol, Adds(values)))
    ensures forall x :: Holds(Run(pol, Adds(values)), x) <==> FirstArrival(pol, values, x)
    decreases |values|
  {
    hide TotalPreorder, RanksAgree, Canonical;
    RunFacts(pol, Adds(values));
    if values != [] {
      var n := |values| - 1;
      var init, last := values[..n], values[n];
      AddsFacts(pol, init);
      assert Adds(values)[..n] == Adds(init);
      var before := Run(pol, Adds(init));
      HasHolds(pol, before, last);
      NewClass(pol, values, before);
      RunFacts(pol, Adds(init));
      if !Has(pol, before, last) { InsertFacts(pol, before, last); }
      forall x ensures FirstArrival(pol, values, x) <==> FirstArrival(pol, init, x) || (x == last && FirstAt(pol, values, n)) {
        ArrivalStep(pol, values, x);
      }
      hide Run, FirstArrival, FirstAt, Holds, Insert;
    }
  }

  lemma ArrivalStep<V(!new)>(pol: Policy<V>, values: seq<V>, x: V)
    requires values != []
    ensures var n := |values| - 1;
      FirstArrival(pol, values, x) <==> FirstArrival(pol, values[..n], x) || (x == values[n] && FirstAt(pol, values, n))
  {
    var n := |values| - 1;
    var init := values[..n];
    forall q | 0 <= q < n ensures FirstAt(pol, init, q) <==> FirstAt(pol, values, q) {
    }
    if FirstArrival(pol, init, x) {
      var q :| 0 <= q < n && FirstAt(pol, init, q) && init[q] == x;
      assert FirstAt(pol, values, q) && values[q] == x;
    }
    if FirstArrival(pol, values, x) {
      var q :| 0 <= q <= n && FirstAt(pol, values, q) && values[q] == x;
      if q < n { assert FirstAt(pol, init, q) && init[q] == x; }
    }
  }

  lemma NewClass<V(!new)>(pol: Policy<V>, values: seq<V>, before: Tree<V>)
    requires Lawful(pol) && values != []
    requires forall x :: Holds(before, x) <==> FirstArrival(pol, values[..|values| - 1], x)
    ensures FirstAt(pol, values, |values| - 1) <==> !Has(pol, before, values[|values| - 1])
  {
    hide TotalPreorder, RanksAgree, Holds, Has;
    var n := |values| - 1;
    var init, last := values[..n], values[n];
    HasHolds(pol, before, last);
    if Has(pol, before, last) {
      var y :| Holds(before, y) && pol.Tied(last, y);
      var q :| 0 <= q < n && FirstAt(pol, init, q) && init[q] == y;
      OrderFacts(pol.cmp, last, y, last);
      assert values[q] == y && pol.Tied(values[q], last);
    }
    if !FirstAt(pol, values, n) {
      var j :| 0 <= j < n && pol.Tied(values[j], last);
      var q := FirstOfClass(pol, init, j);
      OrderFacts(pol.cmp, init[q], init[j], last);
      OrderFacts(pol.cmp, init[q], last, last);
      assert FirstArrival(pol, init, init[q]) && pol.Tied(last, init[q]);
    }
  }

  ghost function Numbered<V>(values: seq<V>): seq<Item<V>> {
    seq(|values|, i requires 0 <= i < |values| => Item(values[i], i))
  }

  const ITEM_SIZE: nat := 16
  const FRAME_SIZE: nat := 16

  /** Some scratch buffer for that many values cannot be sized in a machine word. */
  predicate BuffersOverflow(count: nat) {
    || MultiplyOverflows(count, ITEM_SIZE) || MultiplyOverflows(count, POINTER_SIZE)
    || MultiplyOverflows(count, 2) || 2 * count == SIZE_MAX || MultiplyOverflows(2 * count + 1, FRAME_SIZE)
  }

  /** The stack of frames is the buffer that decides. */
  lemma BuffersOverflowMeans(count: nat)
    ensures BuffersOverflow(count) <==> (2 * count + 1) * FRAME_SIZE > SIZE_MAX
    ensures !BuffersOverflow(count) ==> count <= SIZE_MAX
  {
    MultiplyOverflowsMeans(count, ITEM_SIZE);
    MultiplyOverflowsMeans(count, POINTER_SIZE);
    MultiplyOverflowsMeans(count, 2);
    MultiplyOverflowsMeans(2 * count + 1, FRAME_SIZE);
    hide MultiplyOverflows;
  }

  /** Every node carries the count and height of its subtree. */
  ghost predicate AllMeasured<V>(trees: seq<Tree<V>>, counts: seq<nat>, heights: seq<nat>) {
    && |counts| == |heights| == |trees|
    && forall j :: 0 <= j < |trees| ==> counts[j] == Size(trees[j]) && heights[j] == Height(trees[j])
  }

  /** Links ascending values and fills in every node. */
  method Assemble<V(!new)>(pol: Policy<V>, v: seq<V>, frames: array<Frame<int>>)
    returns (status: Status, result: Tree<V>, ghost trees: seq<Tree<V>>, counts: array<nat>, heights: array<nat>)
    requires Lawful(pol) && Ascending(pol, v) && 0 < |v| <= SIZE_MAX && 2 * |v| + 1 <= frames.Length
    modifies frames
    ensures status.Ok? && Canonical(pol, result) && forall x :: Holds(result, x) <==> x in v
    ensures result in trees && |trees| == |v| && AllMeasured(trees, counts[..], heights[..])
  {
    hide Lawful, Covers, Canonical, Holds, Ascending, Freeze, Denotes, Measured, AllMeasured, Size, Subtrees;
    var n := |v|;
    var left := new int[n](i => -1);
    var right := new int[n](i => -1);
    var root := LinkSpine(pol, v, left, right);
    result := Freeze(pol, v, left[..], right[..], root, 0, n);
    FreezeFacts(pol, v, left[..], right[..], root, 0, n);
    FreezeSize(pol, v, left[..], right[..], root, 0, n);
    assert v[0..n] == v;
    trees := Subtrees(pol, v, left[..], right[..], root);
    SubtreesDenote(pol, v, left[..], right[..], root);
    counts := new nat[n](i => 1);
    heights := new nat[n](i => 1);
    ghost var done;
    status, done := FillMeasures(trees, left[..], right[..], root, counts, heights, frames);
    EveryNodeIsMeasured(pol, v, left[..], right[..], root, trees, counts[..], heights[..], done);
  }

  lemma EveryNodeIsMeasured<V>(
    pol: Policy<V>, v: seq<V>, left: seq<int>, right: seq<int>, root: int, trees: seq<Tree<V>>, counts: seq<nat>,
    heights: seq<nat>, done: set<int>)
    requires |left| == |right| == |v| == |trees| && Covers(pol, v, left, right, root, 0, |v|)
    requires root in done && Measured(trees, left, right, counts, heights, done)
    ensures AllMeasured(trees, counts, heights)
  {
    hide Covers, Size, Height;
    forall j | j in done && 0 <= j < |v| ensures left[j] in done && right[j] in done {
      assert NodeMeasured(trees, left, right, counts, heights, done, j);
    }
    AllReached(pol, v, left, right, root, 0, |v|, done);
    forall j | 0 <= j < |v| ensures counts[j] == Size(trees[j]) && heights[j] == Height(trees[j]) {
      assert NodeMeasured(trees, left, right, counts, heights, done, j);
    }
  }

  /** The bulk build is refused exactly when the values or the scratch buffers cannot be sized. Otherwise it yields
      the very tree that adding the values one by one yields, representatives included. */
  method FromArray<V(!new)>(pol: Policy<V>, valueSize: nat, values: array<V>) returns (status: Status, result: Tree<V>)
    requires Lawful(pol) && valueSize != 0
    ensures status ==
      if values.Length * valueSize > SIZE_MAX then InvalidArgument
      else if values.Length != 0 && (2 * values.Length + 1) * FRAME_SIZE > SIZE_MAX then Overflow
      else Ok
    ensures status.Ok? ==> Canonical(pol, result) && result == Run(pol, Adds(values[..]))
    ensures status.Ok? ==> Ascends(pol, InOrder(result)) && ZipOrdered(pol, result)
    ensures status.Ok? ==> forall x :: x in InOrder(result) <==> FirstArrival(pol, values[..], x)
  {
    hide Lawful, Sorted, Reps, Canonical, Run, Adds, Holds, Ascending, Shuffled, FirstArrival, BuffersOverflow, MultiplyOverflows;
    hide Ascends, InOrder, ZipOrdered;
    var count := values.Length;
    MultiplyOverflowsMeans(count, valueSize);
    BuffersOverflowMeans(count);
    if MultiplyOverflows(count, valueSize) {
      return InvalidArgument, Leaf;
    }
    if count == 0 {
      EmptyRun(pol, values[..]);
      BuildMeans(pol, values[..]);
      return Ok, Leaf;
    }
    if BuffersOverflow(count) {
      return Overflow, Leaf;
    }
    var items := new Item<V>[count](i requires 0 <= i < count reads values => Item(values[i], i));
    var scratch := new Item<V>[count](i requires 0 <= i < count reads values => Item(values[i], i));
    var frames := new Frame<int>[2 * count + 1];
    assert items[..] == Numbered(values[..]);
    SortItems(pol, items, scratch);
    var reps;
    status, reps := KeepFirst(pol, items);
    var v := seq(|reps|, i requires 0 <= i < |reps| => reps[i].value);
    ShuffledFacts(values[..], items[..]);
    RepsAscend(pol, values[..], items[..], reps, v);
    ghost var trees;
    var counts, heights;
    status, result, trees, counts, heights := Assemble(pol, v, frames);
    AddsFacts(pol, values[..]);
    CanonicalIsExact(pol, result, Run(pol, Adds(values[..])));
    BuildMeans(pol, values[..]);
  }

  /** The tree of the first arrivals, in the policy's own terms. */
  lemma BuildMeans<V(!new)>(pol: Policy<V>, values: seq<V>)
    requires Lawful(pol)
    ensures var t := Run(pol, Adds(values));
      && Ascends(pol, InOrder(t)) && ZipOrdered(pol, t)
      && forall x :: x in InOrder(t) <==> FirstArrival(pol, values, x)
  {
    hide *;
    AddsFacts(pol, values);
    var t := Run(pol, Adds(values));
    CanonicalMeans(pol, t);
    forall x ensures x in InOrder(t) <==> Holds(t, x) { InOrderHolds(t, x); }
  }

  lemma EmptyRun<V(!new)>(pol: Policy<V>, values: seq<V>)
    ensures values == [] ==> Run(pol, Adds(values)) == Leaf && Canonical(pol, Leaf)
  {
  }

  /** The items are the numbered values in some order. */
  ghost predicate Shuffled<V>(values: seq<V>, items: seq<Item<V>>) {
    && (forall k :: 0 <= k < |items| ==> items[k].sequence < |values| && items[k].value == values[items[k].sequence])
    && (forall j :: 0 <= j < |values| ==> Item(values[j], j) in items)
  }

  lemma ShuffledFacts<V>(values: seq<V>, items: seq<Item<V>>)
    requires multiset(items) == multiset(Numbered(values))
    ensures Shuffled(values, items)
  {
    var numbered := Numbered(values);
    forall k | 0 <= k < |items| ensures items[k].sequence < |values| && items[k].value == values[items[k].sequence] {
      assert items[k] in multiset(numbered);
    }
    forall j | 0 <= j < |values| ensures Item(values[j], j) in items {
      assert numbered[j] in multiset(items);
    }
  }

  /** What is linked: the first arrivals in ascending order. */
  lemma RepsAscend<V(!new)>(pol: Policy<V>, values: seq<V>, items: seq<Item<V>>, reps: seq<Item<V>>, v: seq<V>)
    requires Lawful(pol) && values != [] && Shuffled(values, items) && Reps(pol, items, |items|, reps)
    requires |v| == |reps| && forall i :: 0 <= i < |v| ==> v[i] == reps[i].value
    ensures v != [] && Ascending(pol, v)
    ensures forall x :: x in v <==> FirstArrival(pol, values, x)
  {
    var _ := RepOf(pol, values, items, reps, 0);
    assert Ascending(pol, v);
    hide TotalPreorder, RanksAgree, Shuffled, Reps, FirstArrival;
    forall x ensures x in v <==> FirstArrival(pol, values, x) { RepsAreFirsts(pol, values, items, reps, v, x); }
  }

  lemma RepsAreFirsts<V(!new)>(pol: Policy<V>, values: seq<V>, items: seq<Item<V>>, reps: seq<Item<V>>, v: seq<V>, x: V)
    requires Lawful(pol) && Shuffled(values, items) && Reps(pol, items, |items|, reps)
    requires |v| == |reps| && forall i :: 0 <= i < |v| ==> v[i] == reps[i].value
    ensures x in v <==> FirstArrival(pol, values, x)
  {
    hide TotalPreorder, RanksAgree, Shuffled, Reps, FirstAt;
    if x in v {
      var i :| 0 <= i < |v| && v[i] == x;
      RepIsFirst(pol, values, items, reps, i);
    }
    if FirstArrival(pol, values, x) {
      var q :| 0 <= q < |values| && FirstAt(pol, values, q) && values[q] == x;
      var i := FirstIsRep(pol, values, items, reps, q);
      assert v[i] == x;
    }
  }

  lemma RepIsFirst<V(!new)>(pol: Policy<V>, values: seq<V>, items: seq<Item<V>>, reps: seq<Item<V>>, i: nat)
    requires Lawful(pol) && Reps(pol, items, |items|, reps) && i < |reps| && Shuffled(values, items)
    ensures var q := reps[i].sequence; q < |values| && values[q] == reps[i].value && FirstAt(pol, values, q)
  {
    hide TotalPreorder, RanksAgree;
    assert reps[i] in items;
    var q := reps[i].sequence;
    forall j | 0 <= j < q ensures !pol.Tied(values[j], values[q]) {
      var i' := RepOf(pol, values, items, reps, j);
      var x, y, z := reps[i'].value, values[j], reps[i].value;
      assert i < i' ==> pol.Less(z, x);
      assert i' < i ==> pol.Less(x, z);
      OrderFacts(pol.cmp, x, y, z);
      OrderFacts(pol.cmp, x, z, y);
    }
  }

  /** The representative of the value at position j. */
  lemma RepOf<V(!new)>(pol: Policy<V>, values: seq<V>, items: seq<Item<V>>, reps: seq<Item<V>>, j: nat) returns (i: nat)
    requires Reps(pol, items, |items|, reps) && j < |values| && Shuffled(values, items)
    ensures i < |reps| && pol.Tied(reps[i].value, values[j]) && reps[i].sequence <= j
    ensures reps[i].sequence < |values| && reps[i].value == values[reps[i].sequence]
  {
    var k :| 0 <= k < |items| && items[k] == Item(values[j], j);
    assert Represented(pol, reps, items[k]);
    i :| 0 <= i < |reps| && pol.Tied(reps[i].value, items[k].value) && reps[i].sequence <= items[k].sequence;
    assert reps[i] in items;
  }

  lemma FirstIsRep<V(!new)>(pol: Policy<V>, values: seq<V>, items: seq<Item<V>>, reps: seq<Item<V>>, q: nat) returns (i: nat)
    requires Reps(pol, items, |items|, reps) && q < |values| && FirstAt(pol, values, q) && Shuffled(values, items)
    ensures i < |reps| && reps[i].value == values[q]
  {
    i := RepOf(pol, values, items, reps, q);
  }
}
