/** Paths of the arena read as sequences of values. */
module AncestralLabels {
  import opened Options
  import opened AncestorLinks

  ghost predicate Spans<T>(rs: seq<Record<T>>, n: nat, count: nat) {
    WellLinked(rs) && n < |rs| && count <= Level(rs, n)
  }

  lemma SpanParent<T>(rs: seq<Record<T>>, n: nat, count: nat)
    requires Spans(rs, n, count) && count > 0
    ensures n > 0 && rs[n].value.Some? && Spans(rs, rs[n].links.parent, count - 1)
  {
    LevelFacts(rs, n);
    assert Linked(rs, n);
  }

  /** The last `count` values on the path from the bottom to node n. */
  ghost function Labels<T>(rs: seq<Record<T>>, n: nat, count: nat): (s: seq<T>)
    requires Spans(rs, n, count)
    ensures |s| == count
    decreases count
  {
    if count == 0 then []
    else
      SpanParent(rs, n, count);
      Labels(rs, rs[n].links.parent, count - 1) + [rs[n].value.value]
  }

  lemma SpanUp<T>(rs: seq<Record<T>>, n: nat, count: nat, k: nat)
    requires Spans(rs, n, count + k)
    ensures Spans(rs, n, count) && Spans(rs, n, k) && Spans(rs, Up(rs, n, k), count)
    ensures Level(rs, Up(rs, n, k)) == Level(rs, n) - k
  {
    UpLevel(rs, n, k);
  }

  /** Stopping k levels up keeps the oldest values. */
  lemma {:induction false} LabelsUp<T>(rs: seq<Record<T>>, n: nat, count: nat, k: nat)
    requires Spans(rs, n, count + k)
    ensures Spans(rs, Up(rs, n, k), count) && Labels(rs, Up(rs, n, k), count) == Labels(rs, n, count + k)[..count]
    decreases k
  {
    SpanUp(rs, n, count, k);
    if k > 0 {
      SpanParent(rs, n, count + k);
      hide Spans;
      LabelsUp(rs, rs[n].links.parent, count, k - 1);
    }
  }

  /** Fewer levels keep the newest values. */
  lemma {:induction false} LabelsSuffix<T>(rs: seq<Record<T>>, n: nat, count: nat, k: nat)
    requires Spans(rs, n, count + k)
    ensures Spans(rs, n, count) && Labels(rs, n, count) == Labels(rs, n, count + k)[k..]
    decreases count
  {
    SpanUp(rs, n, count, k);
    if count > 0 {
      SpanParent(rs, n, count + k);
      SpanParent(rs, n, count);
      hide Spans;
      LabelsSuffix(rs, rs[n].links.parent, count - 1, k);
    }
  }

  /** A window of the path: `start` values from the oldest, `count` long. */
  lemma LabelsSlice<T>(rs: seq<Record<T>>, n: nat, total: nat, start: nat, count: nat)
    requires Spans(rs, n, total) && start + count <= total
    ensures var k := total - start - count;
      Spans(rs, Up(rs, n, k), count) && Labels(rs, Up(rs, n, k), count) == Labels(rs, n, total)[start..start + count]
  {
    var k := total - start - count;
    LabelsUp(rs, n, start + count, k);
    LabelsSuffix(rs, Up(rs, n, k), count, start);
    hide Spans, Labels;
  }

  /** Later leaves never change what an older path denotes. */
  lemma {:induction false} LabelsAreStable<T>(rs: seq<Record<T>>, later: seq<Record<T>>, n: nat, count: nat)
    requires Spans(rs, n, count) && WellLinked(later) && Prefix(rs, later)
    ensures Spans(later, n, count) && Labels(later, n, count) == Labels(rs, n, count)
    decreases count
  {
    assert rs[n] == later[n];
    if count > 0 {
      SpanParent(rs, n, count);
      hide WellLinked;
      LabelsAreStable(rs, later, rs[n].links.parent, count - 1);
    }
  }

  /** A new leaf appends one value to its parent's path. */
  lemma LabelsOfLeaf<T>(rs: seq<Record<T>>, parent: nat, value: T, count: nat)
    requires Spans(rs, parent, count)
    ensures var more := rs + [Leaf(rs, parent, value)];
      && Spans(more, |rs|, count + 1)
      && Labels(more, |rs|, count + 1) == Labels(rs, parent, count) + [value]
  {
    var leaf := Leaf(rs, parent, value);
    var more := rs + [leaf];
    LeafStaysLinked(rs, parent, value);
    LabelsAreStable(rs, more, parent, count);
    assert more[|rs|] == leaf && leaf.links.parent == parent && leaf.value == Some(value);
    assert leaf.links.depth == rs[parent].links.depth + 1;
    hide WellLinked, Leaf;
  }

  /** The value at a position is the one stored k levels up. */
  lemma LabelAt<T>(rs: seq<Record<T>>, n: nat, count: nat, index: nat)
    requires Spans(rs, n, count) && index < count
    ensures var a := Up(rs, n, count - 1 - index); rs[a].value == Some(Labels(rs, n, count)[index])
  {
    var k := count - 1 - index;
    LabelsUp(rs, n, index + 1, k);
    SpanParent(rs, Up(rs, n, k), index + 1);
    hide Spans;
  }

  /** Any interleaving of leaf additions by any branches. */
  ghost function Grown<T>(rs: seq<Record<T>>, leaves: seq<(nat, T)>): seq<Record<T>>
    requires WellLinked(rs)
    decreases |leaves|
  {
    if leaves == [] then rs
    else
      var (parent, value) := leaves[0];
      if parent >= |rs| then Grown(rs, leaves[1..])
      else
        LeafStaysLinked(rs, parent, value);
        Grown(rs + [Leaf(rs, parent, value)], leaves[1..])
  }

  /** However the arena grows, every jump stays true and every published path keeps its values. */
  lemma {:induction false} GrowthKeepsPaths<T>(rs: seq<Record<T>>, leaves: seq<(nat, T)>, n: nat, count: nat)
    requires Spans(rs, n, count)
    ensures WellLinked(Grown(rs, leaves)) && Prefix(rs, Grown(rs, leaves)) && Spans(Grown(rs, leaves), n, count)
    ensures Labels(Grown(rs, leaves), n, count) == Labels(rs, n, count)
    decreases |leaves|
  {
    if leaves != [] {
      var (parent, value) := leaves[0];
      if parent >= |rs| {
        GrowthKeepsPaths(rs, leaves[1..], n, count);
      } else {
        var more := rs + [Leaf(rs, parent, value)];
        LeafStaysLinked(rs, parent, value);
        LabelsAreStable(rs, more, n, count);
        hide WellLinked, Leaf, Labels;
        GrowthKeepsPaths(more, leaves[1..], n, count);
      }
    }
  }
}
