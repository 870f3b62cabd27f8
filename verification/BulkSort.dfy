/** The bottom-up merge sort that prepares a bulk build. It orders items by comparison and then by arrival,
    so among tied values the earliest comes first. */
module BulkSort {
  import opened Comparisons
  import opened CanonicalTree

  datatype Item<V> = Item(value: V, sequence: nat)

  predicate Before<V>(pol: Policy<V>, x: Item<V>, y: Item<V>) {
    pol.Less(x.value, y.value) || (pol.Tied(x.value, y.value) && x.sequence < y.sequence)
  }

  ghost predicate Sorted<V>(pol: Policy<V>, s: seq<Item<V>>) {
    forall i, j :: 0 <= i < j < |s| ==> !Before(pol, s[j], s[i])
  }

  lemma BeforeFacts<V(!new)>(pol: Policy<V>, x: Item<V>, y: Item<V>, z: Item<V>)
    requires Lawful(pol)
    ensures Before(pol, x, y) ==> !Before(pol, y, x)
    ensures !Before(pol, y, x) && !Before(pol, z, y) ==> !Before(pol, z, x)
  {
    hide TotalPreorder, RanksAgree;
    OrderFacts(pol.cmp, x.value, y.value, z.value);
    OrderFacts(pol.cmp, y.value, x.value, z.value);
    OrderFacts(pol.cmp, z.value, x.value, y.value);
    OrderFacts(pol.cmp, y.value, z.value, x.value);
    OrderFacts(pol.cmp, z.value, y.value, x.value);
  }

  // ----- One merge -----

  function Merged<V>(pol: Policy<V>, a: seq<Item<V>>, b: seq<Item<V>>): seq<Item<V>>
    decreases |a| + |b|
  {
    if a == [] then b
    else if b == [] then a
    else if Before(pol, a[0], b[0]) then [a[0]] + Merged(pol, a[1..], b)
    else [b[0]] + Merged(pol, a, b[1..])
  }

  /** Every item of s is at or after x. */
  ghost predicate NoneBefore<V>(pol: Policy<V>, s: seq<Item<V>>, x: Item<V>) {
    forall i :: 0 <= i < |s| ==> !Before(pol, s[i], x)
  }

  lemma SortedHead<V(!new)>(pol: Policy<V>, s: seq<Item<V>>)
    requires s != [] && Sorted(pol, s)
    ensures Sorted(pol, s[1..]) && NoneBefore(pol, s[1..], s[0])
  {
  }

  lemma PrependSorted<V(!new)>(pol: Policy<V>, x: Item<V>, s: seq<Item<V>>)
    requires Sorted(pol, s) && NoneBefore(pol, s, x)
    ensures Sorted(pol, [x] + s)
  {
    var all := [x] + s;
    forall i, j | 0 <= i < j < |all| ensures !Before(pol, all[j], all[i]) {
      assert all[j] == s[j - 1];
      if i > 0 { assert all[i] == s[i - 1]; }
    }
  }

  lemma NoneBeforeTrans<V(!new)>(pol: Policy<V>, s: seq<Item<V>>, y: Item<V>, x: Item<V>)
    requires Lawful(pol) && NoneBefore(pol, s, y) && !Before(pol, y, x)
    ensures NoneBefore(pol, s, x)
  {
    hide TotalPreorder, RanksAgree, Before;
    forall i | 0 <= i < |s| ensures !Before(pol, s[i], x) { BeforeFacts(pol, x, y, s[i]); }
  }

  lemma {:induction false} MergedNoneBefore<V(!new)>(pol: Policy<V>, a: seq<Item<V>>, b: seq<Item<V>>, x: Item<V>)
    requires NoneBefore(pol, a, x) && NoneBefore(pol, b, x)
    ensures NoneBefore(pol, Merged(pol, a, b), x)
    decreases |a| + |b|
  {
    hide Before;
    if a != [] && b != [] {
      if Before(pol, a[0], b[0]) {
        MergedNoneBefore(pol, a[1..], b, x);
      } else {
        MergedNoneBefore(pol, a, b[1..], x);
      }
    }
  }

  lemma {:induction false} MergedIsSorted<V(!new)>(pol: Policy<V>, a: seq<Item<V>>, b: seq<Item<V>>)
    requires Lawful(pol) && Sorted(pol, a) && Sorted(pol, b)
    ensures Sorted(pol, Merged(pol, a, b))
    decreases |a| + |b|
  {
    hide TotalPreorder, RanksAgree, Before, Sorted, NoneBefore;
    if a != [] && b != [] {
      SortedHead(pol, a);
      SortedHead(pol, b);
      BeforeFacts(pol, a[0], b[0], a[0]);
      if Before(pol, a[0], b[0]) {
        MergedIsSorted(pol, a[1..], b);
        HeadNoneBefore(pol, b, a[0]);
        MergedNoneBefore(pol, a[1..], b, a[0]);
        PrependSorted(pol, a[0], Merged(pol, a[1..], b));
      } else {
        MergedIsSorted(pol, a, b[1..]);
        HeadNoneBefore(pol, a, b[0]);
        MergedNoneBefore(pol, a, b[1..], b[0]);
        PrependSorted(pol, b[0], Merged(pol, a, b[1..]));
      }
    }
  }

  lemma HeadNoneBefore<V(!new)>(pol: Policy<V>, s: seq<Item<V>>, x: Item<V>)
    requires Lawful(pol) && s != [] && Sorted(pol, s) && !Before(pol, s[0], x)
    ensures NoneBefore(pol, s, x)
  {
    hide TotalPreorder, RanksAgree, Before;
    SortedHead(pol, s);
    NoneBeforeTrans(pol, s[1..], s[0], x);
    assert forall i :: 0 < i < |s| ==> s[i] == s[1..][i - 1];
  }

  lemma HeadMultiset<V>(s: seq<Item<V>>)
    requires s != []
    ensures multiset(s) == multiset{s[0]} + multiset(s[1..])
  {
    assert s == [s[0]] + s[1..];
  }

  lemma {:induction false} MergedIsPermutation<V>(pol: Policy<V>, a: seq<Item<V>>, b: seq<Item<V>>)
    ensures multiset(Merged(pol, a, b)) == multiset(a) + multiset(b)
    ensures |Merged(pol, a, b)| == |a| + |b|
    decreases |a| + |b|
  {
    hide Before;
    if a != [] && b != [] {
      if Before(pol, a[0], b[0]) {
        MergedIsPermutation(pol, a[1..], b);
        HeadMultiset(a);
      } else {
        MergedIsPermutation(pol, a, b[1..]);
        HeadMultiset(b);
      }
    }
  }

  // ----- One pass -----

  function Least(x: nat, y: nat): nat {
    if x < y then x else y
  }

  /** Merges neighbouring runs of the given width. */
  function Pass<V>(pol: Policy<V>, s: seq<Item<V>>, width: nat): seq<Item<V>>
    requires width > 0
    decreases |s|
  {
    if s == [] then []
    else
      var middle := Least(width, |s|);
      var end := middle + Least(width, |s| - middle);
      Merged(pol, s[..middle], s[middle..end]) + Pass(pol, s[end..], width)
  }

  /** Each aligned run of the given width is sorted. */
  ghost predicate Runs<V>(pol: Policy<V>, s: seq<Item<V>>, width: nat)
    requires width > 0
    decreases |s|
  {
    s != [] ==>
      var end := Least(width, |s|);
      Sorted(pol, s[..end]) && Runs(pol, s[end..], width)
  }

  lemma {:induction false} PassIsPermutation<V>(pol: Policy<V>, s: seq<Item<V>>, width: nat)
    requires width > 0
    ensures multiset(Pass(pol, s, width)) == multiset(s) && |Pass(pol, s, width)| == |s|
    decreases |s|
  {
    hide Merged;
    if s != [] {
      var middle := Least(width, |s|);
      var end := middle + Least(width, |s| - middle);
      PassIsPermutation(pol, s[end..], width);
      MergedIsPermutation(pol, s[..middle], s[middle..end]);
      assert s == s[..middle] + s[middle..end] + s[end..];
    }
  }

  /** A pass over sorted runs leaves sorted runs of at least double the width. */
  lemma {:induction false} PassDoublesRuns<V(!new)>(pol: Policy<V>, s: seq<Item<V>>, width: nat, wider: nat)
    requires Lawful(pol) && width > 0 && Runs(pol, s, width)
    requires wider == 2 * width || (2 * width >= |s| && wider >= |s| && wider > 0)
    ensures Runs(pol, Pass(pol, s, width), wider)
    decreases |s|
  {
    if s != [] {
      var middle := Least(width, |s|);
      var end := middle + Least(width, |s| - middle);
      TwoRuns(pol, s, width);
      var first, rest := Merged(pol, s[..middle], s[middle..end]), Pass(pol, s[end..], width);
      assert Pass(pol, s, width) == first + rest;
      hide TotalPreorder, RanksAgree, Sorted, Merged, Runs, Pass;
      MergedIsSorted(pol, s[..middle], s[middle..end]);
      MergedIsPermutation(pol, s[..middle], s[middle..end]);
      PassIsPermutation(pol, s[end..], width);
      PassDoublesRuns(pol, s[end..], width, wider);
      PrependRun(pol, first, rest, wider);
    }
  }

  lemma TwoRuns<V(!new)>(pol: Policy<V>, s: seq<Item<V>>, width: nat)
    requires width > 0 && Runs(pol, s, width)
    ensures var middle := Least(width, |s|);
      var end := middle + Least(width, |s| - middle);
      Sorted(pol, s[..middle]) && Sorted(pol, s[middle..end]) && Runs(pol, s[end..], width)
  {
    hide Sorted, Runs;
    var middle := Least(width, |s|);
    var end := middle + Least(width, |s| - middle);
    FirstRun(pol, s, width);
    FirstRun(pol, s[middle..], width);
    assert s[middle..][..end - middle] == s[middle..end];
    assert s[middle..][end - middle..] == s[end..];
  }

  lemma FirstRun<V(!new)>(pol: Policy<V>, s: seq<Item<V>>, width: nat)
    requires width > 0 && Runs(pol, s, width)
    ensures var end := Least(width, |s|); Sorted(pol, s[..end]) && Runs(pol, s[end..], width)
  {
    EmptyIsSorted(pol, s[..Least(width, |s|)]);
    hide Sorted;
  }

  lemma PrependRun<V(!new)>(pol: Policy<V>, first: seq<Item<V>>, others: seq<Item<V>>, width: nat)
    requires width > 0 && first != [] && Sorted(pol, first) && Runs(pol, others, width)
    requires |first| == Least(width, |first| + |others|)
    ensures Runs(pol, first + others, width)
  {
    hide Sorted;
    assert (first + others)[..|first|] == first && (first + others)[|first|..] == others;
  }

  lemma EmptyIsSorted<V(!new)>(pol: Policy<V>, s: seq<Item<V>>)
    ensures |s| <= 1 ==> Sorted(pol, s)
  {
  }

  lemma {:induction false} SingleRuns<V(!new)>(pol: Policy<V>, s: seq<Item<V>>)
    ensures Runs(pol, s, 1)
    decreases |s|
  {
    if s != [] { SingleRuns(pol, s[1..]); }
  }

  // ----- The loops -----

  /** Merges source[start..middle] and source[middle..end] into the same places of the destination. */
  method MergeRuns<V>(pol: Policy<V>, source: array<Item<V>>, destination: array<Item<V>>, start: nat, middle: nat, end: nat)
    requires source != destination && source.Length == destination.Length
    requires start <= middle <= end <= source.Length
    modifies destination
    ensures destination[..start] == old(destination[..start])
    ensures destination[start..end] == Merged(pol, source[start..middle], source[middle..end])
  {
    hide Merged, Before;
    ghost var goal := Merged(pol, source[start..middle], source[middle..end]);
    var left, right, output := start, middle, start;
    while left < middle || right < end
      invariant start <= left <= middle <= right <= end && output - start == left - start + right - middle
      invariant destination[..start] == old(destination[..start])
      invariant destination[start..output] + Merged(pol, source[left..middle], source[right..end]) == goal
      decreases middle - left + end - right
    {
      var takeLeft := right == end;
      if left < middle && right < end {
        takeLeft := Before(pol, source[left], source[right]);
      }
      MergedStep(pol, source[left..middle], source[right..end]);
      ghost var done := destination[start..output];
      destination[output] := if takeLeft then source[left] else source[right];
      assert destination[start..output + 1] == done + [destination[output]];
      output := output + 1;
      if takeLeft {
        assert source[left..middle][1..] == source[left + 1..middle];
        left := left + 1;
      } else {
        assert source[right..end][1..] == source[right + 1..end];
        right := right + 1;
      }
    }
    assert source[left..middle] == [] && source[right..end] == [];
    MergedStep(pol, [], []);
    assert output == end;
  }

  lemma MergedStep<V>(pol: Policy<V>, a: seq<Item<V>>, b: seq<Item<V>>)
    ensures a == [] && b == [] ==> Merged(pol, a, b) == []
    ensures a != [] && (b == [] || Before(pol, a[0], b[0])) ==> Merged(pol, a, b) == [a[0]] + Merged(pol, a[1..], b)
    ensures b != [] && (a == [] || !Before(pol, a[0], b[0])) ==> Merged(pol, a, b) == [b[0]] + Merged(pol, a, b[1..])
  {
    hide Before;
    if a != [] && b == [] {
      assert Merged(pol, a[1..], b) == a[1..];
      assert a == [a[0]] + a[1..];
    } else if b != [] && a == [] {
      assert b == [b[0]] + b[1..];
    }
  }

  method PassLoop<V>(pol: Policy<V>, source: array<Item<V>>, destination: array<Item<V>>, width: nat)
    requires source != destination && source.Length == destination.Length && width > 0
    modifies destination
    ensures destination[..] == Pass(pol, source[..], width)
  {
    hide Pass, Merged;
    var count := source.Length;
    var start := 0;
    assert source[0..] == source[..];
    while start < count
      invariant 0 <= start <= count
      invariant destination[..start] + Pass(pol, source[start..], width) == Pass(pol, source[..], width)
    {
      var middle := start + Least(width, count - start);
      var end := middle + Least(width, count - middle);
      PassStep(pol, source[..], start, middle, end, width);
      ghost var done := destination[..start];
      MergeRuns(pol, source, destination, start, middle, end);
      assert destination[..end] == destination[..start] + destination[start..end];
      assert source[..][start..] == source[start..] && source[..][end..] == source[end..];
      start := end;
    }
    PassEmpty(pol, source[count..], width);
    assert destination[..count] == destination[..];
  }

  lemma PassEmpty<V>(pol: Policy<V>, s: seq<Item<V>>, width: nat)
    requires width > 0
    ensures s == [] ==> Pass(pol, s, width) == []
  {
  }

  lemma PassStep<V>(pol: Policy<V>, s: seq<Item<V>>, start: nat, middle: nat, end: nat, width: nat)
    requires width > 0 && start < |s|
    requires middle == start + Least(width, |s| - start) && end == middle + Least(width, |s| - middle)
    ensures start < middle <= end <= |s|
    ensures Pass(pol, s[start..], width) == Merged(pol, s[start..middle], s[middle..end]) + Pass(pol, s[end..], width)
  {
    hide Merged;
    var t := s[start..];
    assert t[..middle - start] == s[start..middle];
    assert t[middle - start..end - start] == s[middle..end];
    assert t[end - start..] == s[end..];
  }

  /** Sorts in place, passing back and forth between the items and the scratch buffer. */
  method SortItems<V(!new)>(pol: Policy<V>, items: array<Item<V>>, scratch: array<Item<V>>)
    requires Lawful(pol) && items != scratch && items.Length == scratch.Length
    modifies items, scratch
    ensures Sorted(pol, items[..]) && multiset(items[..]) == old(multiset(items[..]))
  {
    hide *;
    var count, width := items.Length, 1;
    var source, destination, swapped := items, scratch, false;
    ghost var input := items[..];
    SingleRuns(pol, items[..]);
    while width < count
      invariant width > 0 && {source, destination} == {items, scratch} && source != destination
      invariant swapped <==> source == scratch
      invariant multiset(source[..]) == multiset(input) && Runs(pol, source[..], width)
      decreases count - width
    {
      PassIsPermutation(pol, source[..], width);
      var wider := if width > count / 2 then count else 2 * width;
      PassDoublesRuns(pol, source[..], width, wider);
      PassLoop(pol, source, destination, width);
      source, destination := destination, source;
      swapped := !swapped;
      width := wider;
    }
    OneRun(pol, source[..], width);
    ghost var sorted := source[..];
    if swapped {
      forall i | 0 <= i < count { items[i] := source[i]; }
    }
    assert items[..] == sorted;
  }

  lemma OneRun<V(!new)>(pol: Policy<V>, s: seq<Item<V>>, width: nat)
    requires width > 0 && Runs(pol, s, width) && width >= |s|
    ensures Sorted(pol, s)
  {
    EmptyIsSorted(pol, s);
    hide Sorted;
    if s != [] { assert s[..|s|] == s; }
  }
}
