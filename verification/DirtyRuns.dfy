/** Lists of maximal runs of dirty positions. */
module DirtyRuns {

  /** The positions from start up to but not including end. */
  datatype Run = Run(start: nat, end: nat)

  predicate In(r: Run, i: nat) {
    r.start <= i < r.end
  }

  ghost predicate Covered(s: seq<Run>, i: nat) {
    exists j :: 0 <= j < |s| && In(s[j], i)
  }

  /** Ascending, nonempty, and with at least one clean position between neighbours. */
  ghost predicate Gapped(s: seq<Run>) {
    && (forall j :: 0 <= j < |s| ==> s[j].start < s[j].end)
    && (forall i, j :: 0 <= i < j < |s| ==> s[i].end < s[j].start)
  }

  ghost predicate EndBefore(s: seq<Run>, start: int) {
    forall j :: 0 <= j < |s| ==> s[j].end < start
  }

  ghost predicate StartAfter(s: seq<Run>, end: int) {
    forall j :: 0 <= j < |s| ==> end < s[j].start
  }

  lemma CoveredJoin(a: seq<Run>, m: seq<Run>, b: seq<Run>, i: nat)
    ensures Covered(a + m + b, i) <==> Covered(a, i) || Covered(m, i) || Covered(b, i)
  {
    var s := a + m + b;
    if Covered(a, i) {
      var j :| 0 <= j < |a| && In(a[j], i);
      assert s[j] == a[j];
    }
    if Covered(m, i) {
      var j :| 0 <= j < |m| && In(m[j], i);
      assert s[|a| + j] == m[j];
    }
    if Covered(b, i) {
      var j :| 0 <= j < |b| && In(b[j], i);
      assert s[|a| + |m| + j] == b[j];
    }
  }

  lemma CoveredOne(r: Run, i: nat)
    ensures Covered([r], i) <==> In(r, i)
    ensures !Covered([], i)
  {
    if In(r, i) { assert In([r][0], i); }
  }

  lemma GappedJoin(a: seq<Run>, r: Run, b: seq<Run>)
    requires Gapped(a) && Gapped(b) && r.start < r.end && EndBefore(a, r.start) && StartAfter(b, r.end)
    ensures Gapped(a + [r] + b)
  {
    var s := a + [r] + b;
    forall i, j | 0 <= i < j < |s| ensures s[i].end < s[j].start {
      if i < |a| < j { assert a[i].end < r.start && r.end < b[j - |a| - 1].start; }
    }
  }

  lemma GappedParts(a: seq<Run>, r: Run, b: seq<Run>)
    requires Gapped(a + [r] + b)
    ensures Gapped(a) && Gapped(b) && r.start < r.end && EndBefore(a, r.start) && StartAfter(b, r.end)
  {
    var s := a + [r] + b;
    assert s[|a|] == r;
    assert forall j :: 0 <= j < |a| ==> s[j] == a[j];
    assert forall j :: 0 <= j < |b| ==> s[|a| + 1 + j] == b[j];
  }

  lemma GappedWithout(a: seq<Run>, r: Run, b: seq<Run>)
    requires Gapped(a) && Gapped(b) && r.start < r.end && EndBefore(a, r.start) && StartAfter(b, r.end)
    ensures Gapped(a + b)
  {
    var s := a + b;
    forall i, j | 0 <= i < j < |s| ensures s[i].end < s[j].start {
      if i < |a| <= j { assert a[i].end < r.start && r.end < b[j - |a|].start; }
    }
  }

  lemma OutsideIsClean(s: seq<Run>, i: nat)
    ensures EndBefore(s, i + 1) ==> !Covered(s, i)
    ensures StartAfter(s, i) ==> !Covered(s, i)
  {
  }

  // ----- The list is determined by what it covers -----

  lemma StartIsCovered(s: seq<Run>)
    requires Gapped(s)
    ensures s != [] ==> Covered(s, s[0].start)
  {
    if s != [] { assert In(s[0], s[0].start); }
  }

  lemma {:induction false} RunsAreUnique(s: seq<Run>, t: seq<Run>)
    requires Gapped(s) && Gapped(t) && forall i: nat :: Covered(s, i) <==> Covered(t, i)
    ensures s == t
  {
    if s == [] || t == [] {
      StartIsCovered(s);
      StartIsCovered(t);
    } else {
      FirstRunFits(s, t);
      FirstRunFits(t, s);
      var r := s[0];
      assert s == [] + [r] + s[1..] && t == [] + [r] + t[1..];
      GappedParts([], r, s[1..]);
      GappedParts([], r, t[1..]);
      forall i: nat ensures Covered(s[1..], i) <==> Covered(t[1..], i) {
        CoveredJoin([], [r], s[1..], i);
        CoveredJoin([], [r], t[1..], i);
        CoveredOne(r, i);
        if i < r.end {
          assert StartAfter(s[1..], i) && StartAfter(t[1..], i);
          OutsideIsClean(s[1..], i);
          OutsideIsClean(t[1..], i);
        }
      }
      RunsAreUnique(s[1..], t[1..]);
    }
  }

  lemma NotInGap(t: seq<Run>, gap: nat)
    requires Gapped(t) && t != [] && gap == t[0].end
    ensures !Covered(t, gap)
  {
  }

  /** The first run of one list starts no earlier and ends no later than that of the other. */
  lemma FirstRunFits(s: seq<Run>, t: seq<Run>)
    requires Gapped(s) && Gapped(t) && s != [] && t != [] && forall i: nat :: Covered(s, i) <==> Covered(t, i)
    ensures t[0].start <= s[0].start && (t[0].start == s[0].start ==> t[0].end >= s[0].end)
  {
    var r := s[0];
    assert In(s[0], r.start);
    assert Covered(s, r.start);
    var j :| 0 <= j < |t| && In(t[j], r.start);
    assert j > 0 ==> t[0].end < t[j].start;
    if t[0].start == r.start && t[0].end < r.end {
      var gap := t[0].end;
      assert In(s[0], gap);
      assert Covered(s, gap);
      NotInGap(t, gap);
    }
  }

  // ----- Marking and clearing one position -----

  /** The neighbour that ends where position i begins, and the one that begins where it ends. */
  function TouchLeft(a: seq<Run>, i: nat): seq<Run> {
    if a != [] && a[|a| - 1].end == i then [a[|a| - 1]] else []
  }

  function TouchRight(b: seq<Run>, i: nat): seq<Run> {
    if b != [] && b[0].start == i + 1 then [b[0]] else []
  }

  /** Position i with the neighbours it touches. */
  function Widened(l: seq<Run>, r: seq<Run>, i: nat): Run {
    Run(if l == [] then i else l[0].start, if r == [] then i + 1 else r[0].end)
  }

  /** The list after a position between a and b becomes dirty. */
  function Marked(a: seq<Run>, b: seq<Run>, i: nat): seq<Run> {
    var l, r := TouchLeft(a, i), TouchRight(b, i);
    a[..|a| - |l|] + [Widened(l, r, i)] + b[|r|..]
  }

  lemma LastParts(a: seq<Run>, i: nat)
    requires Gapped(a) && EndBefore(a, i + 1) && a != []
    ensures var kept, last := a[..|a| - 1], a[|a| - 1];
      && a == kept + [last] && Gapped(kept) && EndBefore(kept, last.start) && last.start < last.end
      && (last.end != i ==> EndBefore(a, i))
  {
    var last := a[|a| - 1];
    assert forall j :: 0 <= j < |a| - 1 ==> a[j].end < a[|a| - 1].start;
  }

  lemma FirstParts(b: seq<Run>, i: nat)
    requires Gapped(b) && StartAfter(b, i) && b != []
    ensures var first, rest := b[0], b[1..];
      && b == [first] + rest && Gapped(rest) && StartAfter(rest, first.end) && first.start < first.end
      && (first.start != i + 1 ==> StartAfter(b, i + 1))
  {
    assert forall j :: 1 <= j < |b| ==> b[0].end < b[j].start;
  }

  lemma LeftParts(a: seq<Run>, i: nat)
    requires Gapped(a) && EndBefore(a, i + 1)
    ensures var l := TouchLeft(a, i); var kept := a[..|a| - |l|];
      && |l| <= 1 && a == kept + l && Gapped(kept) && EndBefore(kept, if l == [] then i else l[0].start)
      && (l != [] ==> l[0].start < l[0].end == i)
  {
    if a != [] {
      LastParts(a, i);
      hide Gapped, EndBefore;
      assert a[..|a|] == a;
    }
  }

  lemma RightParts(b: seq<Run>, i: nat)
    requires Gapped(b) && StartAfter(b, i)
    ensures var r := TouchRight(b, i); var rest := b[|r|..];
      && |r| <= 1 && b == r + rest && Gapped(rest) && StartAfter(rest, if r == [] then i + 1 else r[0].end)
      && (r != [] ==> i + 1 == r[0].start < r[0].end)
  {
    if b != [] {
      FirstParts(b, i);
      hide Gapped, StartAfter;
      assert b[0..] == b;
    }
  }

  lemma WidenedCovers(l: seq<Run>, r: seq<Run>, i: nat, k: nat)
    requires |l| <= 1 && |r| <= 1
    requires l != [] ==> l[0].start < l[0].end == i
    requires r != [] ==> i + 1 == r[0].start < r[0].end
    ensures In(Widened(l, r, i), k) <==> Covered(l, k) || Covered(r, k) || k == i
  {
    CoveredOne(if l == [] then Run(0, 0) else l[0], k);
    CoveredOne(if r == [] then Run(0, 0) else r[0], k);
    assert l != [] ==> l == [l[0]];
    assert r != [] ==> r == [r[0]];
  }

  /** The neighbours on each side, split off what they touch. */
  lemma Shape(a: seq<Run>, b: seq<Run>, i: nat) returns (kept: seq<Run>, l: seq<Run>, r: seq<Run>, rest: seq<Run>)
    requires Gapped(a) && Gapped(b) && EndBefore(a, i + 1) && StartAfter(b, i)
    ensures a == kept + l && b == r + rest && l == TouchLeft(a, i) && r == TouchRight(b, i) && |l| <= 1 && |r| <= 1
    ensures var w := Widened(l, r, i); Gapped(kept) && EndBefore(kept, w.start) && StartAfter(rest, w.end) && w.start < w.end
    ensures Marked(a, b, i) == kept + [Widened(l, r, i)] + rest && Gapped(Marked(a, b, i))
    ensures (l != [] ==> l[0].start < l[0].end == i) && (r != [] ==> i + 1 == r[0].start < r[0].end)
  {
    LeftParts(a, i);
    RightParts(b, i);
    l, r := TouchLeft(a, i), TouchRight(b, i);
    kept, rest := a[..|a| - |l|], b[|r|..];
    hide Gapped, EndBefore, StartAfter, TouchLeft, TouchRight;
    GappedJoin(kept, Widened(l, r, i), rest);
  }

  lemma MarkedFacts(a: seq<Run>, b: seq<Run>, i: nat)
    requires Gapped(a) && Gapped(b) && EndBefore(a, i + 1) && StartAfter(b, i)
    ensures Gapped(Marked(a, b, i)) && Total(Marked(a, b, i)) == Total(a + b) + 1
    ensures forall k: nat :: Covered(Marked(a, b, i), k) <==> Covered(a + b, k) || k == i
  {
    hide *;
    var kept, l, r, rest := Shape(a, b, i);
    var w := Widened(l, r, i);
    WidenedTotal(l, r, i);
    TotalParts(kept, l, w, r, rest);
    forall k: nat ensures Covered(Marked(a, b, i), k) <==> Covered(a + b, k) || k == i {
      CoveredJoin(kept, [w], rest, k);
      CoveredOne(w, k);
      WidenedCovers(l, r, i, k);
      CoveredPair(a, b, k);
      CoveredPair(kept, l, k);
      CoveredPair(r, rest, k);
    }
  }

  lemma CoveredPair(a: seq<Run>, b: seq<Run>, k: nat)
    ensures Covered(a + b, k) <==> Covered(a, k) || Covered(b, k)
  {
    CoveredJoin(a, [], b, k);
    assert a + [] + b == a + b;
  }

  /** What is left of a run without one of its positions. */
  function Cleared(r: Run, i: nat): seq<Run>
    requires In(r, i)
  {
    (if r.start < i then [Run(r.start, i)] else []) + (if i + 1 < r.end then [Run(i + 1, r.end)] else [])
  }

  lemma ClearedFacts(a: seq<Run>, r: Run, b: seq<Run>, i: nat)
    requires Gapped(a + [r] + b) && In(r, i)
    ensures Gapped(a + Cleared(r, i) + b)
    ensures forall k: nat :: Covered(a + Cleared(r, i) + b, k) <==> Covered(a + [r] + b, k) && k != i
  {
    GappedParts(a, r, b);
    ClearedGapped(a, r, b, i);
    forall k: nat ensures Covered(a + Cleared(r, i) + b, k) <==> Covered(a + [r] + b, k) && k != i {
      OutsideIsClean(a, i);
      OutsideIsClean(b, i);
      assert EndBefore(a, i + 1) && StartAfter(b, i);
      CoveredJoin(a, Cleared(r, i), b, k);
      CoveredJoin(a, [r], b, k);
      CoveredOne(r, k);
      CoveredCleared(r, i, k);
    }
  }

  lemma CoveredCleared(r: Run, i: nat, k: nat)
    requires In(r, i)
    ensures Covered(Cleared(r, i), k) <==> In(r, k) && k != i
  {
    var l := if r.start < i then [Run(r.start, i)] else [];
    var h := if i + 1 < r.end then [Run(i + 1, r.end)] else [];
    CoveredJoin(l, [], h, k);
    assert l + [] + h == Cleared(r, i);
    CoveredOne(Run(r.start, i), k);
    CoveredOne(Run(i + 1, r.end), k);
  }

  lemma ClearedGapped(a: seq<Run>, r: Run, b: seq<Run>, i: nat)
    requires Gapped(a) && Gapped(b) && EndBefore(a, r.start) && StartAfter(b, r.end) && In(r, i)
    ensures Gapped(a + Cleared(r, i) + b)
  {
    var low, high := Run(r.start, i), Run(i + 1, r.end);
    OutsideCleared(a, b, r, i);
    hide Gapped, EndBefore, StartAfter;
    if r.start < i && i + 1 < r.end {
      assert Cleared(r, i) == [low] + [high];
      TwoRuns(a, low, high, b);
    } else if r.start < i {
      assert Cleared(r, i) == [low];
      GappedJoin(a, low, b);
    } else if i + 1 < r.end {
      assert Cleared(r, i) == [high];
      GappedJoin(a, high, b);
    } else {
      assert Cleared(r, i) == [] && a + [] + b == a + b;
      GappedWithout(a, r, b);
    }
  }

  lemma OutsideCleared(a: seq<Run>, b: seq<Run>, r: Run, i: nat)
    requires EndBefore(a, r.start) && StartAfter(b, r.end) && In(r, i)
    ensures EndBefore(a, i + 1) && StartAfter(b, i)
  {
  }

  lemma TwoRuns(a: seq<Run>, low: Run, high: Run, b: seq<Run>)
    requires Gapped(a) && Gapped(b) && EndBefore(a, low.start) && StartAfter(b, high.end)
    requires low.start < low.end < high.start < high.end
    ensures Gapped(a + ([low] + [high]) + b)
  {
    GappedJoin([], high, b);
    assert [] + [high] + b == [high] + b;
    GappedJoin(a, low, [high] + b);
    assert a + [low] + ([high] + b) == a + ([low] + [high]) + b;
  }

  // ----- Total length -----

  function Total(s: seq<Run>): int {
    if s == [] then 0 else Total(s[..|s| - 1]) + s[|s| - 1].end - s[|s| - 1].start
  }

  lemma {:induction false} TotalJoin(a: seq<Run>, b: seq<Run>)
    ensures Total(a + b) == Total(a) + Total(b)
  {
    if b == [] {
      assert a + b == a;
    } else {
      TotalJoin(a, b[..|b| - 1]);
      assert (a + b)[..|a + b| - 1] == a + b[..|b| - 1];
    }
  }

  lemma TotalOne(r: Run)
    ensures Total([r]) == r.end - r.start && Total([]) == 0
  {
    assert [r][..0] == [];
  }

  lemma TotalParts(kept: seq<Run>, l: seq<Run>, w: Run, r: seq<Run>, rest: seq<Run>)
    requires Total([w]) == Total(l) + Total(r) + 1
    ensures Total(kept + [w] + rest) == Total((kept + l) + (r + rest)) + 1
  {
    hide Total;
    TotalJoin(kept + l, r + rest);
    TotalJoin(kept, l);
    TotalJoin(r, rest);
    TotalJoin(kept + [w], rest);
    TotalJoin(kept, [w]);
  }

  lemma WidenedTotal(l: seq<Run>, r: seq<Run>, i: nat)
    requires |l| <= 1 && |r| <= 1 && (l != [] ==> l[0].end == i) && (r != [] ==> i + 1 == r[0].start)
    ensures Total([Widened(l, r, i)]) == Total(l) + Total(r) + 1
  {
    TotalOne(Widened(l, r, i));
    TotalOne(if l == [] then Run(0, 0) else l[0]);
    TotalOne(if r == [] then Run(0, 0) else r[0]);
    assert l != [] ==> l == [l[0]];
    assert r != [] ==> r == [r[0]];
  }

  lemma ClearedTotal(a: seq<Run>, r: Run, b: seq<Run>, i: nat)
    requires In(r, i)
    ensures Total(a + Cleared(r, i) + b) == Total(a + [r] + b) - 1
    ensures Total(a + b) == Total(a + [r] + b) - (r.end - r.start)
  {
    TotalJoin(a + Cleared(r, i), b);
    TotalJoin(a, Cleared(r, i));
    TotalJoin(a + [r], b);
    TotalJoin(a, [r]);
    TotalJoin(a, b);
    TotalOne(r);
    TotalOne(Run(r.start, i));
    TotalOne(Run(i + 1, r.end));
    TotalJoin(if r.start < i then [Run(r.start, i)] else [], if i + 1 < r.end then [Run(i + 1, r.end)] else []);
  }
}
