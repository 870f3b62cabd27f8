/** The run-delta vector against the plain pair of cell sequences it stands for: no index, and the runs found by a
    scan over all positions. */
module RunDeltaReplay {
  import opened WeightBalanced
  import opened DirtyRuns
  import opened RunIndex
  import opened RunDeltaVector

  datatype Plain<V> = Plain(current: seq<Cell<V>>, saved: seq<Cell<V>>)

  /** The maximal runs of differing positions below n, by looking at every position. */
  ghost function Scan<V>(equal: Equality<V>, p: Plain<V>, n: nat): seq<Run>
    requires n <= |p.current| == |p.saved|
  {
    if n == 0 then []
    else
      var s := Scan(equal, p, n - 1);
      if equal(p.saved[n - 1].value, p.current[n - 1].value) then s
      else if s != [] && s[|s| - 1].end == n - 1 then s[..|s| - 1] + [Run(s[|s| - 1].start, n)]
      else s + [Run(n - 1, n)]
  }

  ghost function Differing<V>(equal: Equality<V>, p: Plain<V>, n: nat): nat
    requires n <= |p.current| == |p.saved|
  {
    if n == 0 then 0
    else Differing(equal, p, n - 1) + if equal(p.saved[n - 1].value, p.current[n - 1].value) then 0 else 1
  }

  /** `to` with the positions of one run taken from `from`. */
  ghost function Copied<V>(to: seq<Cell<V>>, from: seq<Cell<V>>, r: Run): seq<Cell<V>>
    requires |to| == |from|
  {
    seq(|to|, k requires 0 <= k < |to| => if r.start <= k < r.end then from[k] else to[k])
  }

  ghost function PlainStep<V>(equal: Equality<V>, p: Plain<V>, op: Op<V>): (p': Plain<V>)
    requires |p.current| == |p.saved|
    ensures |p'.current| == |p'.saved| == |p.current|
  {
    var n := |p.current|;
    match op
    case SetOp(i, value, id) =>
      if i >= n || equal(p.current[i].value, value) then p
      else Plain(p.current[i := if equal(p.saved[i].value, value) then p.saved[i] else Cell(id, value)], p.saved)
    case ResetOp(i) => if i >= n then p else Plain(p.current[i := p.saved[i]], p.saved)
    case CheckpointOp => Plain(p.current, p.current)
    case RollbackOp => Plain(p.saved, p.saved)
    case AcceptOp(rank) =>
      var s := Scan(equal, p, n);
      if rank >= |s| then p else Plain(p.current, Copied(p.saved, p.current, s[rank]))
    case RevertOp(rank) =>
      var s := Scan(equal, p, n);
      if rank >= |s| then p else Plain(Copied(p.current, p.saved, s[rank]), p.saved)
  }

  ghost function PlainRun<V>(equal: Equality<V>, cells: seq<Cell<V>>, ops: seq<Op<V>>): (p: Plain<V>)
    ensures |p.current| == |p.saved| == |cells|
  {
    if ops == [] then Plain(cells, cells)
    else PlainStep(equal, PlainRun(equal, cells, ops[..|ops| - 1]), ops[|ops| - 1])
  }

  // ----- The scan finds the runs -----

  ghost predicate EndBy(s: seq<Run>, n: nat) {
    forall j :: 0 <= j < |s| ==> s[j].end <= n
  }

  /** s covers exactly the differing positions below n. */
  ghost predicate Marks<V>(equal: Equality<V>, p: Plain<V>, n: nat, s: seq<Run>)
    requires n <= |p.current| == |p.saved|
  {
    forall i: nat :: Covered(s, i) <==> i < n && Dirty(equal, p.current, p.saved, i)
  }

  /** s lists the maximal runs of the positions below n, and its lengths add up. */
  ghost predicate Lists<V>(equal: Equality<V>, p: Plain<V>, n: nat, s: seq<Run>)
    requires n <= |p.current| == |p.saved|
  {
    Gapped(s) && EndBy(s, n) && Total(s) == Differing(equal, p, n) && Marks(equal, p, n, s)
  }

  lemma {:induction false} ScanLists<V>(equal: Equality<V>, p: Plain<V>, n: nat)
    requires n <= |p.current| == |p.saved|
    ensures Lists(equal, p, n, Scan(equal, p, n))
  {
    if n == 0 {
      forall i: nat ensures !Covered([], i) { CoveredOne(Run(0, 0), i); }
    } else {
      ScanLists(equal, p, n - 1);
      hide Lists;
      var s := Scan(equal, p, n - 1);
      if equal(p.saved[n - 1].value, p.current[n - 1].value) {
        ScanSkips(equal, p, n, s);
      } else if s != [] && s[|s| - 1].end == n - 1 {
        ScanExtends(equal, p, n, s);
      } else {
        ScanStarts(equal, p, n, s);
      }
    }
  }

  lemma ScanSkips<V>(equal: Equality<V>, p: Plain<V>, n: nat, s: seq<Run>)
    requires 0 < n <= |p.current| == |p.saved| && Lists(equal, p, n - 1, s) && !Dirty(equal, p.current, p.saved, n - 1)
    ensures Lists(equal, p, n, s)
  {
    hide Covered, Gapped, Total;
  }

  /** A differing position next to the last run makes it longer. */
  lemma ScanExtends<V>(equal: Equality<V>, p: Plain<V>, n: nat, s: seq<Run>)
    requires 0 < n <= |p.current| == |p.saved| && Lists(equal, p, n - 1, s) && Dirty(equal, p.current, p.saved, n - 1)
    requires s != [] && s[|s| - 1].end == n - 1
    ensures Lists(equal, p, n, s[..|s| - 1] + [Run(s[|s| - 1].start, n)])
  {
    hide Covered, Gapped, Total, EndBy, Marks, EndBefore, StartAfter, Dirty, Differing;
    var k := |s| - 1;
    var a, r, r' := s[..k], s[k], Run(s[k].start, n);
    assert s == a + [r] && a + [r] + [] == a + [r] && a + [r'] + [] == a + [r'];
    GappedParts(a, r, []);
    GappedJoin(a, r', []);
    TotalPush(a, r);
    TotalPush(a, r');
    DifferingStep(equal, p, n);
    EndByPush(a, r, r', n);
    forall i: nat ensures Covered(a + [r'], i) <==> Covered(a + [r], i) || i == n - 1 {
      CoveredPush(a, r, i);
      CoveredPush(a, r', i);
    }
    MarksMore(equal, p, n, a + [r], a + [r']);
  }

  /** Any other differing position starts a run of its own. */
  lemma ScanStarts<V>(equal: Equality<V>, p: Plain<V>, n: nat, s: seq<Run>)
    requires 0 < n <= |p.current| == |p.saved| && Lists(equal, p, n - 1, s) && Dirty(equal, p.current, p.saved, n - 1)
    requires s == [] || s[|s| - 1].end != n - 1
    ensures Lists(equal, p, n, s + [Run(n - 1, n)])
  {
    LastEndsBefore(s, n - 1);
    hide Covered, Gapped, Total, EndBy, Marks, EndBefore, Dirty, Differing;
    var r := Run(n - 1, n);
    assert s + [r] + [] == s + [r];
    GappedPush(s, r);
    TotalPush(s, r);
    DifferingStep(equal, p, n);
    EndByMore(s, r, n);
    forall i: nat ensures Covered(s + [r], i) <==> Covered(s, i) || i == n - 1 { CoveredPush(s, r, i); }
    MarksMore(equal, p, n, s, s + [r]);
  }

  lemma GappedPush(s: seq<Run>, r: Run)
    requires Gapped(s) && r.start < r.end && EndBefore(s, r.start)
    ensures Gapped(s + [r])
  {
    GappedJoin(s, r, []);
    assert s + [r] + [] == s + [r];
  }

  lemma EndByPush(a: seq<Run>, r: Run, r': Run, n: nat)
    requires 0 < n && EndBy(a + [r], n - 1) && r'.end == n
    ensures EndBy(a + [r'], n)
  {
    forall j | 0 <= j < |a| ensures a[j].end <= n { assert (a + [r])[j] == a[j]; }
  }

  lemma EndByMore(s: seq<Run>, r: Run, n: nat)
    requires 0 < n && EndBy(s, n - 1) && r.end == n
    ensures EndBy(s + [r], n)
  {
  }

  lemma MarksMore<V>(equal: Equality<V>, p: Plain<V>, n: nat, s: seq<Run>, s': seq<Run>)
    requires 0 < n <= |p.current| == |p.saved| && Marks(equal, p, n - 1, s) && Dirty(equal, p.current, p.saved, n - 1)
    requires forall i: nat :: Covered(s', i) <==> Covered(s, i) || i == n - 1
    ensures Marks(equal, p, n, s')
  {
    hide Covered;
  }

  lemma DifferingStep<V>(equal: Equality<V>, p: Plain<V>, n: nat)
    requires 0 < n <= |p.current| == |p.saved| && Dirty(equal, p.current, p.saved, n - 1)
    ensures Differing(equal, p, n) == Differing(equal, p, n - 1) + 1
  {
  }

  lemma LastEndsBefore(s: seq<Run>, n: nat)
    requires Gapped(s) && EndBy(s, n) && (s == [] || s[|s| - 1].end != n)
    ensures EndBefore(s, n)
  {
    forall j | 0 <= j < |s| ensures s[j].end < n {
      assert j < |s| - 1 ==> s[j].end < s[|s| - 1].start;
    }
  }

  lemma CoveredPush(s: seq<Run>, r: Run, i: nat)
    ensures Covered(s + [r], i) <==> Covered(s, i) || In(r, i)
  {
    hide Covered;
    CoveredJoin(s, [r], [], i);
    CoveredOne(r, i);
    assert s + [r] + [] == s + [r];
  }

  lemma TotalPush(s: seq<Run>, r: Run)
    ensures Total(s + [r]) == Total(s) + (r.end - r.start)
  {
    assert (s + [r])[..|s|] == s;
  }

  // ----- Every run refines the plain pair -----

  /** The vector shows the plain pair, and its index is what a scan finds. */
  ghost predicate Shows<V>(equal: Equality<V>, v: Vector<V>, p: Plain<V>)
    requires |p.current| == |p.saved|
  {
    && v.current == p.current && v.checkpoint == p.saved
    && Flat(v.runs) == Scan(equal, p, |p.current|) && v.dirtyCount == Differing(equal, p, |p.current|)
  }

  lemma ExactShows<V(!new)>(equal: Equality<V>, v: Vector<V>)
    requires Exact(equal, v)
    ensures |v.current| == |v.checkpoint| && Shows(equal, v, Plain(v.current, v.checkpoint))
  {
    ExactFacts(equal, v);
    var p := Plain(v.current, v.checkpoint);
    ScanLists(equal, p, |p.current|);
    hide Scan, Differing, Gapped, Covered, Exact;
    RunsAreTheDifference(equal, v, Scan(equal, p, |p.current|));
  }

  lemma StepRefines<V(!new)>(equal: Equality<V>, v: Vector<V>, op: Op<V>)
    requires Equivalence(equal) && Exact(equal, v) && |v.current| == |v.checkpoint|
    ensures var v', p' := Step(equal, v, op), PlainStep(equal, Plain(v.current, v.checkpoint), op);
      v'.current == p'.current && v'.checkpoint == p'.saved
  {
    ExactShows(equal, v);
    hide Exact, Equivalence, Scan, Differing, Flat, SetCell, Reset, AcceptRun, RevertRun, NodeAt;
    match op
    case SetOp(i, value, id) => SetCellIsExact(equal, v, i, value, id);
    case ResetOp(i) => ResetIsExact(equal, v, i);
    case CheckpointOp => VersionsAreExact(equal, v);
    case RollbackOp => VersionsAreExact(equal, v);
    case AcceptOp(rank) =>
      NodeAtFacts(v.runs, rank);
      if NodeAt(v.runs, rank).Some? {
        AcceptIsExact(equal, v, rank);
        TakenIsCopied(v.checkpoint, v.current, AcceptRun(v, NodeAt(v.runs, rank).value).checkpoint, NodeAt(v.runs, rank).value);
      }
    case RevertOp(rank) =>
      NodeAtFacts(v.runs, rank);
      if NodeAt(v.runs, rank).Some? {
        RevertIsExact(equal, v, rank);
        TakenIsCopied(v.current, v.checkpoint, RevertRun(v, NodeAt(v.runs, rank).value).current, NodeAt(v.runs, rank).value);
      }
  }

  lemma TakenIsCopied<V>(before: seq<Cell<V>>, from: seq<Cell<V>>, after: seq<Cell<V>>, r: Run)
    requires Taken(before, from, after, r)
    ensures after == Copied(before, from, r)
  {
    forall k: nat | k < |after| ensures after[k] == Copied(before, from, r)[k] {
      assert In(r, k) <==> r.start <= k < r.end;
    }
  }

  /** After every run of operations the vector holds the very cells of the plain pair, its index is the list of runs that
      a scan finds, and its dirty count the number of differing positions. */
  lemma {:induction false} RunRefinesScan<V(!new)>(equal: Equality<V>, cells: seq<Cell<V>>, ops: seq<Op<V>>)
    requires Equivalence(equal)
    ensures Shows(equal, Replay(equal, cells, ops), PlainRun(equal, cells, ops))
    decreases |ops|
  {
    hide Shows, Exact, Equivalence, Step, PlainStep;
    if ops != [] {
      var init := ops[..|ops| - 1];
      RunRefinesScan(equal, cells, init);
      var v := Replay(equal, cells, init);
      SameCells(equal, v, PlainRun(equal, cells, init));
      StepRefines(equal, v, ops[|ops| - 1]);
    }
    ExactShows(equal, Replay(equal, cells, ops));
  }

  lemma SameCells<V>(equal: Equality<V>, v: Vector<V>, p: Plain<V>)
    requires |p.current| == |p.saved| && Shows(equal, v, p)
    ensures p == Plain(v.current, v.checkpoint)
  {
  }
}
