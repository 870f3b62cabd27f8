/** The run-delta vector: current cells, the checkpoint cells, and the index of maximal runs where they differ.
    The underlying vectors are plain sequences of shared cells. */
module RunDeltaVector {
  import opened Options
  import opened KeyOrder
  import opened WeightBalanced
  import opened DirtyRuns
  import opened RunIndex

  /** A reference-counted cell: its identity and the value it holds. */
  datatype Cell<V> = Cell(id: nat, value: V)

  datatype Vector<V> = Vector(current: seq<Cell<V>>, checkpoint: seq<Cell<V>>, runs: Tree<Run>, dirtyCount: int)

  datatype Status = Ok | OutOfRange | InconsistentPolicy

  type Equality<!V> = (V, V) -> bool

  ghost predicate Equivalence<V(!new)>(equal: Equality<V>) {
    && (forall x {:trigger equal(x, x)} :: equal(x, x))
    && (forall x, y {:trigger equal(x, y)} :: equal(x, y) ==> equal(y, x))
  }

  // ----- The invariant -----

  /** The values at a position differ. */
  ghost predicate Dirty<V>(equal: Equality<V>, current: seq<Cell<V>>, checkpoint: seq<Cell<V>>, i: nat)
    requires i < |current| == |checkpoint|
  {
    !equal(checkpoint[i].value, current[i].value)
  }

  /** The runs cover exactly the positions whose values differ, and every other position shares its cell. */
  ghost predicate CoversDirty<V>(equal: Equality<V>, current: seq<Cell<V>>, checkpoint: seq<Cell<V>>, runs: seq<Run>) {
    && |current| == |checkpoint|
    && (forall i: nat :: Covered(runs, i) <==> i < |current| && Dirty(equal, current, checkpoint, i))
    && (forall i: nat :: i < |current| && !Covered(runs, i) ==> current[i] == checkpoint[i])
  }

  ghost predicate Exact<V>(equal: Equality<V>, v: Vector<V>) {
    Index(v.runs) && v.dirtyCount == Total(Flat(v.runs)) && CoversDirty(equal, v.current, v.checkpoint, Flat(v.runs))
  }

  /** The run index is the one ordered list of maximal dirty runs. */
  lemma RunsAreTheDifference<V(!new)>(equal: Equality<V>, v: Vector<V>, s: seq<Run>)
    requires Exact(equal, v) && Gapped(s)
    requires forall i: nat :: Covered(s, i) <==> i < |v.current| && Dirty(equal, v.current, v.checkpoint, i)
    ensures Flat(v.runs) == s && v.dirtyCount == Total(s)
  {
    assert Gapped(Flat(v.runs));
    hide Index, Gapped, Covered, Flat, Total;
    RunsAreUnique(Flat(v.runs), s);
  }

  // ----- Point edits -----

  /** The run index after a position's dirtiness is settled. */
  function NextRuns(runs: Tree<Run>, i: nat, remainsDirty: bool): Option<Tree<Run>>
    requires Balanced(runs)
  {
    var wasDirty := Containing(runs, i).Some?;
    if !wasDirty && remainsDirty then Some(AddDirty(runs, i))
    else if wasDirty && !remainsDirty then RemoveDirty(runs, i)
    else Some(runs)
  }

  /** Puts a cell at a position whose new dirtiness is known. */
  function ReplaceCell<V>(v: Vector<V>, i: nat, cell: Cell<V>, remainsDirty: bool): (Status, Vector<V>)
    requires Balanced(v.runs) && i < |v.current|
  {
    var wasDirty := Containing(v.runs, i).Some?;
    var runs := NextRuns(v.runs, i, remainsDirty);
    if runs.None? then (InconsistentPolicy, v)
    else
      var dirtyCount :=
        if !wasDirty && remainsDirty then v.dirtyCount + 1
        else if wasDirty && !remainsDirty then v.dirtyCount - 1
        else v.dirtyCount;
      (Ok, Vector(if runs.value.Nil? then v.checkpoint else v.current[i := cell], v.checkpoint, runs.value, dirtyCount))
  }

  /** Writes a value; `id` names the cell that a genuinely different value is put in. */
  function SetCell<V>(equal: Equality<V>, v: Vector<V>, i: nat, value: V, id: nat): (Status, Vector<V>)
    requires Balanced(v.runs) && |v.current| == |v.checkpoint|
  {
    if i >= |v.current| then (OutOfRange, v)
    else if equal(v.current[i].value, value) then (Ok, v)
    else if equal(v.checkpoint[i].value, value) then ReplaceCell(v, i, v.checkpoint[i], false)
    else ReplaceCell(v, i, Cell(id, value), true)
  }

  function Reset<V>(equal: Equality<V>, v: Vector<V>, i: nat): (Status, Vector<V>)
    requires Balanced(v.runs) && |v.current| == |v.checkpoint|
  {
    if i >= |v.current| then (OutOfRange, v)
    else if equal(v.current[i].value, v.checkpoint[i].value) then (Ok, v)
    else ReplaceCell(v, i, v.checkpoint[i], false)
  }

  // ----- Whole versions and single runs -----

  function Checkpoint<V>(v: Vector<V>): Vector<V> {
    if v.dirtyCount == 0 then v else Vector(v.current, v.current, Nil, 0)
  }

  function Rollback<V>(v: Vector<V>): Vector<V> {
    if v.dirtyCount == 0 then v else Vector(v.checkpoint, v.checkpoint, Nil, 0)
  }

  /** The destination with one run of positions taken from the source. */
  function Splice<V>(destination: seq<Cell<V>>, source: seq<Cell<V>>, r: Run): seq<Cell<V>>
    requires r.start <= r.end <= |destination| == |source|
  {
    if r.start == 0 && r.end == |destination| then source
    else destination[..r.start] + source[r.start..r.end] + destination[r.end..]
  }

  function AcceptRun<V>(v: Vector<V>, r: Run): Vector<V>
    requires Balanced(v.runs) && r.start <= r.end <= |v.current| == |v.checkpoint|
  {
    if Size(v.runs) == 1 then Checkpoint(v)
    else Vector(v.current, Splice(v.checkpoint, v.current, r), Remove(BY_START, true, v.runs, r.start), v.dirtyCount - (r.end - r.start))
  }

  function RevertRun<V>(v: Vector<V>, r: Run): Vector<V>
    requires Balanced(v.runs) && r.start <= r.end <= |v.current| == |v.checkpoint|
  {
    if Size(v.runs) == 1 then Rollback(v)
    else Vector(Splice(v.current, v.checkpoint, r), v.checkpoint, Remove(BY_START, true, v.runs, r.start), v.dirtyCount - (r.end - r.start))
  }

  // ----- Point edits keep the index exact -----

  lemma ExactFacts<V>(equal: Equality<V>, v: Vector<V>)
    requires Exact(equal, v)
    ensures Balanced(v.runs) && |v.current| == |v.checkpoint|
  {
    IndexLists(v.runs);
  }

  /** The same positions are covered, except that position i is covered exactly when `dirty`. */
  ghost predicate Recovers(before: seq<Run>, after: seq<Run>, i: nat, dirty: bool) {
    forall k: nat :: Covered(after, k) <==> if k == i then dirty else Covered(before, k)
  }

  /** The index always has an answer, and it is exact again. */
  lemma NextRunsFacts(t: Tree<Run>, i: nat, dirty: bool)
    requires Index(t)
    ensures Balanced(t) && NextRuns(t, i, dirty).Some?
    ensures var u := NextRuns(t, i, dirty).value;
      && Index(u) && Recovers(Flat(t), Flat(u), i, dirty)
      && Total(Flat(u)) == Total(Flat(t)) + (if dirty then 1 else 0) - (if Containing(t, i).Some? then 1 else 0)
  {
    hide Index, Covered, Flat, AddDirty, RemoveDirty, Containing, Total;
    IndexLists(t);
    var a, b := ContainingFacts(t, i);
    if !Covered(Flat(t), i) {
      if dirty { AddDirtyFacts(t, i); }
    } else if !dirty {
      RemoveDirtyFacts(t, i);
    }
  }

  lemma ReplaceCovers<V>(
    equal: Equality<V>, current: seq<Cell<V>>, checkpoint: seq<Cell<V>>, s: seq<Run>, s': seq<Run>, i: nat, cell: Cell<V>, dirty: bool)
    requires CoversDirty(equal, current, checkpoint, s) && Recovers(s, s', i, dirty) && i < |current|
    requires dirty <==> !equal(checkpoint[i].value, cell.value)
    requires !dirty ==> cell == checkpoint[i]
    ensures CoversDirty(equal, current[i := cell], checkpoint, s')
    ensures s' == [] ==> current[i := cell] == checkpoint
  {
    var next := current[i := cell];
    forall k: nat ensures Covered(s', k) <==> k < |next| && Dirty(equal, next, checkpoint, k)
                  ensures k < |next| && !Covered(s', k) ==> next[k] == checkpoint[k]
    {
    }
    if s' == [] {
      forall k: nat | k < |next| ensures next[k] == checkpoint[k] { CoveredOne(Run(0, 0), k); }
    }
  }

  lemma ReplaceIsExact<V>(equal: Equality<V>, v: Vector<V>, i: nat, cell: Cell<V>, dirty: bool)
    requires Exact(equal, v) && i < |v.current| == |v.checkpoint|
    requires dirty <==> !equal(v.checkpoint[i].value, cell.value)
    requires !dirty ==> cell == v.checkpoint[i]
    ensures Balanced(v.runs)
    ensures var (status, v') := ReplaceCell(v, i, cell, dirty);
      status.Ok? && Exact(equal, v') && v'.checkpoint == v.checkpoint && v'.current == v.current[i := cell]
  {
    NextRunsFacts(v.runs, i, dirty);
    var v' := ReplaceCell(v, i, cell, dirty).1;
    assert v'.runs.Nil? ==> Flat(v'.runs) == [];
    hide Index, Covered, NextRuns, Containing, Total, CoversDirty, Recovers, Flat;
    ReplaceCovers(equal, v.current, v.checkpoint, Flat(v.runs), Flat(v'.runs), i, cell, dirty);
  }

  lemma SetCellIsExact<V(!new)>(equal: Equality<V>, v: Vector<V>, i: nat, value: V, id: nat)
    requires Equivalence(equal) && Exact(equal, v)
    ensures Balanced(v.runs) && |v.current| == |v.checkpoint|
    ensures var (status, v') := SetCell(equal, v, i, value, id);
      && (status == if i < |v.current| then Ok else OutOfRange)
      && Exact(equal, v') && v'.checkpoint == v.checkpoint
      && (if i >= |v.current| || equal(v.current[i].value, value) then v' == v
          else v'.current == v.current[i := if equal(v.checkpoint[i].value, value) then v.checkpoint[i] else Cell(id, value)])
      && (i < |v.current| ==> equal(v'.current[i].value, value))
  {
    ExactFacts(equal, v);
    hide Index, Covered, ReplaceCell, Total, CoversDirty, Flat;
    if i < |v.current| && !equal(v.current[i].value, value) {
      var clean := equal(v.checkpoint[i].value, value);
      var cell := if clean then v.checkpoint[i] else Cell(id, value);
      assert equal(v.checkpoint[i].value, v.checkpoint[i].value);
      ReplaceIsExact(equal, v, i, cell, !clean);
      assert equal(value, value);
    }
  }

  lemma ResetIsExact<V(!new)>(equal: Equality<V>, v: Vector<V>, i: nat)
    requires Equivalence(equal) && Exact(equal, v)
    ensures Balanced(v.runs) && |v.current| == |v.checkpoint|
    ensures var (status, v') := Reset(equal, v, i);
      && (status == if i < |v.current| then Ok else OutOfRange)
      && Exact(equal, v') && v'.checkpoint == v.checkpoint
      && v'.current == (if i < |v.current| then v.current[i := v.checkpoint[i]] else v.current)
  {
    ExactFacts(equal, v);
    if i < |v.current| {
      assert equal(v.checkpoint[i].value, v.checkpoint[i].value);
      if equal(v.current[i].value, v.checkpoint[i].value) {
        assert equal(v.checkpoint[i].value, v.current[i].value);
        CleanCellIsShared(equal, v, i);
        assert v.current[i := v.checkpoint[i]] == v.current;
      } else {
        ReplaceIsExact(equal, v, i, v.checkpoint[i], false);
      }
    }
  }

  lemma CleanCellIsShared<V>(equal: Equality<V>, v: Vector<V>, i: nat)
    requires Exact(equal, v) && i < |v.current| == |v.checkpoint| && !Dirty(equal, v.current, v.checkpoint, i)
    ensures v.current[i] == v.checkpoint[i]
  {
    hide Index, Covered, Flat;
    assert !Covered(Flat(v.runs), i);
  }

  // ----- Versions and runs keep the index exact -----

  lemma CleanVersion<V(!new)>(equal: Equality<V>, root: seq<Cell<V>>)
    requires Equivalence(equal)
    ensures Exact(equal, Vector(root, root, Nil, 0))
  {
    forall i: nat ensures !Covered([], i) { CoveredOne(Run(0, 0), i); }
    forall i: nat | i < |root| ensures !Dirty(equal, root, root, i) { assert equal(root[i].value, root[i].value); }
  }

  lemma {:induction false} TotalIsPositive(s: seq<Run>)
    requires Gapped(s)
    ensures Total(s) >= 0 && (Total(s) == 0 <==> s == [])
  {
    if s != [] { TotalIsPositive(s[..|s| - 1]); }
  }

  /** A clean version is its own checkpoint, cell for cell. */
  lemma CleanIsCheckpoint<V>(equal: Equality<V>, v: Vector<V>)
    requires Exact(equal, v)
    ensures v.dirtyCount == 0 <==> Flat(v.runs) == []
    ensures v.dirtyCount == 0 ==> v.current == v.checkpoint
  {
    TotalIsPositive(Flat(v.runs));
    if Flat(v.runs) == [] {
      forall i: nat | i < |v.current| ensures v.current[i] == v.checkpoint[i] { CoveredOne(Run(0, 0), i); }
    }
  }

  lemma VersionsAreExact<V(!new)>(equal: Equality<V>, v: Vector<V>)
    requires Equivalence(equal) && Exact(equal, v)
    ensures Exact(equal, Checkpoint(v)) && Checkpoint(v).current == v.current && Checkpoint(v).checkpoint == v.current
    ensures Exact(equal, Rollback(v)) && Rollback(v).current == v.checkpoint && Rollback(v).checkpoint == v.checkpoint
  {
    hide Exact;
    CleanIsCheckpoint(equal, v);
    CleanVersion(equal, v.current);
    CleanVersion(equal, v.checkpoint);
  }

  lemma SpliceAt<V>(destination: seq<Cell<V>>, source: seq<Cell<V>>, r: Run)
    requires r.start <= r.end <= |destination| == |source|
    ensures |Splice(destination, source, r)| == |source|
    ensures forall k: nat :: k < |source| ==> Splice(destination, source, r)[k] == if In(r, k) then source[k] else destination[k]
  {
  }

  /** Positions of `from` taken over along one run; which of the two sequences is spliced does not matter. */
  ghost predicate Taken<V>(before: seq<Cell<V>>, from: seq<Cell<V>>, after: seq<Cell<V>>, r: Run) {
    |before| == |from| == |after| && forall k: nat :: k < |after| ==> after[k] == if In(r, k) then from[k] else before[k]
  }

  lemma TakenCovers<V(!new)>(
    equal: Equality<V>, current: seq<Cell<V>>, checkpoint: seq<Cell<V>>, s: seq<Run>, s': seq<Run>, r: Run,
    current': seq<Cell<V>>, checkpoint': seq<Cell<V>>)
    requires Equivalence(equal) && CoversDirty(equal, current, checkpoint, s)
    requires forall k: nat :: Covered(s', k) <==> Covered(s, k) && !In(r, k)
    requires (current' == current && Taken(checkpoint, current, checkpoint', r))
          || (checkpoint' == checkpoint && Taken(current, checkpoint, current', r))
    ensures CoversDirty(equal, current', checkpoint', s')
  {
    forall k: nat ensures Covered(s', k) <==> k < |current'| && Dirty(equal, current', checkpoint', k)
                  ensures k < |current'| && !Covered(s', k) ==> current'[k] == checkpoint'[k]
    {
      if k < |current'| { assert equal(current'[k].value, current'[k].value); }
    }
  }

  /** The run at a rank, and how the index falls apart around it. */
  lemma RankFacts<V>(equal: Equality<V>, v: Vector<V>, rank: nat) returns (a: seq<Run>, b: seq<Run>)
    requires Exact(equal, v) && NodeAt(v.runs, rank).Some?
    ensures var r := NodeAt(v.runs, rank).value;
      && Flat(v.runs) == a + [r] + b && r.start < r.end <= |v.current| == |v.checkpoint|
      && (Size(v.runs) == 1 ==> a == [] && b == [])
  {
    NodeAtFacts(v.runs, rank);
    var s := Flat(v.runs);
    var r := s[rank];
    a, b := s[..rank], s[rank + 1..];
    assert s == a + [r] + b;
    GappedParts(a, r, b);
    assert In(s[rank], r.end - 1);
    assert Covered(s, r.end - 1);
  }

  lemma DropIsExact<V(!new)>(
    equal: Equality<V>, v: Vector<V>, a: seq<Run>, r: Run, b: seq<Run>, current': seq<Cell<V>>, checkpoint': seq<Cell<V>>)
    requires Equivalence(equal) && Exact(equal, v) && Flat(v.runs) == a + [r] + b && Balanced(v.runs)
    requires (current' == v.current && Taken(v.checkpoint, v.current, checkpoint', r))
          || (checkpoint' == v.checkpoint && Taken(v.current, v.checkpoint, current', r))
    ensures Exact(equal, Vector(current', checkpoint', Remove(BY_START, true, v.runs, r.start), v.dirtyCount - (r.end - r.start)))
  {
    hide Index, Covered, Total, CoversDirty, Flat, Remove, In, Equivalence, Taken;
    DropRunFacts(v.runs, a, r, b);
    TakenCovers(equal, v.current, v.checkpoint, Flat(v.runs), a + b, r, current', checkpoint');
  }

  lemma AcceptIsExact<V(!new)>(equal: Equality<V>, v: Vector<V>, rank: nat)
    requires Equivalence(equal) && Exact(equal, v) && NodeAt(v.runs, rank).Some?
    ensures var r := NodeAt(v.runs, rank).value;
      && Balanced(v.runs) && r.start < r.end <= |v.current| == |v.checkpoint|
      && Exact(equal, AcceptRun(v, r)) && AcceptRun(v, r).current == v.current
      && Taken(v.checkpoint, v.current, AcceptRun(v, r).checkpoint, r)
  {
    var r := NodeAt(v.runs, rank).value;
    hide Exact, Splice, NodeAt, Remove, Flat, Balanced, In, Equivalence;
    ExactFacts(equal, v);
    var a, b := RankFacts(equal, v, rank);
    SpliceAt(v.checkpoint, v.current, r);
    if Size(v.runs) == 1 {
      VersionsAreExact(equal, v);
      OnlyRun(equal, v, a, r, b);
    } else {
      DropIsExact(equal, v, a, r, b, v.current, Splice(v.checkpoint, v.current, r));
    }
  }

  lemma RevertIsExact<V(!new)>(equal: Equality<V>, v: Vector<V>, rank: nat)
    requires Equivalence(equal) && Exact(equal, v) && NodeAt(v.runs, rank).Some?
    ensures var r := NodeAt(v.runs, rank).value;
      && Balanced(v.runs) && r.start < r.end <= |v.current| == |v.checkpoint|
      && Exact(equal, RevertRun(v, r)) && RevertRun(v, r).checkpoint == v.checkpoint
      && Taken(v.current, v.checkpoint, RevertRun(v, r).current, r)
  {
    var r := NodeAt(v.runs, rank).value;
    hide Exact, Splice, NodeAt, Remove, Flat, Balanced, In, Equivalence;
    ExactFacts(equal, v);
    var a, b := RankFacts(equal, v, rank);
    SpliceAt(v.current, v.checkpoint, r);
    if Size(v.runs) == 1 {
      VersionsAreExact(equal, v);
      OnlyRun(equal, v, a, r, b);
    } else {
      DropIsExact(equal, v, a, r, b, Splice(v.current, v.checkpoint, r), v.checkpoint);
    }
  }

  /** Outside the only run, both versions share their cells. */
  lemma OnlyRun<V>(equal: Equality<V>, v: Vector<V>, a: seq<Run>, r: Run, b: seq<Run>)
    requires Exact(equal, v) && Flat(v.runs) == a + [r] + b && a == [] && b == []
    ensures forall k: nat :: k < |v.current| == |v.checkpoint| && !In(r, k) ==> v.current[k] == v.checkpoint[k]
  {
    forall k: nat | k < |v.current| && !In(r, k) ensures v.current[k] == v.checkpoint[k] {
      CoveredOne(r, k);
      assert Flat(v.runs) == [r];
    }
  }

  // ----- Runs of operations -----

  datatype Op<V> = SetOp(index: nat, value: V, id: nat) | ResetOp(index: nat) | CheckpointOp | RollbackOp
                 | AcceptOp(rank: nat) | RevertOp(rank: nat)

  ghost function Step<V(!new)>(equal: Equality<V>, v: Vector<V>, op: Op<V>): (v': Vector<V>)
    requires Equivalence(equal) && Exact(equal, v)
    ensures Exact(equal, v') && |v'.current| == |v.current|
  {
    ExactFacts(equal, v);
    match op
    case SetOp(i, value, id) => SetCellIsExact(equal, v, i, value, id); SetCell(equal, v, i, value, id).1
    case ResetOp(i) => ResetIsExact(equal, v, i); Reset(equal, v, i).1
    case CheckpointOp => VersionsAreExact(equal, v); Checkpoint(v)
    case RollbackOp => VersionsAreExact(equal, v); Rollback(v)
    case AcceptOp(rank) =>
      var run := NodeAt(v.runs, rank);
      if run.None? then v else AcceptIsExact(equal, v, rank); AcceptRun(v, run.value)
    case RevertOp(rank) =>
      var run := NodeAt(v.runs, rank);
      if run.None? then v else RevertIsExact(equal, v, rank); RevertRun(v, run.value)
  }

  /** Every run from a fresh vector. */
  ghost function Replay<V(!new)>(equal: Equality<V>, cells: seq<Cell<V>>, ops: seq<Op<V>>): (v: Vector<V>)
    requires Equivalence(equal)
    ensures Exact(equal, v) && |v.current| == |cells|
  {
    if ops == [] then CleanVersion(equal, cells); Vector(cells, cells, Nil, 0)
    else Step(equal, Replay(equal, cells, ops[..|ops| - 1]), ops[|ops| - 1])
  }

  /** After any run of operations the index lists exactly the maximal runs of positions where current and
      checkpoint differ, the dirty count is their total length, and every clean position shares its cell. */
  lemma EveryRunIsExact<V(!new)>(equal: Equality<V>, cells: seq<Cell<V>>, ops: seq<Op<V>>, s: seq<Run>)
    requires Equivalence(equal) && Gapped(s)
    requires var v := Replay(equal, cells, ops);
      |v.current| == |v.checkpoint| && forall i: nat :: Covered(s, i) <==> i < |v.current| && Dirty(equal, v.current, v.checkpoint, i)
    ensures var v := Replay(equal, cells, ops);
      && |v.current| == |v.checkpoint|
      && Flat(v.runs) == s && v.dirtyCount == Total(s)
      && (forall i: nat :: i < |v.current| && !Dirty(equal, v.current, v.checkpoint, i) ==> v.current[i] == v.checkpoint[i])
  {
    var v := Replay(equal, cells, ops);
    RunsAreTheDifference(equal, v, s);
    forall i: nat | i < |v.current| && !Dirty(equal, v.current, v.checkpoint, i) ensures v.current[i] == v.checkpoint[i] {
      CleanCellIsShared(equal, v, i);
    }
  }
}
