/** The bilateral deque: two windows of paths in a shared arena, the left one read backwards. */
module BilateralDeque {
  import opened Machine
  import opened Options
  import opened SkewBinary
  import opened AncestorLinks
  import opened AncestralLabels
  import opened MyersArena

  /** A window of a path with its endpoints cached: the node before it, its oldest and its newest node. */
  datatype Interval = Interval(anchor: nat, base: nat, tail: nat, count: nat)

  function EmptyAt(node: nat): Interval {
    Interval(node, node, node, 0)
  }

  ghost predicate Arm<T>(rs: seq<Record<T>>, i: Interval) {
    && Spans(rs, i.tail, i.count) && i.anchor == Up(rs, i.tail, i.count)
    && (i.count > 0 ==> i.base == Up(rs, i.tail, i.count - 1))
  }

  ghost function Window<T>(rs: seq<Record<T>>, i: Interval): (s: seq<T>)
    requires Arm(rs, i)
    ensures |s| == i.count
  {
    Labels(rs, i.tail, i.count)
  }

  lemma ArmIsStable<T>(rs: seq<Record<T>>, later: seq<Record<T>>, i: Interval)
    requires Arm(rs, i) && WellLinked(later) && Prefix(rs, later)
    ensures Arm(later, i) && Window(later, i) == Window(rs, i)
  {
    LabelsAreStable(rs, later, i.tail, i.count);
    UpIsStable(rs, later, i.tail, i.count);
    if i.count > 0 { UpIsStable(rs, later, i.tail, i.count - 1); }
  }

  // ----- Intervals -----

  /** Facts about an arm and the window `start` values from its oldest, `count` long. */
  lemma Subarm<T>(rs: seq<Record<T>>, i: Interval, start: nat, count: nat)
    requires Arm(rs, i) && start + count <= i.count && count > 0
    ensures var tail := Up(rs, i.tail, i.count - start - count);
      var base := Up(rs, i.tail, i.count - start - 1);
      && tail < |rs| && base < |rs| && (start > 0 ==> base > 0)
      && Level(rs, tail) == Level(rs, i.tail) - (i.count - start - count)
      && Level(rs, base) == Level(rs, i.tail) - (i.count - start - 1)
      && Up(rs, i.tail, i.count - start) == rs[base].links.parent
      && Arm(rs, Interval(rs[base].links.parent, base, tail, count))
      && Window(rs, Interval(rs[base].links.parent, base, tail, count)) == Window(rs, i)[start..start + count]
  {
    var k := i.count - start - count;
    LabelsSlice(rs, i.tail, i.count, start, count);
    SpanUp(rs, i.tail, count, k);
    SpanUp(rs, i.tail, 1, i.count - start - 1);
    var tail := Up(rs, i.tail, k);
    UpUp(rs, i.tail, k, count);
    UpUp(rs, i.tail, k, count - 1);
    UpUp(rs, i.tail, i.count - start - 1, 1);
    var base := Up(rs, i.tail, i.count - start - 1);
    assert Up(rs, base, 1) == rs[base].links.parent by { UpOne(rs, base); }
    SpanParent(rs, base, 1);
    hide WellLinked, Labels, Up;
  }

  lemma UpOne<T>(rs: seq<Record<T>>, n: nat)
    requires Backward(rs) && n < |rs|
    ensures rs[n].links.parent < |rs| && Up(rs, n, 1) == rs[n].links.parent && Up(rs, n, 0) == n
  {
    assert Up(rs, n, 1) == Up(rs, rs[n].links.parent, 0);
  }

  lemma ArmFacts<T>(rs: seq<Record<T>>, i: Interval)
    requires Arm(rs, i)
    ensures i.anchor < |rs| && i.tail < |rs| && Level(rs, i.anchor) == Level(rs, i.tail) - i.count >= 0
    ensures i.count > 0 ==> i.tail > 0 && i.base < |rs| && i.anchor == rs[i.base].links.parent
  {
    SpanUp(rs, i.tail, 0, i.count);
    LevelFacts(rs, i.anchor);
    if i.count > 0 { Subarm(rs, i, 0, i.count); }
  }

  lemma EmptyArm<T>(rs: seq<Record<T>>, n: nat)
    requires WellLinked(rs) && n < |rs|
    ensures Arm(rs, EmptyAt(n)) && Window(rs, EmptyAt(n)) == []
  {
    LevelFacts(rs, n);
  }

  /** An ancestor query at a depth that the node's path has. */
  method AskAncestor<T(!new)>(arena: Arena<T>, node: nat, depth: int) returns (status: Status, ancestor: nat)
    requires arena.Valid() && node < arena.count && -1 <= depth <= arena.records[node].links.depth
    modifies arena`queryCount, arena`lastHops, arena`maximumHops, arena`totalHops
    ensures arena.queryCount <= old(arena.queryCount) + 1
    ensures status.Ok? && ancestor == Up(arena.records, node, arena.records[node].links.depth - depth)
  {
    hide Up, QueryHops, Log2, MyersArena.Arena.Stored, MyersArena.Arena.Room;
    status, ancestor := arena.AncestorAtDepth(node, depth);
  }

  method AddToTail<T(!new)>(arena: Arena<T>, i: Interval, value: T) returns (status: Status, result: Interval)
    requires arena.Valid() && Arm(arena.records, i)
    modifies arena`blocks, arena`blockCount, arena`count, arena`records, arena`Repr, arena.Repr
    ensures arena.Valid() && fresh(arena.Repr - old(arena.Repr)) && Prefix(old(arena.records), arena.records)
    ensures status == if old(arena.records[i.tail].links.depth < PTRDIFF_MAX && arena.count < SIZE_MAX) then Ok else Overflow
    ensures status.Ok? ==>
      && Arm(arena.records, result) && result.count == i.count + 1
      && Window(arena.records, result) == old(Window(arena.records, i)) + [value]
  {
    result := i;
    LeafArm(arena.records, i, value);
    hide Arm, Window;
    assert i.tail < arena.count by { ArmFacts(arena.records, i); }
    var leaf;
    status, leaf := arena.AddLeaf(i.tail, value);
    if status.Ok? {
      result := Interval(i.anchor, if i.count == 0 then leaf else i.base, leaf, i.count + 1);
    }
  }

  lemma LeafArm<T>(rs: seq<Record<T>>, i: Interval, value: T)
    requires Arm(rs, i)
    ensures var more := rs + [Leaf(rs, i.tail, value)];
      var longer := Interval(i.anchor, if i.count == 0 then |rs| else i.base, |rs|, i.count + 1);
      Arm(more, longer) && Window(more, longer) == Window(rs, i) + [value]
  {
    var more := rs + [Leaf(rs, i.tail, value)];
    LabelsOfLeaf(rs, i.tail, value, i.count);
    LeafStaysLinked(rs, i.tail, value);
    assert more[|rs|].links.parent == i.tail;
    ArmIsStable(rs, more, i);
    hide WellLinked, Leaf, Labels;
  }

  /** Drops the newest value without a query. */
  method RemoveTail<T(!new)>(arena: Arena<T>, i: Interval) returns (status: Status, result: Interval)
    requires arena.Valid() && Arm(arena.records, i) && i.count > 0
    ensures status.Ok? && Arm(arena.records, result)
    ensures Window(arena.records, result) == Window(arena.records, i)[..i.count - 1]
  {
    ArmFacts(arena.records, i);
    var tail;
    status, tail := arena.Parent(i.tail);
    UpOne(arena.records, i.tail);
    EmptyArm(arena.records, tail);
    if i.count > 1 { Subarm(arena.records, i, 0, i.count - 1); }
    hide Arm, Window, Up, Level;
    result := if i.count == 1 then EmptyAt(tail) else Interval(i.anchor, i.base, tail, i.count - 1);
  }

  /** Drops the oldest value by at most one query. */
  method RemoveBase<T(!new)>(arena: Arena<T>, i: Interval) returns (status: Status, result: Interval)
    requires arena.Valid() && Arm(arena.records, i) && i.count > 0
    modifies arena`queryCount, arena`lastHops, arena`maximumHops, arena`totalHops
    ensures arena.queryCount <= old(arena.queryCount) + 1
    ensures status == if i.count == PTRDIFF_MAX + 1 then Overflow else Ok
    ensures status.Ok? ==>
      && Arm(arena.records, result) && Window(arena.records, result) == Window(arena.records, i)[1..]
  {
    ArmFacts(arena.records, i);
    EmptyArm(arena.records, i.tail);
    if i.count == 1 {
      return Ok, EmptyAt(i.tail);
    }
    Subarm(arena.records, i, 0, i.count);
    Subarm(arena.records, i, 1, i.count - 1);
    UpOne(arena.records, i.tail);
    var base := i.tail;
    hide Window, Up, MyersArena.Arena.Stored, MyersArena.Arena.Room;
    result := i;
    if i.count != 2 {
      DeepestLevel(arena, i.tail);
      var tailDepth;
      status, tailDepth := arena.Depth(i.tail);
      var (s1, low) := SubtractDepth(tailDepth, i.count);
      if !s1.Ok? {
        return Overflow, result;
      }
      var (s2, baseDepth) := AddDepth(low, 2);
      if !s2.Ok? {
        assert false;
      }
      status, base := AskAncestor(arena, i.tail, baseDepth);
    }
    return Ok, Interval(i.base, base, i.tail, i.count - 1);
  }

  function Rev<T>(s: seq<T>): (r: seq<T>)
    ensures |r| == |s| && forall i :: 0 <= i < |s| ==> r[i] == s[|s| - 1 - i]
  {
    seq(|s|, i requires 0 <= i < |s| => s[|s| - 1 - i])
  }

  lemma RevSlice<T>(s: seq<T>, start: nat, count: nat)
    requires start + count <= |s|
    ensures Rev(s)[start..start + count] == Rev(s[|s| - start - count..|s| - start])
  {
  }

  /** The queries a window may need: one for each end that is not an end of the arm. */
  function Asked(i: Interval, start: nat, count: nat): nat {
    if count == 0 then 0 else (if start > 0 then 1 else 0) + (if start + count < i.count then 1 else 0)
  }

  /** The depths of the arm's base and of the ends of a window counted down from the tail. */
  function LeftDepths(tailDepth: int, total: nat, start: nat, count: nat): (r: (Status, int, int, int))
    requires 0 < count && start + count <= total <= tailDepth + 1 <= PTRDIFF_MAX + 1
    ensures r.0 == if total <= PTRDIFF_MAX then Ok else Overflow
    ensures r.0.Ok? ==>
      r.1 == tailDepth - total + 1 && r.2 == tailDepth - start && r.3 == tailDepth - start - count + 1
  {
    var (s1, below) := SubtractDepth(tailDepth, total);
    if !s1.Ok? then (s1, 0, 0, 0) else
    var (s2, baseDepth) := AddDepth(below, 1);
    if !s2.Ok? then (s2, 0, 0, 0) else
    var (s3, slicedTail) := SubtractDepth(tailDepth, start);
    if !s3.Ok? then (s3, 0, 0, 0) else
    var (s4, belowSliced) := SubtractDepth(slicedTail, count);
    if !s4.Ok? then (s4, 0, 0, 0) else
    var (s5, slicedBase) := AddDepth(belowSliced, 1);
    (s5, baseDepth, slicedTail, slicedBase)
  }

  lemma EndFacts<T>(rs: seq<Record<T>>, i: Interval)
    requires Arm(rs, i) && i.count > 0
    ensures Backward(rs) && i.tail < |rs| && i.anchor < |rs| && i.tail == Up(rs, i.tail, 0) && i.base == Up(rs, i.tail, i.count - 1)
    ensures rs[i.anchor].links.depth == rs[i.tail].links.depth - i.count >= -1
  {
    ArmFacts(rs, i);
    UpOne(rs, i.tail);
  }

  /** The end nodes of a window counted down from the tail. Cached endpoints are never asked for. */
  method LeftEnds<T(!new)>(arena: Arena<T>, i: Interval, start: nat, count: nat)
    returns (status: Status, tail: nat, base: nat)
    requires arena.Valid() && Arm(arena.records, i) && 0 < count && start + count <= i.count
    modifies arena`queryCount, arena`lastHops, arena`maximumHops, arena`totalHops
    ensures arena.queryCount <= old(arena.queryCount) + Asked(i, start, count)
    ensures status == if i.count <= PTRDIFF_MAX then Ok else Overflow
    ensures status.Ok? ==> tail == Up(arena.records, i.tail, start) && base == Up(arena.records, i.tail, start + count - 1)
  {
    DeepestLevel(arena, i.tail);
    EndFacts(arena.records, i);
    hide Arm, Window, Up, WellLinked, Backward, MyersArena.Arena.Stored, MyersArena.Arena.Room;
    tail, base := i.tail, i.base;
    var tailDepth;
    status, tailDepth := arena.Depth(i.tail);
    var (s, baseDepth, slicedTail, slicedBase) := LeftDepths(tailDepth, i.count, start, count);
    if !s.Ok? {
      return s, tail, base;
    }
    if slicedTail != tailDepth {
      status, tail := AskAncestor(arena, i.tail, slicedTail);
    }
    if slicedBase == slicedTail {
      base := tail;
    } else if slicedBase != baseDepth {
      status, base := AskAncestor(arena, i.tail, slicedBase);
    }
  }

  lemma LeftFacts<T>(rs: seq<Record<T>>, i: Interval, start: nat, count: nat)
    requires Arm(rs, i) && start + count <= i.count && count > 0
    ensures var tail := Up(rs, i.tail, start); var base := Up(rs, i.tail, start + count - 1);
      && Backward(rs) && 0 < base < |rs| && tail < |rs| && i.base < |rs| && i.anchor == rs[i.base].links.parent
      && Arm(rs, Interval(rs[base].links.parent, base, tail, count))
      && Window(rs, Interval(rs[base].links.parent, base, tail, count))
         == Window(rs, i)[i.count - start - count..i.count - start]
    ensures i.count <= Level(rs, i.tail)
  {
    ArmFacts(rs, i);
    Subarm(rs, i, i.count - start - count, count);
    LevelFacts(rs, Up(rs, i.tail, start + count - 1));
    hide Window, Up, MyersArena.Arena.Stored, MyersArena.Arena.Room;
  }

  /** A proper window of a left arm whose length is not representable as a depth. */
  ghost predicate LeftOverflows(i: Interval, start: nat, count: nat) {
    0 < count && !(start == 0 && count == i.count) && i.count == PTRDIFF_MAX + 1
  }

  /** A window that ends with the right arm, starts inside it, and whose last value sits at the deepest level. */
  ghost predicate RightOverflows<T>(rs: seq<Record<T>>, i: Interval, start: nat, count: nat)
    requires Arm(rs, i)
  {
    0 < count && 0 < start && start + count == i.count && rs[i.tail].links.depth == PTRDIFF_MAX
  }

  /** A window of the left arm, read backwards. */
  method SliceLeft<T(!new)>(arena: Arena<T>, i: Interval, start: nat, count: nat) returns (status: Status, result: Interval)
    requires arena.Valid() && Arm(arena.records, i) && start + count <= i.count
    modifies arena`queryCount, arena`lastHops, arena`maximumHops, arena`totalHops
    ensures arena.queryCount <= old(arena.queryCount) + Asked(i, start, count)
    ensures status == if LeftOverflows(i, start, count) then Overflow else Ok
    ensures status.Ok? ==>
      && Arm(arena.records, result) && result.count == count
      && Rev(Window(arena.records, result)) == Rev(Window(arena.records, i))[start..start + count]
  {
    result := i;
    RevSlice(Window(arena.records, i), start, count);
    if count == 0 {
      EmptyArm(arena.records, 0);
      return Ok, EmptyAt(0);
    }
    LeftFacts(arena.records, i, start, count);
    hide Arm, Window, Up, Rev, Asked, WellLinked, Backward, MyersArena.Arena.Stored, MyersArena.Arena.Room;
    if start == 0 && count == i.count {
      assert Rev(Window(arena.records, i))[0..i.count] == Rev(Window(arena.records, i));
      return Ok, result;
    }
    var tail, base;
    status, tail, base := LeftEnds(arena, i, start, count);
    if !status.Ok? {
      return;
    }
    var anchor := i.anchor;
    if base != i.base {
      status, anchor := arena.Parent(base);
    }
    return Ok, Interval(anchor, base, tail, count);
  }

  /** The depths of the ends of a window counted up from the anchor. */
  function RightDepths(anchorDepth: int, start: nat, count: nat): (r: (Status, int, int))
    requires anchorDepth >= -1 && 0 < count && anchorDepth + start + count <= PTRDIFF_MAX
    ensures r.0 == if anchorDepth + start + count < PTRDIFF_MAX && count <= PTRDIFF_MAX then Ok else Overflow
    ensures r.0.Ok? ==> r.1 == anchorDepth + start + 1 && r.2 == anchorDepth + start + count
  {
    var (s1, above) := AddDepth(anchorDepth, start);
    if !s1.Ok? then (s1, 0, 0) else
    var (s2, slicedBase) := AddDepth(above, 1);
    if !s2.Ok? then (s2, 0, 0) else
    var (s3, end) := AddDepth(slicedBase, count);
    if !s3.Ok? then (s3, 0, 0) else
    var (s4, slicedTail) := SubtractDepth(end, 1);
    (s4, slicedBase, slicedTail)
  }

  method RightEnds<T(!new)>(arena: Arena<T>, i: Interval, start: nat, count: nat)
    returns (status: Status, tail: nat, base: nat)
    requires arena.Valid() && Arm(arena.records, i) && 0 < count && start + count <= i.count
    modifies arena`queryCount, arena`lastHops, arena`maximumHops, arena`totalHops
    ensures arena.queryCount <= old(arena.queryCount) + Asked(i, start, count)
    requires !(start == 0 && count == i.count)
    ensures status == if RightOverflows(arena.records, i, start, count) then Overflow else Ok
    ensures status.Ok? ==>
      && tail == Up(arena.records, i.tail, i.count - start - count) && base == Up(arena.records, i.tail, i.count - start - 1)
  {
    DeepestLevel(arena, i.tail);
    EndFacts(arena.records, i);
    hide Arm, Window, Up, WellLinked, Backward, MyersArena.Arena.Stored, MyersArena.Arena.Room;
    tail, base := i.tail, i.base;
    var anchorDepth;
    status, anchorDepth := arena.Depth(i.anchor);
    var (s, slicedBase, slicedTail) := RightDepths(anchorDepth, start, count);
    if !s.Ok? {
      return s, tail, base;
    }
    if start != 0 {
      status, base := AskAncestor(arena, i.tail, slicedBase);
    }
    if slicedTail == slicedBase {
      tail := base;
    } else if start + count != i.count {
      status, tail := AskAncestor(arena, i.tail, slicedTail);
    }
  }

  /** A window of the right arm, read forwards. */
  method SliceRight<T(!new)>(arena: Arena<T>, i: Interval, start: nat, count: nat) returns (status: Status, result: Interval)
    requires arena.Valid() && Arm(arena.records, i) && start + count <= i.count
    modifies arena`queryCount, arena`lastHops, arena`maximumHops, arena`totalHops
    ensures arena.queryCount <= old(arena.queryCount) + Asked(i, start, count)
    ensures status == if RightOverflows(arena.records, i, start, count) then Overflow else Ok
    ensures status.Ok? ==>
      && Arm(arena.records, result) && result.count == count
      && Window(arena.records, result) == Window(arena.records, i)[start..start + count]
  {
    result := i;
    if count == 0 {
      EmptyArm(arena.records, 0);
      return Ok, EmptyAt(0);
    }
    ArmFacts(arena.records, i);
    Subarm(arena.records, i, start, count);
    hide Window, Up, Asked, MyersArena.Arena.Stored, MyersArena.Arena.Room;
    if start == 0 && count == i.count {
      return Ok, result;
    }
    var tail, base;
    status, tail, base := RightEnds(arena, i, start, count);
    if !status.Ok? {
      return;
    }
    var anchor := i.anchor;
    if start != 0 {
      status, anchor := arena.Parent(base);
    }
    return Ok, Interval(anchor, base, tail, count);
  }

  // ----- The deque -----

  datatype Deque = Deque(left: Interval, right: Interval, count: nat)

  ghost predicate Handle<T>(rs: seq<Record<T>>, d: Deque) {
    Arm(rs, d.left) && Arm(rs, d.right) && d.count == d.left.count + d.right.count
  }

  ghost function Contents<T>(rs: seq<Record<T>>, d: Deque): (s: seq<T>)
    requires Handle(rs, d)
    ensures |s| == d.count
  {
    Rev(Window(rs, d.left)) + Window(rs, d.right)
  }

  /** Branches that share the arena never disturb a handle. */
  lemma HandleIsStable<T>(rs: seq<Record<T>>, later: seq<Record<T>>, d: Deque)
    requires Handle(rs, d) && WellLinked(later) && Prefix(rs, later)
    ensures Handle(later, d) && Contents(later, d) == Contents(rs, d)
  {
    ArmIsStable(rs, later, d.left);
    ArmIsStable(rs, later, d.right);
  }

  /** The empty deque sits at the bottom. */
  method AdoptEmpty<T(!new)>(arena: Arena<T>) returns (result: Deque)
    requires arena.Valid()
    ensures Handle(arena.records, result) && Contents(arena.records, result) == []
  {
    EmptyArm(arena.records, 0);
    result := Deque(EmptyAt(0), EmptyAt(0), 0);
  }

  method PushFront<T(!new)>(arena: Arena<T>, d: Deque, value: T) returns (status: Status, result: Deque)
    requires arena.Valid() && Handle(arena.records, d)
    modifies arena`blocks, arena`blockCount, arena`count, arena`records, arena`Repr, arena.Repr
    ensures arena.Valid() && fresh(arena.Repr - old(arena.Repr)) && Prefix(old(arena.records), arena.records)
    ensures status ==
      if old(d.count != SIZE_MAX && arena.records[d.left.tail].links.depth < PTRDIFF_MAX && arena.count < SIZE_MAX) then Ok
      else Overflow
    ensures status.Ok? ==>
      && Handle(arena.records, result)
      && Contents(arena.records, result) == [value] + old(Contents(arena.records, d))
  {
    result := d;
    if d.count == SIZE_MAX {
      PrefixSelf(arena.records);
      return Overflow, result;
    }
    ghost var before := arena.records;
    hide Arm, Window, MyersArena.Arena.Stored, MyersArena.Arena.Room, Prefix;
    var left;
    status, left := AddToTail(arena, d.left, value);
    if status.Ok? {
      ArmIsStable(before, arena.records, d.right);
      result := Deque(left, d.right, d.count + 1);
    }
  }

  method PushBack<T(!new)>(arena: Arena<T>, d: Deque, value: T) returns (status: Status, result: Deque)
    requires arena.Valid() && Handle(arena.records, d)
    modifies arena`blocks, arena`blockCount, arena`count, arena`records, arena`Repr, arena.Repr
    ensures arena.Valid() && fresh(arena.Repr - old(arena.Repr)) && Prefix(old(arena.records), arena.records)
    ensures status ==
      if old(d.count != SIZE_MAX && arena.records[d.right.tail].links.depth < PTRDIFF_MAX && arena.count < SIZE_MAX) then Ok
      else Overflow
    ensures status.Ok? ==>
      && Handle(arena.records, result)
      && Contents(arena.records, result) == old(Contents(arena.records, d)) + [value]
  {
    result := d;
    if d.count == SIZE_MAX {
      PrefixSelf(arena.records);
      return Overflow, result;
    }
    ghost var before := arena.records;
    hide Arm, Window, MyersArena.Arena.Stored, MyersArena.Arena.Room, Prefix;
    var right;
    status, right := AddToTail(arena, d.right, value);
    if status.Ok? {
      ArmIsStable(before, arena.records, d.left);
      result := Deque(d.left, right, d.count + 1);
    }
  }

  /** Drops the first value by at most one query. */
  method RemoveFirst<T(!new)>(arena: Arena<T>, d: Deque) returns (status: Status, result: Deque)
    requires arena.Valid() && Handle(arena.records, d)
    modifies arena`queryCount, arena`lastHops, arena`maximumHops, arena`totalHops
    ensures arena.queryCount <= old(arena.queryCount) + 1
    ensures status.Empty? <==> d.count == 0
    ensures status.Overflow? <==> d.left.count == 0 && d.right.count == PTRDIFF_MAX + 1
    ensures !status.OutOfRange?
    ensures status.Ok? ==>
      && Handle(arena.records, result) && Contents(arena.records, result) == Contents(arena.records, d)[1..]
  {
    result := d;
    if d.count == 0 {
      return Empty, result;
    }
    hide Arm, Window, MyersArena.Arena.Stored, MyersArena.Arena.Room;
    if d.count == 1 {
      result := AdoptEmpty(arena);
      return Ok, result;
    }
    var arm;
    if d.left.count != 0 {
      status, arm := RemoveTail(arena, d.left);
      result := Deque(arm, d.right, d.count - 1);
    } else {
      status, arm := RemoveBase(arena, d.right);
      result := Deque(d.left, arm, d.count - 1);
    }
  }

  /** Drops the last value by at most one query. */
  method RemoveLast<T(!new)>(arena: Arena<T>, d: Deque) returns (status: Status, result: Deque)
    requires arena.Valid() && Handle(arena.records, d)
    modifies arena`queryCount, arena`lastHops, arena`maximumHops, arena`totalHops
    ensures arena.queryCount <= old(arena.queryCount) + 1
    ensures status.Empty? <==> d.count == 0
    ensures status.Overflow? <==> d.right.count == 0 && d.left.count == PTRDIFF_MAX + 1
    ensures !status.OutOfRange?
    ensures status.Ok? ==>
      && Handle(arena.records, result) && Contents(arena.records, result) == Contents(arena.records, d)[..d.count - 1]
  {
    result := d;
    if d.count == 0 {
      return Empty, result;
    }
    hide Arm, Window, MyersArena.Arena.Stored, MyersArena.Arena.Room;
    if d.count == 1 {
      result := AdoptEmpty(arena);
      return Ok, result;
    }
    var arm;
    if d.right.count != 0 {
      status, arm := RemoveTail(arena, d.right);
      result := Deque(d.left, arm, d.count - 1);
    } else {
      status, arm := RemoveBase(arena, d.left);
      result := Deque(arm, d.right, d.count - 1);
    }
  }

  /** Swapping the arms reverses the contents. */
  method Reverse<T(!new)>(arena: Arena<T>, d: Deque) returns (result: Deque)
    requires arena.Valid() && Handle(arena.records, d)
    ensures Handle(arena.records, result) && Contents(arena.records, result) == Rev(Contents(arena.records, d))
  {
    hide Arm, Window, MyersArena.Arena.Stored, MyersArena.Arena.Room;
    result := if d.count <= 1 then d else Deque(d.right, d.left, d.count);
    RevJoin(Rev(Window(arena.records, d.left)), Window(arena.records, d.right));
    RevTwice(Window(arena.records, d.left));
  }

  lemma RevJoin<T>(a: seq<T>, b: seq<T>)
    ensures Rev(a + b) == Rev(b) + Rev(a)
  {
  }

  lemma RevTwice<T>(a: seq<T>)
    ensures Rev(Rev(a)) == a && (|a| <= 1 ==> Rev(a) == a)
  {
    hide Rev;
    forall i | 0 <= i < |a| ensures Rev(Rev(a))[i] == a[i] {
      assert Rev(a)[|a| - 1 - i] == a[i];
    }
  }

  /** The node of a visible index, by at most one query. */
  method NodeAt<T(!new)>(arena: Arena<T>, d: Deque, index: nat) returns (status: Status, node: nat)
    requires arena.Valid() && Handle(arena.records, d) && index < d.count
    modifies arena`queryCount, arena`lastHops, arena`maximumHops, arena`totalHops
    ensures arena.queryCount <= old(arena.queryCount) + 1
    ensures index in {0, d.left.count - 1, d.left.count, d.count - 1} ==> arena.queryCount == old(arena.queryCount)
    ensures status.Ok? && node < arena.count
    ensures arena.records[node].value == Some(Contents(arena.records, d)[index])
  {
    hide Window, MyersArena.Arena.Stored, MyersArena.Arena.Room;
    if index < d.left.count {
      status, node := LeftNode(arena, d.left, index);
    } else {
      status, node := RightNode(arena, d.right, index - d.left.count);
    }
  }

  method LeftNode<T(!new)>(arena: Arena<T>, i: Interval, index: nat) returns (status: Status, node: nat)
    requires arena.Valid() && Arm(arena.records, i) && index < i.count
    modifies arena`queryCount, arena`lastHops, arena`maximumHops, arena`totalHops
    ensures arena.queryCount <= old(arena.queryCount) + 1
    ensures index in {0, i.count - 1} ==> arena.queryCount == old(arena.queryCount)
    ensures status.Ok? && node < arena.count
    ensures arena.records[node].value == Some(Window(arena.records, i)[i.count - 1 - index])
  {
    LabelAt(arena.records, i.tail, i.count, i.count - 1 - index);
    DeepestLevel(arena, i.tail);
    UpOne(arena.records, i.tail);
    hide Up, Labels, MyersArena.Arena.Stored, MyersArena.Arena.Room;
    if index == 0 {
      return Ok, i.tail;
    }
    if index == i.count - 1 {
      return Ok, i.base;
    }
    var depth;
    status, depth := arena.Depth(i.tail);
    var (s, target) := SubtractDepth(depth, index);
    if !s.Ok? {
      assert false;
    }
    status, node := AskAncestor(arena, i.tail, target);
  }

  method RightNode<T(!new)>(arena: Arena<T>, i: Interval, index: nat) returns (status: Status, node: nat)
    requires arena.Valid() && Arm(arena.records, i) && index < i.count
    modifies arena`queryCount, arena`lastHops, arena`maximumHops, arena`totalHops
    ensures arena.queryCount <= old(arena.queryCount) + 1
    ensures index in {0, i.count - 1} ==> arena.queryCount == old(arena.queryCount)
    ensures status.Ok? && node < arena.count
    ensures arena.records[node].value == Some(Window(arena.records, i)[index])
  {
    LabelAt(arena.records, i.tail, i.count, index);
    ArmFacts(arena.records, i);
    DeepestLevel(arena, i.tail);
    UpOne(arena.records, i.tail);
    hide Up, Labels, MyersArena.Arena.Stored, MyersArena.Arena.Room;
    if index == 0 {
      return Ok, i.base;
    }
    if index == i.count - 1 {
      return Ok, i.tail;
    }
    var depth;
    status, depth := arena.Depth(i.anchor);
    var (s1, above) := AddDepth(depth, index);
    if !s1.Ok? {
      assert false;
    }
    var (s2, target) := AddDepth(above, 1);
    if !s2.Ok? {
      assert false;
    }
    status, node := AskAncestor(arena, i.tail, target);
  }

  lemma JoinSlice<T>(a: seq<T>, b: seq<T>, index: nat, end: nat)
    requires index <= end <= |a| + |b|
    ensures var leftStart := if index < |a| then index else |a|;
      var leftEnd := if end < |a| then end else |a|;
      var rightStart := if index > |a| then index - |a| else 0;
      var rightEnd := if end > |a| then end - |a| else 0;
      (a + b)[index..end] == a[leftStart..leftEnd] + b[rightStart..rightEnd]
  {
  }

  /** The queries a slice may need: one for each end that is not an end of the deque. */
  function Ends(d: Deque, index: nat, count: nat): nat {
    (if index > 0 then 1 else 0) + (if index + count < d.count then 1 else 0)
  }

  /** How a window falls on the two arms. */
  function LeftStart(d: Deque, index: nat): (k: nat)
    ensures k <= d.left.count
  {
    if index < d.left.count then index else d.left.count
  }

  function RightStart(d: Deque, index: nat): (k: nat)
    requires index <= d.left.count + d.right.count
    ensures k <= d.right.count
  {
    if index > d.left.count then index - d.left.count else 0
  }

  /** Exactly when a slice of the deque cannot be computed within the machine's depths. */
  ghost predicate SliceOverflows<T>(rs: seq<Record<T>>, d: Deque, index: nat, end: nat)
    requires Handle(rs, d) && index <= end <= d.count
  {
    || LeftOverflows(d.left, LeftStart(d, index), LeftStart(d, end) - LeftStart(d, index))
    || RightOverflows(rs, d.right, RightStart(d, index), RightStart(d, end) - RightStart(d, index))
  }

  /** Exactly when one of the halves cannot be computed. */
  ghost predicate SplitOverflows<T>(rs: seq<Record<T>>, d: Deque, index: nat)
    requires Handle(rs, d)
  {
    index <= d.count && (SliceOverflows(rs, d, 0, index) || SliceOverflows(rs, d, index, d.count))
  }

  lemma SlicedContents<T>(rs: seq<Record<T>>, d: Deque, left: Interval, right: Interval, index: nat, end: nat)
    requires Handle(rs, d) && index <= end <= d.count && Arm(rs, left) && Arm(rs, right)
    requires Rev(Window(rs, left)) == Rev(Window(rs, d.left))[LeftStart(d, index)..LeftStart(d, end)]
    requires Window(rs, right) == Window(rs, d.right)[RightStart(d, index)..RightStart(d, end)]
    ensures Handle(rs, Deque(left, right, end - index))
    ensures Contents(rs, Deque(left, right, end - index)) == Contents(rs, d)[index..end]
  {
    hide Arm, Window, Rev;
    JoinSlice(Rev(Window(rs, d.left)), Window(rs, d.right), index, end);
  }

  /** Any window of the deque. */
  method ProduceSlice<T(!new)>(arena: Arena<T>, d: Deque, index: nat, count: nat) returns (status: Status, result: Deque)
    requires arena.Valid() && Handle(arena.records, d) && index + count <= d.count
    modifies arena`queryCount, arena`lastHops, arena`maximumHops, arena`totalHops
    ensures arena.queryCount <= old(arena.queryCount) + Ends(d, index, count)
    ensures status == if SliceOverflows(arena.records, d, index, index + count) then Overflow else Ok
    ensures index == 0 && count == d.count ==> result == d
    ensures status.Ok? ==>
      && Handle(arena.records, result)
      && Contents(arena.records, result) == Contents(arena.records, d)[index..index + count]
  {
    assert (index == 0 && count == d.count) || count == 0 ==> !SliceOverflows(arena.records, d, index, index + count);
    hide Arm, Window, Rev, Contents, SliceOverflows, WellLinked, MyersArena.Arena.Stored, MyersArena.Arena.Room;
    result := d;
    if index == 0 && count == d.count {
      return Ok, result;
    }
    if count == 0 {
      result := AdoptEmpty(arena);
      return Ok, result;
    }
    status, result := SliceArms(arena, d, index, index + count);
  }

  method SliceArms<T(!new)>(arena: Arena<T>, d: Deque, index: nat, end: nat) returns (status: Status, result: Deque)
    requires arena.Valid() && Handle(arena.records, d) && index < end <= d.count
    modifies arena`queryCount, arena`lastHops, arena`maximumHops, arena`totalHops
    ensures arena.queryCount <= old(arena.queryCount) + Ends(d, index, end - index)
    ensures status == if SliceOverflows(arena.records, d, index, end) then Overflow else Ok
    ensures status.Ok? ==>
      && Handle(arena.records, result) && Contents(arena.records, result) == Contents(arena.records, d)[index..end]
  {
    assert Arm(arena.records, d.left) && Arm(arena.records, d.right) && d.count == d.left.count + d.right.count;
    FewEnds(d, index, end - index);
    hide Arm, Window, Rev, Handle, Contents, LeftOverflows, RightOverflows, Asked, WellLinked, Ends, LeftStart, RightStart;
    hide MyersArena.Arena.Stored, MyersArena.Arena.Room;
    result := d;
    var ls, le, rs, re := LeftStart(d, index), LeftStart(d, end), RightStart(d, index), RightStart(d, end);
    var left, right;
    status, left := SliceLeft(arena, d.left, ls, le - ls);
    if !status.Ok? {
      return;
    }
    status, right := SliceRight(arena, d.right, rs, re - rs);
    if !status.Ok? {
      return;
    }
    SlicedContents(arena.records, d, left, right, index, end);
    result := Deque(left, right, end - index);
  }

  /** An end inside one arm leaves nothing to ask in the other. */
  lemma FewEnds(d: Deque, index: nat, count: nat)
    requires d.count == d.left.count + d.right.count && index + count <= d.count && count > 0
    ensures LeftStart(d, index) <= LeftStart(d, index + count) && RightStart(d, index) <= RightStart(d, index + count)
    ensures var l, r := LeftStart(d, index), RightStart(d, index);
      Asked(d.left, l, LeftStart(d, index + count) - l) + Asked(d.right, r, RightStart(d, index + count) - r)
      <= Ends(d, index, count)
  {
  }

  /** A slice takes at most two queries. */
  method Slice<T(!new)>(arena: Arena<T>, d: Deque, index: nat, count: nat) returns (status: Status, result: Deque)
    requires arena.Valid() && Handle(arena.records, d)
    modifies arena`queryCount, arena`lastHops, arena`maximumHops, arena`totalHops
    ensures arena.queryCount <= old(arena.queryCount) + 2
    ensures status.OutOfRange? <==> index + count > d.count
    ensures status.Overflow? <==> index + count <= d.count && SliceOverflows(arena.records, d, index, index + count)
    ensures !status.Empty? && (index == 0 && count == d.count ==> result == d)
    ensures status.Ok? ==>
      && Handle(arena.records, result)
      && Contents(arena.records, result) == Contents(arena.records, d)[index..index + count]
  {
    result := d;
    if index > d.count || count > d.count - index {
      return OutOfRange, result;
    }
    status, result := ProduceSlice(arena, d, index, count);
  }

  /** A split takes at most two queries for both halves together. */
  method SplitAt<T(!new)>(arena: Arena<T>, d: Deque, index: nat) returns (status: Status, prefix: Deque, suffix: Deque)
    requires arena.Valid() && Handle(arena.records, d)
    modifies arena`queryCount, arena`lastHops, arena`maximumHops, arena`totalHops
    ensures arena.queryCount <= old(arena.queryCount) + 2
    ensures status.OutOfRange? <==> index > d.count
    ensures status.Overflow? <==> SplitOverflows(arena.records, d, index)
    ensures !status.Empty?
    ensures status.Ok? ==>
      && Handle(arena.records, prefix) && Handle(arena.records, suffix)
      && Contents(arena.records, prefix) == Contents(arena.records, d)[..index]
      && Contents(arena.records, suffix) == Contents(arena.records, d)[index..]
  {
    hide Handle, Contents, MyersArena.Arena.Stored, MyersArena.Arena.Room;
    prefix, suffix := d, d;
    if index > d.count {
      return OutOfRange, prefix, suffix;
    }
    status, prefix := ProduceSlice(arena, d, 0, index);
    if !status.Ok? {
      return;
    }
    status, suffix := ProduceSlice(arena, d, index, d.count - index);
  }
}
