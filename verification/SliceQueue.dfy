/** The ancestral slice queue: a window of one path of a shared arena. */
module SliceQueue {
  import opened Machine
  import opened Options
  import opened AncestorLinks
  import opened AncestralLabels
  import opened MyersArena

  /** An immutable handle. An empty queue stays anchored at its tail. */
  datatype Queue = Queue(tail: nat, lowDepth: int, count: nat)

  ghost predicate Handle<T>(rs: seq<Record<T>>, q: Queue) {
    Spans(rs, q.tail, q.count) && q.lowDepth == rs[q.tail].links.depth - q.count + 1
  }

  ghost function Contents<T>(rs: seq<Record<T>>, q: Queue): (s: seq<T>)
    requires Handle(rs, q)
    ensures |s| == q.count
  {
    Labels(rs, q.tail, q.count)
  }

  /** Branches that share the arena never disturb a handle. */
  lemma HandleIsStable<T>(rs: seq<Record<T>>, later: seq<Record<T>>, q: Queue)
    requires Handle(rs, q) && WellLinked(later) && Prefix(rs, later)
    ensures Handle(later, q) && Contents(later, q) == Contents(rs, q)
  {
    LabelsAreStable(rs, later, q.tail, q.count);
  }

  /** The node of a visible index, by at most one query. */
  method NodeAt<T(!new)>(arena: Arena<T>, q: Queue, index: nat) returns (status: Status, node: nat)
    requires arena.Valid() && Handle(arena.records, q) && index < q.count
    modifies arena`queryCount, arena`lastHops, arena`maximumHops, arena`totalHops
    ensures status.Ok? && node < arena.count
    ensures arena.records[node].value == Some(Contents(arena.records, q)[index])
    ensures arena.queryCount <= old(arena.queryCount) + 1
    ensures index == q.count - 1 ==> arena.queryCount == old(arena.queryCount)
  {
    LabelAt(arena.records, q.tail, q.count, index);
    DeepestLevel(arena, q.tail);
    if index == q.count - 1 {
      return Ok, q.tail;
    }
    var (offset, depth) := AddDepth(q.lowDepth, index);
    if !offset.Ok? {
      assert false;
    }
    status, node := arena.AncestorAtDepth(q.tail, depth);
  }

  /** Appends by adding one leaf. Every other handle keeps its contents. */
  method AddLast<T(!new)>(arena: Arena<T>, q: Queue, value: T) returns (status: Status, result: Queue)
    requires arena.Valid() && Handle(arena.records, q)
    modifies arena`blocks, arena`blockCount, arena`count, arena`records, arena`Repr, arena.Repr
    ensures arena.Valid() && fresh(arena.Repr - old(arena.Repr)) && Prefix(old(arena.records), arena.records)
    ensures status == if old(arena.records[q.tail].links.depth < PTRDIFF_MAX && arena.count < SIZE_MAX) then Ok else Overflow
    ensures status.Ok? ==>
      && Handle(arena.records, result)
      && Contents(arena.records, result) == old(Contents(arena.records, q)) + [value]
  {
    result := q;
    DeepestLevel(arena, q.tail);
    LabelsOfLeaf(arena.records, q.tail, value, q.count);
    if q.count == SIZE_MAX {
      assert false;
    }
    var leaf;
    status, leaf := arena.AddLeaf(q.tail, value);
    if status.Ok? {
      result := Queue(leaf, q.lowDepth, q.count + 1);
    }
  }

  /** Removing the first value only raises the window's lower end. */
  method RemoveFirst<T(!new)>(arena: Arena<T>, q: Queue) returns (status: Status, result: Queue)
    requires arena.Valid() && Handle(arena.records, q)
    ensures status.Empty? <==> q.count == 0
    ensures status.Overflow? <==> q.count == 1 && arena.records[q.tail].links.depth == PTRDIFF_MAX
    ensures status.Ok? ==>
      && Handle(arena.records, result)
      && Contents(arena.records, result) == Contents(arena.records, q)[1..]
    ensures status.Empty? || status.Overflow? || status.Ok?
  {
    result := q;
    if q.count == 0 {
      return Empty, result;
    }
    status, result := Drop(arena, q, 1);
  }

  method RemoveLast<T(!new)>(arena: Arena<T>, q: Queue) returns (status: Status, result: Queue)
    requires arena.Valid() && Handle(arena.records, q)
    ensures status == if q.count == 0 then Empty else Ok
    ensures status.Ok? ==>
      && Handle(arena.records, result)
      && Contents(arena.records, result) == Contents(arena.records, q)[..q.count - 1]
  {
    result := q;
    if q.count == 0 {
      return Empty, result;
    }
    SpanParent(arena.records, q.tail, q.count);
    ParentLevel(arena.records, q.tail);
    var parent;
    status, parent := arena.Parent(q.tail);
    result := Queue(parent, q.lowDepth, q.count - 1);
  }

  method Drop<T(!new)>(arena: Arena<T>, q: Queue, count: nat) returns (status: Status, result: Queue)
    requires arena.Valid() && Handle(arena.records, q)
    ensures status.OutOfRange? <==> count > q.count
    ensures status.Overflow? <==> 0 < count == q.count && arena.records[q.tail].links.depth == PTRDIFF_MAX
    ensures status.Ok? ==>
      && Handle(arena.records, result)
      && Contents(arena.records, result) == Contents(arena.records, q)[count..]
    ensures !status.Empty?
  {
    result := q;
    if count > q.count {
      return OutOfRange, result;
    }
    if count == 0 {
      return Ok, result;
    }
    DeepestLevel(arena, q.tail);
    var (offset, low) := AddDepth(q.lowDepth, count);
    if !offset.Ok? {
      return Overflow, result;
    }
    LabelsSuffix(arena.records, q.tail, q.count - count, count);
    return Ok, Queue(q.tail, low, q.count - count);
  }

  /** Any window, by at most one query. Only a tail at the deepest level overflows. */
  method Slice<T(!new)>(arena: Arena<T>, q: Queue, index: nat, count: nat) returns (status: Status, result: Queue)
    requires arena.Valid() && Handle(arena.records, q)
    modifies arena`queryCount, arena`lastHops, arena`maximumHops, arena`totalHops
    ensures status.OutOfRange? <==> index + count > q.count
    ensures status.Overflow? <==> index + count <= q.count && !(index == 0 && count == q.count)
                                  && arena.records[q.tail].links.depth == PTRDIFF_MAX
    ensures status.Ok? ==>
      && Handle(arena.records, result)
      && Contents(arena.records, result) == Contents(arena.records, q)[index..index + count]
    ensures arena.queryCount <= old(arena.queryCount) + 1 && !status.Empty?
    ensures index + count == q.count ==> arena.queryCount == old(arena.queryCount)
  {
    result := q;
    if index > q.count || count > q.count - index {
      return OutOfRange, result;
    }
    if index == 0 && count == q.count {
      return Ok, result;
    }
    DeepestLevel(arena, q.tail);
    LabelsSlice(arena.records, q.tail, q.count, index, count);
    SpanUp(arena.records, q.tail, index + count, q.count - index - count);
    hide Spans, Labels;
    var (o1, low) := AddDepth(q.lowDepth, index);
    if !o1.Ok? {
      return Overflow, result;
    }
    var (o2, end) := AddDepth(low, count);
    if !o2.Ok? {
      return Overflow, result;
    }
    var (o3, whole) := AddDepth(q.lowDepth, q.count);
    if !o3.Ok? {
      return Overflow, result;
    }
    var tail := q.tail;
    if end - 1 != whole - 1 {
      status, tail := arena.AncestorAtDepth(q.tail, end - 1);
    }
    return Ok, Queue(tail, low, count);
  }

  /** Splitting gives the two halves of the contents. */
  method SplitAt<T(!new)>(arena: Arena<T>, q: Queue, index: nat) returns (status: Status, left: Queue, right: Queue)
    requires arena.Valid() && Handle(arena.records, q)
    modifies arena`queryCount, arena`lastHops, arena`maximumHops, arena`totalHops
    ensures status.OutOfRange? <==> index > q.count
    ensures status.Overflow? <==> index <= q.count && 0 < q.count && arena.records[q.tail].links.depth == PTRDIFF_MAX
    ensures !status.Empty?
    ensures status.Ok? ==>
      && Handle(arena.records, left) && Handle(arena.records, right)
      && Contents(arena.records, left) == Contents(arena.records, q)[..index]
      && Contents(arena.records, right) == Contents(arena.records, q)[index..]
    ensures arena.queryCount <= old(arena.queryCount) + 1
  {
    hide Handle, Contents;
    left, right := q, q;
    if index > q.count {
      return OutOfRange, left, right;
    }
    if index < q.count {
      status, left := Slice(arena, q, 0, index);
      if !status.Ok? {
        return;
      }
    }
    status, right := Drop(arena, q, index);
  }
}
