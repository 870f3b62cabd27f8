/** The arena itself: records in blocks of sizes 1, 3, 5, ... behind a growing directory, so that block b
    covers the nodes b * b up to (b + 1) * (b + 1) and a published record never moves. */
module MyersArena {
  import opened Machine
  import opened Options
  import opened SkewBinary
  import opened SquareRoot
  import opened AncestorLinks

  datatype Status = Ok | OutOfRange | Overflow | Empty

  const PTRDIFF_MAX: nat := 0x7fff_ffff_ffff_ffff
  const PTRDIFF_MIN: int := -0x8000_0000_0000_0000
  /** A saturating 64-bit counter. */
  type Counter = n: nat | n < WORD

  const INITIAL_DIRECTORY: nat := 8
  const RECORD_SIZE: nat := 40

  function SaturatingAdd(value: Counter, increment: nat): (r: Counter)
    ensures r <= value + increment && (r != value + increment ==> r == SIZE_MAX)
  {
    if value + increment > SIZE_MAX then SIZE_MAX else value + increment
  }

  /** The node stored at an offset of a block. */
  ghost function At(block: nat, offset: nat): nat {
    block * block + offset
  }

  /** How many blocks hold the nodes below count, with at most one block of slack. */
  ghost predicate Sized(blockCount: nat, count: nat) {
    if blockCount == 0 then count == 0
    else (blockCount - 1) * (blockCount - 1) <= count <= blockCount * blockCount
  }

  lemma Addressed(index: nat, blockCount: nat, count: nat, root: nat)
    requires Sized(blockCount, count) && index <= count && IsRoot(index, root)
    ensures index < count ==> root < blockCount
    ensures root <= blockCount && (root == blockCount <==> index == blockCount * blockCount)
    ensures root * root <= index && index - root * root < 2 * root + 1 && At(root, index - root * root) == index
    ensures root == blockCount ==> index == count && Sized(blockCount + 1, count)
  {
    if root > blockCount { SquareOrder(blockCount + 1, root); }
    if root < blockCount { SquareOrder(root + 1, blockCount); }
    assert (root + 1) * (root + 1) == root * root + 2 * root + 1;
  }

  /** No two slots hold the same node. */
  lemma OneAddress(b: nat, o: nat, c: nat, p: nat)
    requires o < 2 * b + 1 && p < 2 * c + 1 && At(b, o) == At(c, p)
    ensures b == c && o == p
  {
    assert (b + 1) * (b + 1) == b * b + 2 * b + 1 && (c + 1) * (c + 1) == c * c + 2 * c + 1;
    RootIsUnique(At(b, o), b, c);
  }

  lemma RoomAfter(blockCount: nat, count: nat)
    requires Sized(blockCount, count) && count < blockCount * blockCount
    ensures Sized(blockCount, count + 1)
  {
  }

  /** A block number is far below the machine word. */
  lemma BlockBound(blockCount: nat, count: nat)
    requires Sized(blockCount, count) && count < WORD
    ensures blockCount <= 0x1_0000_0000
  {
    PowerWord();
    if blockCount > 0x1_0000_0000 { SquareOrder(0x1_0000_0000, blockCount - 1); }
  }

  /** Directory and block sizes never reach the overflow exits. */
  lemma SizesFit(blockCount: nat, capacity: nat)
    requires blockCount <= 0x1_0000_0000 && capacity <= 2 * blockCount
    ensures capacity <= SIZE_MAX / 2 && !MultiplyOverflows(capacity, POINTER_SIZE)
    ensures !MultiplyOverflows(INITIAL_DIRECTORY, POINTER_SIZE)
    ensures blockCount <= (SIZE_MAX - 1) / 2 && !MultiplyOverflows(2 * blockCount + 1, RECORD_SIZE)
  {
    MultiplyOverflowsMeans(capacity, POINTER_SIZE);
    MultiplyOverflowsMeans(INITIAL_DIRECTORY, POINTER_SIZE);
    MultiplyOverflowsMeans(2 * blockCount + 1, RECORD_SIZE);
  }

  class Arena<T(!new)> {
    var blocks: array<array?<Record<T>>>
    var blockCount: nat
    var count: nat
    var queryCount: Counter
    var lastHops: nat
    var maximumHops: nat
    var totalHops: Counter
    ghost var records: seq<Record<T>>
    ghost var Repr: set<object>

    /** Every slot of every block below count holds its record. */
    ghost predicate Stored()
      reads this`blocks, this`blockCount, this`count, this`records, this`Repr, Repr
    {
      && this !in Repr && blocks in Repr && blockCount <= blocks.Length && count <= |records|
      && (forall b :: 0 <= b < blockCount ==>
           blocks[b] != null && blocks[b] in Repr && blocks[b].Length == 2 * b + 1)
      && (forall b, o :: 0 <= b < blockCount && 0 <= o < 2 * b + 1 && At(b, o) < count ==>
           blocks[b][o] == records[At(b, o)])
    }

    ghost predicate Room()
      reads this`blocks, this`blockCount, this`count, this`Repr, Repr
    {
      && blocks in Repr && Sized(blockCount, count) && count <= SIZE_MAX
      && (blocks.Length <= INITIAL_DIRECTORY || blocks.Length <= 2 * blockCount)
    }

    ghost predicate Valid()
      reads this`blocks, this`blockCount, this`count, this`records, this`Repr, Repr
    {
      && this !in Repr && Stored() && Room() && count == |records| && WellLinked(records)
      && (forall k :: 0 <= k < |records| ==> records[k].links.depth <= PTRDIFF_MAX)
    }

    method ReadSlot(index: nat) returns (record: Record<T>)
      requires Stored() && Room() && index < count
      ensures record == records[index]
    {
      var block := IntegerSquareRoot(index);
      Addressed(index, blockCount, count, block);
      hide Room, IsRoot, At;
      record := blocks[block][index - block * block];
    }

    /** Doubles the directory. The blocks stay where they are. */
    method GrowDirectory() returns (status: Status)
      requires Stored() && Room() && blockCount == blocks.Length
      modifies this`blocks, this`Repr
      ensures status.Ok? && Stored() && blockCount < blocks.Length
      ensures blocks.Length == INITIAL_DIRECTORY || blocks.Length == 2 * blockCount
      ensures fresh(blocks) && Repr == old(Repr) + {blocks}
      ensures forall b :: 0 <= b < blockCount ==> blocks[b] == old(blocks[b])
    {
      BlockBound(blockCount, count);
      SizesFit(blockCount, 2 * blockCount);
      hide Room, At, MultiplyOverflows;
      if blocks.Length > SIZE_MAX / 2 {
        assert false;
      }
      var capacity := if blocks.Length == 0 then INITIAL_DIRECTORY else blocks.Length * 2;
      if MultiplyOverflows(capacity, POINTER_SIZE) {
        assert false;
      }
      var directory := new array?<Record<T>>[capacity];
      forall b | 0 <= b < blockCount { directory[b] := blocks[b]; }
      blocks := directory;
      Repr := Repr + {directory};
      status := Ok;
    }

    /** Adds the block after the last one. */
    method AddBlock() returns (status: Status)
      requires Stored() && Sized(blockCount, count) && count == blockCount * blockCount <= SIZE_MAX
      requires blockCount < blocks.Length
      modifies this`blockCount, this`Repr, blocks
      ensures status.Ok? && Stored() && blockCount == old(blockCount) + 1
      ensures fresh(Repr - old(Repr)) && old(Repr) <= Repr
      ensures forall b :: 0 <= b < old(blockCount) ==> blocks[b] == old(blocks[b])
    {
      BlockBound(blockCount, count);
      SizesFit(blockCount, 0);
      var block := blockCount;
      hide MultiplyOverflows, Sized;
      if block > (SIZE_MAX - 1) / 2 {
        assert false;
      }
      var length := 2 * block + 1;
      if MultiplyOverflows(length, RECORD_SIZE) {
        assert false;
      }
      var slots := new Record<T>[length](_ => Record(BOTTOM_LINKS, None));
      blocks[block] := slots;
      blockCount := block + 1;
      Repr := Repr + {slots};
      status := Ok;
    }

    /** Makes room for the record at index count. */
    method Reserve() returns (status: Status)
      requires Stored() && Room() && count < SIZE_MAX
      modifies this`blocks, this`blockCount, this`Repr, blocks
      ensures status.Ok? && Stored() && Room() && count < blockCount * blockCount
      ensures old(blockCount) <= blockCount && fresh(Repr - old(Repr)) && old(Repr) <= Repr
      ensures forall b :: 0 <= b < old(blockCount) ==> blocks[b] == old(blocks[b])
    {
      var block := IntegerSquareRoot(count);
      Addressed(count, blockCount, count, block);
      hide IsRoot, Stored;
      if block != blockCount {
        return Ok;
      }
      if blockCount == blocks.Length {
        status := GrowDirectory();
      }
      status := AddBlock();
    }

    /** Writes the record of node count and publishes it. */
    method Publish(record: Record<T>)
      requires Stored() && Room() && count == |records| < blockCount * blockCount && count < SIZE_MAX
      modifies this`count, this`records, Repr - {blocks}
      ensures Stored() && Room() && count == old(count) + 1 && records == old(records) + [record]
    {
      var block := IntegerSquareRoot(count);
      Addressed(count, blockCount, count, block);
      var offset := count - block * block;
      RoomAfter(blockCount, count);
      ghost var index := count;
      forall b: nat, o: nat {:trigger At(b, o)} | o < 2 * b + 1 && At(b, o) == index ensures b == block && o == offset {
        OneAddress(b, o, block, offset);
      }
      hide IsRoot, At, Sized;
      records := records + [record];
      blocks[block][offset] := record;
      count := count + 1;
    }

    constructor ()
      ensures Valid() && fresh(Repr) && records == [Record(BOTTOM_LINKS, None)] && queryCount == 0
    {
      blocks := new array?<Record<T>>[0];
      blockCount, count, queryCount, lastHops, maximumHops, totalHops := 0, 0, 0, 0, 0, 0;
      records, Repr := [], {};
      new;
      Repr := {blocks};
      var _ := Reserve();
      Publish(Record(BOTTOM_LINKS, None));
    }

    /** Adds a leaf below any published node. The jump length never overflows, so only a full arena or a full
        depth is refused. */
    method AddLeaf(parent: nat, value: T) returns (status: Status, leaf: nat)
      requires Valid()
      modifies this`blocks, this`blockCount, this`count, this`records, this`Repr, Repr
      ensures Valid() && fresh(Repr - old(Repr)) && old(Repr) <= Repr
      ensures status == (
        if parent >= old(count) then OutOfRange
        else if old(records)[parent].links.depth == PTRDIFF_MAX || old(count) == SIZE_MAX then Overflow
        else Ok)
      ensures status.Ok? ==> leaf == old(count) && records == old(records) + [Leaf(old(records), parent, value)]
      ensures !status.Ok? ==> records == old(records)
      ensures Prefix(old(records), records)
    {
      leaf := 0;
      if parent >= count {
        PrefixSelf(records);
        return OutOfRange, leaf;
      }
      hide Linked, Prefix, Sized, At;
      var record := ReadSlot(parent);
      var parentLinks := record.links;
      if parentLinks.depth == PTRDIFF_MAX || count == SIZE_MAX {
        PrefixSelf(records);
        return Overflow, leaf;
      }
      var skip, distance;
      status, skip, distance := ChooseJump(parent, parentLinks);
      LeafStaysLinked(records, parent, value);
      status := Reserve();
      leaf := count;
      Publish(Record(Links(parent, skip, parentLinks.depth + 1, distance), Some(value)));
    }

    method ChooseJump(parent: nat, links: Links) returns (status: Status, skip: nat, distance: nat)
      requires Valid() && parent < count && links == records[parent].links
      ensures status.Ok? && (skip, distance) == Jump(records, parent)
    {
      if parent == 0 || links.skip == 0 {
        return Ok, parent, 1;
      }
      JumpFits(records, parent);
      hide Stored, Room, Linked;
      var record := ReadSlot(links.skip);
      var skipped := record.links;
      if skipped.distance > links.distance {
        return Ok, parent, 1;
      }
      if links.distance > SIZE_MAX - skipped.distance || links.distance + skipped.distance == SIZE_MAX {
        assert false;
      }
      return Ok, skipped.skip, 1 + links.distance + skipped.distance;
    }

    method Depth(node: nat) returns (status: Status, depth: int)
      requires Valid()
      ensures status == if node < count then Ok else OutOfRange
      ensures status.Ok? ==> depth == records[node].links.depth
    {
      depth := 0;
      if node >= count {
        return OutOfRange, depth;
      }
      var record := ReadSlot(node);
      return Ok, record.links.depth;
    }

    method Parent(node: nat) returns (status: Status, parent: nat)
      requires Valid()
      ensures status == if 0 < node < count then Ok else OutOfRange
      ensures status.Ok? ==> parent == records[node].links.parent
    {
      parent := 0;
      if node == 0 || node >= count {
        return OutOfRange, parent;
      }
      var record := ReadSlot(node);
      return Ok, record.links.parent;
    }

    /** The walk of an ancestor query: the answer is the node that parent steps reach, within the hop bound. */
    method Walk(start: nat, depth: int) returns (node: nat, hops: nat)
      requires Valid() && start < count && -1 <= depth <= records[start].links.depth
      ensures node == Up(records, start, records[start].links.depth - depth)
      ensures hops == QueryHops(records, start, records[start].links.depth - depth) <= 3 * Log2(records[start].links.depth + 2)
    {
      hide Stored, Room, WellLinked, Backward, Up, QueryHops, Log2, IsRoot, Sized, At;
      node, hops := start, 0;
      var record := ReadSlot(node);
      var current := record.links;
      ghost var distance := current.depth - depth;
      LinkedIsBackward(records);
      QueryBound(records, start, distance);
      while current.depth > depth
        invariant node < count && current == records[node].links && depth <= current.depth
        invariant Up(records, node, current.depth - depth) == Up(records, start, distance)
        invariant hops + QueryHops(records, node, current.depth - depth) == QueryHops(records, start, distance)
        decreases current.depth
      {
        var remaining := current.depth - depth;
        QueryStep(records, node, remaining);
        node := if current.distance != 0 && current.distance <= remaining then current.skip else current.parent;
        record := ReadSlot(node);
        current := record.links;
        hops := hops + 1;
      }
      UpZero(records, node);
    }

    /** The ancestor of a node at a depth, and the counters that record the query. */
    method AncestorAtDepth(node: nat, depth: int) returns (status: Status, ancestor: nat)
      requires Valid()
      modifies this`queryCount, this`lastHops, this`maximumHops, this`totalHops
      ensures status == if node < count && -1 <= depth <= records[node].links.depth then Ok else OutOfRange
      ensures status.Ok? ==> ancestor == Up(records, node, records[node].links.depth - depth)
      ensures status.Ok? ==> lastHops == QueryHops(records, node, records[node].links.depth - depth)
      ensures status.Ok? ==> lastHops <= 3 * Log2(records[node].links.depth + 2)
      ensures maximumHops == if status.Ok? && lastHops > old(maximumHops) then lastHops else old(maximumHops)
      ensures queryCount == if status.Ok? then SaturatingAdd(old(queryCount), 1) else old(queryCount)
      ensures totalHops == if status.Ok? then SaturatingAdd(old(totalHops), lastHops) else old(totalHops)
      ensures !status.Ok? ==> lastHops == old(lastHops)
    {
      ancestor := 0;
      if node >= count {
        return OutOfRange, ancestor;
      }
      var record := ReadSlot(node);
      if depth < -1 || depth > record.links.depth {
        return OutOfRange, ancestor;
      }
      hide Stored, Room, WellLinked, Up, QueryHops, Log2;
      var hops;
      ancestor, hops := Walk(node, depth);
      queryCount := SaturatingAdd(queryCount, 1);
      lastHops := hops;
      totalHops := SaturatingAdd(totalHops, hops);
      if hops > maximumHops {
        maximumHops := hops;
      }
      status := Ok;
    }
  }

  lemma LinkedIsBackward<T>(rs: seq<Record<T>>)
    requires WellLinked(rs)
    ensures Backward(rs) && forall n :: 0 <= n < |rs| ==> Level(rs, n) >= 0
  {
    forall n | 0 <= n < |rs| ensures Level(rs, n) >= 0 { LevelFacts(rs, n); }
  }

  lemma PrefixSelf<T>(rs: seq<Record<T>>)
    ensures Prefix(rs, rs)
  {
  }

  lemma UpZero<T>(rs: seq<Record<T>>, n: nat)
    requires WellLinked(rs) && n < |rs|
    ensures Backward(rs) && Level(rs, n) >= 0 && Up(rs, n, 0) == n && QueryHops(rs, n, 0) == 0
  {
    LevelFacts(rs, n);
    ChainIsCanonical(rs, n);
  }

  // ----- Depth arithmetic -----

  function AddDepth(depth: int, offset: nat): (r: (Status, int))
    ensures r.0.Ok? <==> offset <= PTRDIFF_MAX && depth + offset <= PTRDIFF_MAX
    ensures r.0.Ok? ==> r.1 == depth + offset
    ensures r.0.Ok? || r.0.Overflow?
  {
    if offset > PTRDIFF_MAX || depth > PTRDIFF_MAX - offset then (Overflow, 0) else (Ok, depth + offset)
  }

  function SubtractDepth(depth: int, offset: nat): (r: (Status, int))
    ensures r.0.Ok? <==> offset <= PTRDIFF_MAX && depth - offset >= PTRDIFF_MIN
    ensures r.0.Ok? ==> r.1 == depth - offset
    ensures r.0.Ok? || r.0.Overflow?
  {
    if offset > PTRDIFF_MAX || depth < PTRDIFF_MIN + offset then (Overflow, 0) else (Ok, depth - offset)
  }

  lemma DeepestLevel<T(!new)>(arena: Arena<T>, n: nat)
    requires arena.Valid() && n < arena.count
    ensures -1 <= arena.records[n].links.depth <= PTRDIFF_MAX
    ensures arena.records[n].links.depth == -1 <==> n == 0
  {
    LevelFacts(arena.records, n);
  }
}
