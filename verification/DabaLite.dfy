/** The DABA Lite sliding-window aggregate: six cursors over a doubly linked list of 64-slot blocks,
    updated in place with constant work per operation. */
module DabaLite {
  import opened Machine
  import opened Options
  import opened DabaRegions

  const BLOCK_CAPACITY: nat := 64
  const MAX_OPERATION_TEMPS: nat := 7
  const SCRATCH_COUNT: nat := 8

  datatype Status = Ok | InvalidArgument | Overflow | EmptyWindow

  /** A slot is occupied exactly when it holds a value. The ordinal is the block's place in the
      unbounded sequence of blocks ever linked, so absolute positions survive trimming. */
  class Block<V> {
    var previous: Block?<V>
    var next: Block?<V>
    const slots: array<Option<V>>
    ghost const ordinal: nat

    constructor (ghost ordinal: nat)
      ensures previous == null && next == null && this.ordinal == ordinal
      ensures fresh(slots) && slots.Length == BLOCK_CAPACITY
      ensures forall j :: 0 <= j < BLOCK_CAPACITY ==> slots[j] == None
    {
      previous, next := null, null;
      slots := new Option<V>[BLOCK_CAPACITY](_ => None);
      this.ordinal := ordinal;
    }
  }

  datatype Cursor<V> = Cursor(block: Block<V>, index: nat)
  {
    ghost function Pos(): int {
      BLOCK_CAPACITY * block.ordinal + index
    }
  }

  datatype Write<V> = NoWrite | Write(position: Cursor<V>, value: V)

  /** A staged fixup; nothing is changed until it is applied. */
  datatype Plan<V> = Plan(
    l: Cursor<V>, r: Cursor<V>, a: Cursor<V>, b: Cursor<V>,
    aggregateRA: V, aggregateB: V, first: Write<V>, second: Write<V>)

  /** The temporaries of one operation: the scratch slots filled so far, and the operands of every call of the
      monoid's operation. */
  datatype Pool<V> = Pool(scratch: seq<V>, combined: seq<(V, V)>)

  /** The pool after one more slot is filled; a full pool reserves nothing. */
  ghost predicate Fills<V>(pool: Pool<V>, next: Pool<V>, index: Option<nat>, v: V) {
    && (index.Some? <==> |pool.scratch| < SCRATCH_COUNT)
    && (if index.None? then next.scratch == pool.scratch
        else index.value == |pool.scratch| && next.scratch == pool.scratch + [v])
  }

  function PoolReserve<V>(pool: Pool<V>): Option<nat> {
    if |pool.scratch| >= SCRATCH_COUNT then None else Some(|pool.scratch|)
  }

  function PoolCopy<V>(pool: Pool<V>, source: V): (r: (Pool<V>, Option<nat>))
    ensures Fills(pool, r.0, r.1, source) && r.0.combined == pool.combined
  {
    var index := PoolReserve(pool);
    (if index.None? then pool else pool.(scratch := pool.scratch + [source]), index)
  }

  function PoolIdentity<V>(m: Monoid<V>, pool: Pool<V>): (r: (Pool<V>, Option<nat>))
    ensures Fills(pool, r.0, r.1, m.identity) && r.0.combined == pool.combined
  {
    var index := PoolReserve(pool);
    (if index.None? then pool else pool.(scratch := pool.scratch + [m.identity]), index)
  }

  /** The only place where an update calls the monoid's combine. */
  function PoolCombine<V>(m: Monoid<V>, pool: Pool<V>, left: V, right: V): (r: (Pool<V>, Option<nat>))
    ensures Fills(pool, r.0, r.1, m.combine(left, right))
    ensures r.0.combined == pool.combined + if r.1.None? then [] else [(left, right)]
  {
    var index := PoolReserve(pool);
    if index.None? then (pool, index)
    else (Pool(pool.scratch + [m.combine(left, right)], pool.combined + [(left, right)]), index)
  }

  class Window<V(!new)> {
    const m: Monoid<V>
    var first: Block<V>
    var f: Cursor<V>
    var l: Cursor<V>
    var r: Cursor<V>
    var a: Cursor<V>
    var b: Cursor<V>
    var e: Cursor<V>
    var count: nat
    var aggregateRA: V
    var aggregateB: V
    ghost var chain: seq<Block<V>>
    ghost var window: seq<V>

    // ----- Representation -----

    ghost function Slots(): set<array<Option<V>>>
      reads `chain
    {
      set k | k in chain :: k.slots
    }

    /** The chain is a doubly linked list starting at `first`, with consecutive ordinals. */
    ghost predicate Linked()
      reads `chain, `first, chain
    {
      && chain != [] && first == chain[0]
      && (forall i :: 0 <= i < |chain| ==> chain[i].slots.Length == BLOCK_CAPACITY)
      && (forall i :: 0 <= i < |chain| ==> chain[i].ordinal == chain[0].ordinal + i)
      && (forall i :: 0 <= i < |chain| - 1 ==> chain[i].next == chain[i + 1])
      && (forall i :: 0 < i < |chain| ==> chain[i].previous == chain[i - 1])
      && chain[0].previous == null && chain[|chain| - 1].next == null
      && (forall i, j :: 0 <= i < j < |chain| ==> chain[i].slots != chain[j].slots)
    }

    ghost predicate On(c: Cursor<V>)
      reads `chain
    {
      c.block in chain && c.index < BLOCK_CAPACITY
    }

    ghost function Bounds(): Regions
      reads this
    {
      Regions(f.Pos(), l.Pos(), r.Pos(), a.Pos(), b.Pos(), e.Pos())
    }

    ghost predicate CursorsOk()
      reads this
    {
      && On(f) && On(l) && On(r) && On(a) && On(b) && On(e)
      && chain != [] && f.block == chain[0] && e.block == chain[|chain| - 1]
    }

    /** Slots inside the given window hold what their region dictates. */
    ghost predicate Holds(g: Regions, w: seq<V>)
      reads `chain, Slots()
    {
      forall k: Block<V>, j {:trigger k.slots[j]} ::
        (k in chain && 0 <= j < k.slots.Length && g.f <= BLOCK_CAPACITY * k.ordinal + j < g.e ==>
           k.slots[j] == Expected(m, g, w, BLOCK_CAPACITY * k.ordinal + j))
    }

    /** Slots outside the given window are free. */
    ghost predicate FreeOutside(lo: int, hi: int)
      reads `chain, Slots()
    {
      forall k: Block<V>, j {:trigger k.slots[j]} ::
        (k in chain && 0 <= j < k.slots.Length && !(lo <= BLOCK_CAPACITY * k.ordinal + j < hi) ==> k.slots[j] == None)
    }

    ghost predicate Valid()
      reads this, chain, Slots()
    {
      && Lawful(m) && Linked() && CursorsOk()
      && Bounds().Balanced() && |window| == count == e.Pos() - f.Pos() && count <= SIZE_MAX
      && Holds(Bounds(), window) && FreeOutside(f.Pos(), e.Pos())
      && AggregatesOk(m, Bounds(), window, aggregateRA, aggregateB)
    }

    constructor (m: Monoid<V>)
      requires Lawful(m)
      ensures Valid() && window == [] && this.m == m && fresh(chain) && fresh(Slots())
    {
      hide Lawful, AggregatesOk, Expected;
      this.m := m;
      var block := new Block<V>(0);
      first, chain, window := block, [block], [];
      var start := Cursor(block, 0);
      f, l, r, a, b, e := start, start, start, start, start, start;
      count := 0;
      aggregateRA, aggregateB := m.identity, m.identity;
      EmptyAggregates(m, 0);
    }

    // ----- Cursor movement -----

    /** Cursors on the chain are determined by their absolute positions. */
    lemma CursorsByPosition(c: Cursor<V>, d: Cursor<V>)
      requires Linked() && On(c) && On(d)
      ensures c == d <==> c.Pos() == d.Pos()
    {
      var i :| 0 <= i < |chain| && chain[i] == c.block;
      var j :| 0 <= j < |chain| && chain[j] == d.block;
      assert c.Pos() == BLOCK_CAPACITY * (chain[0].ordinal + i) + c.index;
      assert d.Pos() == BLOCK_CAPACITY * (chain[0].ordinal + j) + d.index;
    }

    lemma Reach(c: Cursor<V>)
      requires Linked() && On(c)
      ensures BLOCK_CAPACITY * chain[0].ordinal <= c.Pos() < BLOCK_CAPACITY * (chain[0].ordinal + |chain|)
    {
      var i :| 0 <= i < |chain| && chain[i] == c.block;
    }

    static function Advance(c: Cursor<V>): Option<Cursor<V>>
      reads c.block
    {
      if c.index + 1 < BLOCK_CAPACITY then Some(Cursor(c.block, c.index + 1))
      else if c.block.next == null then None
      else Some(Cursor(c.block.next, 0))
    }

    static function Retreat(c: Cursor<V>): Option<Cursor<V>>
      reads c.block
    {
      if c.index != 0 then Some(Cursor(c.block, c.index - 1))
      else if c.block.previous == null then None
      else Some(Cursor(c.block.previous, BLOCK_CAPACITY - 1))
    }

    /** Advancing fails exactly at the end of the chain, and otherwise moves one position right. */
    lemma AdvanceFacts(c: Cursor<V>)
      requires Linked() && On(c)
      ensures Advance(c).Some? <==> c.Pos() + 1 < BLOCK_CAPACITY * (chain[0].ordinal + |chain|)
      ensures Advance(c).Some? ==> On(Advance(c).value) && Advance(c).value.Pos() == c.Pos() + 1
    {
      var i :| 0 <= i < |chain| && chain[i] == c.block;
      Reach(c);
      if i + 1 < |chain| { assert chain[i].next == chain[i + 1]; }
    }

    /** Retreating fails exactly at the start of the chain, and otherwise moves one position left. */
    lemma RetreatFacts(c: Cursor<V>)
      requires Linked() && On(c)
      ensures Retreat(c).Some? <==> c.Pos() > BLOCK_CAPACITY * chain[0].ordinal
      ensures Retreat(c).Some? ==> On(Retreat(c).value) && Retreat(c).value.Pos() == c.Pos() - 1
    {
      var i :| 0 <= i < |chain| && chain[i] == c.block;
      Reach(c);
      if i > 0 { assert chain[i].previous == chain[i - 1]; }
    }

    lemma ReadAt(c: Cursor<V>, g: Regions, w: seq<V>)
      requires Linked() && On(c) && Holds(g, w) && g.f <= c.Pos() < g.e
      ensures c.index < c.block.slots.Length && c.block.slots[c.index] == Expected(m, g, w, c.Pos())
    {
    }

    // ----- Queries -----

    /** The aggregate is the ordered product of exactly the values in the window. */
    method Aggregate() returns (status: Status, result: V)
      requires Valid()
      ensures status.Ok? && result == Product(m, window)
    {
      if count == 0 {
        return Ok, m.identity;
      }
      QueryIsWindowProduct(m, Bounds(), window, aggregateRA, aggregateB);
      ReadAt(f, Bounds(), window);
      hide *;
      var front := f.block.slots[f.index];
      if front.None? {
        assert false;
      }
      return Ok, m.combine(front.value, aggregateB);
    }

    /** The chain never holds more blocks than the window spans. */
    lemma BlockCount()
      requires Valid()
      ensures |chain| == (f.index + count) / BLOCK_CAPACITY + 1
      ensures 1 <= BLOCK_CAPACITY * |chain| - count <= 2 * BLOCK_CAPACITY - 1
    {
      assert e.block.ordinal == f.block.ordinal + |chain| - 1;
      assert f.index + count == BLOCK_CAPACITY * (|chain| - 1) + e.index;
    }

    // ----- Fixup -----

    /** The staged plan describes the fixed-up regions: where the boundaries go and which slots change. */
    ghost predicate Describes(plan: Plan<V>, g: Regions, w: seq<V>)
      reads `chain
    {
      var h := Fixed(g);
      && On(plan.l) && On(plan.r) && On(plan.a) && On(plan.b)
      && plan.l.Pos() == h.l && plan.r.Pos() == h.r && plan.a.Pos() == h.a && plan.b.Pos() == h.b
      && AggregatesOk(m, h, w, plan.aggregateRA, plan.aggregateB)
      && (plan.first.Write? <==> plan.second.Write?)
      && (plan.first.NoWrite? ==> forall p :: Expected(m, h, w, p) == Expected(m, g, w, p))
      && (plan.first.Write? ==>
            && On(plan.first.position) && On(plan.second.position)
            && g.f <= plan.first.position.Pos() < plan.second.position.Pos() < g.e
            && forall p :: Expected(m, h, w, p) ==
                 if p == plan.first.position.Pos() then Some(plan.first.value)
                 else if p == plan.second.position.Pos() then Some(plan.second.value)
                 else Expected(m, g, w, p))
    }

    ghost predicate Fixable(front: Cursor<V>, end: Cursor<V>, g: Regions, w: seq<V>, ra: V, ab: V)
      reads this, chain, Slots()
    {
      && Lawful(m) && Linked() && On(front) && On(l) && On(r) && On(a) && On(b) && On(end)
      && g == Regions(front.Pos(), l.Pos(), r.Pos(), a.Pos(), b.Pos(), end.Pos())
      && g.NeedsFixup() && (g.f == g.b ==> g.e <= g.f + 1) && |w| == g.e - g.f
      && Holds(g, w) && AggregatesOk(m, g, w, ra, ab)
      && end.block == chain[|chain| - 1]
    }

    /** Stages one fixup. Every failure exit is unreachable; at most five scratch slots are filled, and combine
        is called twice when slots are rewritten and not at all otherwise. */
    method ComputeFixup(front: Cursor<V>, end: Cursor<V>, ra: V, ab: V, pool: Pool<V>, ghost g: Regions, ghost w: seq<V>)
      returns (status: Status, plan: Plan<V>, next: Pool<V>)
      requires Fixable(front, end, g, w, ra, ab) && |pool.scratch| + 5 <= SCRATCH_COUNT
      ensures status.Ok? && Describes(plan, g, w) && Spends(pool, next, plan, 5)
    {
      hide Expected, AggregatesOk, Holds, Lawful, Fixed, Linked, Regions.NeedsFixup;
      Reach(end);
      CursorsByPosition(front, b);
      CursorsByPosition(l, b);
      if front == b {
        EmptyFrontIsFixed(m, g, w);
        FixedFromEmptyFront(g);
        status, plan, next := StageEmpty(end, pool);
        return;
      }
      var nl, na, nb := l, a, b;
      var nextRA, nextB := ra, ab;
      var identity: Option<nat> := None;
      ghost var h := g;
      next := pool;
      if l == b {
        var (flipped, index) := PoolIdentity(m, pool);
        if index.None? {
          assert false;
        }
        next, identity := flipped, index;
        FlipKeepsSlots(m, g, w, ra, ab);
        h := Flipped(g);
        nl, na, nb := front, end, end;
        nextRA, nextB := ab, next.scratch[identity.value];
      }
      FixedFromFlip(g);
      CursorsByPosition(nl, r);
      if nl == r {
        status, plan, next := StageShift(nl, na, nb, nextRA, nextB, identity, next, g, h, w);
      } else {
        status, plan, next := StageShrink(nl, na, nb, nextRA, nextB, identity, next, g, h, w);
      }
    }

    /** At most `slots` more scratch slots, and two combines exactly for a plan that rewrites slots. */
    ghost predicate Spends(pool: Pool<V>, next: Pool<V>, plan: Plan<V>, slots: nat) {
      && |pool.scratch| <= |next.scratch| <= |pool.scratch| + slots
      && |next.combined| == |pool.combined| + if plan.first.Write? then 2 else 0
    }

    /** The scratch slot that holds the identity, if one does. */
    ghost predicate IdentityAt(identity: Option<nat>, pool: Pool<V>) {
      identity.Some? ==> identity.value < |pool.scratch| && pool.scratch[identity.value] == m.identity
    }

    /** Stages the aggregates that are both the identity. */
    method StageEmpty(end: Cursor<V>, pool: Pool<V>) returns (status: Status, plan: Plan<V>, next: Pool<V>)
      requires |pool.scratch| + 3 <= SCRATCH_COUNT
      ensures status.Ok? && plan == Plan(end, end, end, end, m.identity, m.identity, NoWrite, NoWrite)
      ensures Spends(pool, next, plan, 3)
    {
      var (p1, identity) := PoolIdentity(m, pool);
      if identity.None? {
        assert false;
      }
      var v := p1.scratch[identity.value];
      var (p2, nextRA) := PoolCopy(p1, v);
      var (p3, nextB) := PoolCopy(p2, v);
      next := p3;
      if nextRA.None? || nextB.None? {
        assert false;
      }
      plan := Plan(end, end, end, end, next.scratch[nextRA.value], next.scratch[nextB.value], NoWrite, NoWrite);
      status := Ok;
    }

    /** The identity, from the slot that holds it or from a fresh one. */
    function StageIdentity(identity: Option<nat>, pool: Pool<V>): (r: (Pool<V>, Option<nat>))
      requires IdentityAt(identity, pool)
      ensures r.0.combined == pool.combined && pool.scratch <= r.0.scratch && IdentityAt(r.1, r.0)
      ensures r.1.Some? <==> identity.Some? || |pool.scratch| < SCRATCH_COUNT
      ensures |r.0.scratch| <= |pool.scratch| + if identity.None? then 1 else 0
    {
      if identity.Some? then (pool, identity) else PoolIdentity(m, pool)
    }

    /** What both later branches know about the possibly flipped boundaries. */
    ghost predicate Staged(nl: Cursor<V>, na: Cursor<V>, nb: Cursor<V>, ra: V, ab: V, g: Regions, h: Regions, w: seq<V>)
      reads this, chain, Slots()
    {
      && Lawful(m) && Linked() && On(nl) && On(r) && On(na) && On(nb)
      && h == Regions(g.f, nl.Pos(), r.Pos(), na.Pos(), nb.Pos(), g.e) && h.Ordered() && |w| == g.e - g.f
      && h.l < h.b && h.r - h.l == h.a - h.r
      && h.e < BLOCK_CAPACITY * (chain[0].ordinal + |chain|)
      && (forall p :: Expected(m, h, w, p) == Expected(m, g, w, p))
      && Holds(g, w) && AggregatesOk(m, h, w, ra, ab)
    }

    /** The shifting branch: all three inner boundaries advance and no slot changes. */
    method StageShift(nl: Cursor<V>, na: Cursor<V>, nb: Cursor<V>, ra: V, ab: V, identity: Option<nat>, pool: Pool<V>,
                      ghost g: Regions, ghost h: Regions, ghost w: seq<V>)
      returns (status: Status, plan: Plan<V>, next: Pool<V>)
      requires Staged(nl, na, nb, ra, ab, g, h, w) && nl == r
      requires IdentityAt(identity, pool) && |pool.scratch| + 3 <= SCRATCH_COUNT
      requires Fixed(g) == Regions(h.f, h.l + 1, h.r + 1, h.a + 1, h.b, h.e)
      ensures status.Ok? && Describes(plan, g, w) && Spends(pool, next, plan, if identity.None? then 3 else 2)
    {
      hide Expected, AggregatesOk, Holds, Lawful, Advance, Linked, Fixed;
      ShiftKeepsSlots(m, h, w, ra, ab);
      AdvanceFacts(nl);
      AdvanceFacts(na);
      var l', r', a' := Advance(nl), Advance(r), Advance(na);
      if l'.None? || r'.None? || a'.None? {
        assert false;
      }
      var (p1, index) := StageIdentity(identity, pool);
      if index.None? {
        assert false;
      }
      var (p2, nextRA) := PoolCopy(p1, p1.scratch[index.value]);
      var (p3, nextB) := PoolCopy(p2, ab);
      if nextRA.None? || nextB.None? {
        assert false;
      }
      status, next := Ok, p3;
      plan := Plan(l'.value, r'.value, a'.value, nb, next.scratch[nextRA.value], next.scratch[nextB.value], NoWrite, NoWrite);
    }

    /** The shrinking branch: finish one left slot, extend the accumulator by one right slot. */
    method StageShrink(nl: Cursor<V>, na: Cursor<V>, nb: Cursor<V>, ra: V, ab: V, identity: Option<nat>, pool: Pool<V>,
                       ghost g: Regions, ghost h: Regions, ghost w: seq<V>)
      returns (status: Status, plan: Plan<V>, next: Pool<V>)
      requires Staged(nl, na, nb, ra, ab, g, h, w) && h.l < h.r
      requires IdentityAt(identity, pool) && |pool.scratch| + (if identity.None? then 5 else 4) <= SCRATCH_COUNT
      requires Fixed(g) == Regions(h.f, h.l + 1, h.r, h.a - 1, h.b, h.e)
      ensures status.Ok? && Describes(plan, g, w) && Spends(pool, next, plan, if identity.None? then 5 else 4)
    {
      ShrinkRewritesTwoSlots(m, h, w, ra, ab);
      Reach(nl);
      hide Expected, AggregatesOk, Holds, Lawful, Fixed, Describes, Linked, Advance, Retreat;
      AdvanceFacts(nl);
      RetreatFacts(na);
      var nextLeft, beforeA := Advance(nl), Retreat(na);
      if nextLeft.None? || beforeA.None? {
        assert false;
      }
      var l', a' := nextLeft.value, beforeA.value;
      var (staged, aggregates) := StageAggregates(ra, ab, pool);
      if aggregates.None? {
        assert false;
      }
      var (nextRA, nextB) := aggregates.value;
      var firstValue, secondValue;
      status, firstValue, secondValue, next := ShrinkValues(nl, a', na, nb, ra, identity, staged, g, h, w);
      plan := Plan(l', r, a', nb, nextRA, nextB, Write(nl, firstValue), Write(a', secondValue));
      ShrinkDescribed(plan, g, h, w);
    }

    /** Copies both aggregates into scratch slots. */
    static function StageAggregates(ra: V, ab: V, pool: Pool<V>): (r: (Pool<V>, Option<(V, V)>))
      ensures r.1.Some? <==> |pool.scratch| + 2 <= SCRATCH_COUNT
      ensures r.1.Some? ==> r.1.value == (ra, ab) && |r.0.scratch| == |pool.scratch| + 2
      ensures pool.scratch <= r.0.scratch && r.0.combined == pool.combined
    {
      var (p1, one) := PoolCopy(pool, ra);
      var (p2, two) := PoolCopy(p1, ab);
      (p2, if one.None? || two.None? then None else Some((p2.scratch[one.value], p2.scratch[two.value])))
    }

    /** Reads the slots the shrink rewrites and combines their new contents, with one combine each. */
    method ShrinkValues(nl: Cursor<V>, beforeA: Cursor<V>, na: Cursor<V>, nb: Cursor<V>, ra: V, identity: Option<nat>,
                        pool: Pool<V>, ghost g: Regions, ghost h: Regions, ghost w: seq<V>)
      returns (status: Status, firstValue: V, secondValue: V, next: Pool<V>)
      requires Linked() && Holds(g, w) && On(nl) && On(beforeA) && On(na) && On(nb)
      requires nl.Pos() == h.l && beforeA.Pos() == h.a - 1 && na.Pos() == h.a <= nb.Pos() == h.b
      requires g.f <= h.l < h.a && h.a <= h.b <= g.e
      requires forall p :: Expected(m, h, w, p) == Expected(m, g, w, p)
      requires Expected(m, h, w, h.l).Some? && Expected(m, h, w, h.a - 1).Some? && (h.a < h.b ==> Expected(m, h, w, h.a).Some?)
      requires IdentityAt(identity, pool) && |pool.scratch| + (if identity.None? then 3 else 2) <= SCRATCH_COUNT
      ensures status.Ok? && firstValue == m.combine(Expected(m, h, w, h.l).value, ra)
      ensures secondValue
           == m.combine(Expected(m, h, w, h.a - 1).value, if h.a == h.b then m.identity else Expected(m, h, w, h.a).value)
      ensures pool.scratch <= next.scratch && |next.scratch| <= |pool.scratch| + (if identity.None? then 3 else 2)
      ensures |next.combined| == |pool.combined| + 2
    {
      hide Expected, Holds, Linked;
      ReadAt(nl, g, w);
      ReadAt(beforeA, g, w);
      var left, right := nl.block.slots[nl.index], beforeA.block.slots[beforeA.index];
      if left.None? || right.None? {
        assert false;
      }
      var (p1, one) := PoolCombine(m, pool, left.value, ra);
      if one.None? {
        assert false;
      }
      firstValue, next := p1.scratch[one.value], p1;
      CursorsByPosition(na, nb);
      var productA;
      if na == nb {
        var (p2, index) := StageIdentity(identity, p1);
        if index.None? {
          assert false;
        }
        productA, next := p2.scratch[index.value], p2;
      } else {
        ReadAt(na, g, w);
        var accumulated := na.block.slots[na.index];
        if accumulated.None? {
          assert false;
        }
        productA := accumulated.value;
      }
      var (p3, two) := PoolCombine(m, next, right.value, productA);
      if two.None? {
        assert false;
      }
      secondValue, next := p3.scratch[two.value], p3;
      status := Ok;
    }

    lemma ShrinkDescribed(plan: Plan<V>, g: Regions, h: Regions, w: seq<V>)
      requires Fixed(g) == Regions(h.f, h.l + 1, h.r, h.a - 1, h.b, h.e) && h.f == g.f && h.e == g.e && h.Ordered() && h.l < h.r < h.a
      requires On(plan.l) && On(plan.r) && On(plan.a) && On(plan.b)
      requires plan.l.Pos() == h.l + 1 && plan.r.Pos() == h.r && plan.a.Pos() == h.a - 1 && plan.b.Pos() == h.b
      requires AggregatesOk(m, Fixed(g), w, plan.aggregateRA, plan.aggregateB)
      requires plan.first.Write? && plan.second.Write? && On(plan.first.position) && On(plan.second.position)
      requires plan.first.position.Pos() == h.l && plan.second.position.Pos() == h.a - 1
      requires forall p :: Expected(m, h, w, p) == Expected(m, g, w, p)
      requires forall p :: (Expected(m, Fixed(g), w, p) ==
        if p == h.l then Some(plan.first.value) else if p == h.a - 1 then Some(plan.second.value) else Expected(m, h, w, p))
      ensures Describes(plan, g, w)
    {
      hide Expected, AggregatesOk, Fixed;
    }

    /** Commits a staged plan: two slot writes at most, the aggregates and the inner boundaries. */
    method ApplyFixup(plan: Plan<V>, ghost g: Regions, ghost w: seq<V>)
      requires Linked() && Holds(g, w) && Describes(plan, g, w) && Fixed(g).f == g.f && Fixed(g).e == g.e
      modifies this`l, this`r, this`a, this`b, this`aggregateRA, this`aggregateB, Slots()
      ensures On(l) && On(r) && On(a) && On(b) && Regions(g.f, l.Pos(), r.Pos(), a.Pos(), b.Pos(), g.e) == Fixed(g)
      ensures Holds(Fixed(g), w) && AggregatesOk(m, Fixed(g), w, aggregateRA, aggregateB)
      ensures forall lo :: lo <= g.f && old(FreeOutside(lo, g.e)) ==> FreeOutside(lo, g.e)
    {
      hide Expected, AggregatesOk, Fixed, Linked;
      if plan.first.Write? {
        WriteSlot(plan.first.position, Some(plan.first.value));
        WriteSlot(plan.second.position, Some(plan.second.value));
      }
      aggregateRA, aggregateB := plan.aggregateRA, plan.aggregateB;
      l, r, a, b := plan.l, plan.r, plan.a, plan.b;
    }

    /** Overwrites the slot under a cursor; every other slot of the chain keeps its contents. */
    method WriteSlot(c: Cursor<V>, v: Option<V>)
      requires Linked() && On(c)
      modifies c.block.slots
      ensures forall k: Block<V>, j {:trigger k.slots[j]} :: (k in chain && 0 <= j < k.slots.Length ==>
        k.slots[j] == if BLOCK_CAPACITY * k.ordinal + j == c.Pos() then v else old(k.slots[j]))
    {
      c.block.slots[c.index] := v;
      forall k: Block<V>, j | k in chain && 0 <= j < k.slots.Length
        ensures k.slots[j] == if BLOCK_CAPACITY * k.ordinal + j == c.Pos() then v else old(k.slots[j])
      {
        SlotsByPosition(k, j, c);
      }
    }

    /** Two different places of the chain never share a slot. */
    lemma SlotsByPosition(k: Block<V>, j: nat, c: Cursor<V>)
      requires Linked() && On(c) && k in chain && j < BLOCK_CAPACITY
      ensures (k.slots == c.block.slots && j == c.index) <==> BLOCK_CAPACITY * k.ordinal + j == c.Pos()
    {
      CursorsByPosition(Cursor(k, j), c);
      var x :| 0 <= x < |chain| && chain[x] == k;
      var y :| 0 <= y < |chain| && chain[y] == c.block;
    }

    /** Plans and commits one fixup. */
    method RunFixup(front: Cursor<V>, end: Cursor<V>, ra: V, ab: V, pool: Pool<V>, ghost g: Regions, ghost w: seq<V>)
      returns (status: Status, next: Pool<V>)
      requires Fixable(front, end, g, w, ra, ab) && |pool.scratch| + 5 <= SCRATCH_COUNT
      modifies this`l, this`r, this`a, this`b, this`aggregateRA, this`aggregateB, Slots()
      ensures status.Ok?
      ensures On(l) && On(r) && On(a) && On(b) && Regions(g.f, l.Pos(), r.Pos(), a.Pos(), b.Pos(), g.e) == Fixed(g)
      ensures Fixed(g).Balanced()
      ensures Holds(Fixed(g), w) && AggregatesOk(m, Fixed(g), w, aggregateRA, aggregateB)
      ensures forall lo :: lo <= g.f && old(FreeOutside(lo, g.e)) ==> FreeOutside(lo, g.e)
      ensures |next.combined| <= |pool.combined| + 2 && |next.scratch| <= |pool.scratch| + 5
    {
      FixupRestoresBalance(g);
      hide Holds, FreeOutside, Linked, AggregatesOk, Expected, Lawful, Fixed, Describes, Regions.Balanced, Regions.NeedsFixup;
      var plan;
      status, plan, next := ComputeFixup(front, end, ra, ab, pool, g, w);
      if !status.Ok? {
        assert false;
      }
      ApplyFixup(plan, g, w);
    }

    // ----- Insertion -----

    /** Makes sure the position after the end exists, linking a fresh block when the last one is full. */
    method ExtendChain() returns (nextEnd: Cursor<V>)
      requires Linked() && CursorsOk() && FreeOutside(f.Pos(), e.Pos()) && Holds(Bounds(), window)
      modifies this`chain, e.block`next
      ensures Linked() && CursorsStay() && On(nextEnd) && nextEnd.Pos() == e.Pos() + 1
      ensures nextEnd.block == chain[|chain| - 1] && chain[0] == old(chain)[0]
      ensures forall k :: k in chain ==> k in old(chain) || (fresh(k) && fresh(k.slots))
      ensures FreeOutside(f.Pos(), e.Pos()) && Holds(Bounds(), window)
    {
      hide Expected, Linked;
      if e.index + 1 < BLOCK_CAPACITY {
        return Cursor(e.block, e.index + 1);
      }
      var successor := LinkBlock();
      nextEnd := Cursor(successor, 0);
    }

    method LinkBlock() returns (successor: Block<V>)
      requires Linked() && chain[|chain| - 1] == e.block
      modifies this`chain, e.block`next
      ensures Linked() && chain == old(chain) + [successor] && successor.ordinal == e.block.ordinal + 1
      ensures fresh(successor) && fresh(successor.slots) && successor.slots.Length == BLOCK_CAPACITY
      ensures forall j :: 0 <= j < BLOCK_CAPACITY ==> successor.slots[j] == None
    {
      if e.block.next != null {
        assert false;
      }
      successor := new Block<V>(e.block.ordinal + 1);
      successor.previous := e.block;
      e.block.next := successor;
      chain := chain + [successor];
      assert forall i :: 0 <= i < |chain| - 1 ==> chain[i] == old(chain)[i];
    }

    ghost predicate CursorsStay()
      reads this
    {
      On(f) && On(l) && On(r) && On(a) && On(b) && On(e)
    }

    /** Writes the new value into the first free slot: the longer window, before its fixup. */
    method PlaceBack(v: V)
      requires Lawful(m) && Linked() && On(e) && Bounds().Ordered() && |window| == e.Pos() - f.Pos()
      requires Holds(Bounds(), window) && FreeOutside(f.Pos(), e.Pos())
      modifies e.block.slots
      ensures Holds(Bounds().(e := e.Pos() + 1), window + [v]) && FreeOutside(f.Pos(), e.Pos() + 1)
    {
      hide Expected, Lawful, Linked;
      LengthAt(e);
      if e.block.slots[e.index].Some? {
        assert false;
      }
      ghost var g, w := Bounds(), window;
      WriteSlot(e, Some(v));
      ghost var longer := g.(e := g.e + 1);
      forall k: Block<V>, j | k in chain && 0 <= j < k.slots.Length && g.f <= BLOCK_CAPACITY * k.ordinal + j <= g.e
        ensures k.slots[j] == Expected(m, longer, w + [v], BLOCK_CAPACITY * k.ordinal + j)
      {
        AppendKeepsSlots(m, g, w, v, BLOCK_CAPACITY * k.ordinal + j);
      }
      assert Bounds() == g && window == w;
      assert Holds(longer, w + [v]);
    }

    lemma LengthAt(c: Cursor<V>)
      requires Linked() && On(c)
      ensures c.index < c.block.slots.Length
    {
    }

    /** Inserts at the back. The window grows by exactly the new value; combine is called at most three times and
        at most seven scratch slots are filled. */
    method Insert(v: V) returns (status: Status, pool: Pool<V>)
      requires Valid()
      modifies this, chain, Slots()
      ensures Valid()
      ensures status == if old(count) == SIZE_MAX then Overflow else Ok
      ensures window == old(window) + if status.Ok? then [v] else []
      ensures forall k :: k in chain ==> k in old(chain) || (fresh(k) && fresh(k.slots))
      ensures |pool.combined| <= 3 && |pool.scratch| <= MAX_OPERATION_TEMPS
    {
      hide Holds, FreeOutside, Linked, AggregatesOk, Expected, Lawful;
      pool := Pool([], []);
      if count == SIZE_MAX {
        return Overflow, pool;
      }
      var (p1, nextB) := PoolCombine(m, pool, aggregateB, v);
      var (p2, stored) := PoolCopy(p1, v);
      if nextB.None? || stored.None? {
        assert false;
      }
      var ab, value := p2.scratch[nextB.value], p2.scratch[stored.value];
      ghost var g, w := Bounds(), window;
      AppendKeepsAggregates(m, g, w, v, aggregateRA, aggregateB);
      var nextEnd := ExtendChain();
      PlaceBack(value);
      status, pool := FinishInsert(v, nextEnd, ab, p2);
    }

    method FinishInsert(v: V, nextEnd: Cursor<V>, nextB: V, pool: Pool<V>) returns (status: Status, next: Pool<V>)
      requires Lawful(m) && Linked() && nextEnd.Pos() == e.Pos() + 1 && |pool.scratch| == 2
      requires On(f) && On(nextEnd) && f.block == chain[0] && nextEnd.block == chain[|chain| - 1]
      requires |window| == count == e.Pos() - f.Pos() && count < SIZE_MAX && FreeOutside(f.Pos(), e.Pos() + 1)
      requires Fixable(f, nextEnd, Bounds().(e := e.Pos() + 1), window + [v], aggregateRA, nextB)
      modifies this`l, this`r, this`a, this`b, this`e, this`aggregateRA, this`aggregateB, this`count, this`window, Slots()
      ensures status.Ok? && Valid() && window == old(window) + [v]
      ensures |next.combined| <= |pool.combined| + 2 && |next.scratch| <= MAX_OPERATION_TEMPS
    {
      hide Holds, FreeOutside, Linked, AggregatesOk, Expected, Lawful, Fixed, Fixable, Regions.Balanced, Slots;
      ghost var g, w := Bounds().(e := e.Pos() + 1), window + [v];
      status, next := RunFixup(f, nextEnd, aggregateRA, nextB, pool, g, w);
      assert FreeOutside(g.f, g.e);
      e := nextEnd;
      count := count + 1;
      window := w;
      assert Linked() && CursorsOk();
      assert Bounds() == Fixed(g);
    }

    // ----- Eviction -----

    /** Evicts the oldest value, if any; combine is called at most twice. */
    method TryEvict() returns (status: Status, evicted: bool, pool: Pool<V>)
      requires Valid()
      modifies this, chain, Slots()
      ensures Valid() && status.Ok?
      ensures evicted <==> old(window) != []
      ensures window == if evicted then old(window)[1..] else old(window)
      ensures forall k :: k in chain ==> k in old(chain)
      ensures |pool.combined| <= 2 && |pool.scratch| <= 5
    {
      hide Holds, FreeOutside, Linked, AggregatesOk, Expected, Lawful, Fixed, Advance;
      pool := Pool([], []);
      if count == 0 {
        return Ok, false, pool;
      }
      Reach(e);
      AdvanceFacts(f);
      var nextFront := Advance(f);
      if nextFront.None? {
        assert false;
      }
      EvictIsFixable(nextFront.value);
      status, pool := FinishEvict(nextFront.value, pool);
      evicted := true;
    }

    /** Like TryEvict, but an empty window is reported as such. */
    method Evict() returns (status: Status)
      requires Valid()
      modifies this, chain, Slots()
      ensures Valid()
      ensures status == if old(window) == [] then EmptyWindow else Ok
      ensures window == if status.Ok? then old(window)[1..] else old(window)
      ensures forall k :: k in chain ==> k in old(chain)
    {
      hide *;
      var inner, evicted, pool;
      inner, evicted, pool := TryEvict();
      if !inner.Ok? {
        assert false;
      }
      status := if evicted then Ok else EmptyWindow;
    }

    /** Empties the window onto one fresh block. */
    method Clear() returns (status: Status)
      requires Valid()
      modifies this
      ensures Valid() && status.Ok? && window == []
      ensures old(window) != [] ==> fresh(chain) && fresh(Slots())
    {
      if count == 0 {
        return Ok;
      }
      var (p1, identity) := PoolIdentity(m, Pool([], []));
      if identity.None? {
        assert false;
      }
      var (p2, copy) := PoolCopy(p1, p1.scratch[identity.value]);
      if copy.None? {
        assert false;
      }
      Restart(p2.scratch[identity.value], p2.scratch[copy.value]);
      status := Ok;
    }

    method Restart(ra: V, ab: V)
      requires Lawful(m) && ra == ab == m.identity
      modifies this
      ensures Valid() && window == [] && fresh(chain) && fresh(Slots())
    {
      hide *;
      var replacement := new Block<V>(0);
      first, chain, window := replacement, [replacement], [];
      PlaceCursors(Cursor(replacement, 0));
      ForgetValues(ra, ab);
      LoneBlock();
    }

    method PlaceCursors(start: Cursor<V>)
      modifies `f, `l, `r, `a, `b, `e
      ensures f == l == r == a == b == e == start
    {
      f, l, r, a, b, e := start, start, start, start, start, start;
    }

    method ForgetValues(ra: V, ab: V)
      modifies `count, `aggregateRA, `aggregateB
      ensures count == 0 && aggregateRA == ra && aggregateB == ab
    {
      count := 0;
      aggregateRA, aggregateB := ra, ab;
    }

    lemma LoneBlock()
      requires Lawful(m) && chain == [first] && first.previous == null && first.next == null && first.ordinal == 0
      requires first.slots.Length == BLOCK_CAPACITY && forall j :: 0 <= j < BLOCK_CAPACITY ==> first.slots[j] == None
      requires f == l == r == a == b == e == Cursor(first, 0) && count == 0 && window == []
      requires aggregateRA == aggregateB == m.identity
      ensures Valid() && Slots() == {first.slots}
    {
      hide Lawful, AggregatesOk, Expected;
      EmptyAggregates(m, 0);
    }

    lemma EvictIsFixable(front: Cursor<V>)
      requires Valid() && count > 0 && On(front) && front.Pos() == f.Pos() + 1
      ensures Fixable(front, e, Bounds().(f := f.Pos() + 1), window[1..], aggregateRA, aggregateB)
    {
      hide Expected, Lawful, Linked, AggregatesOk;
      var g, w := Bounds(), window;
      DropKeepsAggregates(m, g, w, aggregateRA, aggregateB);
      forall p ensures Expected(m, g.(f := g.f + 1), w[1..], p) == if p == g.f then None else Expected(m, g, w, p) {
        DropKeepsSlots(m, g, w, p);
      }
    }

    method FinishEvict(front: Cursor<V>, pool: Pool<V>) returns (status: Status, next: Pool<V>)
      requires Lawful(m) && Linked() && CursorsOk() && On(front) && front.Pos() == f.Pos() + 1 <= e.Pos()
      requires |window| == count == e.Pos() - f.Pos() && count <= SIZE_MAX && FreeOutside(f.Pos(), e.Pos())
      requires Fixable(front, e, Bounds().(f := f.Pos() + 1), window[1..], aggregateRA, aggregateB)
      requires |pool.scratch| + 5 <= SCRATCH_COUNT
      modifies this, chain, Slots()
      ensures status.Ok? && Valid() && window == old(window)[1..]
      ensures |next.combined| <= |pool.combined| + 2 && |next.scratch| <= |pool.scratch| + 5
      ensures forall k :: k in chain ==> k in old(chain)
    {
      hide Holds, FreeOutside, Linked, AggregatesOk, Expected, Lawful, Fixed, Fixable, Regions.Balanced, Valid;
      var oldFront := f;
      status, next := AdvanceFront(front, pool);
      ClearSlot(oldFront, Bounds());
      RetireFront();
    }

    /** Everything the resting state promises, except that the front may have left blocks behind and
        slots just before it may still be occupied. */
    ghost predicate Settled(lo: int)
      reads this, chain, Slots()
    {
      && Lawful(m) && Linked() && CursorsStay() && e.block == chain[|chain| - 1]
      && Bounds().Balanced() && |window| == count == e.Pos() - f.Pos() && count <= SIZE_MAX
      && Holds(Bounds(), window) && FreeOutside(lo, e.Pos())
      && AggregatesOk(m, Bounds(), window, aggregateRA, aggregateB)
    }

    method AdvanceFront(front: Cursor<V>, pool: Pool<V>) returns (status: Status, next: Pool<V>)
      requires Lawful(m) && Linked() && CursorsOk() && On(front) && front.Pos() == f.Pos() + 1 <= e.Pos()
      requires |window| == count == e.Pos() - f.Pos() && count <= SIZE_MAX && FreeOutside(f.Pos(), e.Pos())
      requires Fixable(front, e, Bounds().(f := f.Pos() + 1), window[1..], aggregateRA, aggregateB)
      requires |pool.scratch| + 5 <= SCRATCH_COUNT
      modifies this`f, this`l, this`r, this`a, this`b, this`aggregateRA, this`aggregateB, this`count, this`window, Slots()
      ensures status.Ok? && Settled(old(f.Pos())) && f == front && window == old(window)[1..]
      ensures |next.combined| <= |pool.combined| + 2 && |next.scratch| <= |pool.scratch| + 5
    {
      hide Holds, FreeOutside, Linked, AggregatesOk, Expected, Lawful, Fixed, Fixable, Regions.Balanced, Slots;
      ghost var g, w, lo := Bounds().(f := f.Pos() + 1), window[1..], f.Pos();
      status, next := RunFixup(front, e, aggregateRA, aggregateB, pool, g, w);
      assert FreeOutside(lo, g.e);
      f := front;
      count := count - 1;
      window := w;
      assert Linked() && CursorsStay();
      assert Bounds() == Fixed(g);
    }

    /** With the front already advanced, drops the blocks it left behind. */
    method RetireFront()
      requires Settled(f.Pos())
      modifies `chain, `first, chain
      ensures Valid() && forall k :: k in chain ==> k in old(chain)
      ensures window == old(window)
    {
      hide Expected, Linked, Lawful, AggregatesOk, Regions.Balanced, CursorsOk, CursorsIn, CursorsStay, Dropped;
      ghost var whole := chain;
      SettledCursors(f.Pos());
      ghost var n := TrimBefore();
      TrimKeepsCursors(whole, n);
    }

    /** Every cursor lies on the given chain, none before the front, and the end is on its last block. */
    ghost predicate CursorsIn(whole: seq<Block<V>>)
      reads `f, `l, `r, `a, `b, `e
    {
      && Consecutive(whole) && e.block == whole[|whole| - 1] && e.index < BLOCK_CAPACITY && f.Pos() <= e.Pos()
      && f.block in whole && f.index < BLOCK_CAPACITY
      && l.block in whole && l.index < BLOCK_CAPACITY && f.Pos() <= l.Pos()
      && r.block in whole && r.index < BLOCK_CAPACITY && f.Pos() <= r.Pos()
      && a.block in whole && a.index < BLOCK_CAPACITY && f.Pos() <= a.Pos()
      && b.block in whole && b.index < BLOCK_CAPACITY && f.Pos() <= b.Pos()
    }

    lemma SettledCursors(lo: int)
      requires Settled(lo)
      ensures CursorsIn(chain) && Linked() && On(f)
    {
    }

    /** Frees the evicted front slot. */
    method ClearSlot(c: Cursor<V>, ghost g: Regions)
      requires Settled(c.Pos()) && On(c) && g == Bounds() && c.Pos() + 1 == g.f
      modifies c.block.slots
      ensures Settled(f.Pos())
    {
      hide Expected, Linked, Lawful, AggregatesOk, Regions.Balanced;
      WriteSlot(c, None);
      assert Bounds() == g;
    }

    /** Everything but the head's back link, while leading blocks are being dropped. */
    ghost predicate LinkedTail()
      reads `chain, `first, chain
    {
      && chain != [] && first == chain[0]
      && (forall i :: 0 <= i < |chain| ==> chain[i].slots.Length == BLOCK_CAPACITY)
      && (forall i :: 0 <= i < |chain| ==> chain[i].ordinal == chain[0].ordinal + i)
      && (forall i :: 0 <= i < |chain| - 1 ==> chain[i].next == chain[i + 1])
      && (forall i :: 0 < i < |chain| ==> chain[i].previous == chain[i - 1])
      && chain[|chain| - 1].next == null
      && (forall i, j :: 0 <= i < j < |chain| ==> chain[i].slots != chain[j].slots)
    }

    /** Unlinks the head of the chain. */
    method DropFirst()
      requires LinkedTail() && |chain| > 1
      modifies `chain, `first, chain
      ensures LinkedTail() && chain == old(chain)[1..]
    {
      var retired := first;
      assert retired.next == chain[1];
      first := retired.next;
      chain := chain[1..];
      retired.next := null;
    }

    method CutHead()
      requires LinkedTail()
      modifies first`previous
      ensures Linked()
    {
      first.previous := null;
    }

    /** Unlinks the blocks before the front. They hold no occupied slot. */
    method TrimBefore() returns (ghost n: nat)
      requires Linked() && On(f)
      modifies `chain, `first, chain
      ensures Linked() && chain[0] == f.block && Dropped(old(chain), n, chain)
    {
      ghost var whole := chain;
      HeadIsLinked();
      hide Linked, LinkedTail;
      n := 0;
      while first != f.block
        invariant LinkedTail() && f.block in chain && Dropped(whole, n, chain)
        invariant forall k :: k in chain ==> k in whole
        decreases |chain|
      {
        LeadingBlock();
        DropFirst();
        n := n + 1;
      }
      HeadIsFirst();
      CutHead();
    }

    lemma HeadIsLinked()
      requires Linked()
      ensures LinkedTail()
    {
    }

    lemma HeadIsFirst()
      requires LinkedTail()
      ensures chain != [] && first == chain[0] && first in chain
    {
    }

    lemma LeadingBlock()
      requires LinkedTail() && f.block in chain && first != f.block
      ensures |chain| > 1 && f.block in chain[1..]
    {
      var i :| 0 <= i < |chain| && chain[i] == f.block;
      assert chain[1..][i - 1] == f.block;
    }

    /** Dropping leading blocks keeps every cursor at or after the front on the chain. */
    lemma StillOn(c: Cursor<V>, whole: seq<Block<V>>, n: nat)
      requires Linked() && On(f) && chain[0] == f.block && Dropped(whole, n, chain) && Consecutive(whole)
      requires c.block in whole && c.index < BLOCK_CAPACITY && f.Pos() <= c.Pos()
      ensures On(c)
    {
      hide Linked;
      var i :| 0 <= i < |whole| && whole[i] == c.block;
      assert c.block.ordinal == whole[0].ordinal + i;
      assert f.block.ordinal == whole[n + 0].ordinal == whole[0].ordinal + n;
      assert i >= n;
      assert chain[i - n] == whole[n + (i - n)];
    }

    lemma TrimKeepsCursors(whole: seq<Block<V>>, n: nat)
      requires Linked() && chain[0] == f.block && Dropped(whole, n, chain) && CursorsIn(whole)
      ensures CursorsOk() && forall k :: k in chain ==> k in whole
    {
      hide Consecutive;
      assert On(f);
      StillOn(l, whole, n);
      StillOn(r, whole, n);
      StillOn(a, whole, n);
      StillOn(b, whole, n);
      StillOn(e, whole, n);
    }
  }

  /** A later view of a chain whose first n blocks have been dropped. */
  ghost predicate Dropped<V>(whole: seq<Block<V>>, n: nat, chain: seq<Block<V>>) {
    n + |chain| == |whole| && forall i :: 0 <= i < |chain| ==> chain[i] == whole[n + i]
  }

  ghost predicate Consecutive<V>(whole: seq<Block<V>>) {
    whole != [] && forall i :: 0 <= i < |whole| ==> whole[i].ordinal == whole[0].ordinal + i
  }

  lemma EmptyAggregates<V(!new)>(m: Monoid<V>, p: int)
    ensures AggregatesOk(m, Regions(p, p, p, p, p, p), [], m.identity, m.identity)
  {
  }

  lemma EmptyFrontIsFixed<V(!new)>(m: Monoid<V>, g: Regions, w: seq<V>)
    requires Lawful(m) && g.NeedsFixup() && g.f == g.b && g.e <= g.f + 1 && |w| == g.e - g.f
    ensures forall p :: Expected(m, Fixed(g), w, p) == Expected(m, g, w, p)
    ensures AggregatesOk(m, Fixed(g), w, m.identity, m.identity)
  {
    hide Lawful, Span;
    if g.e == g.f + 1 { SpanOne(m, g.f, w, g.f); }
    SpanEmpty(m, g.f, w, g.e);
  }
}
