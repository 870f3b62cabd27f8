/** The arithmetic of DABA Lite: what each slot of the window stores, by region, and how one fixup
    moves the region boundaries. Positions are absolute; a window value at position i is w[i - f]. */
module DabaRegions {
  import opened Options

  /** An associative operation with identity; it need not commute. */
  datatype Monoid<!V> = Monoid(identity: V, combine: (V, V) -> V)

  ghost predicate Lawful<V(!new)>(m: Monoid<V>) {
    && (forall x :: m.combine(m.identity, x) == x)
    && (forall x :: m.combine(x, m.identity) == x)
    && (forall x, y, z :: m.combine(m.combine(x, y), z) == m.combine(x, m.combine(y, z)))
  }

  lemma LawsAt<V(!new)>(m: Monoid<V>, x: V, y: V, z: V)
    requires Lawful(m)
    ensures m.combine(m.identity, x) == x && m.combine(x, m.identity) == x
    ensures m.combine(m.combine(x, y), z) == m.combine(x, m.combine(y, z))
  {
  }

  /** The ordered product of a window. */
  function Product<V>(m: Monoid<V>, s: seq<V>): V {
    if s == [] then m.identity else m.combine(s[0], Product(m, s[1..]))
  }

  lemma {:induction false} ProductConcat<V(!new)>(m: Monoid<V>, s: seq<V>, t: seq<V>)
    requires Lawful(m)
    ensures Product(m, s + t) == m.combine(Product(m, s), Product(m, t))
  {
    hide Lawful;
    if s == [] {
      LawsAt(m, Product(m, t), m.identity, m.identity);
      assert s + t == t;
    } else {
      ProductConcat(m, s[1..], t);
      LawsAt(m, s[0], Product(m, s[1..]), Product(m, t));
      assert (s + t)[1..] == s[1..] + t;
    }
  }

  /** Region boundaries: finished front | left half | right half | accumulator | back. */
  datatype Regions = Regions(f: int, l: int, r: int, a: int, b: int, e: int)
  {
    predicate Ordered() {
      f <= l <= r <= a <= b <= e
    }

    /** The resting shape: halves equal, and the finished prefix is one longer than the back. */
    predicate Balanced() {
      Ordered() && r - l == a - r && (if f == e then l == f && b == f else l - f == e - b + 1)
    }

    /** The shape an insertion or an eviction leaves behind: one finished slot short. */
    predicate NeedsFixup() {
      Ordered() && r - l == a - r && (l - f == e - b || f == b)
    }
  }

  /** The conditions the structural validator reports, with region lengths spelled out. */
  lemma BalancedLengths(g: Regions)
    requires g.Balanced() && g.f < g.e
    ensures (g.r - g.l) + (g.a - g.r) + (g.b - g.a) + 1 == (g.b - g.f) - (g.e - g.b)
    ensures g.b - g.f >= g.e - g.b && g.f < g.l
  {
  }

  /** The boundaries after one fixup. */
  function Fixed(g: Regions): Regions {
    if g.f == g.b then Regions(g.f, g.e, g.e, g.e, g.e, g.e)
    else
      var h := if g.l == g.b then Flipped(g) else g;
      if h.l == h.r then Regions(h.f, h.l + 1, h.r + 1, h.a + 1, h.b, h.e)
      else Regions(h.f, h.l + 1, h.r, h.a - 1, h.b, h.e)
  }

  /** One fixup always restores the resting shape. */
  lemma FixupRestoresBalance(g: Regions)
    requires g.NeedsFixup() && (g.f == g.b ==> g.e <= g.f + 1)
    ensures Fixed(g).Balanced() && Fixed(g).f == g.f && Fixed(g).e == g.e
  {
  }

  /** The flip: once the left boundary meets the back, the back becomes the right half. */
  function Flipped(g: Regions): Regions {
    Regions(g.f, g.f, g.r, g.e, g.e, g.e)
  }

  lemma FixedFromEmptyFront(g: Regions)
    requires g.f == g.b
    ensures Fixed(g) == Regions(g.f, g.e, g.e, g.e, g.e, g.e)
  {
  }

  lemma FixedFromFlip(g: Regions)
    requires g.NeedsFixup() && g.f != g.b
    ensures var h := if g.l == g.b then Flipped(g) else g;
      && h.Ordered() && h.l < h.b && h.r - h.l == h.a - h.r
      && (h.l == h.r ==> Fixed(g) == Regions(h.f, h.l + 1, h.r + 1, h.a + 1, h.b, h.e))
      && (h.l != h.r ==> Fixed(g) == Regions(h.f, h.l + 1, h.r, h.a - 1, h.b, h.e))
  {
  }

  /** The product of the window values at positions i to j. */
  ghost function Span<V>(m: Monoid<V>, f: int, w: seq<V>, i: int, j: int): V {
    if 0 <= i - f <= j - f <= |w| then Product(m, w[i - f..j - f]) else m.identity
  }

  lemma SpanSplit<V(!new)>(m: Monoid<V>, f: int, w: seq<V>, i: int, j: int, k: int)
    requires Lawful(m) && f <= i <= j <= k <= f + |w|
    ensures Span(m, f, w, i, k) == m.combine(Span(m, f, w, i, j), Span(m, f, w, j, k))
  {
    hide Lawful;
    assert w[i - f..k - f] == w[i - f..j - f] + w[j - f..k - f];
    ProductConcat(m, w[i - f..j - f], w[j - f..k - f]);
  }

  lemma SpanOne<V(!new)>(m: Monoid<V>, f: int, w: seq<V>, i: int)
    requires Lawful(m) && f <= i < f + |w|
    ensures Span(m, f, w, i, i + 1) == w[i - f] && Span(m, f, w, i, i) == m.identity
  {
    hide Lawful;
    LawsAt(m, w[i - f], m.identity, m.identity);
    assert w[i - f..i + 1 - f] == [w[i - f]];
    var one := [w[i - f]];
    assert one[1..] == [];
    assert Product(m, one) == m.combine(w[i - f], Product(m, one[1..]));
  }

  lemma SpanEmpty<V>(m: Monoid<V>, f: int, w: seq<V>, i: int)
    ensures Span(m, f, w, i, i) == m.identity
  {
  }

  /** What the slot at an absolute position holds: nothing outside the window, otherwise a partial
      product or the raw value, by region. */
  ghost function Expected<V>(m: Monoid<V>, g: Regions, w: seq<V>, p: int): Option<V>
  {
    if !(g.f <= p < g.e) || p - g.f >= |w| then None
    else if p < g.l then Some(Span(m, g.f, w, p, g.b))
    else if p < g.r then Some(Span(m, g.f, w, p, g.r))
    else if p < g.a then Some(w[p - g.f])
    else if p < g.b then Some(Span(m, g.f, w, p, g.b))
    else Some(w[p - g.f])
  }

  /** The two aggregates kept beside the slots. The first means something only while l and r differ. */
  ghost predicate AggregatesOk<V>(m: Monoid<V>, g: Regions, w: seq<V>, aggregateRA: V, aggregateB: V) {
    && (g.l != g.r ==> aggregateRA == Span(m, g.f, w, g.r, g.b))
    && aggregateB == Span(m, g.f, w, g.b, g.e)
  }

  // ----- The two edits, before their fixup -----

  lemma AppendKeepsSlots<V(!new)>(m: Monoid<V>, g: Regions, w: seq<V>, v: V, p: int)
    requires Lawful(m) && g.Ordered() && |w| == g.e - g.f
    ensures Expected(m, g.(e := g.e + 1), w + [v], p) == if p == g.e then Some(v) else Expected(m, g, w, p)
  {
    hide Lawful;
    SpanFrame(m, g.f, w, v);
  }

  lemma SpanFrame<V(!new)>(m: Monoid<V>, f: int, w: seq<V>, v: V)
    ensures forall i, j {:trigger Span(m, f, w, i, j)} :: f <= i <= j <= f + |w| ==>
      Span(m, f, w + [v], i, j) == Span(m, f, w, i, j)
  {
    forall i, j | f <= i <= j <= f + |w| ensures Span(m, f, w + [v], i, j) == Span(m, f, w, i, j) {
      assert (w + [v])[i - f..j - f] == w[i - f..j - f];
    }
  }

  lemma AppendKeepsAggregates<V(!new)>(m: Monoid<V>, g: Regions, w: seq<V>, v: V, ra: V, ab: V)
    requires Lawful(m) && g.Ordered() && |w| == g.e - g.f && AggregatesOk(m, g, w, ra, ab)
    ensures AggregatesOk(m, g.(e := g.e + 1), w + [v], ra, m.combine(ab, v))
  {
    hide Lawful, Span, Product;
    SpanFrame(m, g.f, w, v);
    SpanSplit(m, g.f, w + [v], g.b, g.e, g.e + 1);
    SpanOne(m, g.f, w + [v], g.e);
  }

  lemma DropFrame<V(!new)>(m: Monoid<V>, f: int, w: seq<V>)
    requires w != []
    ensures forall i, j {:trigger Span(m, f, w, i, j)} :: f + 1 <= i <= j <= f + |w| ==>
      Span(m, f + 1, w[1..], i, j) == Span(m, f, w, i, j)
  {
    forall i, j | f + 1 <= i <= j <= f + |w| ensures Span(m, f + 1, w[1..], i, j) == Span(m, f, w, i, j) {
      assert w[1..][i - f - 1..j - f - 1] == w[i - f..j - f];
    }
  }

  lemma DropKeepsSlots<V(!new)>(m: Monoid<V>, g: Regions, w: seq<V>, p: int)
    requires g.Ordered() && |w| == g.e - g.f && g.f < g.l
    ensures Expected(m, g.(f := g.f + 1), w[1..], p) == if p == g.f then None else Expected(m, g, w, p)
  {
    DropFrame(m, g.f, w);
  }

  lemma DropKeepsAggregates<V(!new)>(m: Monoid<V>, g: Regions, w: seq<V>, ra: V, ab: V)
    requires g.Ordered() && |w| == g.e - g.f && g.f < g.l && AggregatesOk(m, g, w, ra, ab)
    ensures AggregatesOk(m, g.(f := g.f + 1), w[1..], ra, ab)
  {
    DropFrame(m, g.f, w);
  }

  // ----- The fixup -----

  lemma FlipKeepsSlots<V(!new)>(m: Monoid<V>, g: Regions, w: seq<V>, ra: V, ab: V)
    requires Lawful(m) && g.NeedsFixup() && |w| == g.e - g.f && g.f != g.b && g.l == g.b
    requires AggregatesOk(m, g, w, ra, ab)
    ensures forall p :: Expected(m, Flipped(g), w, p) == Expected(m, g, w, p)
    ensures AggregatesOk(m, Flipped(g), w, ab, m.identity)
  {
    hide Lawful;
  }

  /** The shift: with both halves empty, the first accumulator slot is already finished. */
  lemma ShiftKeepsSlots<V(!new)>(m: Monoid<V>, g: Regions, w: seq<V>, ra: V, ab: V)
    requires Lawful(m) && g.Ordered() && |w| == g.e - g.f && g.l == g.r == g.a < g.b
    requires AggregatesOk(m, g, w, ra, ab)
    ensures var h := Regions(g.f, g.l + 1, g.r + 1, g.a + 1, g.b, g.e);
      (forall p :: Expected(m, h, w, p) == Expected(m, g, w, p)) && AggregatesOk(m, h, w, m.identity, ab)
  {
    hide Lawful;
  }

  /** The shrink: one left slot is finished and one right slot joins the accumulator. */
  lemma ShrinkRewritesTwoSlots<V(!new)>(m: Monoid<V>, g: Regions, w: seq<V>, ra: V, ab: V)
    requires Lawful(m) && g.Ordered() && |w| == g.e - g.f && g.l < g.r < g.a
    requires AggregatesOk(m, g, w, ra, ab)
    ensures Expected(m, g, w, g.l).Some? && Expected(m, g, w, g.a - 1).Some? && (g.a < g.b ==> Expected(m, g, w, g.a).Some?)
    ensures
      var h := Regions(g.f, g.l + 1, g.r, g.a - 1, g.b, g.e);
      var first := m.combine(Expected(m, g, w, g.l).value, ra);
      var second := m.combine(Expected(m, g, w, g.a - 1).value, if g.a == g.b then m.identity else Expected(m, g, w, g.a).value);
      && (forall p :: Expected(m, h, w, p) ==
            if p == g.l then Some(first) else if p == g.a - 1 then Some(second) else Expected(m, g, w, p))
      && AggregatesOk(m, h, w, ra, ab)
  {
    hide Lawful, Span, Product;
    SpanSplit(m, g.f, w, g.l, g.r, g.b);
    SpanSplit(m, g.f, w, g.a - 1, g.a, g.b);
    SpanOne(m, g.f, w, g.a - 1);
    SpanEmpty(m, g.f, w, g.a);
  }

  /** The aggregate query: the finished front slot times the back aggregate is the whole product. */
  lemma QueryIsWindowProduct<V(!new)>(m: Monoid<V>, g: Regions, w: seq<V>, ra: V, ab: V)
    requires Lawful(m) && g.Balanced() && |w| == g.e - g.f && g.f < g.e && AggregatesOk(m, g, w, ra, ab)
    ensures Expected(m, g, w, g.f).Some?
    ensures m.combine(Expected(m, g, w, g.f).value, ab) == Product(m, w)
  {
    hide Lawful;
    SpanSplit(m, g.f, w, g.f, g.b, g.e);
    assert w[g.f - g.f..g.e - g.f] == w;
  }
}
