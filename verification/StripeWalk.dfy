/** Which of a Lustre file's storage targets an I/O segment touches: the walk over the layout's
    components, and exactly when its answer is complete. */
module StripeWalk {

  /** Bytes from start up to end (-1: to the end of the file) are dealt out in stripes of a given
      size over a number of targets. A component without targets keeps its data elsewhere. */
  datatype Component = Component(start: int, end: int, size: int, count: nat) {
    predicate Valid() { 0 < count ==> 0 < size }

    predicate Holds(x: int) { start <= x && (x < end || end == -1) }

    /** The stripe a byte lies in, counted from the component's start. */
    function Stripe(x: int): nat
      requires Valid() && 0 < count && start <= x
    {
      (x - start) / size
    }

    /** The target, among the component's own, that keeps a byte. */
    function Slot(x: int): nat
      requires Valid() && 0 < count && start <= x
    {
      (x - start) / size % count
    }

    function Limit(hi: int): int {
      if end == -1 || hi <= end then hi else end
    }
  }

  /** Where the walk stands: the next byte of the file, and how many targets it has named. */
  datatype Cursor = Cursor(pos: int, printed: nat)

  function Min(x: nat, y: nat): nat { if x < y then x else y }

  /** How many stripes of the component hold bytes from pos up to hi. */
  function Stripes(c: Component, pos: int, hi: int): nat
    requires c.Valid() && 0 < c.count && c.start <= pos
  {
    if c.Limit(hi) <= pos then 0
    else
      StripesGrow(c, pos, c.Limit(hi) - 1);
      c.Stripe(c.Limit(hi) - 1) - c.Stripe(pos) + 1
  }

  lemma StripesGrow(c: Component, x: int, y: int)
    requires c.Valid() && 0 < c.count && c.start <= x <= y
    ensures c.Stripe(x) <= c.Stripe(y)
  {
    DivBound(c.Stripe(x), y - c.start, c.size);
    DivBound(c.Stripe(x), x - c.start, c.size);
  }

  lemma MulLe(a: int, b: int, c: nat)
    requires a <= b
    ensures a * c <= b * c
  {
  }

  lemma DivUnique(x: int, q: int, r: int, d: nat)
    requires x == q * d + r && 0 <= r < d
    ensures x / d == q && x % d == r
  {
    var q' := x / d;
    if q' < q {
      MulLe(q' + 1, q, d);
    } else if q < q' {
      MulLe(q + 1, q', d);
    }
  }

  lemma DivBound(m: int, x: int, size: int)
    requires 0 < size
    ensures m * size <= x <==> m <= x / size
  {
    if m <= x / size {
      MulLe(m, x / size, size);
    } else {
      MulLe(x / size + 1, m, size);
    }
  }

  /** The target of the m-th stripe. */
  function Around(m: nat, count: nat): (slot: nat)
    requires 0 < count
    ensures slot < count
  {
    m % count
  }

  lemma NextSlot(m: nat, count: nat)
    requires 0 < count
    ensures Around(m + 1, count) == if Around(m, count) == count - 1 then 0 else Around(m, count) + 1
  {
    var q, r := m / count, m % count;
    if r == count - 1 {
      DivUnique(m + 1, q + 1, 0, count);
    } else {
      DivUnique(m + 1, q, r + 1, count);
    }
  }

  /** Where the m-th stripe begins, counted from the component's start. */
  function Edge(m: nat, size: nat): nat {
    m * size
  }

  /** The stripe boundary after an offset. */
  function NextEdge(offset: nat, size: nat): (r: nat)
    requires 0 < size
  {
    Edge(offset / size + 1, size)
  }

  lemma EdgeStripe(m: nat, size: nat)
    requires 0 < size
    ensures Edge(m, size) / size == m
  {
    DivUnique(Edge(m, size), m, 0, size);
  }

  /** How many targets the walk names on a component. It never names more than the component's
      count less what was named on earlier components, but always at least one. */
  function Shown(c: Component, at: Cursor, hi: int): nat
    requires c.Valid()
  {
    if c.count == 0 || !c.Holds(at.pos) then 0
    else if c.count <= at.printed then Min(Stripes(c, at.pos, hi), 1)
    else Min(Stripes(c, at.pos, hi), c.count - at.printed)
  }

  /** The name of the m-th stripe's target, when the component's targets begin at base. */
  function Name(c: Component, base: nat, m: nat): nat
    requires 0 < c.count
  {
    base + Around(m, c.count)
  }

  /** What the walk names on a component whose first target is at base. */
  function Part(c: Component, base: nat, at: Cursor, hi: int): seq<int>
    requires c.Valid()
  {
    if Shown(c, at, hi) == 0 then []
    else seq(Shown(c, at, hi), i requires 0 <= i => Name(c, base, c.Stripe(at.pos) + i))
  }

  /** Where it goes on from. */
  function Next(c: Component, at: Cursor, hi: int): Cursor
    requires c.Valid()
  {
    var n := Shown(c, at, hi);
    if n == 0 then at
    else if c.count <= at.printed + n then Cursor(if c.end == -1 then hi else c.end, at.printed + n)
    else Cursor(c.start + Edge(c.Stripe(at.pos) + n, c.size), at.printed + n)
  }

  /** The stripe n places after a byte's own begins before the limit exactly when the bytes up to
      the limit lie in more than n stripes. */
  lemma StripeWithinLimit(c: Component, pos: int, hi: int, n: nat)
    requires c.Valid() && 0 < c.count && c.Holds(pos) && 0 < n
    ensures c.start + Edge(c.Stripe(pos) + n, c.size) < c.Limit(hi) <==> n < Stripes(c, pos, hi)
    ensures pos < c.start + Edge(c.Stripe(pos) + n, c.size)
  {
    var m := c.Stripe(pos) + n;
    DivBound(m, pos - c.start, c.size);
    if pos < c.Limit(hi) {
      DivBound(m, c.Limit(hi) - 1 - c.start, c.size);
    }
  }

  /** The loop over one component. */
  method WalkComponent(c: Component, base: nat, ghost total: nat, at: Cursor, hi: int)
    returns (out: seq<int>, next: Cursor)
    requires c.Valid() && 0 < c.count && c.Holds(at.pos) && base + c.count <= total
    ensures out == Part(c, base, at, hi) && next == Next(c, at, hi)
    ensures forall i :: 0 <= i < |out| ==> base <= out[i] < base + c.count <= total
    ensures forall i :: 0 <= i < |out| ==> out[i] == base + ((at.pos - c.start) / c.size + i) % c.count
  {
    var pos: int, printed: nat := at.pos, at.printed;
    var offset: nat := pos - c.start;
    var slot: nat := (offset / c.size) % c.count;
    ghost var first := c.Stripe(at.pos);
    out := [];
    while pos < hi && (pos < c.end || c.end == -1)
      invariant Walking(c, base, at, hi, out, pos, offset, slot, printed)
      invariant out == [] || printed < c.count
      decreases Stripes(c, at.pos, hi) - |out|
    {
      MoreStripes(c, base, at, hi, out, pos, offset, slot, printed);
      WalkingGoesOn(c, base, at, hi, out, pos, offset, slot, printed);
      out := out + [base + slot];
      slot := if slot == c.count - 1 then 0 else slot + 1;
      offset := NextEdge(offset, c.size);
      pos := c.start + offset;
      printed := printed + 1;
      if printed >= c.count {
        WalkingEnds(c, base, at, hi, out, pos, offset, slot, printed);
        pos := c.end;
        if pos == -1 { pos := hi; }
        next := Cursor(pos, printed);
        return;
      }
    }
    MoreStripes(c, base, at, hi, out, pos, offset, slot, printed);
    WalkingEnds(c, base, at, hi, out, pos, offset, slot, printed);
    next := Cursor(pos, printed);
  }

  ghost predicate Named(c: Component, base: nat, at: Cursor, hi: int, out: seq<int>)
    requires c.Valid() && 0 < c.count && c.Holds(at.pos)
  {
    && |out| <= Stripes(c, at.pos, hi)
    && forall i :: 0 <= i < |out| ==> out[i] == Name(c, base, c.Stripe(at.pos) + i)
  }

  ghost predicate Walking(c: Component, base: nat, at: Cursor, hi: int, out: seq<int>, pos: int, offset: nat,
                          slot: nat, printed: nat)
    requires c.Valid() && 0 < c.count && c.Holds(at.pos)
  {
    && Named(c, base, at, hi, out)
    && printed == at.printed + |out|
    && slot == Around(c.Stripe(at.pos) + |out|, c.count)
    && pos == c.start + offset
    && if out == [] then pos == at.pos else offset == Edge(c.Stripe(at.pos) + |out|, c.size)
  }

  lemma MoreStripes(c: Component, base: nat, at: Cursor, hi: int, out: seq<int>, pos: int, offset: nat, slot: nat,
                    printed: nat)
    requires c.Valid() && 0 < c.count && c.Holds(at.pos)
    requires Walking(c, base, at, hi, out, pos, offset, slot, printed)
    ensures pos < c.Limit(hi) <==> |out| < Stripes(c, at.pos, hi)
    ensures offset / c.size == c.Stripe(at.pos) + |out|
  {
    if out == [] {
    } else {
      StripeWithinLimit(c, at.pos, hi, |out|);
      EdgeStripe(c.Stripe(at.pos) + |out|, c.size);
    }
  }

  lemma WalkingGoesOn(c: Component, base: nat, at: Cursor, hi: int, out: seq<int>, pos: int, offset: nat, slot: nat,
                      printed: nat)
    requires c.Valid() && 0 < c.count && c.Holds(at.pos)
    requires Walking(c, base, at, hi, out, pos, offset, slot, printed)
    requires |out| < Stripes(c, at.pos, hi)
    requires offset / c.size == c.Stripe(at.pos) + |out|
    ensures var offset' := NextEdge(offset, c.size);
            Walking(c, base, at, hi, out + [base + slot], c.start + offset', offset',
                    if slot == c.count - 1 then 0 else slot + 1, printed + 1)
  {
    NextSlot(c.Stripe(at.pos) + |out|, c.count);
  }

  lemma WalkingEnds(c: Component, base: nat, at: Cursor, hi: int, out: seq<int>, pos: int, offset: nat, slot: nat,
                    printed: nat)
    requires c.Valid() && 0 < c.count && c.Holds(at.pos)
    requires Walking(c, base, at, hi, out, pos, offset, slot, printed)
    requires out == [] || printed <= c.count || |out| == 1
    requires (out != [] && c.count <= printed) || |out| == Stripes(c, at.pos, hi)
    ensures out == Part(c, base, at, hi)
    ensures out == [] || printed < c.count ==> Cursor(pos, printed) == Next(c, at, hi)
    ensures out != [] && c.count <= printed ==> Next(c, at, hi) == Cursor(if c.end == -1 then hi else c.end, printed)
  {
    assert |out| == Shown(c, at, hi);
  }

  // ---------------------------------------------------------------------------
  // What is named on one component
  // ---------------------------------------------------------------------------

  lemma AroundApart(m: nat, a: nat, b: nat, count: nat)
    requires a < b < a + count
    ensures Around(m + a, count) != Around(m + b, count)
  {
    var q, r := (m + a) / count, (m + a) % count;
    var d := b - a;
    if r + d < count {
      DivUnique(m + b, q, r + d, count);
    } else {
      DivUnique(m + b, q + 1, r + d - count, count);
    }
  }

  lemma AroundAgain(m: nat, i: nat, count: nat)
    requires 0 < count
    ensures Around(m + i % count, count) == Around(m + i, count)
  {
    var q, r := (m + i % count) / count, (m + i % count) % count;
    assert i == i / count * count + i % count;
    DivUnique(m + i, q + i / count, r, count);
  }

  /** A byte of the i-th stripe the walk names. */
  lemma StripeHasByte(c: Component, pos: int, hi: int, i: nat) returns (x: int)
    requires c.Valid() && 0 < c.count && c.Holds(pos) && i < Stripes(c, pos, hi)
    ensures pos <= x < c.Limit(hi) && c.Stripe(x) == c.Stripe(pos) + i
  {
    if i == 0 {
      x := pos;
    } else {
      StripeWithinLimit(c, pos, hi, i);
      x := c.start + Edge(c.Stripe(pos) + i, c.size);
      EdgeStripe(c.Stripe(pos) + i, c.size);
    }
  }

  /** How far into the walk a byte's stripe comes. */
  lemma ByteHasStripe(c: Component, pos: int, hi: int, x: int) returns (i: nat)
    requires c.Valid() && 0 < c.count && c.Holds(pos) && pos <= x < c.Limit(hi)
    ensures i < Stripes(c, pos, hi) && c.Stripe(x) == c.Stripe(pos) + i
  {
    StripesGrow(c, pos, x);
    StripesGrow(c, x, c.Limit(hi) - 1);
    i := c.Stripe(x) - c.Stripe(pos);
  }

  lemma PartEntries(c: Component, base: nat, at: Cursor, hi: int)
    requires c.Valid()
    ensures |Part(c, base, at, hi)| == Shown(c, at, hi)
    ensures 0 < Shown(c, at, hi) ==>
      0 < c.count && c.Holds(at.pos) && Shown(c, at, hi) <= Min(Stripes(c, at.pos, hi), c.count)
    ensures forall i :: 0 <= i < Shown(c, at, hi) ==> Part(c, base, at, hi)[i] == Name(c, base, c.Stripe(at.pos) + i)
  {
  }

  /** No target is named twice, and each keeps a byte of the segment. */
  lemma PartIsSound(c: Component, base: nat, at: Cursor, hi: int)
    requires c.Valid()
    ensures forall i, j :: 0 <= i < j < |Part(c, base, at, hi)| ==> Part(c, base, at, hi)[i] != Part(c, base, at, hi)[j]
    ensures forall s :: s in Part(c, base, at, hi) ==>
              base <= s < base + c.count && c.Holds(at.pos) &&
              exists x :: at.pos <= x < c.Limit(hi) && s == base + c.Slot(x)
  {
    var part := Part(c, base, at, hi);
    PartEntries(c, base, at, hi);
    forall i, j | 0 <= i < j < |part| ensures part[i] != part[j] {
      AroundApart(c.Stripe(at.pos), i, j, c.count);
    }
    forall s | s in part
      ensures base <= s < base + c.count && c.Holds(at.pos) &&
        exists x :: at.pos <= x < c.Limit(hi) && s == base + c.Slot(x)
    {
      var i :| 0 <= i < |part| && part[i] == s;
      var x := StripeHasByte(c, at.pos, hi, i);
      assert s == base + c.Slot(x);
    }
  }

  /** With no more than one target named twice over, every target with a byte is named. */
  lemma PartIsComplete(c: Component, base: nat, at: Cursor, hi: int, x: int)
    requires c.Valid() && 0 < c.count && c.Holds(at.pos) && at.pos <= x < c.Limit(hi)
    requires Shown(c, at, hi) == Min(Stripes(c, at.pos, hi), c.count)
    ensures base + c.Slot(x) in Part(c, base, at, hi)
  {
    PartEntries(c, base, at, hi);
    var i := ByteHasStripe(c, at.pos, hi, x);
    AroundAgain(c.Stripe(at.pos), i, c.count);
    var k := i % c.count;
    if i < c.count {
      DivUnique(i, 0, i, c.count);
    }
    assert Part(c, base, at, hi)[k] == Name(c, base, c.Stripe(at.pos) + k);
  }

  /** Otherwise the stripe after the last one named is on a target that is not named. */
  lemma PartMisses(c: Component, base: nat, at: Cursor, hi: int) returns (x: int)
    requires c.Valid() && 0 < c.count && c.Holds(at.pos)
    requires Shown(c, at, hi) < Min(Stripes(c, at.pos, hi), c.count)
    ensures at.pos <= x < c.Limit(hi) && base + c.Slot(x) !in Part(c, base, at, hi)
  {
    var n := Shown(c, at, hi);
    PartEntries(c, base, at, hi);
    x := StripeHasByte(c, at.pos, hi, n);
    forall i | 0 <= i < n ensures Part(c, base, at, hi)[i] != base + c.Slot(x) {
      AroundApart(c.Stripe(at.pos), i, n, c.count);
    }
  }

  // ---------------------------------------------------------------------------
  // The walk over all components
  // ---------------------------------------------------------------------------

  predicate AllValid(comps: seq<Component>) {
    forall j :: 0 <= j < |comps| ==> comps[j].Valid()
  }

  /** Where a component's targets begin in the list of all of them. */
  function Base(comps: seq<Component>, j: nat): nat
    requires j <= |comps|
  {
    if j == 0 then 0 else Base(comps, j - 1) + comps[j - 1].count
  }

  /** The targets of a component come behind those of all components before it. */
  lemma BaseInNumbers(comps: seq<Component>, j: nat)
    requires j < |comps|
    ensures Base(comps, 0) == 0 && Base(comps, j + 1) == Base(comps, j) + comps[j].count
  {
  }

  /** Where the walk stands before the j-th component. */
  function CursorAt(comps: seq<Component>, lo: int, hi: int, j: nat): Cursor
    requires j <= |comps| && AllValid(comps)
  {
    if j == 0 then Cursor(lo, 0) else Next(comps[j - 1], CursorAt(comps, lo, hi, j - 1), hi)
  }

  function PartAt(comps: seq<Component>, lo: int, hi: int, j: nat): seq<int>
    requires j < |comps| && AllValid(comps)
  {
    Part(comps[j], Base(comps, j), CursorAt(comps, lo, hi, j), hi)
  }

  /** The targets named for the bytes from lo up to hi on the first j components. */
  function WalkUpTo(comps: seq<Component>, lo: int, hi: int, j: nat): seq<int>
    requires j <= |comps| && AllValid(comps)
  {
    if j == 0 then [] else WalkUpTo(comps, lo, hi, j - 1) + PartAt(comps, lo, hi, j - 1)
  }

  function Walk(comps: seq<Component>, lo: int, hi: int): seq<int>
    requires AllValid(comps)
  {
    WalkUpTo(comps, lo, hi, |comps|)
  }

  lemma {:induction false} BaseGrows(comps: seq<Component>, i: nat, j: nat)
    requires i < j <= |comps|
    ensures Base(comps, i) + comps[i].count <= Base(comps, j)
  {
    if i + 1 < j {
      BaseGrows(comps, i, j - 1);
    }
  }

  /** The targets of one I/O segment, as indices into the file's list of targets. All of them
      lie within that list. */
  method WalkSegment(comps: seq<Component>, offset: int, length: int) returns (out: seq<int>)
    requires AllValid(comps)
    ensures out == Walk(comps, offset, offset + length)
    ensures forall i :: 0 <= i < |out| ==> 0 <= out[i] < Base(comps, |comps|)
  {
    var at, base := Cursor(offset, 0), 0;
    out := [];
    for j := 0 to |comps|
      invariant at == CursorAt(comps, offset, offset + length, j) && base == Base(comps, j)
      invariant out == WalkUpTo(comps, offset, offset + length, j)
      invariant forall i :: 0 <= i < |out| ==> 0 <= out[i] < Base(comps, |comps|)
    {
      var c := comps[j];
      if c.count == 0 {
        continue;
      }
      BaseGrows(comps, j, |comps|);
      if c.Holds(at.pos) {
        var part;
        part, at := WalkComponent(c, base, Base(comps, |comps|), at, offset + length);
        out := out + part;
      }
      base := base + c.count;
    }
  }

  lemma {:induction false} CursorNeverGoesBack(comps: seq<Component>, lo: int, hi: int, j: nat)
    requires AllValid(comps) && j <= |comps|
    ensures lo <= CursorAt(comps, lo, hi, j).pos
  {
    if j > 0 {
      CursorNeverGoesBack(comps, lo, hi, j - 1);
      var c, at := comps[j - 1], CursorAt(comps, lo, hi, j - 1);
      if Shown(c, at, hi) > 0 {
        StripeWithinLimit(c, at.pos, hi, Shown(c, at, hi));
      }
    }
  }

  /** Which component a name belongs to. */
  lemma {:induction false} NamedBy(comps: seq<Component>, lo: int, hi: int, n: nat, s: int)
    requires AllValid(comps) && n <= |comps|
    ensures s in WalkUpTo(comps, lo, hi, n) <==> exists j :: 0 <= j < n && s in PartAt(comps, lo, hi, j)
  {
    if n > 0 {
      NamedBy(comps, lo, hi, n - 1, s);
    }
  }

  /** Targets of one component are named on no other. */
  lemma NamedOnlyBy(comps: seq<Component>, lo: int, hi: int, j: nat, s: int)
    requires AllValid(comps) && j < |comps|
    requires Base(comps, j) <= s < Base(comps, j) + comps[j].count
    ensures s in Walk(comps, lo, hi) <==> s in PartAt(comps, lo, hi, j)
  {
    NamedBy(comps, lo, hi, |comps|, s);
    forall i | 0 <= i < |comps| && s in PartAt(comps, lo, hi, i) ensures i == j {
      PartIsSound(comps[i], Base(comps, i), CursorAt(comps, lo, hi, i), hi);
      if i < j { BaseGrows(comps, i, j); }
      if j < i { BaseGrows(comps, j, i); }
    }
  }

  /** Byte x of a component lies in the stripe (x - start) / size, which is on the target of that number
      modulo the component's count. */
  ghost predicate OnTarget(c: Component, base: nat, x: int, s: int)
    requires c.Valid() && 0 < c.count && c.start <= x
  {
    s == base + (x - c.start) / c.size % c.count
  }

  ghost predicate KeepsByte(comps: seq<Component>, lo: int, hi: int, j: nat, x: int)
    requires AllValid(comps)
  {
    j < |comps| && 0 < comps[j].count && lo <= x < hi && comps[j].Holds(x)
  }

  /** Whatever the layout, each target named keeps a byte of the segment. */
  lemma WalkIsSound(comps: seq<Component>, lo: int, hi: int, s: int)
    requires AllValid(comps) && s in Walk(comps, lo, hi)
    ensures exists j: nat, x: int :: KeepsByte(comps, lo, hi, j, x) && OnTarget(comps[j], Base(comps, j), x, s)
  {
    NamedBy(comps, lo, hi, |comps|, s);
    var j :| 0 <= j < |comps| && s in PartAt(comps, lo, hi, j);
    var at := CursorAt(comps, lo, hi, j);
    PartIsSound(comps[j], Base(comps, j), at, hi);
    CursorNeverGoesBack(comps, lo, hi, j);
    var x :| at.pos <= x < comps[j].Limit(hi) && s == Base(comps, j) + comps[j].Slot(x);
    assert KeepsByte(comps, lo, hi, j, x) && OnTarget(comps[j], Base(comps, j), x, s);
  }

  /** And no target is named twice. */
  lemma {:induction false} WalkNamesOnce(comps: seq<Component>, lo: int, hi: int, n: nat)
    requires AllValid(comps) && n <= |comps|
    ensures forall i, j :: 0 <= i < j < |WalkUpTo(comps, lo, hi, n)| ==>
      WalkUpTo(comps, lo, hi, n)[i] != WalkUpTo(comps, lo, hi, n)[j]
    ensures forall i :: 0 <= i < |WalkUpTo(comps, lo, hi, n)| ==> 0 <= WalkUpTo(comps, lo, hi, n)[i] < Base(comps, n)
  {
    if n > 0 {
      WalkNamesOnce(comps, lo, hi, n - 1);
      PartIsSound(comps[n - 1], Base(comps, n - 1), CursorAt(comps, lo, hi, n - 1), hi);
      var w, part := WalkUpTo(comps, lo, hi, n - 1), PartAt(comps, lo, hi, n - 1);
      assert forall i :: 0 <= i < |part| ==> part[i] in part;
    }
  }

  // ---------------------------------------------------------------------------
  // Segments within one component
  // ---------------------------------------------------------------------------

  lemma {:induction false} NotEnteredBefore(comps: seq<Component>, lo: int, hi: int, j: nat)
    requires AllValid(comps) && j <= |comps|
    requires forall i :: 0 <= i < j ==> comps[i].count == 0 || !comps[i].Holds(lo)
    ensures CursorAt(comps, lo, hi, j) == Cursor(lo, 0) && WalkUpTo(comps, lo, hi, j) == []
  {
    if j > 0 {
      NotEnteredBefore(comps, lo, hi, j - 1);
    }
  }

  lemma NothingPastTheEnd(c: Component, at: Cursor, hi: int)
    requires c.Valid() && hi <= at.pos
    ensures Shown(c, at, hi) == 0
  {
  }

  lemma {:induction false} NothingAfter(comps: seq<Component>, lo: int, hi: int, j: nat, n: nat)
    requires AllValid(comps) && j <= n <= |comps|
    requires hi <= CursorAt(comps, lo, hi, j).pos
    ensures WalkUpTo(comps, lo, hi, n) == WalkUpTo(comps, lo, hi, j) &&
      CursorAt(comps, lo, hi, n) == CursorAt(comps, lo, hi, j)
  {
    if j < n {
      NothingAfter(comps, lo, hi, j, n - 1);
      NothingPastTheEnd(comps[n - 1], CursorAt(comps, lo, hi, n - 1), hi);
    }
  }

  lemma NextPastLimit(c: Component, at: Cursor, hi: int)
    requires c.Valid() && 0 < c.count && c.Holds(at.pos) && at.pos < c.Limit(hi)
    requires Shown(c, at, hi) == Min(Stripes(c, at.pos, hi), c.count)
    ensures c.Limit(hi) <= Next(c, at, hi).pos
  {
    StripeWithinLimit(c, at.pos, hi, Shown(c, at, hi));
  }

  lemma WithinOneIsItsPart(comps: seq<Component>, lo: int, hi: int, j: nat)
    requires AllValid(comps) && j < |comps| && 0 < comps[j].count
    requires lo < hi && comps[j].Holds(lo) && comps[j].Holds(hi - 1)
    requires forall i :: 0 <= i < j ==> comps[i].count == 0 || !comps[i].Holds(lo)
    ensures Walk(comps, lo, hi) == Part(comps[j], Base(comps, j), Cursor(lo, 0), hi)
    ensures Shown(comps[j], Cursor(lo, 0), hi) == Min(Stripes(comps[j], lo, hi), comps[j].count)
  {
    NotEnteredBefore(comps, lo, hi, j);
    NextPastLimit(comps[j], Cursor(lo, 0), hi);
    NothingAfter(comps, lo, hi, j + 1, |comps|);
  }

  ghost predicate Distinct(w: seq<int>) {
    forall i, k :: 0 <= i < k < |w| ==> w[i] != w[k]
  }

  /** In the order of the stripes, from that of byte lo on. */
  ghost predicate Cyclic(c: Component, base: nat, lo: int, w: seq<int>)
    requires c.Valid() && 0 < c.count && c.Holds(lo)
  {
    forall i :: 0 <= i < |w| ==> w[i] == base + (c.Slot(lo) + i) % c.count
  }

  ghost predicate KeptOn(c: Component, base: nat, lo: int, hi: int, s: int)
    requires c.Valid() && 0 < c.count && c.Holds(lo)
  {
    exists x :: lo <= x < hi && s == base + c.Slot(x)
  }

  ghost predicate TargetsOfBytes(c: Component, base: nat, lo: int, hi: int, w: seq<int>)
    requires c.Valid() && 0 < c.count && c.Holds(lo)
  {
    forall s :: s in w <==> KeptOn(c, base, lo, hi, s)
  }

  lemma PartInNumbers(c: Component, base: nat, at: Cursor, hi: int)
    requires c.Valid() && 0 < c.count && c.Holds(at.pos)
    ensures var w := Part(c, base, at, hi);
      forall i :: 0 <= i < |w| ==> w[i] == base + ((at.pos - c.start) / c.size + i) % c.count
  {
    PartEntries(c, base, at, hi);
  }

  lemma PartIsCyclic(c: Component, base: nat, lo: int, hi: int)
    requires c.Valid() && 0 < c.count && c.Holds(lo)
    ensures Cyclic(c, base, lo, Part(c, base, Cursor(lo, 0), hi))
  {
    var w := Part(c, base, Cursor(lo, 0), hi);
    PartEntries(c, base, Cursor(lo, 0), hi);
    forall i | 0 <= i < |w| ensures w[i] == base + (c.Slot(lo) + i) % c.count {
      AroundAgain(i, c.Stripe(lo), c.count);
    }
  }

  lemma PartHasTheTargets(c: Component, base: nat, lo: int, hi: int)
    requires c.Valid() && 0 < c.count && c.Holds(lo) && lo < hi == c.Limit(hi)
    requires Shown(c, Cursor(lo, 0), hi) == Min(Stripes(c, lo, hi), c.count)
    ensures TargetsOfBytes(c, base, lo, hi, Part(c, base, Cursor(lo, 0), hi))
  {
    var w := Part(c, base, Cursor(lo, 0), hi);
    forall s | s in w ensures KeptOn(c, base, lo, hi, s) {
      PartIsSound(c, base, Cursor(lo, 0), hi);
    }
    forall s | KeptOn(c, base, lo, hi, s) ensures s in w {
      var x :| lo <= x < hi && s == base + c.Slot(x);
      PartIsComplete(c, base, Cursor(lo, 0), hi, x);
    }
  }

  /** For a non-empty segment within one component, the walk names the targets of its bytes, all
      of them and no others, each once, in cyclic order from the first byte's. */
  lemma WithinOneComponent(comps: seq<Component>, lo: int, hi: int, j: nat)
    requires AllValid(comps) && j < |comps| && 0 < comps[j].count
    requires lo < hi && comps[j].Holds(lo) && comps[j].Holds(hi - 1)
    requires forall i :: 0 <= i < j ==> comps[i].count == 0 || !comps[i].Holds(lo)
    ensures |Walk(comps, lo, hi)| == Min(Stripes(comps[j], lo, hi), comps[j].count)
    ensures Distinct(Walk(comps, lo, hi))
    ensures Cyclic(comps[j], Base(comps, j), lo, Walk(comps, lo, hi))
    ensures TargetsOfBytes(comps[j], Base(comps, j), lo, hi, Walk(comps, lo, hi))
  {
    var c, base := comps[j], Base(comps, j);
    WithinOneIsItsPart(comps, lo, hi, j);
    PartIsSound(c, base, Cursor(lo, 0), hi);
    PartIsCyclic(c, base, lo, hi);
    PartHasTheTargets(c, base, lo, hi);
  }

  /** In numbers: the i-th target named for a segment within one component is that of the i-th stripe
      from the first byte's on, and the targets named are those of the segment's bytes. */
  lemma WithinOneInNumbers(comps: seq<Component>, lo: int, hi: int, j: nat, s: int)
    requires AllValid(comps) && j < |comps| && 0 < comps[j].count
    requires lo < hi && comps[j].Holds(lo) && comps[j].Holds(hi - 1)
    requires forall i :: 0 <= i < j ==> comps[i].count == 0 || !comps[i].Holds(lo)
    ensures var c, b, out := comps[j], Base(comps, j), Walk(comps, lo, hi);
      && (forall i :: 0 <= i < |out| ==> out[i] == b + ((lo - c.start) / c.size + i) % c.count)
      && (s in out <==> exists x :: lo <= x < hi && OnTarget(c, b, x, s))
  {
    var c, b, out := comps[j], Base(comps, j), Walk(comps, lo, hi);
    WithinOneComponent(comps, lo, hi, j);
    WithinOneIsItsPart(comps, lo, hi, j);
    PartInNumbers(c, b, Cursor(lo, 0), hi);
    if KeptOn(c, b, lo, hi, s) {
      var x :| lo <= x < hi && s == b + c.Slot(x);
      assert OnTarget(c, b, x, s);
    }
    if x :| lo <= x < hi && OnTarget(c, b, x, s) {
      assert s == b + c.Slot(x);
    }
  }

  // ---------------------------------------------------------------------------
  // Segments over several components
  // ---------------------------------------------------------------------------

  function Max(x: int, y: int): int { if x < y then y else x }

  predicate Touches(c: Component, lo: int, hi: int) {
    Max(lo, c.start) < c.Limit(hi)
  }

  /** How many of a component's targets keep bytes of the segment. */
  function Targets(c: Component, lo: int, hi: int): nat
    requires c.Valid()
  {
    if c.count == 0 || !Touches(c, lo, hi) then 0 else Min(Stripes(c, Max(lo, c.start), hi), c.count)
  }

  function Seen(comps: seq<Component>, lo: int, hi: int, j: nat): nat
    requires AllValid(comps) && j <= |comps|
  {
    if j == 0 then 0 else Seen(comps, lo, hi, j - 1) + Targets(comps[j - 1], lo, hi)
  }

  /** A layout as the file system makes them: components follow one another without gaps, only
      the last may be open, and each but the last ends on a stripe boundary. */
  predicate Tiled(comps: seq<Component>) {
    && AllValid(comps)
    && forall j :: 0 <= j < |comps| ==>
         && 0 <= comps[j].start
         && (comps[j].end == -1 ==> j + 1 == |comps|)
         && (comps[j].end != -1 ==> comps[j].start < comps[j].end)
         && (j + 1 < |comps| ==> comps[j].end == comps[j + 1].start)
         && (j + 1 < |comps| && 0 < comps[j].count ==> (comps[j].end - comps[j].start) % comps[j].size == 0)
  }

  /** The walk still has all it needs on a component: what was named on earlier ones leaves room
      for this one's targets, or one target is all there is. */
  predicate HasRoom(comps: seq<Component>, lo: int, hi: int, j: nat)
    requires AllValid(comps) && j < |comps|
  {
    var n := Targets(comps[j], lo, hi);
    n <= 1 || Seen(comps, lo, hi, j) + n <= comps[j].count
  }

  /** The walk stops on a component without targets that holds a byte of the segment. */
  predicate Stalls(comps: seq<Component>, lo: int, hi: int, j: nat)
    requires AllValid(comps) && j < |comps|
  {
    comps[j].count == 0 && Touches(comps[j], lo, hi)
  }

  ghost predicate Fits(comps: seq<Component>, lo: int, hi: int)
    requires AllValid(comps)
  {
    forall j :: 0 <= j < |comps| && 0 < Targets(comps[j], lo, hi) ==>
      HasRoom(comps, lo, hi, j) && forall i :: 0 <= i < j ==> !Stalls(comps, lo, hi, i)
  }

  /** Every target that keeps a byte of the segment is named. */
  ghost predicate Complete(comps: seq<Component>, lo: int, hi: int)
    requires AllValid(comps)
  {
    forall j: nat, x: int :: KeepsByte(comps, lo, hi, j, x) ==> Base(comps, j) + comps[j].Slot(x) in Walk(comps, lo, hi)
  }

  /** Where the walk stands before a component when nothing has gone wrong. */
  predicate OnTrack(comps: seq<Component>, lo: int, hi: int, j: nat)
    requires AllValid(comps) && j < |comps|
  {
    var at, first := CursorAt(comps, lo, hi, j), Max(lo, comps[j].start);
    && at.printed == Seen(comps, lo, hi, j)
    && if first < hi then at.pos == first else hi <= at.pos
  }

  lemma ShownOnTrack(comps: seq<Component>, lo: int, hi: int, j: nat)
    requires Tiled(comps) && j < |comps| && OnTrack(comps, lo, hi, j)
    ensures Touches(comps[j], lo, hi) <==>
      comps[j].Holds(CursorAt(comps, lo, hi, j).pos) && CursorAt(comps, lo, hi, j).pos < comps[j].Limit(hi)
    ensures Shown(comps[j], CursorAt(comps, lo, hi, j), hi) <= Targets(comps[j], lo, hi)
    ensures Shown(comps[j], CursorAt(comps, lo, hi, j), hi) == Targets(comps[j], lo, hi) <==> HasRoom(comps, lo, hi, j)
  {
    var c, at := comps[j], CursorAt(comps, lo, hi, j);
    assert Touches(c, lo, hi) ==> at.pos == Max(lo, c.start) && c.Holds(at.pos);
    assert !Touches(c, lo, hi) ==> !(c.Holds(at.pos) && at.pos < c.Limit(hi));
    ShownOfTargets(c, at, lo, hi);
  }

  /** How many targets the walk names on a component, standing where it should. */
  lemma ShownOfTargets(c: Component, at: Cursor, lo: int, hi: int)
    requires c.Valid()
    requires Touches(c, lo, hi) ==> at.pos == Max(lo, c.start) && c.Holds(at.pos)
    requires !Touches(c, lo, hi) ==> !(c.Holds(at.pos) && at.pos < c.Limit(hi))
    ensures var n := Targets(c, lo, hi);
      Shown(c, at, hi) <= n && (Shown(c, at, hi) == n <==> n <= 1 || at.printed + n <= c.count)
  {
    if Touches(c, lo, hi) && 0 < c.count {
      StripesGrow(c, at.pos, c.Limit(hi) - 1);
      assert 0 < Stripes(c, at.pos, hi);
    }
  }

  /** A component left by running out of stripes is left at its end. */
  lemma EndsOnBoundary(c: Component, pos: int, hi: int)
    requires c.Valid() && 0 < c.count && c.Holds(pos) && pos < c.end < hi && c.end != -1
    requires (c.end - c.start) % c.size == 0
    ensures c.start + Edge(c.Stripe(pos) + Stripes(c, pos, hi), c.size) == c.end
  {
    var q := (c.end - c.start) / c.size;
    assert c.end - c.start == q * c.size;
    DivUnique(c.end - 1 - c.start, q - 1, c.size - 1, c.size);
    assert c.Stripe(pos) + Stripes(c, pos, hi) == q by {
      StripesGrow(c, pos, c.end - 1);
    }
  }

  /** Where the walk goes on from a component whose targets it all named. */
  lemma NextAfterAll(c: Component, at: Cursor, hi: int)
    requires c.Valid() && 0 < c.count && c.Holds(at.pos) && at.pos < c.Limit(hi) && c.end != -1
    requires (c.end - c.start) % c.size == 0
    requires Shown(c, at, hi) == Min(Stripes(c, at.pos, hi), c.count)
    ensures Next(c, at, hi).printed == at.printed + Shown(c, at, hi)
    ensures if c.end < hi then Next(c, at, hi).pos == c.end else hi <= Next(c, at, hi).pos
  {
    if c.end < hi {
      EndsOnBoundary(c, at.pos, hi);
      StripesGrow(c, at.pos, c.end - 1);
    } else {
      NextPastLimit(c, at, hi);
    }
  }

  lemma StaysOnTrack(comps: seq<Component>, lo: int, hi: int, j: nat)
    requires Tiled(comps) && j + 1 < |comps| && OnTrack(comps, lo, hi, j)
    requires HasRoom(comps, lo, hi, j) && !Stalls(comps, lo, hi, j)
    ensures OnTrack(comps, lo, hi, j + 1)
  {
    var c, at := comps[j], CursorAt(comps, lo, hi, j);
    ShownOnTrack(comps, lo, hi, j);
    if Touches(c, lo, hi) {
      NextAfterAll(c, at, hi);
    }
  }

  lemma {:induction false} StaysPut(comps: seq<Component>, lo: int, hi: int, j: nat, k: nat)
    requires Tiled(comps) && j < k < |comps| && OnTrack(comps, lo, hi, j) && Stalls(comps, lo, hi, j)
    ensures CursorAt(comps, lo, hi, k) == CursorAt(comps, lo, hi, j) && CursorAt(comps, lo, hi, k).pos < comps[k].start
    ensures PartAt(comps, lo, hi, k) == []
  {
    if j + 1 < k {
      StaysPut(comps, lo, hi, j, k - 1);
    }
  }

  /** On track, a component is covered exactly if it has room. */
  lemma CoveredIff(comps: seq<Component>, lo: int, hi: int, j: nat)
    requires Tiled(comps) && j < |comps| && OnTrack(comps, lo, hi, j)
    ensures HasRoom(comps, lo, hi, j) ==>
              forall x :: KeepsByte(comps, lo, hi, j, x) ==> Base(comps, j) + comps[j].Slot(x) in Walk(comps, lo, hi)
    ensures !HasRoom(comps, lo, hi, j) ==> !Complete(comps, lo, hi)
  {
    var c, at, base := comps[j], CursorAt(comps, lo, hi, j), Base(comps, j);
    ShownOnTrack(comps, lo, hi, j);
    if HasRoom(comps, lo, hi, j) {
      forall x | KeepsByte(comps, lo, hi, j, x) ensures base + c.Slot(x) in Walk(comps, lo, hi) {
        assert Touches(c, lo, hi);
        PartIsComplete(c, base, at, hi, x);
        NamedOnlyBy(comps, lo, hi, j, base + c.Slot(x));
      }
    } else {
      var x := PartMisses(c, base, at, hi);
      NamedOnlyBy(comps, lo, hi, j, base + c.Slot(x));
      assert KeepsByte(comps, lo, hi, j, x);
    }
  }

  /** After a stall nothing more is named. */
  lemma MissedAfterStall(comps: seq<Component>, lo: int, hi: int, j: nat, k: nat)
    requires Tiled(comps) && j < k < |comps| && OnTrack(comps, lo, hi, j) && Stalls(comps, lo, hi, j)
    requires 0 < Targets(comps[k], lo, hi)
    ensures !Complete(comps, lo, hi)
  {
    StaysPut(comps, lo, hi, j, k);
    var x := Max(lo, comps[k].start);
    assert KeepsByte(comps, lo, hi, k, x);
    NamedOnlyBy(comps, lo, hi, k, Base(comps, k) + comps[k].Slot(x));
  }

  ghost predicate FineUpTo(comps: seq<Component>, lo: int, hi: int, j: nat)
    requires AllValid(comps) && j <= |comps|
  {
    && (forall i :: 0 <= i < j ==> HasRoom(comps, lo, hi, i) && !Stalls(comps, lo, hi, i))
    && (forall i: nat, x: int :: i < j && KeepsByte(comps, lo, hi, i, x) ==>
      Base(comps, i) + comps[i].Slot(x) in Walk(comps, lo, hi))
  }

  lemma CompleteIffNothingFollows(comps: seq<Component>, lo: int, hi: int, j: nat)
    requires Tiled(comps) && j < |comps| && FineUpTo(comps, lo, hi, j) && OnTrack(comps, lo, hi, j)
    requires Stalls(comps, lo, hi, j)
    ensures Complete(comps, lo, hi) <==> Fits(comps, lo, hi)
  {
    if k :| j < k < |comps| && 0 < Targets(comps[k], lo, hi) {
      MissedAfterStall(comps, lo, hi, j, k);
    } else {
      forall i: nat, x: int | KeepsByte(comps, lo, hi, i, x)
        ensures Base(comps, i) + comps[i].Slot(x) in Walk(comps, lo, hi)
      {
        KeepsSomeTarget(comps, lo, hi, i, x);
      }
    }
  }

  lemma FineGrows(comps: seq<Component>, lo: int, hi: int, j: nat)
    requires AllValid(comps) && j < |comps| && FineUpTo(comps, lo, hi, j)
    requires HasRoom(comps, lo, hi, j) && !Stalls(comps, lo, hi, j)
    requires forall x :: KeepsByte(comps, lo, hi, j, x) ==> Base(comps, j) + comps[j].Slot(x) in Walk(comps, lo, hi)
    ensures FineUpTo(comps, lo, hi, j + 1)
  {
  }

  lemma {:induction false} CompleteIffFrom(comps: seq<Component>, lo: int, hi: int, j: nat)
    requires Tiled(comps) && j <= |comps| && FineUpTo(comps, lo, hi, j)
    requires j < |comps| ==> OnTrack(comps, lo, hi, j)
    ensures Complete(comps, lo, hi) <==> Fits(comps, lo, hi)
    decreases |comps| - j
  {
    if j < |comps| {
      CoveredIff(comps, lo, hi, j);
      if !HasRoom(comps, lo, hi, j) {
        assert !Fits(comps, lo, hi);
      } else if Stalls(comps, lo, hi, j) {
        CompleteIffNothingFollows(comps, lo, hi, j);
      } else {
        if j + 1 < |comps| {
          StaysOnTrack(comps, lo, hi, j);
        }
        FineGrows(comps, lo, hi, j);
        CompleteIffFrom(comps, lo, hi, j + 1);
      }
    }
  }

  lemma KeepsSomeTarget(comps: seq<Component>, lo: int, hi: int, j: nat, x: int)
    requires AllValid(comps) && KeepsByte(comps, lo, hi, j, x)
    ensures 0 < Targets(comps[j], lo, hi)
  {
    var c := comps[j];
    StripesGrow(c, Max(lo, c.start), c.Limit(hi) - 1);
  }

  /** The walk's answer is complete exactly when each component finds room left by the targets
      named on earlier ones, and no earlier component without targets holds a byte of the
      segment. The count of names is kept from one component to the next, and a component without
      targets does not move the walk on. */
  lemma CompleteIffFits(comps: seq<Component>, lo: int, hi: int)
    requires Tiled(comps) && (0 < |comps| ==> comps[0].start <= lo)
    ensures Complete(comps, lo, hi) <==> Fits(comps, lo, hi)
  {
    CompleteIffFrom(comps, lo, hi, 0);
  }

  /** A byte on a component with one target, then one on each of two more: the last of the three
      targets is not named. */
  lemma LaterComponentIsCutShort(comps: seq<Component>, lo: int, hi: int)
    requires comps == [Component(0, 1, 1, 1), Component(1, -1, 1, 2)] && lo == 0 && hi == 3
    ensures Tiled(comps) && !Complete(comps, lo, hi)
  {
    OneTarget(comps[0], lo, hi);
    TwoTargets(comps[1], lo, hi);
    assert Seen(comps, lo, hi, 0) == 0 && Seen(comps, lo, hi, 1) == 1;
    assert !HasRoom(comps, lo, hi, 1);
    CompleteIffFits(comps, lo, hi);
  }

  lemma OneTarget(c: Component, lo: int, hi: int)
    requires c.Valid() && c.count == 1 && Touches(c, lo, hi)
    ensures Targets(c, lo, hi) == 1
  {
    KeepsOneTarget(c, Max(lo, c.start), hi);
  }

  lemma KeepsOneTarget(c: Component, pos: int, hi: int)
    requires c.Valid() && 0 < c.count && c.start <= pos < c.Limit(hi)
    ensures 1 <= Stripes(c, pos, hi)
  {
    StripesGrow(c, pos, c.Limit(hi) - 1);
  }

  lemma TwoTargets(c: Component, lo: int, hi: int)
    requires c.Valid() && c.count == 2 && c.end == -1 && c.size == 1 && lo <= c.start && hi == c.start + 2
    ensures Targets(c, lo, hi) == 2
  {
    TwoStripes(c, c.start);
  }

  lemma TwoStripes(c: Component, pos: int)
    requires c.Valid() && 0 < c.count && c.end == -1 && c.size == 1 && pos == c.start
    ensures Stripes(c, pos, pos + 2) == 2
  {
    DivUnique(1, 1, 0, c.size);
    DivUnique(0, 0, 0, c.size);
  }

  /** A segment that begins on the metadata server: nothing of the rest is named. */
  lemma MetadataFirstNamesNothing()
    ensures var comps := [Component(0, 2, 1, 0), Component(2, -1, 1, 2)];
            Tiled(comps) && !Complete(comps, 0, 4) && Walk(comps, 0, 4) == []
  {
    var comps := [Component(0, 2, 1, 0), Component(2, -1, 1, 2)];
    MissedAfterStall(comps, 0, 4, 0, 1);
    StaysPut(comps, 0, 4, 0, 1);
    assert WalkUpTo(comps, 0, 4, 1) == [];
  }
}
