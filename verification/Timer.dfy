/** The time spent in operations that may overlap, in clock ticks. */
module Timer {

  /** An operation's start and end; a zero time means it was not taken. */
  datatype Op = Op(start: nat, end: nat) {
    predicate Timed() { start != 0 && end != 0 }
  }

  /** The counter, and the end of the latest operation so far. */
  datatype Clock = Clock(timer: int, last: nat)

  function Inc(c: Clock, op: Op): Clock {
    if !op.Timed() then c
    else Clock(if op.start > c.last then c.timer + (op.end - op.start) else c.timer + (op.end - c.last),
               if op.end > c.last then op.end else c.last)
  }

  function Run(ops: seq<Op>): Clock {
    if ops == [] then Clock(0, 0) else Inc(Run(ops[..|ops| - 1]), ops[|ops| - 1])
  }

  /** The record's counter and its last end, incremented in place. */
  class Counter {
    var timer: int
    var last: nat

    constructor ()
      ensures Clock(timer, last) == Run([])
    {
      timer, last := 0, 0;
    }

    method IncNoOverlap(tm1: nat, tm2: nat, ghost ops: seq<Op>)
      requires Clock(timer, last) == Run(ops)
      modifies this
      ensures Clock(timer, last) == Run(ops + [Op(tm1, tm2)])
    {
      assert (ops + [Op(tm1, tm2)])[..|ops|] == ops;
      if tm1 == 0 || tm2 == 0 { return; }
      if tm1 > last {
        timer := timer + (tm2 - tm1);
      } else {
        timer := timer + (tm2 - last);
      }
      if tm2 > last {
        last := tm2;
      }
    }
  }

  // ---------------------------------------------------------------------------
  // The measure of the union
  // ---------------------------------------------------------------------------

  ghost function Ticks(a: int, b: int): (ts: set<int>)
    ensures forall t :: t in ts <==> a <= t < b
    decreases b - a
  {
    if b <= a then {} else Ticks(a, b - 1) + {b - 1}
  }

  ghost function Union(ops: seq<Op>): set<int> {
    if ops == [] then {}
    else
      var op := ops[|ops| - 1];
      Union(ops[..|ops| - 1]) + (if op.Timed() then Ticks(op.start, op.end) else {})
  }

  /** In numbers: the ticks within some operation, both of whose times were taken. */
  lemma {:induction false} UnionInNumbers(ops: seq<Op>, t: int)
    ensures t in Union(ops) <==>
              exists i :: 0 <= i < |ops| && ops[i].start != 0 && ops[i].end != 0 && ops[i].start <= t < ops[i].end
  {
    if ops != [] {
      var n := |ops| - 1;
      UnionInNumbers(ops[..n], t);
      assert forall i :: 0 <= i < n ==> ops[..n][i] == ops[i];
      if i :| 0 <= i < n && ops[i].start != 0 && ops[i].end != 0 && ops[i].start <= t < ops[i].end {
        assert ops[..n][i].start <= t;
      }
    }
  }

  /** An operation one of whose times was not taken changes nothing. */
  lemma UntimedIsIgnored(ops: seq<Op>, op: Op)
    requires op.start == 0 || op.end == 0
    ensures Run(ops + [op]) == Run(ops)
  {
    assert (ops + [op])[..|ops|] == ops;
  }

  lemma {:induction false} TicksCount(a: int, b: int)
    requires a <= b
    ensures |Ticks(a, b)| == b - a
    decreases b - a
  {
    if a < b {
      TicksCount(a, b - 1);
    }
  }

  lemma DisjointCount(x: set<int>, y: set<int>)
    requires x !! y
    ensures |x + y| == |x| + |y|
  {
  }

  lemma SubsetCount(x: set<int>, y: set<int>)
    requires x <= y
    ensures |x| <= |y| && (|x| == |y| <==> x == y)
  {
    var rest := y - x;
    assert y == x + rest;
    DisjointCount(x, rest);
    if |rest| == 0 {
      assert rest == {};
    }
  }

  /** Each operation ends after it starts, and none ends before an earlier one. */
  ghost predicate EndsInOrder(ops: seq<Op>) {
    && (forall i :: 0 <= i < |ops| && ops[i].Timed() ==> ops[i].start <= ops[i].end)
    && (forall i, j :: 0 <= i < j < |ops| && ops[i].Timed() && ops[j].Timed() ==> ops[i].end <= ops[j].end)
  }

  /** The ticks that are counted: of each operation those after the previous end. */
  ghost function Counted(ops: seq<Op>): set<int> {
    if ops == [] then {}
    else
      var op, last := ops[|ops| - 1], Run(ops[..|ops| - 1]).last;
      Counted(ops[..|ops| - 1])
      + (if op.Timed() then Ticks(if op.start > last then op.start else last, op.end) else {})
  }

  lemma {:induction false} LastIsLatest(ops: seq<Op>)
    ensures forall i :: 0 <= i < |ops| && ops[i].Timed() ==> ops[i].end <= Run(ops).last
    ensures Run(ops).last != 0 ==> exists i :: 0 <= i < |ops| && ops[i].Timed() && ops[i].end == Run(ops).last
  {
    if ops != [] {
      var front := ops[..|ops| - 1];
      LastIsLatest(front);
      if Run(front).last != 0 {
        var i :| 0 <= i < |front| && front[i].Timed() && front[i].end == Run(front).last;
        assert ops[i] == front[i];
      }
    }
  }

  /** What the operations take back: those that end before they start, or before the previous end. */
  ghost function TakenBack(ops: seq<Op>): nat {
    if ops == [] then 0
    else
      var op, last := ops[|ops| - 1], Run(ops[..|ops| - 1]).last;
      var from := if op.start > last then op.start else last;
      TakenBack(ops[..|ops| - 1]) + (if op.Timed() && op.end < from then from - op.end else 0)
  }

  /** For any run: every tick up to now lies before the last end, and the counter is the number of
      counted ticks less what was taken back. */
  lemma {:induction false} TimerCounts(ops: seq<Op>)
    ensures Run(ops).timer == |Counted(ops)| - TakenBack(ops)
    ensures Counted(ops) <= Union(ops) && forall t :: t in Union(ops) ==> t < Run(ops).last
  {
    if ops != [] {
      var front, op := ops[..|ops| - 1], ops[|ops| - 1];
      TimerCounts(front);
      assert ops == front + [op];
      CountsOneMore(front, op);
    }
  }

  lemma CountsOneMore(ops: seq<Op>, op: Op)
    requires Run(ops).timer == |Counted(ops)| - TakenBack(ops)
    requires Counted(ops) <= Union(ops) && forall t :: t in Union(ops) ==> t < Run(ops).last
    ensures var all := ops + [op];
      && Run(all).timer == |Counted(all)| - TakenBack(all)
      && Counted(all) <= Union(all) && forall t :: t in Union(all) ==> t < Run(all).last
  {
    var all, last := ops + [op], Run(ops).last;
    assert all[..|ops|] == ops && all[|ops|] == op;
    var from := if op.start > last then op.start else last;
    if op.Timed() && from <= op.end {
      TicksCount(from, op.end);
      DisjointCount(Counted(ops), Ticks(from, op.end));
    }
  }

  /** Nothing is taken back exactly if the operations end in order. */
  lemma {:induction false} TakesNothingBackIff(ops: seq<Op>)
    ensures TakenBack(ops) == 0 <==> EndsInOrder(ops)
  {
    if ops != [] {
      var front, op := ops[..|ops| - 1], ops[|ops| - 1];
      TakesNothingBackIff(front);
      LastIsLatest(front);
      assert ops == front + [op];
      EndsInOrderStep(front, op);
    }
  }

  lemma EndsInOrderStep(ops: seq<Op>, op: Op)
    ensures EndsInOrder(ops + [op]) <==>
              EndsInOrder(ops) && (op.Timed() ==> op.start <= op.end && Run(ops).last <= op.end)
  {
    var all := ops + [op];
    assert all[|ops|] == op;
    LastIsLatest(ops);
    if EndsInOrder(all) {
      assert EndsInOrder(all[..|ops|]);
      assert all[..|ops|] == ops;
      if op.Timed() && Run(ops).last != 0 {
        var i :| 0 <= i < |ops| && ops[i].Timed() && ops[i].end == Run(ops).last;
        assert all[i] == ops[i];
      }
    }
  }

  /** For any run, in whatever order its operations end, the timer never exceeds the measure of the
      union of their intervals; it can be negative only if they end out of order. */
  lemma NeverExceedsUnion(ops: seq<Op>)
    ensures Run(ops).timer <= |Union(ops)|
    ensures EndsInOrder(ops) ==> 0 <= Run(ops).timer
  {
    TimerCounts(ops);
    TakesNothingBackIff(ops);
    SubsetCount(Counted(ops), Union(ops));
  }

  /** What an operation has before the previous end was spent in earlier operations already. */
  ghost predicate NoGap(ops: seq<Op>, i: nat)
    requires i < |ops|
  {
    ops[i].Timed() ==> Ticks(ops[i].start, Run(ops[..i]).last) * Ticks(ops[i].start, ops[i].end) <= Union(ops[..i])
  }

  lemma {:induction false} CountsAllIff(ops: seq<Op>)
    ensures Counted(ops) == Union(ops) <==> forall i :: 0 <= i < |ops| ==> NoGap(ops, i)
  {
    if ops != [] {
      var n := |ops| - 1;
      var front, op := ops[..n], ops[n];
      CountsAllIff(front);
      TimerCounts(front);
      assert ops == front + [op];
      NoGapStep(front, op);
      CountedStep(front, op);
    }
  }

  lemma NoGapStep(ops: seq<Op>, op: Op)
    ensures var all := ops + [op];
      (forall i :: 0 <= i < |all| ==> NoGap(all, i)) <==>
        (forall i :: 0 <= i < |ops| ==> NoGap(ops, i)) && NoGap(all, |ops|)
  {
    forall i | 0 <= i < |ops| ensures NoGap(ops + [op], i) <==> NoGap(ops, i) {
      assert (ops + [op])[..i] == ops[..i];
    }
  }

  lemma CountedStep(ops: seq<Op>, op: Op)
    requires Counted(ops) <= Union(ops) && forall t :: t in Union(ops) ==> t < Run(ops).last
    ensures var all := ops + [op];
            Counted(all) == Union(all) <==> Counted(ops) == Union(ops) && NoGap(all, |ops|)
  {
    var all, last := ops + [op], Run(ops).last;
    assert all[..|ops|] == ops;
    if op.Timed() {
      var from := if op.start > last then op.start else last;
      var own, late := Ticks(op.start, op.end), Ticks(from, op.end);
      var early := Ticks(op.start, last) * own;
      assert own == early + late;
      assert Counted(all) == Counted(ops) + late && Union(all) == Union(ops) + early + late;
      assert forall t :: t in late ==> last <= t;
      assert forall t :: t in early ==> t < last;
      if Counted(all) == Union(all) {
        assert forall t :: t in Union(ops) + early ==> t in Counted(ops);
      }
    }
  }

  /** For any run, the timer is that measure if and only if the operations end in order and none
      reaches back, before the previous end, into time that no earlier operation spent. */
  lemma EqualsUnionIff(ops: seq<Op>)
    ensures Run(ops).timer == |Union(ops)| <==>
              EndsInOrder(ops) && forall i :: 0 <= i < |ops| ==> NoGap(ops, i)
  {
    TimerCounts(ops);
    TakesNothingBackIff(ops);
    SubsetCount(Counted(ops), Union(ops));
    CountsAllIff(ops);
  }

  ghost predicate StartsInOrder(ops: seq<Op>) {
    forall i, j :: 0 <= i < j < |ops| && ops[i].Timed() && ops[j].Timed() ==> ops[i].start <= ops[j].start
  }

  lemma {:induction false} UnionHas(ops: seq<Op>, k: nat)
    requires k < |ops| && ops[k].Timed()
    ensures Ticks(ops[k].start, ops[k].end) <= Union(ops)
  {
    if k < |ops| - 1 {
      UnionHas(ops[..|ops| - 1], k);
    }
  }

  /** In particular when the operations start in order too. */
  lemma EqualsUnion(ops: seq<Op>)
    requires EndsInOrder(ops) && StartsInOrder(ops)
    ensures Run(ops).timer == |Union(ops)|
  {
    forall i | 0 <= i < |ops| ensures NoGap(ops, i) {
      var before := ops[..i];
      var last := Run(before).last;
      LastIsLatest(before);
      if ops[i].Timed() && last != 0 {
        var k :| 0 <= k < |before| && before[k].Timed() && before[k].end == last;
        UnionHas(before, k);
        assert before[k] == ops[k];
      }
    }
    EqualsUnionIff(ops);
  }

  lemma RunOfTwo(x: Op, y: Op)
    requires x.Timed() && y.Timed()
    ensures Run([x, y]) == Inc(Inc(Clock(0, 0), x), y)
    ensures Union([x, y]) == Ticks(x.start, x.end) + Ticks(y.start, y.end)
  {
    assert [x, y][..1] == [x] && [x][..0] == [];
    assert Run([x]) == Inc(Clock(0, 0), x) && Union([x]) == Ticks(x.start, x.end);
  }

  /** An operation nested in a longer one that was counted before it takes back the time between
      the two ends. */
  lemma NestedIsTakenBack(a: nat, b: nat, c: nat, d: nat)
    requires 0 < a <= b <= c < d
    ensures Run([Op(a, d), Op(b, c)]).timer == c - a < d - a == |Union([Op(a, d), Op(b, c)])|
  {
    RunOfTwo(Op(a, d), Op(b, c));
    assert Ticks(a, d) + Ticks(b, c) == Ticks(a, d);
    TicksCount(a, d);
  }

  /** One that encloses a shorter one counted before it loses the time between the two starts. */
  lemma EarlyStartIsMissed(a: nat, b: nat, c: nat, d: nat)
    requires 0 < a < b <= c <= d
    ensures Run([Op(b, c), Op(a, d)]).timer == d - b < d - a == |Union([Op(b, c), Op(a, d)])|
  {
    RunOfTwo(Op(b, c), Op(a, d));
    assert Ticks(b, c) + Ticks(a, d) == Ticks(a, d);
    TicksCount(a, d);
  }
}
