/** Aggregating POSIX records: counters and times are summed, and the fastest and the slowest
    rank of a file are kept. */
module PosixAggregate {

  const SUMMED: nat := 41
  const TIMES: nat := 3
  const BYTES_READ := 12
  const BYTES_WRITTEN := 13

  /** A rank with the bytes it moved and the time it took. */
  datatype Extreme = Extreme(rank: int, bytes: int, time: real)

  /** The counters that are summed, the read, write and metadata times, and the extremes. */
  datatype Record = Record(id: nat, rank: int, sums: seq<int>, times: seq<real>, fastest: Extreme, slowest: Extreme) {
    predicate Valid() { |sums| == SUMMED && |times| == TIMES }

    /** A record of one rank is its own extreme. */
    function Own(): Extreme
      requires Valid()
    {
      Extreme(rank, sums[BYTES_READ] + sums[BYTES_WRITTEN], times[0] + times[1] + times[2])
    }

    function Fast(): Extreme
      requires Valid()
    {
      if rank == -1 then fastest else Own()
    }

    function Slow(): Extreme
      requires Valid()
    {
      if rank == -1 then slowest else Own()
    }
  }

  const NO_EXTREME := Extreme(-1, -1, 0.0)

  /** A negative sum is stored as -1. */
  function Clamp(x: int): int { if x < 0 then -1 else x }

  /** One record aggregated into another; `first` if it is the first. */
  ghost function Step(agg: Record, rec: Record, first: bool): (r: Record)
    requires agg.Valid() && rec.Valid()
    ensures r.Valid()
  {
    var id := if first then rec.id else agg.id;
    var rank := if first then rec.rank else agg.rank;
    Record(if id == rec.id then id else 0,
           if rank == rec.rank then rank else -1,
           seq(SUMMED, i requires 0 <= i < SUMMED => Clamp(agg.sums[i] + rec.sums[i])),
           seq(TIMES, i requires 0 <= i < TIMES => agg.times[i] + rec.times[i]),
           if id != rec.id then NO_EXTREME
           else if first || rec.Fast().time < agg.fastest.time then rec.Fast() else agg.fastest,
           if id != rec.id then NO_EXTREME
           else if first || rec.Slow().time > agg.slowest.time then rec.Slow() else agg.slowest)
  }

  /** The aggregate record, updated in place. */
  class Aggregate {
    var id: nat
    var rank: int
    const sums: array<int>
    const times: array<real>
    var fastest: Extreme
    var slowest: Extreme

    ghost predicate Valid() {
      sums.Length == SUMMED && times.Length == TIMES
    }

    ghost function Value(): (r: Record)
      requires Valid()
      reads this, sums, times
      ensures r.Valid()
    {
      Record(id, rank, sums[..], times[..], fastest, slowest)
    }

    /** A zeroed buffer. */
    constructor ()
      ensures Valid() && fresh(sums) && fresh(times)
      ensures Value() == Empty()
    {
      id, rank := 0, 0;
      sums := new int[SUMMED](_ => 0);
      times := new real[TIMES](_ => 0.0);
      fastest, slowest := Extreme(0, 0, 0.0), Extreme(0, 0, 0.0);
    }

    /** Takes on a record's contents. */
    method Load(rec: Record)
      requires Valid() && rec.Valid()
      modifies this, sums, times
      ensures Value() == rec
    {
      id, rank, fastest, slowest := rec.id, rec.rank, rec.fastest, rec.slowest;
      forall i | 0 <= i < SUMMED { sums[i] := rec.sums[i]; }
      forall i | 0 <= i < TIMES { times[i] := rec.times[i]; }
      assert sums[..] == rec.sums && times[..] == rec.times;
    }

    method Copy() returns (rec: Record)
      requires Valid()
      ensures rec == Value()
    {
      rec := Record(id, rank, sums[..], times[..], fastest, slowest);
    }

    method AddCounters(rec: Record)
      requires Valid() && rec.Valid()
      modifies sums
      ensures forall i :: 0 <= i < SUMMED ==> sums[i] == Clamp(old(sums[i]) + rec.sums[i])
    {
      for i := 0 to SUMMED
        invariant forall k :: 0 <= k < i ==> sums[k] == Clamp(old(sums[k]) + rec.sums[k])
        invariant forall k :: i <= k < SUMMED ==> sums[k] == old(sums[k])
      {
        sums[i] := sums[i] + rec.sums[i];
        if sums[i] < 0 {
          sums[i] := -1;
        }
      }
    }

    method AddTimes(rec: Record)
      requires Valid() && rec.Valid()
      modifies times
      ensures forall i :: 0 <= i < TIMES ==> times[i] == old(times[i]) + rec.times[i]
    {
      for i := 0 to TIMES
        invariant forall k :: 0 <= k < i ==> times[k] == old(times[k]) + rec.times[k]
        invariant forall k :: i <= k < TIMES ==> times[k] == old(times[k])
      {
        times[i] := times[i] + rec.times[i];
      }
    }

    method AddRecord(rec: Record, first: bool)
      requires Valid() && rec.Valid()
      modifies this, sums, times
      ensures Value() == Step(old(Value()), rec, first)
    {
      var fast, slow := rec.Fast(), rec.Slow();
      var sameFile := false;
      if first {
        rank := rec.rank;
        id := rec.id;
      }
      if id == rec.id {
        sameFile := true;
      } else {
        id := 0;
      }
      if rank != rec.rank {
        rank := -1;
      }
      AddCounters(rec);
      AddTimes(rec);
      if !sameFile {
        fastest, slowest := NO_EXTREME, NO_EXTREME;
      } else {
        if first || fast.time < fastest.time { fastest := fast; }
        if first || slow.time > slowest.time { slowest := slow; }
      }
      ghost var r := Step(old(Value()), rec, first);
      assert sums[..] == r.sums && times[..] == r.times;
    }
  }

  // ---------------------------------------------------------------------------
  // The aggregate of one file's records
  // ---------------------------------------------------------------------------

  /** A zeroed record. */
  ghost function Empty(): (r: Record)
    ensures r.Valid()
  {
    Record(0, 0, seq(SUMMED, _ => 0), seq(TIMES, _ => 0.0), Extreme(0, 0, 0.0), Extreme(0, 0, 0.0))
  }

  ghost predicate AllValid(rs: seq<Record>) {
    forall i :: 0 <= i < |rs| ==> rs[i].Valid()
  }

  /** The aggregate of the ranks' records of a file, marked as shared once begun. */
  ghost function AggregateOf(rs: seq<Record>): (r: Record)
    requires rs != [] && AllValid(rs)
    ensures r.Valid()
  {
    if |rs| == 1 then Step(Empty(), rs[0], true).(rank := -1)
    else Step(AggregateOf(rs[..|rs| - 1]), rs[|rs| - 1], false)
  }

  function Sum(xs: seq<int>): int {
    if xs == [] then 0 else Sum(xs[..|xs| - 1]) + xs[|xs| - 1]
  }

  function RealSum(xs: seq<real>): real {
    if xs == [] then 0.0 else RealSum(xs[..|xs| - 1]) + xs[|xs| - 1]
  }

  /** The sum as it is kept: clamped after every step. */
  function KeptSum(xs: seq<int>): int {
    if xs == [] then 0 else Clamp(KeptSum(xs[..|xs| - 1]) + xs[|xs| - 1])
  }

  ghost function Counters(rs: seq<Record>, i: nat): (xs: seq<int>)
    requires AllValid(rs) && i < SUMMED
    ensures |xs| == |rs| && forall k :: 0 <= k < |xs| ==> xs[k] == rs[k].sums[i]
  {
    seq(|rs|, k requires 0 <= k < |rs| => rs[k].sums[i])
  }

  ghost function Seconds(rs: seq<Record>, i: nat): (xs: seq<real>)
    requires AllValid(rs) && i < TIMES
    ensures |xs| == |rs| && forall k :: 0 <= k < |xs| ==> xs[k] == rs[k].times[i]
  {
    seq(|rs|, k requires 0 <= k < |rs| => rs[k].times[i])
  }

  /** The kept sum is the sum exactly if no prefix falls below -1. */
  lemma {:induction false} KeptSumExactIff(xs: seq<int>)
    ensures KeptSum(xs) >= Sum(xs)
    ensures KeptSum(xs) == Sum(xs) <==> forall k :: 0 <= k <= |xs| ==> -1 <= Sum(xs[..k])
  {
    if xs == [] {
      assert forall k :: 0 <= k <= |xs| ==> xs[..k] == [];
    } else {
      var n := |xs| - 1;
      var front := xs[..n];
      KeptSumExactIff(front);
      assert forall k :: 0 <= k <= n ==> front[..k] == xs[..k];
      assert xs[..|xs|] == xs;
    }
  }

  /** A counter that is not available is stored as -1: any number of these keep as a single one. */
  lemma {:induction false} AllUnavailable(xs: seq<int>)
    requires forall k :: 0 <= k < |xs| ==> xs[k] == -1
    ensures Sum(xs) == -|xs| && KeptSum(xs) == if xs == [] then 0 else -1
  {
    if xs != [] {
      AllUnavailable(xs[..|xs| - 1]);
    }
  }

  /** So the order of the records matters: of two unavailable counters one is lost if they come
      first, but none behind a valid count that makes up for them. */
  lemma UnavailableFirstIsLost(y: int)
    requires 1 <= y
    ensures KeptSum([-1, -1, y]) == y - 1 != Sum([-1, -1, y])
    ensures KeptSum([y, -1, -1]) == Sum([y, -1, -1]) == y - 2
  {
    var lost, kept := [-1, -1, y], [y, -1, -1];
    assert lost[..2] == [-1, -1] && kept[..2] == [y, -1];
    AllUnavailable([-1, -1]);
    assert [y, -1][..1] == [y] && [y][..0] == [];
    assert Sum([y]) == KeptSum([y]) == y && Sum([y, -1]) == KeptSum([y, -1]) == y - 1;
  }

  /** The sum of counts that are all valid is exact. */
  lemma {:induction false} ValidCountsAreExact(xs: seq<int>)
    requires forall k :: 0 <= k < |xs| ==> 0 <= xs[k]
    ensures KeptSum(xs) == Sum(xs) >= 0
  {
    if xs != [] {
      ValidCountsAreExact(xs[..|xs| - 1]);
    }
  }

  /** The records of the ranks of one file, each by its own rank. */
  ghost predicate OneFile(rs: seq<Record>) {
    AllValid(rs) && forall i :: 0 <= i < |rs| ==> rs[i].id == rs[0].id && 0 <= rs[i].rank
  }

  ghost function OwnTimes(rs: seq<Record>): (ts: seq<real>)
    requires AllValid(rs)
    ensures |ts| == |rs| && forall k :: 0 <= k < |ts| ==> ts[k] == rs[k].Own().time
  {
    seq(|rs|, k requires 0 <= k < |rs| => rs[k].Own().time)
  }

  /** The k-th is the least, and the first of the least. */
  ghost predicate IsFirstMin(ts: seq<real>, k: nat) {
    && k < |ts|
    && (forall j :: 0 <= j < |ts| ==> ts[k] <= ts[j])
    && (forall j :: 0 <= j < k ==> ts[k] < ts[j])
  }

  ghost predicate IsFirstMax(ts: seq<real>, k: nat) {
    && k < |ts|
    && (forall j :: 0 <= j < |ts| ==> ts[k] >= ts[j])
    && (forall j :: 0 <= j < k ==> ts[k] > ts[j])
  }

  lemma MinGrows(ts: seq<real>, n: nat, k: nat)
    requires n + 1 == |ts| && IsFirstMin(ts[..n], k)
    ensures IsFirstMin(ts, if ts[n] < ts[k] then n else k)
  {
    assert forall j :: 0 <= j < n ==> ts[..n][j] == ts[j];
  }

  lemma MaxGrows(ts: seq<real>, n: nat, k: nat)
    requires n + 1 == |ts| && IsFirstMax(ts[..n], k)
    ensures IsFirstMax(ts, if ts[n] > ts[k] then n else k)
  {
    assert forall j :: 0 <= j < n ==> ts[..n][j] == ts[j];
  }

  ghost predicate SumsAre(sums: seq<int>, rs: seq<Record>)
    requires AllValid(rs)
  {
    |sums| == SUMMED && forall i :: 0 <= i < SUMMED ==> sums[i] == KeptSum(Counters(rs, i))
  }

  ghost predicate TimesAre(times: seq<real>, rs: seq<Record>)
    requires AllValid(rs)
  {
    |times| == TIMES && forall i :: 0 <= i < TIMES ==> times[i] == RealSum(Seconds(rs, i))
  }

  ghost predicate FastestIs(e: Extreme, rs: seq<Record>)
    requires AllValid(rs)
  {
    exists k: nat :: IsFirstMin(OwnTimes(rs), k) && e == rs[k].Own()
  }

  ghost predicate SlowestIs(e: Extreme, rs: seq<Record>)
    requires AllValid(rs)
  {
    exists k: nat :: IsFirstMax(OwnTimes(rs), k) && e == rs[k].Own()
  }

  /** What the aggregate of a file holds. */
  ghost predicate Aggregates(a: Record, rs: seq<Record>)
    requires AllValid(rs) && rs != []
  {
    && a.id == rs[0].id && a.rank == -1
    && SumsAre(a.sums, rs) && TimesAre(a.times, rs)
    && FastestIs(a.fastest, rs) && SlowestIs(a.slowest, rs)
  }

  lemma SumsStart(sums: seq<int>, rs: seq<Record>)
    requires AllValid(rs) && |rs| == 1 && |sums| == SUMMED
    requires forall i :: 0 <= i < SUMMED ==> sums[i] == Clamp(rs[0].sums[i])
    ensures SumsAre(sums, rs)
  {
    forall i | 0 <= i < SUMMED ensures sums[i] == KeptSum(Counters(rs, i)) {
      assert Counters(rs, i)[..0] == [];
    }
  }

  lemma TimesStart(times: seq<real>, rs: seq<Record>)
    requires AllValid(rs) && |rs| == 1 && |times| == TIMES
    requires forall i :: 0 <= i < TIMES ==> times[i] == rs[0].times[i]
    ensures TimesAre(times, rs)
  {
    forall i | 0 <= i < TIMES ensures times[i] == RealSum(Seconds(rs, i)) {
      assert Seconds(rs, i)[..0] == [];
    }
  }

  lemma SumsGrow(sums: seq<int>, rs: seq<Record>, n: nat, sums': seq<int>)
    requires AllValid(rs) && n + 1 == |rs| && SumsAre(sums, rs[..n]) && |sums'| == SUMMED
    requires forall i :: 0 <= i < SUMMED ==> sums'[i] == Clamp(sums[i] + rs[n].sums[i])
    ensures SumsAre(sums', rs)
  {
    forall i | 0 <= i < SUMMED ensures sums'[i] == KeptSum(Counters(rs, i)) {
      assert Counters(rs, i)[..n] == Counters(rs[..n], i);
    }
  }

  lemma TimesGrow(times: seq<real>, rs: seq<Record>, n: nat, times': seq<real>)
    requires AllValid(rs) && n + 1 == |rs| && TimesAre(times, rs[..n]) && |times'| == TIMES
    requires forall i :: 0 <= i < TIMES ==> times'[i] == times[i] + rs[n].times[i]
    ensures TimesAre(times', rs)
  {
    forall i | 0 <= i < TIMES ensures times'[i] == RealSum(Seconds(rs, i)) {
      assert Seconds(rs, i)[..n] == Seconds(rs[..n], i);
    }
  }

  lemma FastestGrows(e: Extreme, rs: seq<Record>, n: nat)
    requires AllValid(rs) && n + 1 == |rs| && FastestIs(e, rs[..n])
    ensures FastestIs(if rs[n].Own().time < e.time then rs[n].Own() else e, rs)
  {
    var k: nat :| IsFirstMin(OwnTimes(rs[..n]), k) && e == rs[..n][k].Own();
    assert OwnTimes(rs)[..n] == OwnTimes(rs[..n]);
    MinGrows(OwnTimes(rs), n, k);
  }

  lemma SlowestGrows(e: Extreme, rs: seq<Record>, n: nat)
    requires AllValid(rs) && n + 1 == |rs| && SlowestIs(e, rs[..n])
    ensures SlowestIs(if rs[n].Own().time > e.time then rs[n].Own() else e, rs)
  {
    var k: nat :| IsFirstMax(OwnTimes(rs[..n]), k) && e == rs[..n][k].Own();
    assert OwnTimes(rs)[..n] == OwnTimes(rs[..n]);
    MaxGrows(OwnTimes(rs), n, k);
  }

  lemma ExtremeStarts(rs: seq<Record>)
    requires |rs| == 1 && OneFile(rs)
    ensures FastestIs(rs[0].Own(), rs) && SlowestIs(rs[0].Own(), rs)
  {
    assert IsFirstMin(OwnTimes(rs), 0) && IsFirstMax(OwnTimes(rs), 0);
  }

  lemma AggregateStarts(rs: seq<Record>)
    requires |rs| == 1 && OneFile(rs)
    ensures Aggregates(AggregateOf(rs), rs)
  {
    var a := AggregateOf(rs);
    SumsStart(a.sums, rs);
    TimesStart(a.times, rs);
    ExtremeStarts(rs);
  }

  lemma AggregateGrows(a: Record, rs: seq<Record>, n: nat)
    requires 0 < n && n + 1 == |rs| && OneFile(rs) && a.Valid() && Aggregates(a, rs[..n])
    ensures Aggregates(Step(a, rs[n], false), rs)
  {
    var b := Step(a, rs[n], false);
    assert rs[..n][0] == rs[0];
    SumsGrow(a.sums, rs, n, b.sums);
    TimesGrow(a.times, rs, n, b.times);
    FastestGrows(a.fastest, rs, n);
    SlowestGrows(a.slowest, rs, n);
  }

  /** The aggregate of one file's records, one by rank: it is marked as shared, each counter is
      the kept sum of the ranks' counters, each time their sum, and the fastest and the slowest
      rank are the first with the least and with the greatest time. */
  lemma {:induction false} FileAggregate(rs: seq<Record>)
    requires rs != [] && OneFile(rs)
    ensures Aggregates(AggregateOf(rs), rs)
  {
    var n := |rs| - 1;
    if n == 0 {
      AggregateStarts(rs);
    } else {
      assert rs[..n][0] == rs[0];
      FileAggregate(rs[..n]);
      AggregateGrows(AggregateOf(rs[..n]), rs, n);
    }
  }

  lemma AggregateSnoc(rs: seq<Record>, r: Record)
    requires AllValid(rs) && r.Valid()
    ensures AllValid(rs + [r])
    ensures AggregateOf(rs + [r]) == if rs == [] then Step(Empty(), r, true).(rank := -1)
      else Step(AggregateOf(rs), r, false)
  {
    var all := rs + [r];
    assert all[..|rs|] == rs && all[|rs|] == r;
  }

  /** What one more record adds to an aggregate, in numbers, and what the first begins it with. */
  lemma AggregateInNumbers(rs: seq<Record>, r: Record, i: nat)
    requires AllValid(rs) && r.Valid()
    ensures AllValid(rs + [r])
    ensures i < 41 ==>
              var sum := (if rs == [] then 0 else AggregateOf(rs).sums[i]) + r.sums[i];
              AggregateOf(rs + [r]).sums[i] == if sum < 0 then -1 else sum
    ensures i < 3 ==>
              var time := if rs == [] then 0.0 else AggregateOf(rs).times[i];
              AggregateOf(rs + [r]).times[i] == time + r.times[i]
    ensures rs == [] ==> AggregateOf(rs + [r]).id == r.id && AggregateOf(rs + [r]).rank == -1
  {
    AggregateSnoc(rs, r);
  }

  /** The time of a record that is not shared, and the extreme it stands for: its rank, the bytes read
      and written (the 13th and 14th counter), and its read, write and metadata times together. */
  ghost predicate IsExtremeOf(e: Extreme, r: Record)
    requires r.Valid()
  {
    e.rank == r.rank && e.bytes == r.sums[12] + r.sums[13] && e.time == r.times[0] + r.times[1] + r.times[2]
  }

  /** In numbers: the fastest rank of a file is the first whose read, write and metadata times are
      together the least, the slowest the first whose times are the greatest. */
  lemma ExtremesInNumbers(rs: seq<Record>) returns (fast: nat, slow: nat)
    requires rs != [] && OneFile(rs)
    ensures fast < |rs| && slow < |rs|
    ensures IsExtremeOf(AggregateOf(rs).fastest, rs[fast]) && IsExtremeOf(AggregateOf(rs).slowest, rs[slow])
    ensures forall j :: 0 <= j < |rs| ==>
      AggregateOf(rs).fastest.time <= rs[j].times[0] + rs[j].times[1] + rs[j].times[2] <= AggregateOf(rs).slowest.time
    ensures forall j :: 0 <= j < fast ==>
      AggregateOf(rs).fastest.time < rs[j].times[0] + rs[j].times[1] + rs[j].times[2]
    ensures forall j :: 0 <= j < slow ==>
      rs[j].times[0] + rs[j].times[1] + rs[j].times[2] < AggregateOf(rs).slowest.time
  {
    FileAggregate(rs);
    fast :| IsFirstMin(OwnTimes(rs), fast) && AggregateOf(rs).fastest == rs[fast].Own();
    slow :| IsFirstMax(OwnTimes(rs), slow) && AggregateOf(rs).slowest == rs[slow].Own();
    forall j | 0 <= j < |rs| ensures OwnTimes(rs)[j] == rs[j].times[0] + rs[j].times[1] + rs[j].times[2] {
    }
  }

  /** What a record brings to an aggregate of its file: a shared one the extremes it has, any other
      itself. */
  lemma ExtremesOfOne(agg: Record, rec: Record)
    requires agg.Valid() && rec.Valid()
    ensures var a := Step(agg, rec, true);
      && (rec.rank == -1 ==> a.fastest == rec.fastest && a.slowest == rec.slowest)
      && (rec.rank != -1 ==> IsExtremeOf(a.fastest, rec) && IsExtremeOf(a.slowest, rec))
    ensures agg.id == rec.id ==>
      var a := Step(agg, rec, false);
      && (rec.rank == -1 ==>
        && a.fastest == (if rec.fastest.time < agg.fastest.time then rec.fastest else agg.fastest)
        && a.slowest == (if rec.slowest.time > agg.slowest.time then rec.slowest else agg.slowest))
      && (rec.rank != -1 ==>
        var time := rec.times[0] + rec.times[1] + rec.times[2];
        && (if time < agg.fastest.time then IsExtremeOf(a.fastest, rec) else a.fastest == agg.fastest)
        && (if time > agg.slowest.time then IsExtremeOf(a.slowest, rec) else a.slowest == agg.slowest))
    ensures agg.id != rec.id ==>
      Step(agg, rec, false).fastest == Step(agg, rec, false).slowest == Extreme(-1, -1, 0.0)
    ensures var a := Step(agg, rec, false);
      && a.id == (if agg.id == rec.id then agg.id else 0) && a.rank == (if agg.rank == rec.rank then agg.rank else -1)
      && |a.sums| == 41 && |a.times| == 3
  {
  }
}
