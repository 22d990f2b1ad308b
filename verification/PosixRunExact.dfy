/** When the aggregator's slots are the exact top four of any number of records, although they are
    never sorted again. */
module PosixRunExact {
  import opened CommonValues
  import opened DfsReduction
  import opened PosixCommonValues
  import opened Ranking

  ghost predicate AllWellFormed(recs: seq<seq<Slot>>) {
    forall i :: 0 <= i < |recs| ==> WellFormed(recs[i])
  }

  /** No merge drops `v`: the slots hold it from the first record that has it on. */
  ghost predicate KeptThrough(recs: seq<seq<Slot>>, v: int) {
    && (v in TotalOf(recs) ==> Holds(MergedAll(recs), v))
    && (recs != [] ==> KeptThrough(recs[..|recs| - 1], v))
  }

  /** The slots report the true total of `v`. */
  ghost predicate ReportedInFull(recs: seq<seq<Slot>>, v: int) {
    Get(TableOf(MergedAll(recs)), v) == Get(TotalOf(recs), v)
  }

  lemma PlacedNewMembers(s: seq<Slot>, n: Slot, p: nat, x: Slot)
    requires p <= |s| == 4 && x in PlacedNew(s, n, p)
    ensures x in s || x == n
  {
    var w := Without(s[p..], n.val);
    var r := s[..p] + [n] + w;
    if x !in s {
      assert x in r && x !in s[..p];
      if x in w {
        WithoutMembers(s[p..], n.val, x);
      }
    }
  }

  /** What inserting leaves: old slots, and new ones as the record has them. */
  lemma {:induction false} InsertNewMembers(s: seq<Slot>, a: seq<Slot>, xs: seq<Slot>, x: Slot)
    requires |s| == 4 && x in InsertNew(s, a, xs)
    ensures x in s || (x in xs && !Holds(a, x.val))
    decreases |xs|
  {
    if xs != [] {
      var n, rest := xs[0], xs[1..];
      if Holds(a, n.val) {
        InsertNewMembers(s, a, rest, x);
      } else if n.val != 0 {
        var p := Ahead(s, Slot(n.val, CompareTotal(s, n)));
        if p != 4 {
          InsertNewMembers(PlacedNew(s, n, p), a, rest, x);
          if x in PlacedNew(s, n, p) {
            PlacedNewMembers(s, n, p, x);
          }
        }
      }
    }
  }

  /** A value held after a merge has the sum of both counts. */
  lemma MergedCount(a: seq<Slot>, xs: seq<Slot>, x: Slot)
    requires |a| == 4 && DistinctValues(a) && DistinctValues(xs) && x in Merged(a, xs) && x.val != 0
    ensures x.cnt == CountOf(a, x.val) + CountOf(xs, x.val)
  {
    InsertNewMembers(Collapsed(a, xs), a, xs, x);
    if x in Collapsed(a, xs) {
      var i :| 0 <= i < |a| && Collapsed(a, xs)[i] == x;
      CountOfDistinct(a, i);
    } else {
      var i :| 0 <= i < |xs| && xs[i] == x;
      CountOfDistinct(xs, i);
      CountOfNone(a, x.val);
    }
  }

  lemma MergedReports(a: seq<Slot>, xs: seq<Slot>, v: int)
    requires |a| == 4 && DistinctValues(a) && DistinctValues(xs) && DistinctValues(Merged(a, xs)) && v != 0
    ensures Get(TableOf(Merged(a, xs)), v) ==
      if Holds(Merged(a, xs), v) then Get(TableOf(a), v) + Get(TableOf(xs), v) else 0
  {
    var r := Merged(a, xs);
    if Holds(r, v) {
      var i :| 0 <= i < |r| && r[i].val == v;
      CountOfDistinct(r, i);
      MergedCount(a, xs, r[i]);
      CountIsGet(a, v);
      CountIsGet(xs, v);
    }
  }

  /** No more is reported of a value than its total, and nothing of one that no record has. */
  lemma ReportedAtMost(s: seq<Slot>, total: map<int, int>, v: int)
    requires Sound(s, total) && Positive(total) && v != 0
    ensures Get(TableOf(s), v) <= Get(total, v)
    ensures v !in total ==> Get(TableOf(s), v) == 0
    ensures v in total ==> Get(total, v) >= 1
  {
    if Holds(s, v) {
      var i :| 0 <= i < |s| && s[i].val == v;
      CountOfDistinct(s, i);
    }
  }

  /** One merge, from what was reported of a value before it. */
  lemma MergeInFull(a: seq<Slot>, xs: seq<Slot>, before: map<int, int>, v: int)
    requires Sound(a, before) && Positive(before) && WellFormed(xs) && v != 0
    ensures var r, after := Merged(a, xs), Sum(before, TableOf(xs));
      Get(TableOf(r), v) == Get(after, v) <==>
        Get(TableOf(a), v) == Get(before, v) && (v in after ==> Holds(r, v))
  {
    MergedIsSound(a, xs, before);
    WellFormedIsPadded(xs);
    ReportedAtMost(a, before, v);
    MergedReports(a, xs, v);
    var after := Sum(before, TableOf(xs));
    assert Get(after, v) == Get(before, v) + Get(TableOf(xs), v);
    assert v in after ==> 1 <= Get(after, v);
  }

  lemma FullIff(recs: seq<seq<Slot>>, v: int)
    requires AllWellFormed(recs) && recs != [] && v != 0
    ensures ReportedInFull(recs, v) <==>
      ReportedInFull(recs[..|recs| - 1], v) && (v in TotalOf(recs) ==> Holds(MergedAll(recs), v))
  {
    var front, xs := recs[..|recs| - 1], recs[|recs| - 1];
    AggregateIsSound(front);
    MergeInFull(MergedAll(front), xs, TotalOf(front), v);
  }

  /** A value is reported in full after any number of records if and only if no merge drops it. */
  lemma {:induction false} FullIffKept(recs: seq<seq<Slot>>, v: int)
    requires AllWellFormed(recs) && v != 0
    ensures ReportedInFull(recs, v) <==> KeptThrough(recs, v)
  {
    if recs != [] {
      FullIffKept(recs[..|recs| - 1], v);
      FullIff(recs, v);
    }
  }

  lemma HasLeaders(s: seq<Slot>, total: map<int, int>)
    requires Sound(s, total) && Positive(total) && Ordered(s)
    requires forall v :: v in Leaders(total) ==> Get(TableOf(s), v) == total[v]
    ensures HoldsLeaders(s, total)
  {
    forall v | v in Leaders(total) ensures Slot(v, total[v]) in s {
      assert Get(TableOf(s), v) >= 1;
      var i :| 0 <= i < 4 && s[i].val == v;
      CountOfDistinct(s, i);
      assert s[i] == Slot(v, total[v]);
    }
  }

  /** The exact condition over any number of records: the aggregate is the top four of all of them
      if and only if its slots are in order and no merge drops one of the four. */
  lemma AggregateTopFourIff(recs: seq<seq<Slot>>)
    requires AllWellFormed(recs)
    ensures IsTopFour(MergedAll(recs), TotalOf(recs)) <==>
      Ordered(MergedAll(recs)) && forall v :: v in Leaders(TotalOf(recs)) ==> KeptThrough(recs, v)
  {
    var s, total := MergedAll(recs), TotalOf(recs);
    AggregateIsSound(recs);
    forall v | v in Leaders(total) ensures Get(TableOf(s), v) == total[v] <==> KeptThrough(recs, v) {
      FullIffKept(recs, v);
    }
    if IsTopFour(s, total) {
      forall v | v in Leaders(total) ensures Get(TableOf(s), v) == total[v] {
        TopFourReports(s, total, v);
      }
    }
    if Ordered(s) && forall v :: v in Leaders(total) ==> KeptThrough(recs, v) {
      HasLeaders(s, total);
      LeadersMakeTopFour(s, total);
    }
  }
}
