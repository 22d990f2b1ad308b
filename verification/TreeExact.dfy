/** When a whole reduction gives the exact top four of the totals of its ranks. */
module TreeExact {
  import opened CommonValues
  import opened DfsReduction
  import opened Ranking

  /** No combination in the tree drops `v`: the slots of every part whose ranks saw it hold it. */
  ghost predicate Keeps(t: Reduction, v: int) {
    && (v in Total(t) ==> Holds(SlotsOf(t), v))
    && (t.Combine? ==> Keeps(t.left, v) && Keeps(t.right, v))
  }

  /** The slots of the tree report the true total of `v`. */
  ghost predicate Exact(t: Reduction, v: int) {
    Get(TableOf(SlotsOf(t)), v) == Get(Total(t), v)
  }

  /** `v` is one of the four leaders of the true totals in every part whose ranks saw it. */
  ghost predicate LeadsThroughout(t: Reduction, v: int) {
    && (v in Total(t) ==> v in Leaders(Total(t)))
    && (t.Combine? ==> LeadsThroughout(t.left, v) && LeadsThroughout(t.right, v))
  }

  /** What the slots of a combination are the top four of. */
  lemma CombineParts(l: Reduction, r: Reduction)
    requires LeavesWellFormed(Combine(l, r)) && Countable(Total(Combine(l, r)))
    ensures var a, b := TableOf(SlotsOf(l)), TableOf(SlotsOf(r));
      && Within(a, Total(l)) && Within(b, Total(r)) && IsTopFour(SlotsOf(Combine(l, r)), Sum(a, b))
  {
    CombineIsCountable(l, r);
    TreeIsSound(l);
    TreeIsSound(r);
    SumWithin(TableOf(SlotsOf(l)), Total(l), TableOf(SlotsOf(r)), Total(r));
    ReducedIsTopFourOfSum(SlotsOf(l), SlotsOf(r));
  }

  lemma SumReports(s: seq<Slot>, a: map<int, int>, b: map<int, int>, v: int)
    requires IsTopFour(s, Sum(a, b))
    ensures Get(TableOf(s), v) == if v in TableOf(s) then Get(a, v) + Get(b, v) else 0
  {
    if v in TableOf(s) {
      HeldCount(s, Sum(a, b), v);
    }
  }

  lemma WithinAt(t: map<int, int>, total: map<int, int>, v: int)
    requires Within(t, total) && Positive(total) && v != 0
    ensures Get(t, v) <= Get(total, v) && (v in total <==> Get(total, v) >= 1)
  {
  }

  lemma CombineExact(l: Reduction, r: Reduction, v: int)
    requires LeavesWellFormed(Combine(l, r)) && Countable(Total(Combine(l, r))) && v != 0
    ensures var t := Combine(l, r);
      Exact(t, v) <==> Exact(l, v) && Exact(r, v) && (v in Total(t) ==> Holds(SlotsOf(t), v))
  {
    var t := Combine(l, r);
    CombineParts(l, r);
    CombineIsCountable(l, r);
    TotalPositive(t);
    SumReports(SlotsOf(t), TableOf(SlotsOf(l)), TableOf(SlotsOf(r)), v);
    WithinAt(TableOf(SlotsOf(l)), Total(l), v);
    WithinAt(TableOf(SlotsOf(r)), Total(r), v);
    WithinAt(map[], Total(t), v);
    assert Get(Total(t), v) == Get(Total(l), v) + Get(Total(r), v);
  }

  /** A value is reported in full if and only if it is never dropped. */
  lemma {:induction false} ExactIffKept(t: Reduction, v: int)
    requires LeavesWellFormed(t) && Countable(Total(t)) && v != 0
    ensures Exact(t, v) <==> Keeps(t, v)
  {
    match t
    case Rank(_, _) =>
    case Combine(l, r) =>
      CombineIsCountable(l, r);
      ExactIffKept(l, v);
      ExactIffKept(r, v);
      CombineExact(l, r, v);
  }

  lemma HasLeaders(s: seq<Slot>, t: map<int, int>)
    requires WellFormed(s) && Within(TableOf(s), t) && Positive(t)
    requires forall v :: v in Leaders(t) ==> Get(TableOf(s), v) == t[v]
    ensures HoldsLeaders(s, t)
  {
    forall i | 0 <= i < 4 && s[i].val != 0 ensures s[i].val in t {
      assert Holds(s, s[i].val);
    }
    forall v | v in Leaders(t) ensures Slot(v, t[v]) in s {
      assert Get(TableOf(s), v) >= 1;
      var i :| 0 <= i < 4 && s[i].val == v;
      assert s[i] == Slot(v, t[v]);
    }
  }

  /** The exact condition: a tree gives the top four of the totals of its ranks if and only if it
      never drops one of the four. */
  lemma TreeIsExactIff(t: Reduction)
    requires LeavesWellFormed(t) && Countable(Total(t))
    ensures IsTopFour(SlotsOf(t), Total(t)) <==> forall v :: v in Leaders(Total(t)) ==> Keeps(t, v)
  {
    var s, total := SlotsOf(t), Total(t);
    TreeIsSound(t);
    TotalPositive(t);
    forall v | v in Leaders(total) ensures Get(TableOf(s), v) == total[v] <==> Keeps(t, v) {
      ExactIffKept(t, v);
    }
    if IsTopFour(s, total) {
      forall v | v in Leaders(total) ensures Get(TableOf(s), v) == total[v] {
        TopFourReports(s, total, v);
      }
    }
    if forall v :: v in Leaders(total) ==> Keeps(t, v) {
      HasLeaders(s, total);
      LeadersMakeTopFour(s, total);
    }
  }

  lemma FewerAhead(t: map<int, int>, total: map<int, int>, v: int)
    requires Within(t, total) && v in t && v in Leaders(total) && t[v] == total[v]
    ensures v in Leaders(t)
  {
    SubsetSize(Outrankers(t, v), Outrankers(total, v));
  }

  /** A leader that both sides report in full is not dropped when they are combined. */
  lemma LeaderSurvives(l: Reduction, r: Reduction, v: int)
    requires LeavesWellFormed(Combine(l, r)) && Countable(Total(Combine(l, r)))
    requires v in Leaders(Total(Combine(l, r))) && Exact(l, v) && Exact(r, v)
    ensures Holds(SlotsOf(Combine(l, r)), v)
  {
    var a, b := TableOf(SlotsOf(l)), TableOf(SlotsOf(r));
    CombineIsCountable(l, r);
    TreeIsSound(l);
    TreeIsSound(r);
    SumWithin(a, Total(l), b, Total(r));
    ReducedIsTopFourOfSum(SlotsOf(l), SlotsOf(r));
    FewerAhead(Sum(a, b), Total(Combine(l, r)), v);
    LeadersAreHeld(SlotsOf(Combine(l, r)), Sum(a, b), v);
  }

  /** A value that leads in every part is never dropped. */
  lemma {:induction false} LeadingIsKept(t: Reduction, v: int)
    requires LeavesWellFormed(t) && Countable(Total(t)) && v != 0 && LeadsThroughout(t, v)
    ensures Keeps(t, v)
  {
    match t
    case Rank(_, _) =>
    case Combine(l, r) =>
      CombineIsCountable(l, r);
      LeadingIsKept(l, v);
      LeadingIsKept(r, v);
      ExactIffKept(l, v);
      ExactIffKept(r, v);
      if v in Total(t) {
        LeaderSurvives(l, r, v);
      }
  }

  /** A condition on the ranks' records and the shape of the tree alone: when each of the four
      leaders of the totals also leads in every part that saw it, the tree is exact. */
  lemma LeadersThroughoutIsExact(t: Reduction)
    requires LeavesWellFormed(t) && Countable(Total(t))
    requires forall v :: v in Leaders(Total(t)) ==> LeadsThroughout(t, v)
    ensures IsTopFour(SlotsOf(t), Total(t))
  {
    forall v | v in Leaders(Total(t)) ensures Keeps(t, v) {
      LeadingIsKept(t, v);
    }
    TreeIsExactIff(t);
  }
}
