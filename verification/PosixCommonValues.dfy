/** The common-value block of the POSIX record aggregator: the four values of one more
    record are merged, lossily, into the four slots of the aggregate. */
module PosixCommonValues {
  import opened CommonValues
  import opened DfsReduction
  import opened Ranking

  /** The comparison total of a new value: its count narrowed to 32 bits. */
  function CompareTotal(s: seq<Slot>, n: Slot): int {
    Int32(if Holds(s, n.val) then CountOf(s, n.val) + n.cnt else n.cnt)
  }

  /** One new value placed ahead of the first slot it is not outranked by. */
  function PlacedNew(s: seq<Slot>, n: Slot, p: nat): (r: seq<Slot>)
    requires p <= |s| == 4
  {
    var r := s[..p] + [n] + Without(s[p..], n.val);
    if p == 4 || |r| < 4 then s else r[..4]
  }

  /** The record's values in turn: those already in the aggregate `a` are skipped, a zero
      ends the walk, and so does a value that all four slots outrank. */
  function InsertNew(s: seq<Slot>, a: seq<Slot>, xs: seq<Slot>): (r: seq<Slot>)
    requires |s| == 4
    ensures |r| == 4
    decreases |xs|
  {
    if xs == [] then s
    else if Holds(a, xs[0].val) then InsertNew(s, a, xs[1..])
    else if xs[0].val == 0 then s
    else
      var p := Ahead(s, Slot(xs[0].val, CompareTotal(s, xs[0])));
      if p == 4 then s else InsertNew(PlacedNew(s, xs[0], p), a, xs[1..])
  }

  /** The slots of the aggregate after one more record. */
  function Merged(a: seq<Slot>, xs: seq<Slot>): (r: seq<Slot>)
    requires |a| == 4
    ensures |r| == 4
  {
    InsertNew(Collapsed(a, xs), a, xs)
  }

  function MergedAll(recs: seq<seq<Slot>>): (r: seq<Slot>)
    ensures |r| == 4
  {
    if recs == [] then EMPTY_SLOTS else Merged(MergedAll(recs[..|recs| - 1]), recs[|recs| - 1])
  }

  /** The frequency table of all records together. */
  function TotalOf(recs: seq<seq<Slot>>): map<int, int> {
    if recs == [] then map[] else Sum(TotalOf(recs[..|recs| - 1]), TableOf(recs[|recs| - 1]))
  }

  // ---------------------------------------------------------------------------
  // Soundness for any number of records
  // ---------------------------------------------------------------------------

  /** Distinct values, zero slots empty, and no count above the value's total. */
  ghost predicate Sound(s: seq<Slot>, total: map<int, int>) {
    && |s| == 4 && ZeroPadded(s)
    && forall i :: 0 <= i < 4 && s[i].val != 0 ==> s[i].val in total && s[i].cnt <= total[s[i].val]
  }

  lemma {:induction false} WithoutMembers(s: seq<Slot>, v: int, x: Slot)
    ensures x in Without(s, v) <==> x in s && x.val != v
  {
    if s != [] {
      WithoutMembers(s[1..], v, x);
      assert x in s <==> x == s[0] || x in s[1..];
    }
  }

  lemma {:induction false} WithoutDistinct(s: seq<Slot>, v: int)
    requires DistinctValues(s)
    ensures DistinctValues(Without(s, v))
  {
    if s != [] {
      WithoutDistinct(s[1..], v);
      var w := Without(s[1..], v);
      forall i | 0 <= i < |w| && w[i].val == s[0].val ensures s[0].val == 0 {
        WithoutMembers(s[1..], v, w[i]);
      }
    }
  }

  lemma PlacedNewIsSound(s: seq<Slot>, n: Slot, p: nat, total: map<int, int>)
    requires Sound(s, total) && n.val != 0 && n.val in total && n.cnt <= total[n.val]
    requires !Holds(s, n.val) && p < 4
    ensures Sound(PlacedNew(s, n, p), total)
    ensures PlacedNew(s, n, p) == s[..p] + [n] + s[p..3]
  {
    forall i | 0 <= i < |s[p..]| ensures s[p..][i].val != n.val {
      assert s[p..][i] == s[p + i];
    }
    WithoutNone(s[p..], n.val);
    assert (s[..p] + [n] + s[p..])[..4] == s[..p] + [n] + s[p..3];
  }

  lemma {:induction false} InsertNewIsSound(s: seq<Slot>, a: seq<Slot>, xs: seq<Slot>, total: map<int, int>)
    requires Sound(s, total) && DistinctValues(xs)
    requires forall i :: 0 <= i < |xs| && xs[i].val != 0 && !Holds(a, xs[i].val) ==>
      !Holds(s, xs[i].val) && xs[i].val in total && xs[i].cnt <= total[xs[i].val]
    ensures Sound(InsertNew(s, a, xs), total)
    decreases |xs|
  {
    if xs != [] {
      var n, rest := xs[0], xs[1..];
      assert forall i :: 0 <= i < |rest| ==> rest[i] == xs[i + 1];
      if Holds(a, n.val) {
        InsertNewIsSound(s, a, rest, total);
      } else if n.val != 0 {
        var p := Ahead(s, Slot(n.val, CompareTotal(s, n)));
        if p < 4 {
          PlacedNewIsSound(s, n, p, total);
          var s' := PlacedNew(s, n, p);
          forall v | !Holds(s, v) && v != n.val ensures !Holds(s', v) {
            forall i | 0 <= i < 4 ensures s'[i].val != v {
              assert i == p || s'[i] == s[if i < p then i else i - 1];
            }
          }
          InsertNewIsSound(s', a, rest, total);
        }
      }
    }
  }

  lemma MergedIsSound(a: seq<Slot>, xs: seq<Slot>, total: map<int, int>)
    requires Sound(a, total) && WellFormed(xs) && Positive(total)
    ensures Sound(Merged(a, xs), Sum(total, TableOf(xs)))
  {
    var c, t := Collapsed(a, xs), Sum(total, TableOf(xs));
    WellFormedIsPadded(xs);
    forall i | 0 <= i < 4 && c[i].val != 0 ensures c[i].val in t && c[i].cnt <= t[c[i].val] {
      CountIsGet(xs, c[i].val);
    }
    CountOfZero(xs);
    assert Sound(c, t);
    forall i | 0 <= i < |xs| && xs[i].val != 0 && !Holds(a, xs[i].val)
      ensures !Holds(c, xs[i].val) && xs[i].val in t && xs[i].cnt <= t[xs[i].val]
    {
      assert Holds(xs, xs[i].val);
      CountOfDistinct(xs, i);
    }
    InsertNewIsSound(c, a, xs, t);
  }

  lemma WellFormedIsPadded(s: seq<Slot>)
    requires WellFormed(s)
    ensures ZeroPadded(s) && Positive(TableOf(s)) && 0 !in TableOf(s)
  {
  }

  /** Over any number of records the slots keep distinct values and no count ever exceeds
      the true total of its value. */
  lemma {:induction false} AggregateIsSound(recs: seq<seq<Slot>>)
    requires forall i :: 0 <= i < |recs| ==> WellFormed(recs[i])
    ensures Sound(MergedAll(recs), TotalOf(recs))
    ensures Positive(TotalOf(recs))
  {
    if recs != [] {
      var n := |recs| - 1;
      AggregateIsSound(recs[..n]);
      MergedIsSound(MergedAll(recs[..n]), recs[n], TotalOf(recs[..n]));
    }
  }

  // ---------------------------------------------------------------------------
  // When the merge is exact
  // ---------------------------------------------------------------------------

  /** The slots hold exactly the entries of `t`, none dropped, padding last. */
  ghost predicate Exact(s: seq<Slot>, t: map<int, int>) {
    && Sound(s, t)
    && (forall i :: 0 <= i < 4 && s[i].val != 0 ==> s[i].cnt == t[s[i].val])
    && (forall v :: v in t ==> Holds(s, v))
    && (forall i, j :: 0 <= i < j < 4 && s[j].val != 0 ==> s[i].val != 0)
  }

  /** Like `Exact`, while the values of `xs` that `a` lacks are still to come. */
  ghost predicate ExactBut(s: seq<Slot>, t: map<int, int>, a: seq<Slot>, xs: seq<Slot>) {
    && Sound(s, t)
    && (forall i :: 0 <= i < 4 && s[i].val != 0 ==> s[i].cnt == t[s[i].val])
    && (forall v :: v in t ==> Holds(s, v) || (!Holds(a, v) && Holds(xs, v)))
    && (forall i, j :: 0 <= i < j < 4 && s[j].val != 0 ==> s[i].val != 0)
    && (forall i :: 0 <= i < |xs| && xs[i].val != 0 && !Holds(a, xs[i].val) ==>
      !Holds(s, xs[i].val) && xs[i].val in t && xs[i].cnt == t[xs[i].val])
  }

  lemma FiveValues(s: seq<Slot>, t: map<int, int>, v: int)
    requires Sound(s, t) && v in t && v != 0 && !Holds(s, v)
    requires forall i :: 0 <= i < 4 ==> s[i].val != 0
    ensures |t| > 4
  {
    var a, b, c, d := s[0].val, s[1].val, s[2].val, s[3].val;
    assert a != b && a != c && a != d && b != c && b != d && c != d;
    assert v != a && v != b && v != c && v != d;
    var five := {a, b, c, d, v};
    assert |five| == 5;
    SubsetSize(five, t.Keys);
  }

  /** A new value finds room: the slot that falls off the end is empty. */
  lemma PlacedNewIsExact(s: seq<Slot>, n: Slot, p: nat, t: map<int, int>, a: seq<Slot>, rest: seq<Slot>)
    requires ExactBut(s, t, a, [n] + rest) && DistinctValues([n] + rest) && |t| <= 4 && Countable(t)
    requires n.val != 0 && !Holds(a, n.val) && p == Ahead(s, Slot(n.val, n.cnt)) && 0 !in t
    ensures p < 4 && ExactBut(PlacedNew(s, n, p), t, a, rest)
    ensures forall v :: v != 0 && Holds(s, v) ==> Holds(PlacedNew(s, n, p), v)
  {
    var xs := [n] + rest;
    assert xs[0] == n;
    assert forall i :: 0 <= i < |rest| ==> rest[i] == xs[i + 1];
    if s[3].val != 0 {
      FiveValues(s, t, n.val);
    }
    assert !Outranks(s[3], n);
    PlacedNewIsSound(s, n, p, t);
    var s' := PlacedNew(s, n, p);
    HeldAfterPlacing(s, s', n, p);
    forall i | 0 <= i < p ensures s[i].val != 0 {
      assert Outranks(s[i], n);
    }
    PlacedInOrder(s, s', n, p);
    forall v | v in t && !Holds(s', v) ensures !Holds(a, v) && Holds(rest, v) {
      assert v != n.val && !Holds(s, v);
      var i :| 0 <= i < |xs| && xs[i].val == v;
      assert rest[i - 1].val == v;
    }
  }

  lemma PlacedInOrder(s: seq<Slot>, s': seq<Slot>, n: Slot, p: nat)
    requires |s| == 4 && p < 4 && s' == s[..p] + [n] + s[p..3] && n.val != 0
    requires forall i, j :: 0 <= i < j < 4 && s[j].val != 0 ==> s[i].val != 0
    requires forall i :: 0 <= i < p ==> s[i].val != 0
    ensures forall i, j :: 0 <= i < j < 4 && s'[j].val != 0 ==> s'[i].val != 0
    ensures forall i :: 0 <= i < 4 ==> s'[i] == n || s'[i] in s
  {
    assert forall i :: 0 <= i < 4 ==> s'[i] == if i < p then s[i] else if i == p then n else s[i - 1];
  }

  lemma HeldAfterPlacing(s: seq<Slot>, s': seq<Slot>, n: Slot, p: nat)
    requires |s| == 4 && p < 4 && s' == s[..p] + [n] + s[p..3]
    ensures forall v :: Holds(s', v) ==> Holds(s, v) || v == n.val
    ensures forall v :: Holds(s, v) && v != s[3].val ==> Holds(s', v)
    ensures Holds(s', n.val)
  {
    assert s'[p] == n;
    forall v | Holds(s, v) && v != s[3].val ensures Holds(s', v) {
      var i :| 0 <= i < 4 && s[i].val == v;
      assert s'[if i < p then i else i + 1].val == v;
    }
    forall v | Holds(s', v) && v != n.val ensures Holds(s, v) {
      var i :| 0 <= i < 4 && s'[i].val == v;
      assert s[if i < p then i else i - 1].val == v;
    }
  }

  lemma {:induction false} InsertNewIsExact(s: seq<Slot>, a: seq<Slot>, xs: seq<Slot>, t: map<int, int>)
    requires ExactBut(s, t, a, xs) && DistinctValues(xs) && |t| <= 4 && Countable(t) && 0 !in t
    requires forall v :: v != 0 && Holds(a, v) ==> Holds(s, v)
    requires forall i, j :: 0 <= i < j < |xs| && xs[j].val != 0 ==> xs[i].val != 0
    ensures Exact(InsertNew(s, a, xs), t)
    decreases |xs|
  {
    if xs != [] {
      var n, rest := xs[0], xs[1..];
      assert xs == [n] + rest;
      assert forall i :: 0 <= i < |rest| ==> rest[i] == xs[i + 1];
      if Holds(a, n.val) {
        forall v | v in t && !Holds(s, v) ensures Holds(rest, v) {
          var i :| 0 <= i < |xs| && xs[i].val == v;
          assert rest[i - 1].val == v;
        }
        InsertNewIsExact(s, a, rest, t);
      } else if n.val != 0 {
        assert CompareTotal(s, n) == n.cnt;
        var p := Ahead(s, Slot(n.val, n.cnt));
        PlacedNewIsExact(s, n, p, t, a, rest);
        InsertNewIsExact(PlacedNew(s, n, p), a, rest, t);
      }
    }
  }

  lemma CollapsedHolds(a: seq<Slot>, xs: seq<Slot>, v: int)
    ensures Holds(Collapsed(a, xs), v) <==> Holds(a, v)
  {
    if Holds(a, v) {
      var i :| 0 <= i < |a| && a[i].val == v;
      assert Collapsed(a, xs)[i].val == v;
    }
  }

  lemma CollapsedIsExact(a: seq<Slot>, xs: seq<Slot>, total: map<int, int>)
    requires Exact(a, total) && ZeroPadded(xs)
    ensures ExactBut(Collapsed(a, xs), Sum(total, TableOf(xs)), a, xs)
  {
    var c, t := Collapsed(a, xs), Sum(total, TableOf(xs));
    CountOfZero(xs);
    forall i | 0 <= i < 4 && c[i].val != 0 ensures c[i].val in t && c[i].cnt == t[c[i].val] {
      CountIsGet(xs, c[i].val);
    }
    forall v | v in t ensures Holds(c, v) || (!Holds(a, v) && Holds(xs, v)) {
      CollapsedHolds(a, xs, v);
    }
    forall i | 0 <= i < |xs| && xs[i].val != 0 && !Holds(a, xs[i].val)
      ensures !Holds(c, xs[i].val) && xs[i].val in t && xs[i].cnt == t[xs[i].val]
    {
      CollapsedHolds(a, xs, xs[i].val);
      assert Holds(xs, xs[i].val);
      CountOfDistinct(xs, i);
    }
  }

  lemma MergedIsExact(a: seq<Slot>, xs: seq<Slot>, total: map<int, int>)
    requires Exact(a, total) && WellFormed(xs) && 0 !in total
    requires var t := Sum(total, TableOf(xs)); |t| <= 4 && Countable(t)
    ensures Exact(Merged(a, xs), Sum(total, TableOf(xs)))
  {
    WellFormedIsPadded(xs);
    CollapsedIsExact(a, xs, total);
    forall v | v != 0 && Holds(a, v) ensures Holds(Collapsed(a, xs), v) {
      CollapsedHolds(a, xs, v);
    }
    InsertNewIsExact(Collapsed(a, xs), a, xs, Sum(total, TableOf(xs)));
  }

  /** Whenever at most four distinct non-zero values have appeared, and their totals fit
      the 32-bit comparison, every count is exact and no value is missing. */
  lemma {:induction false} AggregateIsExact(recs: seq<seq<Slot>>)
    requires forall i :: 0 <= i < |recs| ==> WellFormed(recs[i])
    requires |TotalOf(recs)| <= 4 && Countable(TotalOf(recs))
    ensures Exact(MergedAll(recs), TotalOf(recs)) && 0 !in TotalOf(recs)
  {
    if recs != [] {
      var n := |recs| - 1;
      var before := TotalOf(recs[..n]);
      AggregateIsSound(recs[..n]);
      SubsetSize(before.Keys, TotalOf(recs).Keys);
      CountableBefore(recs);
      AggregateIsExact(recs[..n]);
      MergedIsExact(MergedAll(recs[..n]), recs[n], before);
    }
  }

  lemma CountableBefore(recs: seq<seq<Slot>>)
    requires recs != [] && Countable(TotalOf(recs))
    requires Positive(TotalOf(recs[..|recs| - 1])) && WellFormed(recs[|recs| - 1])
    ensures Countable(TotalOf(recs[..|recs| - 1]))
  {
    var before, last := TotalOf(recs[..|recs| - 1]), TableOf(recs[|recs| - 1]);
    forall v | v in before && v != 0 ensures 1 <= before[v] <= INT32_MAX {
      assert v in TotalOf(recs) && TotalOf(recs)[v] == before[v] + Get(last, v);
    }
  }

  // ---------------------------------------------------------------------------
  // The top four, when collapsing leaves the slots in order
  // ---------------------------------------------------------------------------

  /** Slots in descending order, padding last: what collapsing may destroy. */
  ghost predicate Ordered(s: seq<Slot>) {
    forall i, j :: 0 <= i < j < |s| && s[j].val != 0 ==> s[i].val != 0 && Outranks(s[i], s[j])
  }

  /** `t` covers `u` but for the values of `xs` that `a` lacks. */
  ghost predicate Pending(t: map<int, int>, u: map<int, int>, a: seq<Slot>, xs: seq<Slot>) {
    && (forall v :: v in t ==> v in u && t[v] == u[v])
    && (forall v :: v in u && v !in t ==> !Holds(a, v) && Holds(xs, v))
    && (forall i :: 0 <= i < |xs| && xs[i].val != 0 && !Holds(a, xs[i].val) ==>
      xs[i].val !in t && xs[i].val in u && xs[i].cnt == u[xs[i].val])
    && 0 !in u
  }

  lemma PendingTail(t: map<int, int>, u: map<int, int>, a: seq<Slot>, xs: seq<Slot>)
    requires xs != [] && Pending(t, u, a, xs) && DistinctValues(xs)
    ensures Holds(a, xs[0].val) ==> Pending(t, u, a, xs[1..])
    ensures xs[0].val != 0 && !Holds(a, xs[0].val) ==> Pending(t[xs[0].val := xs[0].cnt], u, a, xs[1..])
  {
    var rest := xs[1..];
    assert forall i :: 0 <= i < |rest| ==> rest[i] == xs[i + 1];
    forall v | Holds(xs, v) && v != xs[0].val ensures Holds(rest, v) {
      var i :| 0 <= i < |xs| && xs[i].val == v;
      assert rest[i - 1].val == v;
    }
  }

  lemma OutrankedPending(s: seq<Slot>, t: map<int, int>, u: map<int, int>, a: seq<Slot>, xs: seq<Slot>)
    requires IsTopFour(s, t) && Pending(t, u, a, xs) && Ordered(xs) && xs != []
    requires s[3].val != 0 && Outranks(s[3], xs[0])
    ensures IsTopFour(s, u)
  {
    forall v | v in u && v !in t ensures Outranks(s[3], Slot(v, u[v])) {
      var i :| 0 <= i < |xs| && xs[i].val == v;
    }
  }

  /** New values in descending order keep the slots the top four; once one is outranked by
      all four slots, so are those after it. */
  lemma InsertNewIsTopFour(s: seq<Slot>, t: map<int, int>, a: seq<Slot>, xs: seq<Slot>, u: map<int, int>)
    requires IsTopFour(s, t) && Positive(t) && Countable(u) && DistinctValues(xs) && Ordered(xs)
    requires Pending(t, u, a, xs)
    ensures IsTopFour(InsertNew(s, a, xs), u)
    decreases |xs|
  {
    if xs == [] {
      NothingToCome(t, u, a, xs);
    } else {
      var n, rest := xs[0], xs[1..];
      PendingTail(t, u, a, xs);
      if Holds(a, n.val) {
        InsertNewIsTopFour(s, t, a, rest, u);
      } else if n.val == 0 {
        assert forall i :: 0 <= i < |xs| ==> xs[i].val == 0;
        NothingToCome(t, u, a, xs);
      } else {
        assert !Holds(s, n.val) && n.cnt == u[n.val];
        var p := Ahead(s, n);
        PlacedIsUpdated(s, n, p);
        if p == 4 {
          assert Outranks(s[3], n) && s[3].val != 0;
          OutrankedPending(s, t, u, a, xs);
        } else {
          UpdateKeepsTopFour(s, t, n);
          InsertNewIsTopFour(PlacedNew(s, n, p), t[n.val := n.cnt], a, rest, u);
        }
      }
    }
  }

  lemma NothingToCome(t: map<int, int>, u: map<int, int>, a: seq<Slot>, xs: seq<Slot>)
    requires Pending(t, u, a, xs) && forall i :: 0 <= i < |xs| ==> xs[i].val == 0
    ensures t == u
  {
    forall v ensures v in t.Keys <==> v in u.Keys {
      assert v in u && v !in t ==> Holds(xs, v) && v != 0;
    }
    assert t.Keys == u.Keys;
    forall v | v in t ensures t[v] == u[v] {
    }
  }

  lemma PlacedIsUpdated(s: seq<Slot>, n: Slot, p: nat)
    requires |s| == 4 && n.val != 0 && p == Ahead(s, n) && 1 <= n.cnt <= INT32_MAX && !Holds(s, n.val)
    ensures CompareTotal(s, n) == n.cnt
    ensures p < 4 ==> PlacedNew(s, n, p) == Updated(s, n)
  {
  }

  /** When adding the record's counts leaves the aggregate's slots in order, the merge is
      the exact top four of both tables. */
  lemma OrderedMergeIsTopFour(a: seq<Slot>, xs: seq<Slot>)
    requires WellFormed(a) && WellFormed(xs) && Ordered(Collapsed(a, xs))
    requires Countable(Sum(TableOf(a), TableOf(xs)))
    ensures IsTopFour(Merged(a, xs), Sum(TableOf(a), TableOf(xs)))
  {
    WellFormedIsPadded(a);
    WellFormedIsPadded(xs);
    CollapsedIsTopFour(a, xs);
    NewValues(a, xs, TableOf(Collapsed(a, xs)));
    WellFormedIsOrdered(xs);
    InsertNewIsTopFour(Collapsed(a, xs), TableOf(Collapsed(a, xs)), a, xs, Sum(TableOf(a), TableOf(xs)));
  }

  lemma WellFormedIsOrdered(s: seq<Slot>)
    requires WellFormed(s)
    ensures Ordered(s)
  {
  }

  lemma NewValues(a: seq<Slot>, xs: seq<Slot>, t: map<int, int>)
    requires DistinctValues(xs) && t.Keys == TableOf(a).Keys
    requires forall v :: v in t ==> t[v] == Get(TableOf(a), v) + Get(TableOf(xs), v)
    ensures Pending(t, Sum(TableOf(a), TableOf(xs)), a, xs)
  {
    forall i | 0 <= i < |xs| && xs[i].val != 0 ensures xs[i].val in TableOf(xs) && xs[i].cnt == TableOf(xs)[xs[i].val] {
      assert Holds(xs, xs[i].val);
      CountOfDistinct(xs, i);
    }
  }

  lemma OrderedIsTopFour(c: seq<Slot>)
    requires |c| == 4 && ZeroPadded(c) && Ordered(c)
    ensures IsTopFour(c, TableOf(c))
  {
    forall i | 0 <= i < 4 && c[i].val != 0 ensures c[i].val in TableOf(c) && TableOf(c)[c[i].val] == c[i].cnt {
      assert Holds(c, c[i].val);
      CountOfDistinct(c, i);
    }
  }

  lemma CollapsedIsTopFour(a: seq<Slot>, xs: seq<Slot>)
    requires ZeroPadded(a) && ZeroPadded(xs) && |a| == 4 && Ordered(Collapsed(a, xs))
    requires Positive(TableOf(a)) && Positive(TableOf(xs))
    ensures var c := Collapsed(a, xs); IsTopFour(c, TableOf(c)) && Positive(TableOf(c))
    ensures var c := TableOf(Collapsed(a, xs)); forall v :: v in c ==> c[v] == Get(TableOf(a), v) + Get(TableOf(xs), v)
    ensures TableOf(Collapsed(a, xs)).Keys == TableOf(a).Keys
  {
    var c := Collapsed(a, xs);
    CountOfZero(xs);
    assert DistinctValues(c);
    OrderedIsTopFour(c);
    forall v
      ensures v in TableOf(c) <==> v in TableOf(a)
      ensures v in TableOf(c) ==> TableOf(c)[v] == Get(TableOf(a), v) + Get(TableOf(xs), v)
    {
      CollapsedEntry(a, xs, v);
    }
  }

  lemma CollapsedEntry(a: seq<Slot>, xs: seq<Slot>, v: int)
    requires ZeroPadded(a) && ZeroPadded(xs) && |a| == 4 && DistinctValues(Collapsed(a, xs))
    ensures v in TableOf(Collapsed(a, xs)) <==> v in TableOf(a)
    ensures v in TableOf(Collapsed(a, xs)) ==> TableOf(Collapsed(a, xs))[v] == Get(TableOf(a), v) + Get(TableOf(xs), v)
  {
    var c := Collapsed(a, xs);
    CountOfZero(xs);
    CollapsedHolds(a, xs, v);
    if v in TableOf(c) {
      var i :| 0 <= i < 4 && c[i].val == v;
      assert a[i].val == v;
      CountOfDistinct(c, i);
      CountOfDistinct(a, i);
      CountIsGet(a, v);
      CountIsGet(c, v);
      CountIsGet(xs, v);
    }
  }

  /** For a record that brings no new value, the merge is the exact top four if and only if
      the collapse left the slots in order: they are never sorted again. */
  lemma CollapseExactIffOrdered(a: seq<Slot>, xs: seq<Slot>)
    requires WellFormed(a) && WellFormed(xs) && Countable(Sum(TableOf(a), TableOf(xs)))
    requires forall i :: 0 <= i < |xs| && xs[i].val != 0 ==> Holds(a, xs[i].val)
    ensures IsTopFour(Merged(a, xs), Sum(TableOf(a), TableOf(xs))) <==> Ordered(Collapsed(a, xs))
  {
    if Ordered(Collapsed(a, xs)) {
      OrderedMergeIsTopFour(a, xs);
    }
    NothingInserted(Collapsed(a, xs), a, xs);
  }

  lemma {:induction false} NothingInserted(s: seq<Slot>, a: seq<Slot>, xs: seq<Slot>)
    requires |s| == 4 && forall i :: 0 <= i < |xs| && xs[i].val != 0 ==> Holds(a, xs[i].val)
    ensures InsertNew(s, a, xs) == s
    decreases |xs|
  {
    if xs != [] {
      assert forall i :: 0 <= i < |xs[1..]| ==> xs[1..][i] == xs[i + 1];
      NothingInserted(s, a, xs[1..]);
    }
  }

  /** So it fails for a record that raises the last slot above the first. */
  lemma RaisedStaysLast(a: seq<Slot>, raise: seq<Slot>, c: int)
    requires WellFormed(a) && a[3].val != 0 && IsSingle(raise, a[3].val, c)
    requires a[0].cnt < a[3].cnt + c && Countable(Sum(TableOf(a), TableOf(raise)))
    ensures !IsTopFour(Merged(a, raise), Sum(TableOf(a), TableOf(raise)))
  {
    WellFormedIsPadded(a);
    SingleIsTop(raise, a[3].val, c);
    var b := Collapsed(a, raise);
    assert a[3].cnt < a[0].cnt || a[3].cnt == a[0].cnt;
    assert raise[0].val != a[0].val && a[0].val != 0;
    CountOfNone(raise, a[0].val);
    CountOfAt(raise, a[3].val, 0);
    assert b[0].cnt == a[0].cnt && b[3].cnt == a[3].cnt + c;
    CollapseExactIffOrdered(a, raise);
  }

  /** What that costs: once a record raises the count of the last slot, a further record
      with one new value of a count above the first slot's pushes that last slot out,
      however large its count has become. */
  lemma RaisedValueIsDropped(a: seq<Slot>, raise: seq<Slot>, late: seq<Slot>, c: int, n: Slot)
    requires WellFormed(a) && a[3].val != 0 && IsSingle(raise, a[3].val, c) && c >= 1
    requires IsSingle(late, n.val, n.cnt) && n.val != 0 && !Holds(a, n.val) && a[0].cnt < n.cnt <= INT32_MAX
    ensures !Holds(Merged(Merged(a, raise), late), a[3].val)
  {
    WellFormedIsPadded(a);
    var b := Collapsed(a, raise);
    NothingInserted(b, a, raise);
    CollapsedHolds(a, raise, n.val);
    assert b[0] == a[0] by {
      assert raise[0].val != a[0].val && a[0].val != 0;
      CountOfNone(raise, a[0].val);
    }
    LastIsPushedOut(b, late, n);
  }

  lemma LastIsPushedOut(b: seq<Slot>, late: seq<Slot>, n: Slot)
    requires |b| == 4 && DistinctValues(b) && forall i :: 0 <= i < 4 ==> b[i].val != 0
    requires IsSingle(late, n.val, n.cnt) && n.val != 0 && !Holds(b, n.val) && 1 <= n.cnt <= INT32_MAX
    requires !Outranks(b[0], n)
    ensures !Holds(Merged(b, late), b[3].val)
  {
    var d := Collapsed(b, late);
    forall i | 0 <= i < 4 ensures d[i] == b[i] {
      assert b[i].val != 0;
      CountOfNone(late, b[i].val);
    }
    assert d == b;
    assert late[0] == n;
    PlacedIsUpdated(d, n, 0);
    NothingAfterFirst(PlacedNew(d, n, 0), b, late);
    AheadIs(d, n, 0);
    InsertStep(d, b, late, 0);
    assert late[0..] == late;
    PlacedFirst(d, n);
  }

  lemma PlacedFirst(d: seq<Slot>, n: Slot)
    requires |d| == 4 && DistinctValues(d) && !Holds(d, n.val) && n.val != 0 && d[3].val != 0
    ensures !Holds(PlacedNew(d, n, 0), d[3].val)
  {
    assert d[0..] == d;
    WithoutNone(d, n.val);
    assert PlacedNew(d, n, 0) == [n] + d[..3];
  }

  lemma NothingAfterFirst(s: seq<Slot>, a: seq<Slot>, xs: seq<Slot>)
    requires |s| == 4 && |xs| == 4 && forall i :: 1 <= i < 4 ==> xs[i].val == 0
    ensures InsertNew(s, a, xs[1..]) == s
  {
    var rest := xs[1..];
    assert forall i :: 0 <= i < |rest| ==> rest[i] == xs[i + 1];
    if Holds(a, 0) {
      NothingInserted(s, a, rest);
    }
  }

  // ---------------------------------------------------------------------------
  // The merge in place
  // ---------------------------------------------------------------------------

  lemma CollapsedStep(a: seq<Slot>, xs: seq<Slot>, j: nat, k: nat)
    requires j < |xs| && k < |a| && ZeroPadded(xs)
    ensures Collapsed(a, xs[..j + 1])[k].val == Collapsed(a, xs[..j])[k].val == a[k].val
    ensures Collapsed(a, xs[..j + 1])[k].cnt == Collapsed(a, xs[..j])[k].cnt +
      (if xs[j].val == a[k].val then xs[j].cnt else 0)
  {
    CountOfPrefix(xs, a[k].val, j);
  }

  lemma HoldsStep(a: seq<Slot>, v: int, k: nat)
    requires k < |a|
    ensures Holds(a[..k + 1], v) <==> Holds(a[..k], v) || a[k].val == v
  {
    assert a[..k + 1] == a[..k] + [a[k]];
    SplitHolds(a[..k], [a[k]], v);
    assert Holds([a[k]], v) <==> [a[k]][0].val == v;
  }

  /** One value of the record against one slot. */
  method AddIfSame(agg: array<int>, rec: array<int>, base: nat, j: nat, k: nat) returns (same: bool)
    requires agg != rec && base + 8 <= agg.Length && base + 8 <= rec.Length && j < 4 && k < 4
    modifies agg
    ensures forall i :: 0 <= i < agg.Length && !(base <= i < base + 8) ==> agg[i] == old(agg[i])
    ensures var s, x := SlotsAt(old(agg[..]), base), SlotsAt(old(rec[..]), base)[j];
      && same == (s[k].val == x.val)
      && SlotsAt(agg[..], base) == s[k := Slot(s[k].val, s[k].cnt + (if same then x.cnt else 0))]
  {
    same := agg[base + k] == rec[base + j];
    if same {
      agg[base + 4 + k] := agg[base + 4 + k] + rec[base + 4 + j];
    }
  }

  /** One value of the record against the four slots: adds its count where it matches. */
  method CollapseValue(agg: array<int>, rec: array<int>, base: nat, j: nat) returns (duplicate: bool)
    requires agg != rec && base + 8 <= agg.Length && base + 8 <= rec.Length && j < 4
    modifies agg
    ensures forall i :: 0 <= i < agg.Length && !(base <= i < base + 8) ==> agg[i] == old(agg[i])
    ensures var s, x := SlotsAt(old(agg[..]), base), SlotsAt(rec[..], base)[j];
      && (forall k :: 0 <= k < 4 ==>
        SlotsAt(agg[..], base)[k] == Slot(s[k].val, s[k].cnt + (if s[k].val == x.val then x.cnt else 0)))
      && duplicate == Holds(s, x.val)
  {
    ghost var s, x := SlotsAt(agg[..], base), SlotsAt(rec[..], base)[j];
    duplicate := false;
    var k := 0;
    while k < 4
      invariant 0 <= k <= 4 && SlotsAt(rec[..], base)[j] == x
      invariant forall i :: 0 <= i < agg.Length && !(base <= i < base + 8) ==> agg[i] == old(agg[i])
      invariant forall i :: k <= i < 4 ==> SlotsAt(agg[..], base)[i] == s[i]
      invariant forall i :: 0 <= i < k ==>
        SlotsAt(agg[..], base)[i] == Slot(s[i].val, s[i].cnt + (if s[i].val == x.val then x.cnt else 0))
      invariant duplicate == Holds(s[..k], x.val)
    {
      HoldsStep(s, x.val, k);
      var same := AddIfSame(agg, rec, base, j, k);
      duplicate := duplicate || same;
      k := k + 1;
    }
    assert s[..4] == s;
  }

  lemma CollapsedRound(a: seq<Slot>, xs: seq<Slot>, j: nat, s: seq<Slot>)
    requires |a| == |s| == 4 && j < |xs| && ZeroPadded(xs)
    requires var before := Collapsed(a, xs[..j]); forall k :: 0 <= k < 4 ==>
      s[k] == Slot(before[k].val, before[k].cnt + (if before[k].val == xs[j].val then xs[j].cnt else 0))
    ensures s == Collapsed(a, xs[..j + 1])
  {
    forall k | 0 <= k < 4 ensures s[k] == Collapsed(a, xs[..j + 1])[k] {
      CollapsedStep(a, xs, j, k);
    }
  }

  /** One value of the record that the aggregate lacked: compared with each slot, placed
      behind those that outrank it; `full` when all four do. */
  method PlaceValue(agg: array<int>, base: nat, val: int, cnt: int) returns (full: bool)
    requires base + 8 <= agg.Length && val != 0
    requires DistinctValues(SlotsAt(agg[..], base))
    modifies agg
    ensures forall i :: 0 <= i < agg.Length && !(base <= i < base + 8) ==> agg[i] == old(agg[i])
    ensures var s := SlotsAt(old(agg[..]), base); var p := Ahead(s, Slot(val, CompareTotal(s, Slot(val, cnt))));
      full == (p == 4) && SlotsAt(agg[..], base) == if full then s else PlacedNew(s, Slot(val, cnt), p)
  {
    ghost var s := SlotsAt(agg[..], base);
    var totalCount := Int32(cnt);
    var k := 0;
    while k < 4
      invariant 0 <= k <= 4 && totalCount == Int32(cnt)
      invariant forall i :: 0 <= i < k ==> s[i].val != val
    {
      if agg[base + k] == val {
        totalCount := Int32(agg[base + 4 + k] + cnt);
        CountOfAt(s, val, k);
        break;
      }
      k := k + 1;
    }
    assert totalCount == CompareTotal(s, Slot(val, cnt));
    full := PlaceAt(agg, base, Slot(val, cnt), totalCount);
  }

  method PlaceAt(agg: array<int>, base: nat, n: Slot, totalCount: int) returns (full: bool)
    requires base + 8 <= agg.Length && n.val != 0
    requires DistinctValues(SlotsAt(agg[..], base))
    modifies agg
    ensures forall i :: 0 <= i < agg.Length && !(base <= i < base + 8) ==> agg[i] == old(agg[i])
    ensures var s := SlotsAt(old(agg[..]), base); var p := Ahead(s, Slot(n.val, totalCount));
      full == (p == 4) && SlotsAt(agg[..], base) == if full then s else PlacedNew(s, n, p)
  {
    ghost var s := SlotsAt(agg[..], base);
    var tmpVal := new int[4](_ => 0);
    var tmpCnt := new int[4](_ => 0);
    var tmpNdx := CopyAhead(agg, base, Slot(n.val, totalCount), tmpVal, tmpCnt);
    full := tmpNdx == 4;
    if full {
      return;
    }
    tmpVal[tmpNdx], tmpCnt[tmpNdx] := n.val, n.cnt;
    CopyOthers(agg, base, n.val, tmpNdx, tmpVal, tmpCnt);
    ghost var r := s[..tmpNdx] + [n] + Without(s[tmpNdx..], n.val);
    assert forall k :: 0 <= k < 4 ==> r[k] == Slot(tmpVal[k], tmpCnt[k]);
    StoreSlots(agg, base, tmpVal, tmpCnt);
    assert SlotsAt(agg[..], base) == r[..4];
  }

  lemma InsertStep(s: seq<Slot>, a: seq<Slot>, xs: seq<Slot>, j: nat)
    requires |s| == 4 && j < |xs|
    ensures Holds(a, xs[j].val) ==> InsertNew(s, a, xs[j..]) == InsertNew(s, a, xs[j + 1..])
    ensures !Holds(a, xs[j].val) && xs[j].val == 0 ==> InsertNew(s, a, xs[j..]) == s
    ensures !Holds(a, xs[j].val) && xs[j].val != 0 ==>
      var p := Ahead(s, Slot(xs[j].val, CompareTotal(s, xs[j])));
      InsertNew(s, a, xs[j..]) == if p == 4 then s else InsertNew(PlacedNew(s, xs[j], p), a, xs[j + 1..])
  {
    assert xs[j..][0] == xs[j] && xs[j..][1..] == xs[j + 1..];
  }

  lemma PlacedNewIsDistinct(s: seq<Slot>, n: Slot, p: nat)
    requires |s| == 4 && DistinctValues(s) && p <= 4
    requires forall i :: 0 <= i < p ==> s[i].val != n.val
    ensures DistinctValues(PlacedNew(s, n, p))
  {
    var w := Without(s[p..], n.val);
    assert DistinctValues(s[p..]);
    WithoutDistinct(s[p..], n.val);
    forall j | 0 <= j < |w| ensures w[j].val != n.val && w[j] in s[p..] {
      WithoutMembers(s[p..], n.val, w[j]);
    }
    forall i, j | 0 <= i < p && 0 <= j < |w| && s[i].val == w[j].val ensures s[i].val == 0 {
      var k :| 0 <= k < |s[p..]| && s[p..][k] == w[j];
      assert s[p + k] == w[j];
    }
    var r := s[..p] + [n] + w;
    assert DistinctValues(r);
  }

  /** What is still to come is not in the slots yet. */
  ghost predicate ToCome(s: seq<Slot>, a: seq<Slot>, xs: seq<Slot>, j: nat) {
    |s| == 4 && DistinctValues(s)
    && forall i :: j <= i < |xs| && xs[i].val != 0 && !Holds(a, xs[i].val) ==> !Holds(s, xs[i].val)
  }

  lemma ToComeStep(s: seq<Slot>, a: seq<Slot>, xs: seq<Slot>, j: nat)
    requires j < |xs| && ToCome(s, a, xs, j) && DistinctValues(xs) && xs[j].val != 0 && !Holds(a, xs[j].val)
    ensures forall p :: 0 <= p < 4 ==> ToCome(PlacedNew(s, xs[j], p), a, xs, j + 1)
  {
    forall p | 0 <= p < 4 ensures ToCome(PlacedNew(s, xs[j], p), a, xs, j + 1) {
      assert forall i :: 0 <= i < 4 ==> s[i].val != xs[j].val;
      PlacedNewIsDistinct(s, xs[j], p);
      var w := Without(s[p..], xs[j].val);
      var r := s[..p] + [xs[j]] + w;
      forall i | 0 <= i < |r| ensures r[i] in s || r[i] == xs[j] {
        if i > p {
          assert r[i] == w[i - p - 1];
          WithoutMembers(s[p..], xs[j].val, r[i]);
        }
      }
    }
  }

  /** The common-value block: collapses the duplicates of one more record, marking them,
      then places the values that were new. */
  method AggregateCommonValues(agg: array<int>, rec: array<int>, base: nat)
    requires agg != rec && base + 8 <= agg.Length && base + 8 <= rec.Length
    requires ZeroPadded(SlotsAt(agg[..], base)) && ZeroPadded(SlotsAt(rec[..], base))
    modifies agg
    ensures forall i :: 0 <= i < agg.Length && !(base <= i < base + 8) ==> agg[i] == old(agg[i])
    ensures SlotsAt(agg[..], base) == Merged(SlotsAt(old(agg[..]), base), SlotsAt(rec[..], base))
  {
    ghost var a, xs := SlotsAt(agg[..], base), SlotsAt(rec[..], base);
    var duplicateMask := new bool[4](_ => false);
    var j := 0;
    assert xs[..0] == [] && Collapsed(a, []) == a;
    while j < 4
      invariant 0 <= j <= 4
      invariant forall i :: 0 <= i < agg.Length && !(base <= i < base + 8) ==> agg[i] == old(agg[i])
      invariant SlotsAt(rec[..], base) == xs && SlotsAt(agg[..], base) == Collapsed(a, xs[..j])
      invariant forall i :: 0 <= i < j ==> duplicateMask[i] == Holds(a, xs[i].val)
    {
      CollapsedHolds(a, xs[..j], xs[j].val);
      var duplicate := CollapseValue(agg, rec, base, j);
      CollapsedRound(a, xs, j, SlotsAt(agg[..], base));
      duplicateMask[j] := duplicate;
      j := j + 1;
    }
    assert xs[..4] == xs;
    StartToCome(a, xs);
    PlaceNewValues(agg, rec, base, duplicateMask, a);
  }

  lemma StartToCome(a: seq<Slot>, xs: seq<Slot>)
    requires |a| == 4 && DistinctValues(a)
    ensures ToCome(Collapsed(a, xs), a, xs, 0)
  {
    forall i | 0 <= i < |xs| ensures Holds(Collapsed(a, xs), xs[i].val) <==> Holds(a, xs[i].val) {
      CollapsedHolds(a, xs, xs[i].val);
    }
  }

  method PlaceNewValues(agg: array<int>, rec: array<int>, base: nat, duplicateMask: array<bool>, ghost a: seq<Slot>)
    requires agg != rec && base + 8 <= agg.Length && base + 8 <= rec.Length && duplicateMask.Length == 4
    requires DistinctValues(SlotsAt(rec[..], base))
    requires ToCome(SlotsAt(agg[..], base), a, SlotsAt(rec[..], base), 0)
    requires forall i :: 0 <= i < 4 ==> duplicateMask[i] == Holds(a, SlotsAt(rec[..], base)[i].val)
    modifies agg
    ensures forall i :: 0 <= i < agg.Length && !(base <= i < base + 8) ==> agg[i] == old(agg[i])
    ensures SlotsAt(agg[..], base) == InsertNew(SlotsAt(old(agg[..]), base), a, SlotsAt(rec[..], base))
  {
    ghost var xs := SlotsAt(rec[..], base);
    ghost var goal := InsertNew(SlotsAt(agg[..], base), a, xs);
    var j := 0;
    assert xs[0..] == xs;
    while j < 4
      invariant 0 <= j <= 4
      invariant forall i :: 0 <= i < agg.Length && !(base <= i < base + 8) ==> agg[i] == old(agg[i])
      invariant SlotsAt(rec[..], base) == xs && ToCome(SlotsAt(agg[..], base), a, xs, j)
      invariant InsertNew(SlotsAt(agg[..], base), a, xs[j..]) == goal
    {
      InsertStep(SlotsAt(agg[..], base), a, xs, j);
      if !duplicateMask[j] {
        if rec[base + j] == 0 {
          return;
        }
        ToComeStep(SlotsAt(agg[..], base), a, xs, j);
        var full := PlaceValue(agg, base, rec[base + j], rec[base + 4 + j]);
        if full {
          return;
        }
      }
      j := j + 1;
    }
    assert xs[4..] == [];
  }
}
