/** Tracking the access sizes of one file at run time: a frequency table that stops
    growing at 32 distinct sizes, and the four slots of the file record. */
module AccessTracking {
  import opened CommonValues
  import opened Ranking

  /** The frequency table and the four slots of one file record. */
  datatype Tracked = Tracked(freq: map<int, int>, slots: seq<Slot>)

  /** One access: the size is counted unless it is new and the table is full; the slots
      are updated with its frequency. */
  function Track(st: Tracked, size: int): (r: Tracked)
    requires |st.slots| == 4
    ensures |r.slots| == 4
  {
    if size in st.freq then
      var f := st.freq[size] + 1;
      Tracked(st.freq[size := f], Updated(st.slots, Slot(size, TotalCount(st.slots, size, f, false))))
    else if |st.freq| < MAX_TRACKED then
      Tracked(st.freq[size := 1], Updated(st.slots, Slot(size, TotalCount(st.slots, size, 1, false))))
    else st
  }

  /** The state after a whole run of accesses. */
  function Run(sizes: seq<int>): (r: Tracked)
    ensures |r.slots| == 4
  {
    if sizes == [] then Tracked(map[], EMPTY_SLOTS)
    else Track(Run(sizes[..|sizes| - 1]), sizes[|sizes| - 1])
  }

  /** The size entered the table: at most 31 other sizes came before its first use. */
  ghost predicate AmongFirst(sizes: seq<int>, size: int) {
    exists i :: 0 <= i < |sizes| && sizes[i] == size && |Distinct(sizes[..i])| < MAX_TRACKED
  }

  function Distinct(sizes: seq<int>): set<int> {
    set x | x in sizes
  }

  lemma DistinctExtends(sizes: seq<int>, x: int)
    ensures Distinct(sizes + [x]) == Distinct(sizes) + {x}
  {
  }

  /** The table's keys after one more access. */
  lemma KeysExtend(before: seq<int>, x: int)
    ensures var t, t' := Run(before).freq, Run(before + [x]).freq;
      && t'.Keys == (if x in t || |t| < MAX_TRACKED then t.Keys + {x} else t.Keys)
      && |t'| == (if x !in t && |t| < MAX_TRACKED then |t| + 1 else |t|)
      && (forall y :: y in t && y != x ==> t'[y] == t[y])
      && (x in t' ==> t'[x] == if x in t then t[x] + 1 else 1)
  {
    assert (before + [x])[..|before|] == before;
    var t, t' := Run(before).freq, Run(before + [x]).freq;
    assert x !in t ==> |t.Keys + {x}| == |t.Keys| + 1;
    assert x in t ==> t.Keys + {x} == t.Keys;
    assert |t| == |t.Keys| && |t'| == |t'.Keys|;
  }

  ghost predicate Counts(t: map<int, int>, sizes: seq<int>) {
    && t.Keys <= Distinct(sizes) && |t| <= MAX_TRACKED
    && (t.Keys == Distinct(sizes) || |t| == MAX_TRACKED)
    && (forall x :: x in t ==> t[x] == multiset(sizes)[x])
  }

  lemma CountsExtend(before: seq<int>, x: int)
    requires Counts(Run(before).freq, before)
    ensures Counts(Run(before + [x]).freq, before + [x])
  {
    KeysExtend(before, x);
    DistinctExtends(before, x);
    assert multiset(before + [x]) == multiset(before) + multiset{x};
    if x !in Run(before).freq && x in before {
      assert x in Distinct(before);
    }
  }

  /** After any run the table holds, for each of its sizes, the number of occurrences in
      the whole run; it misses a size only once it is full. */
  lemma {:induction false} TableCounts(sizes: seq<int>)
    ensures var t := Run(sizes).freq;
      && t.Keys <= Distinct(sizes) && |t| <= 32
      && (t.Keys == Distinct(sizes) || |t| == 32)
      && (forall x :: x in t ==> t[x] == multiset(sizes)[x])
    ensures Counts(Run(sizes).freq, sizes)
  {
    if sizes != [] {
      var n := |sizes| - 1;
      TableCounts(sizes[..n]);
      assert sizes == sizes[..n] + [sizes[n]];
      CountsExtend(sizes[..n], sizes[n]);
    }
  }

  /** Which sizes the table holds: exactly those first used before 32 others. */
  lemma {:induction false} TableHoldsTheFirst(sizes: seq<int>, y: int)
    ensures y in Run(sizes).freq <==> AmongFirst(sizes, y)
  {
    if sizes != [] {
      var n := |sizes| - 1;
      var before, x := sizes[..n], sizes[n];
      assert sizes == before + [x];
      TableHoldsTheFirst(before, y);
      TableCounts(before);
      AmongFirstExtends(before, x, y);
      SubsetSize(Run(before).freq.Keys, Distinct(before));
    }
  }

  lemma AmongFirstExtends(before: seq<int>, x: int, y: int)
    ensures AmongFirst(before + [x], y) <==> AmongFirst(before, y) || (y == x && |Distinct(before)| < MAX_TRACKED)
  {
    var sizes := before + [x];
    forall i | 0 <= i <= |before| ensures sizes[..i] == before[..i] {
    }
    assert sizes[..|before|] == before;
    if AmongFirst(before, y) {
      var i :| 0 <= i < |before| && before[i] == y && |Distinct(before[..i])| < MAX_TRACKED;
      assert sizes[i] == y;
    }
  }

  /** Whole-run top four: after any sequence of accesses, the full table included, the
      slots are exactly the four most frequent non-zero sizes of the table. The only
      bound is that no frequency outgrows the 32-bit counters that hold it. */
  lemma {:induction false} RunKeepsTopFour(sizes: seq<int>)
    requires |sizes| <= INT32_MAX
    ensures IsTopFour(Run(sizes).slots, Run(sizes).freq)
    ensures Positive(Run(sizes).freq)
  {
    if sizes != [] {
      var n := |sizes| - 1;
      var before, x := sizes[..n], sizes[n];
      RunKeepsTopFour(before);
      TableCounts(before);
      assert multiset(before)[x] <= |multiset(before)| == n;
      TrackKeepsTopFour(Run(before), x);
    }
  }

  /** In numbers: the slots list the most frequent sizes tracked, the larger first of equal ones. */
  lemma RunInNumbers(sizes: seq<int>)
    requires |sizes| <= INT32_MAX
    ensures var s, t := Run(sizes).slots, Run(sizes).freq;
      && (forall i, j :: 0 <= i < j < 4 && s[j].val != 0 ==>
        s[i].cnt > s[j].cnt || (s[i].cnt == s[j].cnt && s[i].val > s[j].val))
      && (forall v :: v in t && v != 0 && (forall i :: 0 <= i < 4 ==> s[i].val != v) ==>
        t[v] < s[3].cnt || (t[v] == s[3].cnt && v < s[3].val))
      && (forall i :: 0 <= i < 4 && s[i].val != 0 ==> s[i].val in t && s[i].cnt == multiset(sizes)[s[i].val])
  {
    RunKeepsTopFour(sizes);
    TopFourInNumbers(Run(sizes).slots, Run(sizes).freq);
    TableCounts(sizes);
  }

  /** One access keeps the slots the top four of the table. */
  lemma TrackKeepsTopFour(st: Tracked, x: int)
    requires IsTopFour(st.slots, st.freq) && Positive(st.freq)
    requires x in st.freq ==> 0 <= st.freq[x] < INT32_MAX
    ensures IsTopFour(Track(st, x).slots, Track(st, x).freq)
    ensures Positive(Track(st, x).freq)
  {
    var f := if x in st.freq then st.freq[x] + 1 else 1;
    TrackCases(st, x, f);
    if x == 0 {
      ZeroIsIgnored(st.slots, st.freq, Track(st, x).freq);
    } else if x in st.freq || |st.freq| < MAX_TRACKED {
      UpdateKeepsTopFour(st.slots, st.freq, Slot(x, f));
    }
  }

  lemma TrackCases(st: Tracked, x: int, f: int)
    requires |st.slots| == 4 && Positive(st.freq)
    requires f == (if x in st.freq then st.freq[x] + 1 else 1) && 0 <= f <= INT32_MAX
    ensures Positive(Track(st, x).freq)
    ensures x in st.freq || |st.freq| < MAX_TRACKED ==>
      Track(st, x) == Tracked(st.freq[x := f], Updated(st.slots, Slot(x, f)))
    ensures x == 0 ==> Track(st, x).slots == st.slots
  {
    assert TotalCount(st.slots, x, f, false) == f;
  }

  lemma ZeroIsIgnored(s: seq<Slot>, t: map<int, int>, t': map<int, int>)
    requires IsTopFour(s, t)
    requires forall v :: v != 0 ==> (v in t <==> v in t') && (v in t ==> t[v] == t'[v])
    ensures IsTopFour(s, t')
  {
  }

  lemma RunIsDistinct(sizes: seq<int>)
    requires |sizes| <= INT32_MAX
    ensures DistinctValues(Run(sizes).slots)
  {
    RunKeepsTopFour(sizes);
  }

  /** The frequency of every size of a run. */
  function Frequencies(sizes: seq<int>): (t: map<int, int>)
    ensures t.Keys == Distinct(sizes) && forall x :: x in t ==> t[x] == multiset(sizes)[x]
  {
    map x | x in sizes :: multiset(sizes)[x]
  }

  lemma FullTable(sizes: seq<int>)
    requires |Distinct(sizes)| <= MAX_TRACKED
    ensures Run(sizes).freq == Frequencies(sizes)
  {
    TableCounts(sizes);
    SubsetSize(Run(sizes).freq.Keys, Distinct(sizes));
    assert |Run(sizes).freq| == |Run(sizes).freq.Keys|;
    var t, u := Run(sizes).freq, Frequencies(sizes);
    assert t.Keys == u.Keys;
    forall x | x in t ensures t[x] == u[x] {
    }
  }

  /** With at most 32 distinct sizes the slots are the top four of the run itself; they
      do not depend on the order of its accesses. */
  lemma TopFourOfRun(sizes: seq<int>, reordered: seq<int>)
    requires |sizes| <= INT32_MAX && |Distinct(sizes)| <= 32
    requires multiset(sizes) == multiset(reordered)
    ensures IsTopFour(Run(sizes).slots, Frequencies(sizes))
    ensures Run(reordered).slots == Run(sizes).slots
  {
    assert |sizes| == |multiset(sizes)| == |multiset(reordered)| == |reordered|;
    forall x ensures x in sizes <==> x in reordered {
      assert x in multiset(sizes) <==> x in multiset(reordered);
    }
    assert Distinct(sizes) == Distinct(reordered);
    assert Frequencies(sizes) == Frequencies(reordered);
    RunKeepsTopFour(sizes);
    RunKeepsTopFour(reordered);
    FullTable(sizes);
    FullTable(reordered);
    TopFourUnique(Run(sizes).slots, Run(reordered).slots, Frequencies(sizes));
  }

  /** A size that comes after 32 others never enters the table nor reaches the slots, however often
      it occurs. */
  lemma LateSizeIsLost(sizes: seq<int>, late: int)
    requires |sizes| <= INT32_MAX && late != 0 && !AmongFirst(sizes, late)
    ensures late !in Run(sizes).freq && !Holds(Run(sizes).slots, late)
  {
    TableHoldsTheFirst(sizes, late);
    RunKeepsTopFour(sizes);
  }

  /** What the slots have to do with a size that is not tracked: its outrankers are tracked, or one
      of them is not and comes first. */
  lemma {:induction false} UntrackedIsOutranked(s: seq<Slot>, t: map<int, int>, all: map<int, int>, v: int)
    requires IsTopFour(s, t) && t.Keys <= all.Keys && forall x :: x in t ==> t[x] == all[x]
    requires forall x :: x in all && x != 0 && x !in t ==> 4 <= |Outrankers(all, x)|
    requires v in all && v != 0 && v !in t
    ensures s[3].val != 0 && Outranks(s[3], Slot(v, all[v]))
    decreases |Outrankers(all, v)|
  {
    if y :| y in Outrankers(all, v) && y !in t {
      OutrankersShrink(all, v, y);
      UntrackedIsOutranked(s, t, all, y);
    } else {
      LeastOfFour(s, t, Outrankers(all, v), Slot(v, all[v]));
    }
  }

  /** For any run, the slots are the top four of the run itself if and only if every non-zero size
      that came too late to be tracked has at least four others ahead of it. */
  lemma TopFourOfRunIff(sizes: seq<int>)
    requires |sizes| <= INT32_MAX
    ensures IsTopFour(Run(sizes).slots, Frequencies(sizes)) <==>
              forall v :: v in sizes && v != 0 && !AmongFirst(sizes, v) ==> 4 <= |Outrankers(Frequencies(sizes), v)|
  {
    var s, t, all := Run(sizes).slots, Run(sizes).freq, Frequencies(sizes);
    RunKeepsTopFour(sizes);
    TableCounts(sizes);
    forall v ensures v in t <==> AmongFirst(sizes, v) {
      TableHoldsTheFirst(sizes, v);
    }
    if IsTopFour(s, all) {
      forall v | v in sizes && v != 0 && !AmongFirst(sizes, v) ensures 4 <= |Outrankers(all, v)| {
        FourSlotsOutrank(s, all, v);
      }
    }
    if forall v :: v in sizes && v != 0 && !AmongFirst(sizes, v) ==> 4 <= |Outrankers(all, v)| {
      forall v | v in all && v != 0 && !Holds(s, v) ensures s[3].val != 0 && Outranks(s[3], Slot(v, all[v])) {
        if v !in t {
          UntrackedIsOutranked(s, t, all, v);
        }
      }
    }
  }

  lemma LateIsNotAmongFirst(sizes: seq<int>, more: seq<int>, late: int)
    requires 32 <= |Distinct(sizes)| && late !in sizes
    ensures !AmongFirst(sizes + more, late)
  {
    var all := sizes + more;
    forall i | 0 <= i < |all| && all[i] == late ensures MAX_TRACKED <= |Distinct(all[..i])| {
      assert i >= |sizes|;
      assert sizes <= all[..i];
      SubsetSize(Distinct(sizes), Distinct(all[..i]));
    }
  }

  /** It fails when the favourite comes late: used more often than all before it together, it is
      missing from the slots. */
  lemma LateFavouriteIsMissing(sizes: seq<int>, late: int, more: seq<int>)
    requires 32 <= |Distinct(sizes)| && late !in sizes && late != 0
    requires |sizes| < |more| && forall i :: 0 <= i < |more| ==> more[i] == late
    requires |sizes + more| <= INT32_MAX
    ensures !IsTopFour(Run(sizes + more).slots, Frequencies(sizes + more))
  {
    var all := sizes + more;
    LateIsNotAmongFirst(sizes, more, late);
    LateSizeIsLost(all, late);
    assert all[|sizes|] == more[0] == late;
    OnlyOne(more, late);
    assert multiset(all) == multiset(sizes) + multiset(more);
    var s := Run(all).slots;
    assert s[3].val != late && multiset(sizes)[s[3].val] <= |multiset(sizes)|;
    OnlyOne(more, s[3].val);
  }

  lemma {:induction false} OnlyOne(more: seq<int>, x: int)
    requires forall i, j :: 0 <= i < j < |more| ==> more[i] == more[j]
    ensures multiset(more)[x] == if more != [] && more[0] == x then |more| else 0
  {
    if more != [] {
      var n := |more| - 1;
      OnlyOne(more[..n], x);
      assert more == more[..n] + [more[n]];
    }
  }

  /** The access bookkeeping of one DFS file record: the counters of the record, where
      the slots live, and the tree that counts every tracked size. */
  class FileRecordRef {
    const ACCESS1 := 0
    const counters: array<int>
    var accessRoot: map<int, int>
    var accessCount: int
    ghost var accesses: seq<int>

    ghost predicate Valid()
      reads this, counters
    {
      && counters.Length == 8
      && accessCount == |accessRoot|
      && Run(accesses) == Tracked(accessRoot, SlotsAt(counters[..], ACCESS1))
    }

    constructor ()
      ensures Valid() && accesses == [] && fresh(counters)
    {
      counters := new int[8](_ => 0);
      accessRoot, accessCount, accesses := map[], 0, [];
      new;
      assert SlotsAt(counters[..], 0) == EMPTY_SLOTS;
    }

    /** The tree lookup: counts a known value, adds a new one below the limit, and
        reports its frequency, if it is tracked. */
    method TrackCommonVal(val: int) returns (found: bool, freq: int)
      requires accessCount == |accessRoot|
      modifies this`accessRoot, this`accessCount
      ensures accessCount == |accessRoot|
      ensures found == (val in old(accessRoot) || |old(accessRoot)| < MAX_TRACKED)
      ensures found ==> freq == (if val in old(accessRoot) then old(accessRoot)[val] + 1 else 1)
      ensures accessRoot == if found then old(accessRoot)[val := freq] else old(accessRoot)
    {
      found, freq := false, 0;
      if val in accessRoot {
        freq := accessRoot[val] + 1;
        accessRoot, found := accessRoot[val := freq], true;
      } else if accessCount < MAX_TRACKED {
        freq := 1;
        accessRoot, found := accessRoot[val := freq], true;
        accessCount := accessCount + 1;
      }
    }

    /** One read or write of `size` bytes. */
    method RecordAccess(size: int)
      requires Valid() && |accesses| < INT32_MAX
      modifies this, counters
      ensures Valid() && accesses == old(accesses) + [size]
      ensures IsTopFour(SlotsAt(counters[..], ACCESS1), accessRoot)
    {
      RunIsDistinct(accesses);
      var found, freq := TrackCommonVal(size);
      if found {
        UpdateCommonValCounters(counters, ACCESS1, size, freq, false);
      }
      assert (accesses + [size])[..|accesses|] == accesses;
      accesses := accesses + [size];
      RunKeepsTopFour(accesses);
    }
  }
}
