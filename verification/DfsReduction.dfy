/** The reduction of two DFS file records into one shared record: its common access
    sizes and its start timestamps, for one pair of records and for whole trees. */
module DfsReduction {
  import opened CommonValues
  import opened Ranking

  /** The non-zero values of some slots with their counts. */
  function TableOf(s: seq<Slot>): (t: map<int, int>)
    ensures forall v :: v in t <==> v != 0 && Holds(s, v)
    ensures forall v :: v in t ==> t[v] == CountOf(s, v)
  {
    map v | v in (set i | 0 <= i < |s| :: s[i].val) && v != 0 :: CountOf(s, v)
  }

  /** Four slots as a record carries them: sorted, distinct, zero-padded, counts positive. */
  ghost predicate WellFormed(s: seq<Slot>) {
    IsTopFour(s, TableOf(s)) && Positive(TableOf(s))
  }

  /** The pointwise sum of two frequency tables. */
  function Sum(t: map<int, int>, u: map<int, int>): (r: map<int, int>)
    ensures r.Keys == t.Keys + u.Keys
    ensures forall v :: v in r ==> r[v] == Get(t, v) + Get(u, v)
  {
    map v | v in t.Keys + u.Keys :: Get(t, v) + Get(u, v)
  }

  function Get(t: map<int, int>, v: int): int {
    if v in t then t[v] else 0
  }

  lemma SumInNumbers(t: map<int, int>, u: map<int, int>, v: int)
    ensures v in Sum(t, u) <==> v in t || v in u
    ensures v in Sum(t, u) ==> Sum(t, u)[v] == (if v in t then t[v] else 0) + (if v in u then u[v] else 0)
  {
  }

  lemma SumCommutes(t: map<int, int>, u: map<int, int>)
    ensures Sum(t, u) == Sum(u, t)
  {
    assert Sum(t, u).Keys == Sum(u, t).Keys;
  }

  // ---------------------------------------------------------------------------
  // One reduction step, as a function of the two records' slots
  // ---------------------------------------------------------------------------

  /** The incoming slots with the other record's counts of the same values added. */
  function Collapsed(a: seq<Slot>, b: seq<Slot>): (r: seq<Slot>)
    ensures |r| == |a|
  {
    seq(|a|, j requires 0 <= j < |a| => Slot(a[j].val, a[j].cnt + CountOf(b, a[j].val)))
  }

  /** The other record's slots with those values zeroed. */
  function Remaining(a: seq<Slot>, b: seq<Slot>): (r: seq<Slot>)
    ensures |r| == |b|
  {
    seq(|b|, k requires 0 <= k < |b| => if Holds(a, b[k].val) then Slot(0, 0) else b[k])
  }

  /** One slot added by the update macro. */
  function Add(s: seq<Slot>, n: Slot): (r: seq<Slot>)
    requires |s| == 4
    ensures |r| == 4
  {
    Updated(s, Slot(n.val, TotalCount(s, n.val, n.cnt, true)))
  }

  function AddAll(s: seq<Slot>, xs: seq<Slot>): (r: seq<Slot>)
    requires |s| == 4
    ensures |r| == 4
  {
    if xs == [] then s else Add(AddAll(s, xs[..|xs| - 1]), xs[|xs| - 1])
  }

  /** The slots of the reduced record. */
  function Reduced(a: seq<Slot>, b: seq<Slot>): (r: seq<Slot>)
    ensures |r| == 4
  {
    AddAll(EMPTY_SLOTS, Collapsed(a, b) + Remaining(a, b))
  }

  /** Counts that the macro's 32-bit total can hold. */
  ghost predicate Countable(t: map<int, int>) {
    forall v :: v in t && v != 0 ==> 1 <= t[v] <= INT32_MAX
  }

  lemma CountOfNone(s: seq<Slot>, v: int)
    requires !Holds(s, v)
    ensures CountOf(s, v) == 0
  {
    if s != [] {
      assert s[0].val != v;
      assert forall i :: 0 <= i < |s[1..]| ==> s[1..][i] == s[i + 1];
      CountOfNone(s[1..], v);
    }
  }

  lemma {:induction false} CountOfSplit(a: seq<Slot>, b: seq<Slot>, v: int)
    ensures CountOf(a + b, v) == if Holds(a, v) then CountOf(a, v) else CountOf(b, v)
  {
    if a == [] {
      assert a + b == b;
    } else {
      assert (a + b)[1..] == a[1..] + b;
      CountOfSplit(a[1..], b, v);
      if a[0].val != v && Holds(a, v) {
        var i :| 0 <= i < |a| && a[i].val == v;
        assert a[1..][i - 1].val == v;
      }
      if Holds(a[1..], v) {
        var i :| 0 <= i < |a[1..]| && a[1..][i].val == v;
        assert a[i + 1].val == v;
      }
    }
  }

  /** In a list of distinct values, the count of a value is the count of its slot. */
  lemma CountOfDistinct(s: seq<Slot>, i: nat)
    requires i < |s| && s[i].val != 0 && DistinctValues(s)
    ensures CountOf(s, s[i].val) == s[i].cnt
  {
    CountOfAt(s, s[i].val, i);
  }

  lemma TableOfAppend(xs: seq<Slot>, n: Slot)
    requires DistinctValues(xs + [n])
    ensures TableOf(xs + [n]) == if n.val == 0 then TableOf(xs) else TableOf(xs)[n.val := n.cnt]
    ensures n.val != 0 ==> n.val !in TableOf(xs)
  {
    var ys := xs + [n];
    assert ys[|xs|] == n;
    assert n.val != 0 ==> !Holds(xs, n.val) by {
      assert forall i :: 0 <= i < |xs| ==> ys[i] == xs[i];
    }
    var t, u := TableOf(ys), TableOf(xs);
    forall v ensures Holds(ys, v) <==> Holds(xs, v) || v == n.val {
      if Holds(xs, v) {
        var i :| 0 <= i < |xs| && xs[i].val == v;
        assert ys[i].val == v;
      }
    }
    forall v | v in t ensures t[v] == if v == n.val then n.cnt else u[v] {
      CountOfSplit(xs, [n], v);
    }
  }

  /** Slots with distinct values, added one after the other to an empty record, leave the
      top four of them. */
  lemma {:induction false} AddAllIsTopFour(xs: seq<Slot>)
    requires DistinctValues(xs) && Countable(TableOf(xs))
    ensures IsTopFour(AddAll(EMPTY_SLOTS, xs), TableOf(xs))
  {
    if xs == [] {
      assert TableOf(xs) == map[];
    } else {
      var m := |xs| - 1;
      var before, n := xs[..m], xs[m];
      assert xs == before + [n];
      TableOfAppend(before, n);
      BeforeIsCountable(TableOf(before), n, TableOf(xs));
      AddAllIsTopFour(before);
      AddIsTopFour(AddAll(EMPTY_SLOTS, before), TableOf(before), n);
    }
  }

  lemma BeforeIsCountable(t: map<int, int>, n: Slot, u: map<int, int>)
    requires Countable(u) && u == if n.val == 0 then t else t[n.val := n.cnt]
    requires n.val != 0 ==> n.val !in t
    ensures Countable(t) && (n.val != 0 ==> 1 <= n.cnt <= INT32_MAX)
  {
    assert forall v :: v in t ==> v in u && t[v] == u[v];
    assert n.val != 0 ==> u[n.val] == n.cnt;
  }

  lemma AddIsTopFour(s: seq<Slot>, t: map<int, int>, n: Slot)
    requires IsTopFour(s, t) && Countable(t)
    requires n.val != 0 ==> n.val !in t && 1 <= n.cnt <= INT32_MAX
    ensures IsTopFour(Add(s, n), if n.val == 0 then t else t[n.val := n.cnt])
  {
    if n.val != 0 {
      assert !Holds(s, n.val);
      UpdateKeepsTopFour(s, t, n);
    }
  }

  lemma SplitHolds(a: seq<Slot>, b: seq<Slot>, v: int)
    ensures Holds(a + b, v) <==> Holds(a, v) || Holds(b, v)
  {
    if Holds(a, v) {
      var i :| 0 <= i < |a| && a[i].val == v;
      assert (a + b)[i].val == v;
    }
    if Holds(b, v) {
      var i :| 0 <= i < |b| && b[i].val == v;
      assert (a + b)[|a| + i].val == v;
    }
  }

  /** After collapsing, every value occurs once, with the sum of its two counts. */
  lemma CollapseSums(a: seq<Slot>, b: seq<Slot>)
    requires DistinctValues(a) && DistinctValues(b)
    ensures DistinctValues(Collapsed(a, b) + Remaining(a, b))
    ensures TableOf(Collapsed(a, b) + Remaining(a, b)) == Sum(TableOf(a), TableOf(b))
  {
    CollapsedDistinct(a, b);
    var t, u := TableOf(Collapsed(a, b) + Remaining(a, b)), Sum(TableOf(a), TableOf(b));
    forall v
      ensures v in t <==> v in u
      ensures v in t ==> t[v] == u[v]
    {
      if v != 0 {
        CollapsedCount(a, b, v);
      }
    }
    assert t.Keys == u.Keys;
  }

  lemma CollapsedDistinct(a: seq<Slot>, b: seq<Slot>)
    requires DistinctValues(a) && DistinctValues(b)
    ensures DistinctValues(Collapsed(a, b) + Remaining(a, b))
  {
    var c, r := Collapsed(a, b), Remaining(a, b);
    forall i, j | 0 <= i < |a| && 0 <= j < |b| && c[i].val == r[j].val ensures c[i].val == 0 {
      if b[j].val == a[i].val {
        assert Holds(a, b[j].val);
      }
    }
  }

  lemma CollapsedCount(a: seq<Slot>, b: seq<Slot>, v: int)
    requires v != 0 && DistinctValues(a) && DistinctValues(b)
    ensures var xs := Collapsed(a, b) + Remaining(a, b);
      && (Holds(xs, v) <==> Holds(a, v) || Holds(b, v))
      && (Holds(xs, v) ==> CountOf(xs, v) == Get(TableOf(a), v) + Get(TableOf(b), v))
  {
    var c, r := Collapsed(a, b), Remaining(a, b);
    SplitHolds(c, r, v);
    CountOfSplit(c, r, v);
    CountIsGet(a, v);
    CountIsGet(b, v);
    if Holds(a, v) {
      var i :| 0 <= i < |a| && a[i].val == v;
      assert c[i].val == v;
      assert DistinctValues(c);
      CountOfDistinct(c, i);
      CountOfDistinct(a, i);
      assert CountOf(c, v) == CountOf(a, v) + CountOf(b, v);
    } else {
      assert !Holds(c, v);
      if Holds(b, v) {
        var k :| 0 <= k < |b| && b[k].val == v;
        assert r[k] == b[k];
        CountOfDistinct(b, k);
        assert DistinctValues(r);
        CountOfDistinct(r, k);
      }
    }
  }

  lemma CountIsGet(s: seq<Slot>, v: int)
    requires v != 0
    ensures CountOf(s, v) == Get(TableOf(s), v)
  {
    if !Holds(s, v) {
      CountOfNone(s, v);
    }
  }

  /** The common values of the reduced record are exactly the top four of the pointwise
      sum of the two tables, whatever the order of the two records. */
  lemma ReducedIsTopFourOfSum(a: seq<Slot>, b: seq<Slot>)
    requires WellFormed(a) && WellFormed(b)
    requires Countable(Sum(TableOf(a), TableOf(b)))
    ensures IsTopFour(Reduced(a, b), Sum(TableOf(a), TableOf(b)))
    ensures Reduced(a, b) == Reduced(b, a)
  {
    ReducedIsTop(a, b);
    SumCommutes(TableOf(a), TableOf(b));
    ReducedIsTop(b, a);
    TopFourUnique(Reduced(a, b), Reduced(b, a), Sum(TableOf(a), TableOf(b)));
  }

  /** In numbers: the reduced slots list the values with the largest summed counts, the larger value
      first of equal ones. */
  lemma ReducedInNumbers(a: seq<Slot>, b: seq<Slot>)
    requires WellFormed(a) && WellFormed(b)
    requires Countable(Sum(TableOf(a), TableOf(b)))
    ensures var s, t := Reduced(a, b), Sum(TableOf(a), TableOf(b));
      && (forall i, j :: 0 <= i < j < 4 && s[j].val != 0 ==>
        s[i].cnt > s[j].cnt || (s[i].cnt == s[j].cnt && s[i].val > s[j].val))
      && (forall v :: v in t && v != 0 && (forall i :: 0 <= i < 4 ==> s[i].val != v) ==>
        t[v] < s[3].cnt || (t[v] == s[3].cnt && v < s[3].val))
      && (forall i :: 0 <= i < 4 && s[i].val != 0 ==> s[i].val in t && s[i].cnt == t[s[i].val])
  {
    ReducedIsTopFourOfSum(a, b);
    TopFourInNumbers(Reduced(a, b), Sum(TableOf(a), TableOf(b)));
  }

  lemma ReducedIsTop(a: seq<Slot>, b: seq<Slot>)
    requires WellFormed(a) && WellFormed(b)
    requires Countable(Sum(TableOf(a), TableOf(b)))
    ensures IsTopFour(Reduced(a, b), Sum(TableOf(a), TableOf(b)))
  {
    CollapsedIsCountable(a, b);
    CollapseAdds(a, b);
    AddAllIsTopFour(Collapsed(a, b) + Remaining(a, b));
  }

  lemma CollapseAdds(a: seq<Slot>, b: seq<Slot>)
    requires WellFormed(a) && WellFormed(b)
    ensures TableOf(Collapsed(a, b) + Remaining(a, b)) == Sum(TableOf(a), TableOf(b))
  {
    TopFourIsDistinct(a, TableOf(a));
    TopFourIsDistinct(b, TableOf(b));
    CollapseSums(a, b);
  }

  // ---------------------------------------------------------------------------
  // One reduction step in place
  // ---------------------------------------------------------------------------

  ghost predicate ZeroPadded(s: seq<Slot>) {
    DistinctValues(s) && forall i :: 0 <= i < |s| && s[i].val == 0 ==> s[i].cnt == 0
  }

  /** `s` with every slot of value `v` among the first `k` zeroed. */
  function ZeroedUpTo(s: seq<Slot>, v: int, k: nat): (r: seq<Slot>)
    ensures |r| == |s|
  {
    seq(|s|, i requires 0 <= i < |s| => if i < k && s[i].val == v then Slot(0, 0) else s[i])
  }

  lemma {:induction false} CountOfZero(s: seq<Slot>)
    requires ZeroPadded(s)
    ensures CountOf(s, 0) == 0
  {
    if s != [] {
      CountOfZero(s[1..]);
    }
  }

  lemma CountOfPrefix(s: seq<Slot>, v: int, k: nat)
    requires k < |s| && ZeroPadded(s)
    ensures CountOf(s[..k + 1], v) == CountOf(s[..k], v) + (if s[k].val == v then s[k].cnt else 0)
  {
    var p := s[..k];
    assert s[..k + 1] == p + [s[k]];
    CountOfSplit(p, [s[k]], v);
    if v == 0 {
      CountOfZero(p);
      CountOfZero(s[..k + 1]);
    } else if Holds(p, v) {
      var i :| 0 <= i < |p| && p[i].val == v;
      assert s[i].val == v;
    } else {
      CountOfNone(p, v);
    }
  }

  /** The body of the collapse: one slot of each record. */
  method CollapsePair(infile: array<int>, inoutfile: array<int>, base: nat, j: nat, k: nat)
    requires infile != inoutfile && base + 8 <= infile.Length && base + 8 <= inoutfile.Length && j < 4 && k < 4
    modifies infile, inoutfile
    ensures var a, b := SlotsAt(old(infile[..]), base), SlotsAt(old(inoutfile[..]), base);
      && SlotsAt(infile[..], base) == (if a[j].val == b[k].val then a[j := Slot(a[j].val, a[j].cnt + b[k].cnt)] else a)
      && SlotsAt(inoutfile[..], base) == (if a[j].val == b[k].val then b[k := Slot(0, 0)] else b)
  {
    if infile[base + j] == inoutfile[base + k] {
      infile[base + 4 + j] := infile[base + 4 + j] + inoutfile[base + 4 + k];
      inoutfile[base + k] := 0;
      inoutfile[base + 4 + k] := 0;
    }
  }

  lemma ZeroedStep(s: seq<Slot>, v: int, k: nat)
    requires k < |s|
    ensures ZeroedUpTo(s, v, k)[k] == s[k]
    ensures ZeroedUpTo(s, v, k + 1) == if s[k].val == v then ZeroedUpTo(s, v, k)[k := Slot(0, 0)]
      else ZeroedUpTo(s, v, k)
  {
  }

  /** The inner loop of the collapse: the slot `j` of the incoming record collects the
      other record's count of its value. */
  method CollapseOne(infile: array<int>, inoutfile: array<int>, base: nat, j: nat)
    requires infile != inoutfile && base + 8 <= infile.Length && base + 8 <= inoutfile.Length && j < 4
    requires ZeroPadded(SlotsAt(inoutfile[..], base))
    modifies infile, inoutfile
    ensures var a, b := SlotsAt(old(infile[..]), base), SlotsAt(old(inoutfile[..]), base);
      && SlotsAt(infile[..], base) == a[j := Slot(a[j].val, a[j].cnt + CountOf(b, a[j].val))]
      && SlotsAt(inoutfile[..], base) == ZeroedUpTo(b, a[j].val, 4)
  {
    ghost var a, b := SlotsAt(infile[..], base), SlotsAt(inoutfile[..], base);
    ghost var v := a[j].val;
    var k := 0;
    assert ZeroedUpTo(b, v, 0) == b && a[j := Slot(v, a[j].cnt)] == a;
    while k < 4
      invariant 0 <= k <= 4
      invariant SlotsAt(infile[..], base) == a[j := Slot(v, a[j].cnt + CountOf(b[..k], v))]
      invariant SlotsAt(inoutfile[..], base) == ZeroedUpTo(b, v, k)
    {
      CountOfPrefix(b, v, k);
      ZeroedStep(b, v, k);
      CollapsePair(infile, inoutfile, base, j, k);
      k := k + 1;
    }
    assert b[..4] == b;
  }

  /** Taking out one more value of the incoming record. */
  lemma RemainingStep(a: seq<Slot>, b: seq<Slot>, j: nat)
    requires j < |a| && |b| == 4 && ZeroPadded(a) && ZeroPadded(b)
    ensures ZeroPadded(Remaining(a[..j], b))
    ensures ZeroedUpTo(Remaining(a[..j], b), a[j].val, 4) == Remaining(a[..j + 1], b)
    ensures CountOf(Remaining(a[..j], b), a[j].val) == CountOf(b, a[j].val)
  {
    var r, v := Remaining(a[..j], b), a[j].val;
    assert ZeroPadded(r);
    forall k | 0 <= k < 4 ensures ZeroedUpTo(r, v, 4)[k] == Remaining(a[..j + 1], b)[k] {
      assert a[..j + 1] == a[..j] + [a[j]];
      SplitHolds(a[..j], [a[j]], b[k].val);
      assert Holds([a[j]], b[k].val) <==> [a[j]][0].val == b[k].val;
    }
    if v == 0 {
      CountOfZero(r);
      CountOfZero(b);
    } else if Holds(b, v) {
      var k :| 0 <= k < 4 && b[k].val == v;
      assert !Holds(a[..j], v);
      assert r[k] == b[k];
      CountOfDistinct(b, k);
      CountOfDistinct(r, k);
    } else {
      assert forall k :: 0 <= k < 4 ==> r[k] == b[k] || r[k].val == 0;
      assert !Holds(r, v);
      CountOfNone(b, v);
      CountOfNone(r, v);
    }
  }

  /** The collapse after `j` rounds. */
  ghost predicate CollapsedUpTo(s: seq<Slot>, r: seq<Slot>, a: seq<Slot>, b: seq<Slot>, j: nat)
    requires |a| == 4 && j <= 4
  {
    s == Collapsed(a, b)[..j] + a[j..] && r == Remaining(a[..j], b)
  }

  lemma CollapseRound(s: seq<Slot>, r: seq<Slot>, a: seq<Slot>, b: seq<Slot>, j: nat)
    requires |a| == |b| == 4 && j < 4 && ZeroPadded(a) && ZeroPadded(b) && CollapsedUpTo(s, r, a, b, j)
    ensures ZeroPadded(r) && |s| == 4 && s[j] == a[j]
    ensures var own := Slot(s[j].val, s[j].cnt + CountOf(r, s[j].val));
      CollapsedUpTo(s[j := own], ZeroedUpTo(r, s[j].val, 4), a, b, j + 1)
  {
    RemainingStep(a, b, j);
    OverwriteStep(Collapsed(a, b), a, j);
  }

  method CollapseNext(infile: array<int>, inoutfile: array<int>, base: nat, j: nat, ghost a: seq<Slot>,
                      ghost b: seq<Slot>)
    requires infile != inoutfile && base + 8 <= infile.Length && base + 8 <= inoutfile.Length && j < 4
    requires |a| == |b| == 4 && ZeroPadded(a) && ZeroPadded(b)
    requires CollapsedUpTo(SlotsAt(infile[..], base), SlotsAt(inoutfile[..], base), a, b, j)
    modifies infile, inoutfile
    ensures CollapsedUpTo(SlotsAt(infile[..], base), SlotsAt(inoutfile[..], base), a, b, j + 1)
  {
    CollapseRound(SlotsAt(infile[..], base), SlotsAt(inoutfile[..], base), a, b, j);
    CollapseOne(infile, inoutfile, base, j);
  }

  lemma AllCollapsed(s: seq<Slot>, r: seq<Slot>, a: seq<Slot>, b: seq<Slot>)
    requires |a| == 4 && CollapsedUpTo(s, r, a, b, 4)
    ensures s == Collapsed(a, b) && r == Remaining(a, b)
  {
    assert a[..4] == a && Collapsed(a, b)[..4] == Collapsed(a, b);
  }

  /** Collapses duplicates: adds to each incoming slot the other record's count of the
      same value, and zeroes the slot it came from. */
  method CollapseDuplicates(infile: array<int>, inoutfile: array<int>, base: nat)
    requires infile != inoutfile && base + 8 <= infile.Length && base + 8 <= inoutfile.Length
    requires ZeroPadded(SlotsAt(infile[..], base)) && ZeroPadded(SlotsAt(inoutfile[..], base))
    modifies infile, inoutfile
    ensures SlotsAt(infile[..], base) == Collapsed(SlotsAt(old(infile[..]), base), SlotsAt(old(inoutfile[..]), base))
    ensures SlotsAt(inoutfile[..], base) == Remaining(SlotsAt(old(infile[..]), base), SlotsAt(old(inoutfile[..]), base))
  {
    ghost var a, b := SlotsAt(infile[..], base), SlotsAt(inoutfile[..], base);
    var j := 0;
    assert CollapsedUpTo(a, b, a, b, 0) by {
      assert Remaining(a[..0], b) == b;
    }
    while j < 4
      invariant 0 <= j <= 4
      invariant CollapsedUpTo(SlotsAt(infile[..], base), SlotsAt(inoutfile[..], base), a, b, j)
    {
      CollapseNext(infile, inoutfile, base, j, a, b);
      j := j + 1;
    }
    AllCollapsed(SlotsAt(infile[..], base), SlotsAt(inoutfile[..], base), a, b);
  }

  /** The update macro can be applied to each of `xs` in turn after `before`. */
  ghost predicate Addable(before: seq<Slot>, xs: seq<Slot>) {
    forall k :: 0 <= k < |xs| ==> DistinctValues(AddAll(EMPTY_SLOTS, before + xs[..k]))
  }

  lemma AddAllStep(ys: seq<Slot>, n: Slot)
    ensures AddAll(EMPTY_SLOTS, ys + [n]) == Add(AddAll(EMPTY_SLOTS, ys), n)
  {
    assert (ys + [n])[..|ys|] == ys;
  }

  /** The update macro with the add flag set. */
  method AddSlot(counters: array<int>, base: nat, val: int, cnt: int, ghost ys: seq<Slot>)
    requires base + 8 <= counters.Length
    requires SlotsAt(counters[..], base) == AddAll(EMPTY_SLOTS, ys) && DistinctValues(AddAll(EMPTY_SLOTS, ys))
    modifies counters
    ensures SlotsAt(counters[..], base) == AddAll(EMPTY_SLOTS, ys + [Slot(val, cnt)])
  {
    AddAllStep(ys, Slot(val, cnt));
    UpdateCommonValCounters(counters, base, val, cnt, true);
  }

  /** Adds the four slots of one record to the reduced record. */
  method AddSlots(tmpfile: array<int>, from: array<int>, base: nat, ghost before: seq<Slot>)
    requires tmpfile != from && base + 8 <= tmpfile.Length && base + 8 <= from.Length
    requires SlotsAt(tmpfile[..], base) == AddAll(EMPTY_SLOTS, before)
    requires Addable(before, SlotsAt(from[..], base))
    modifies tmpfile
    ensures SlotsAt(tmpfile[..], base) == AddAll(EMPTY_SLOTS, before + SlotsAt(from[..], base))
  {
    ghost var xs := SlotsAt(from[..], base);
    ghost var ys := before;
    var j := 0;
    while j < 4
      invariant 0 <= j <= 4 && ys == before + xs[..j]
      invariant SlotsAt(tmpfile[..], base) == AddAll(EMPTY_SLOTS, ys)
    {
      AddSlot(tmpfile, base, from[base + j], from[base + 4 + j], ys);
      ys := ys + [xs[j]];
      j := j + 1;
    }
    assert xs[..4] == xs;
  }

  /** The common-access part of the reduction operator: collapses duplicates, then adds
      both records to a zeroed one. */
  method ReduceCommonValues(infile: array<int>, inoutfile: array<int>, base: nat) returns (tmpfile: array<int>)
    requires infile != inoutfile && base + 8 <= infile.Length && base + 8 <= inoutfile.Length
    requires WellFormed(SlotsAt(infile[..], base)) && WellFormed(SlotsAt(inoutfile[..], base))
    requires Countable(Sum(TableOf(SlotsAt(infile[..], base)), TableOf(SlotsAt(inoutfile[..], base))))
    modifies infile, inoutfile
    ensures fresh(tmpfile) && tmpfile.Length == infile.Length
    ensures SlotsAt(tmpfile[..], base) == Reduced(SlotsAt(old(infile[..]), base), SlotsAt(old(inoutfile[..]), base))
  {
    ghost var a, b := SlotsAt(infile[..], base), SlotsAt(inoutfile[..], base);
    ReductionIsSafe(a, b);
    CollapseDuplicates(infile, inoutfile, base);
    tmpfile := new int[infile.Length](_ => 0);
    assert SlotsAt(tmpfile[..], base) == EMPTY_SLOTS;
    AddBoth(tmpfile, infile, inoutfile, base);
  }

  /** Adds the slots of both records to an empty one. */
  method AddBoth(tmpfile: array<int>, infile: array<int>, inoutfile: array<int>, base: nat)
    requires tmpfile != infile && tmpfile != inoutfile
    requires base + 8 <= tmpfile.Length && base + 8 <= infile.Length && base + 8 <= inoutfile.Length
    requires SlotsAt(tmpfile[..], base) == EMPTY_SLOTS
    requires Addable([], SlotsAt(infile[..], base)) && Addable(SlotsAt(infile[..], base), SlotsAt(inoutfile[..], base))
    modifies tmpfile
    ensures SlotsAt(tmpfile[..], base) == AddAll(EMPTY_SLOTS, SlotsAt(infile[..], base) + SlotsAt(inoutfile[..], base))
  {
    ghost var c := SlotsAt(infile[..], base);
    assert [] + c == c;
    AddSlots(tmpfile, infile, base, []);
    AddSlots(tmpfile, inoutfile, base, c);
  }

  lemma ReductionIsSafe(a: seq<Slot>, b: seq<Slot>)
    requires WellFormed(a) && WellFormed(b)
    requires Countable(Sum(TableOf(a), TableOf(b)))
    ensures ZeroPadded(a) && ZeroPadded(b)
    ensures Addable([], Collapsed(a, b)) && Addable(Collapsed(a, b), Remaining(a, b))
  {
    CollapsedIsCountable(a, b);
    PartsAddable(Collapsed(a, b), Remaining(a, b));
  }

  lemma CollapsedIsCountable(a: seq<Slot>, b: seq<Slot>)
    requires WellFormed(a) && WellFormed(b)
    requires Countable(Sum(TableOf(a), TableOf(b)))
    ensures DistinctValues(Collapsed(a, b) + Remaining(a, b)) && Countable(TableOf(Collapsed(a, b) + Remaining(a, b)))
  {
    TopFourIsDistinct(a, TableOf(a));
    TopFourIsDistinct(b, TableOf(b));
    CollapseSums(a, b);
  }

  lemma PartsAddable(c: seq<Slot>, r: seq<Slot>)
    requires DistinctValues(c + r) && Countable(TableOf(c + r))
    ensures Addable([], c) && Addable(c, r)
  {
    forall k | 0 <= k < |c| ensures DistinctValues(AddAll(EMPTY_SLOTS, [] + c[..k])) {
      assert [] + c[..k] == (c + r)[..k];
      PrefixDistinct(c + r, k);
    }
    forall k | 0 <= k < |r| ensures DistinctValues(AddAll(EMPTY_SLOTS, c + r[..k])) {
      assert c + r[..k] == (c + r)[..|c| + k];
      PrefixDistinct(c + r, |c| + k);
    }
  }

  lemma PrefixDistinct(zs: seq<Slot>, k: nat)
    requires DistinctValues(zs) && Countable(TableOf(zs)) && k <= |zs|
    ensures DistinctValues(AddAll(EMPTY_SLOTS, zs[..k]))
  {
    PrefixCountable(zs, k);
    AddAllIsTopFour(zs[..k]);
    TopFourIsDistinct(AddAll(EMPTY_SLOTS, zs[..k]), TableOf(zs[..k]));
  }

  lemma TopFourIsDistinct(s: seq<Slot>, t: map<int, int>)
    requires IsTopFour(s, t)
    ensures DistinctValues(s)
  {
  }

  lemma PrefixCountable(zs: seq<Slot>, k: nat)
    requires DistinctValues(zs) && Countable(TableOf(zs)) && k <= |zs|
    ensures DistinctValues(zs[..k]) && Countable(TableOf(zs[..k]))
  {
    forall v | v in TableOf(zs[..k]) ensures v in TableOf(zs) && TableOf(zs[..k])[v] == TableOf(zs)[v] {
      assert zs == zs[..k] + zs[k..];
      CountOfSplit(zs[..k], zs[k..], v);
      SplitHolds(zs[..k], zs[k..], v);
    }
  }

  // ---------------------------------------------------------------------------
  // Whole reductions
  // ---------------------------------------------------------------------------

  /** The start timestamp of two records: the smaller one, zero meaning none. */
  function MinNonZero(x: real, y: real): (r: real)
    ensures x >= 0.0 && y >= 0.0 ==> r >= 0.0 && (r == 0.0 <==> x == 0.0 && y == 0.0)
  {
    if (x < y && x > 0.0) || y == 0.0 then x else y
  }

  /** A reduction tree over the records of the ranks; each leaf carries the slots and one
      start timestamp of its record. */
  datatype Reduction = Rank(slots: seq<Slot>, start: real) | Combine(left: Reduction, right: Reduction)

  function SlotsOf(t: Reduction): seq<Slot> {
    match t
    case Rank(s, _) => s
    case Combine(l, r) => Reduced(SlotsOf(l), SlotsOf(r))
  }

  function StartOf(t: Reduction): real {
    match t
    case Rank(_, x) => x
    case Combine(l, r) => MinNonZero(StartOf(l), StartOf(r))
  }

  /** The frequency table of all ranks together. */
  function Total(t: Reduction): map<int, int> {
    match t
    case Rank(s, _) => TableOf(s)
    case Combine(l, r) => Sum(Total(l), Total(r))
  }

  function Starts(t: Reduction): seq<real> {
    match t
    case Rank(_, x) => [x]
    case Combine(l, r) => Starts(l) + Starts(r)
  }

  ghost predicate LeavesWellFormed(t: Reduction) {
    match t
    case Rank(s, x) => WellFormed(s) && x >= 0.0
    case Combine(l, r) => LeavesWellFormed(l) && LeavesWellFormed(r)
  }

  /** `x` is the smallest positive member of `xs`, or zero when there is none. */
  ghost predicate IsEarliest(x: real, xs: seq<real>) {
    if forall y :: y in xs ==> y == 0.0 then x == 0.0
    else x in xs && x > 0.0 && forall y :: y in xs && y > 0.0 ==> x <= y
  }

  /** In numbers: no rank that started at all did so before the time of the tree, and one did then. */
  lemma StartInNumbers(t: Reduction)
    requires LeavesWellFormed(t)
    ensures forall x :: x in Starts(t) && x > 0.0 ==> 0.0 < StartOf(t) <= x
    ensures StartOf(t) > 0.0 ==> StartOf(t) in Starts(t)
    ensures StartOf(t) >= 0.0
  {
    StartIsEarliest(t);
  }

  /** The start timestamp of a tree is the earliest non-zero one of its ranks, so it does
      not depend on the shape of the tree or the order of the ranks. */
  lemma {:induction false} StartIsEarliest(t: Reduction)
    requires LeavesWellFormed(t)
    ensures IsEarliest(StartOf(t), Starts(t)) && StartOf(t) >= 0.0
  {
    match t
    case Rank(_, x) =>
      assert Starts(t)[0] == x;
    case Combine(l, r) =>
      StartIsEarliest(l);
      StartIsEarliest(r);
      EarliestCombines(StartOf(l), Starts(l), StartOf(r), Starts(r));
  }

  lemma EarliestCombines(x: real, xs: seq<real>, y: real, ys: seq<real>)
    requires IsEarliest(x, xs) && IsEarliest(y, ys) && x >= 0.0 && y >= 0.0
    ensures IsEarliest(MinNonZero(x, y), xs + ys)
  {
    assert forall z :: z in xs + ys <==> z in xs || z in ys;
    if !(forall z :: z in xs ==> z == 0.0) {
      assert x in xs + ys && x != 0.0;
    }
    if !(forall z :: z in ys ==> z == 0.0) {
      assert y in xs + ys && y != 0.0;
    }
  }

  lemma StartIgnoresTree(t: Reduction, u: Reduction)
    requires LeavesWellFormed(t) && LeavesWellFormed(u)
    requires multiset(Starts(t)) == multiset(Starts(u))
    ensures StartOf(t) == StartOf(u)
  {
    StartIsEarliest(t);
    StartIsEarliest(u);
    EarliestUnique(StartOf(t), Starts(t), StartOf(u), Starts(u));
  }

  lemma EarliestUnique(x: real, xs: seq<real>, y: real, ys: seq<real>)
    requires IsEarliest(x, xs) && IsEarliest(y, ys) && multiset(xs) == multiset(ys)
    ensures x == y
  {
    forall z ensures z in xs <==> z in ys {
      assert z in multiset(xs) <==> z in multiset(ys);
    }
  }

  /** `t` never exceeds `total`, value by value. */
  ghost predicate Within(t: map<int, int>, total: map<int, int>) {
    forall v :: v in t ==> v in total && t[v] <= total[v]
  }

  lemma SumWithin(t: map<int, int>, t': map<int, int>, u: map<int, int>, u': map<int, int>)
    requires Within(t, t') && Within(u, u') && Countable(Sum(t', u'))
    requires Positive(t) && Positive(u) && Positive(t') && Positive(u')
    requires 0 !in t' && 0 !in u'
    ensures Within(Sum(t, u), Sum(t', u')) && Countable(Sum(t, u)) && Countable(t') && Countable(u')
  {
    forall v | v in t' ensures v in Sum(t', u') && t'[v] <= Sum(t', u')[v] {
    }
    forall v | v in u' ensures v in Sum(t', u') && u'[v] <= Sum(t', u')[v] {
    }
    forall v | v in Sum(t, u) ensures v in Sum(t', u') && 1 <= Sum(t, u)[v] <= Sum(t', u')[v] {
    }
  }

  lemma TopFourTable(s: seq<Slot>, t: map<int, int>)
    requires IsTopFour(s, t) && Positive(t)
    ensures Within(TableOf(s), t)
    ensures WellFormed(s)
  {
    var u := TableOf(s);
    forall v | v in u ensures v in t && u[v] == t[v] {
      var i :| 0 <= i < 4 && s[i].val == v;
      CountOfDistinct(s, i);
    }
    forall i | 0 <= i < 4 && s[i].val != 0 ensures s[i].val in u && s[i].cnt == u[s[i].val] {
      assert Holds(s, s[i].val);
      CountOfDistinct(s, i);
    }
  }

  lemma TotalPositive(t: Reduction)
    requires LeavesWellFormed(t)
    ensures Positive(Total(t)) && 0 !in Total(t)
  {
  }

  /** In any tree the slots stay well formed and no count exceeds the true total of its
      value over all ranks. */
  lemma {:induction false} TreeIsSound(t: Reduction)
    requires LeavesWellFormed(t) && Countable(Total(t))
    ensures WellFormed(SlotsOf(t)) && Within(TableOf(SlotsOf(t)), Total(t))
  {
    match t
    case Rank(_, _) =>
    case Combine(l, r) =>
      CombineIsCountable(l, r);
      TreeIsSound(l);
      TreeIsSound(r);
      var a, b := SlotsOf(l), SlotsOf(r);
      SumWithin(TableOf(a), Total(l), TableOf(b), Total(r));
      CombineSound(a, b, Total(t));
  }

  lemma CombineIsCountable(l: Reduction, r: Reduction)
    requires LeavesWellFormed(l) && LeavesWellFormed(r) && Countable(Sum(Total(l), Total(r)))
    ensures Countable(Total(l)) && Countable(Total(r))
    ensures Positive(Total(l)) && Positive(Total(r)) && 0 !in Total(l) && 0 !in Total(r)
  {
    TotalPositive(l);
    TotalPositive(r);
    SumWithin(Total(l), Total(l), Total(r), Total(r));
  }

  lemma CombineSound(a: seq<Slot>, b: seq<Slot>, total: map<int, int>)
    requires WellFormed(a) && WellFormed(b)
    requires var u := Sum(TableOf(a), TableOf(b)); Countable(u) && Within(u, total)
    ensures WellFormed(Reduced(a, b)) && Within(TableOf(Reduced(a, b)), total)
  {
    ReducedIsTopFourOfSum(a, b);
    TopFourTable(Reduced(a, b), Sum(TableOf(a), TableOf(b)));
  }

  /** A table of at most four values fits in the slots. */
  lemma SmallTableFits(s: seq<Slot>, t: map<int, int>)
    requires IsTopFour(s, t) && Positive(t) && 0 !in t && |t| <= 4
    ensures TableOf(s) == t
  {
    TopFourTable(s, t);
    var u := TableOf(s);
    forall v ensures v in u <==> v in t {
      if v in t && !Holds(s, v) {
        FifthValue(s, t, v);
      }
    }
    forall v | v in u ensures u[v] == t[v] {
      HeldCount(s, t, v);
    }
    assert u.Keys == t.Keys;
  }

  /** The count of a value in the slots of a table. */
  lemma HeldCount(s: seq<Slot>, t: map<int, int>, v: int)
    requires IsTopFour(s, t) && v in TableOf(s)
    ensures v in t && TableOf(s)[v] == t[v]
  {
    var i :| 0 <= i < 4 && s[i].val == v;
    TopFourIsDistinct(s, t);
    CountOfDistinct(s, i);
  }

  /** The top four report each leader in full. */
  lemma TopFourReports(s: seq<Slot>, total: map<int, int>, v: int)
    requires IsTopFour(s, total) && v in Leaders(total)
    ensures Get(TableOf(s), v) == total[v]
  {
    LeadersAreHeld(s, total, v);
    HeldCount(s, total, v);
  }

  lemma FifthValue(s: seq<Slot>, t: map<int, int>, v: int)
    requires IsTopFour(s, t) && v in t && v != 0 && !Holds(s, v)
    ensures |t| > 4
  {
    var a, b, c, d := s[0].val, s[1].val, s[2].val, s[3].val;
    assert d != 0 && c != 0 && b != 0 && a != 0;
    assert a != b && a != c && a != d && b != c && b != d && c != d;
    var five := {a, b, c, d, v};
    assert |five| == 5;
    SubsetSize(five, t.Keys);
  }

  /** With at most four distinct values over all ranks, every tree gives their exact
      totals. */
  lemma {:induction false} SmallTreeIsExact(t: Reduction)
    requires LeavesWellFormed(t) && Countable(Total(t)) && |Total(t)| <= 4
    ensures WellFormed(SlotsOf(t)) && TableOf(SlotsOf(t)) == Total(t)
  {
    match t
    case Rank(_, _) =>
    case Combine(l, r) =>
      CombineIsCountable(l, r);
      SubsetSize(Total(l).Keys, Total(t).Keys);
      SubsetSize(Total(r).Keys, Total(t).Keys);
      SmallTreeIsExact(l);
      SmallTreeIsExact(r);
      var a, b := SlotsOf(l), SlotsOf(r);
      ReducedIsTopFourOfSum(a, b);
      TopFourTable(Reduced(a, b), Total(t));
      SmallTableFits(Reduced(a, b), Total(t));
  }

  lemma ReducedIs(a: seq<Slot>, b: seq<Slot>, r: seq<Slot>, t: map<int, int>)
    requires WellFormed(a) && WellFormed(b) && t == Sum(TableOf(a), TableOf(b))
    requires Countable(t) && IsTopFour(r, t)
    ensures Reduced(a, b) == r
  {
    ReducedIsTopFourOfSum(a, b);
    TopFourUnique(Reduced(a, b), r, t);
  }

  ghost predicate IsSingle(s: seq<Slot>, v: int, c: int) {
    s == [Slot(v, c), Slot(0, 0), Slot(0, 0), Slot(0, 0)]
  }

  lemma SingleIsTop(s: seq<Slot>, v: int, c: int)
    requires IsSingle(s, v, c) && v != 0 && c >= 1
    ensures TableOf(s) == map[v := c] && IsTopFour(s, map[v := c]) && WellFormed(s)
  {
    assert s[0].val == v;
    CountOfAt(s, v, 0);
  }

  /** Beyond four values the shape of the tree matters: a value that two ranks saw `c`
      times each, too few times to reach the four slots of a third alone, survives if and
      only if those two are combined first. */
  lemma TreeShapeMatters(x: Reduction, y: Reduction, v: int, c: int)
    requires x.Rank? && y.Rank? && WellFormed(x.slots) && IsSingle(y.slots, v, c)
    requires v != 0 && c >= 1 && 2 * c <= INT32_MAX && !Holds(x.slots, v) && Countable(TableOf(x.slots))
    requires x.slots[3].val != 0 && Outranks(x.slots[3], Slot(v, c)) && Outranks(Slot(v, 2 * c), x.slots[3])
    ensures !Holds(SlotsOf(Combine(Combine(x, y), y)), v)
    ensures Holds(SlotsOf(Combine(x, Combine(y, y))), v)
  {
    LateValueDropped(x.slots, y.slots, v, c);
    PairAddsUp(y.slots, v, c);
    var d := Reduced(y.slots, y.slots);
    PairedValueKept(x.slots, d, v, 2 * c);
    assert SlotsOf(x) == x.slots && SlotsOf(y) == y.slots;
    assert SlotsOf(Combine(x, y)) == x.slots;
    assert SlotsOf(Combine(y, y)) == d;
  }

  lemma LateValueDropped(a: seq<Slot>, b: seq<Slot>, v: int, c: int)
    requires WellFormed(a) && Countable(TableOf(a)) && IsSingle(b, v, c)
    requires v != 0 && 1 <= c <= INT32_MAX && !Holds(a, v)
    requires a[3].val != 0 && Outranks(a[3], Slot(v, c))
    ensures Reduced(a, b) == a
  {
    var t := TableOf(a)[v := c];
    SingleIsTop(b, v, c);
    assert Sum(TableOf(a), TableOf(b)) == t;
    StaysOut(a, TableOf(a), v, c);
    ReducedIs(a, b, a, t);
  }

  lemma PairAddsUp(b: seq<Slot>, v: int, c: int)
    requires IsSingle(b, v, c) && v != 0 && 1 <= c && 2 * c <= INT32_MAX
    ensures IsSingle(Reduced(b, b), v, 2 * c)
  {
    var d := [Slot(v, 2 * c), Slot(0, 0), Slot(0, 0), Slot(0, 0)];
    SingleIsTop(b, v, c);
    SingleIsTop(d, v, 2 * c);
    assert Sum(TableOf(b), TableOf(b)) == TableOf(d);
    ReducedIs(b, b, d, TableOf(d));
  }

  lemma PairedValueKept(a: seq<Slot>, d: seq<Slot>, v: int, c: int)
    requires WellFormed(a) && Countable(TableOf(a)) && IsSingle(d, v, c)
    requires v != 0 && 1 <= c <= INT32_MAX && !Holds(a, v)
    requires a[3].val != 0 && Outranks(Slot(v, c), a[3])
    ensures Holds(Reduced(a, d), v)
  {
    SingleIsTop(d, v, c);
    var t := TableOf(a)[v := c];
    assert Sum(TableOf(a), TableOf(d)) == t;
    ReducedIsTopFourOfSum(a, d);
    GetsIn(a, TableOf(a), Reduced(a, d), v, c);
  }

  lemma StaysOut(a: seq<Slot>, ta: map<int, int>, v: int, c: int)
    requires IsTopFour(a, ta) && !Holds(a, v) && a[3].val != 0 && Outranks(a[3], Slot(v, c))
    ensures IsTopFour(a, ta[v := c])
  {
  }

  lemma GetsIn(a: seq<Slot>, ta: map<int, int>, r: seq<Slot>, v: int, c: int)
    requires IsTopFour(a, ta) && ta == TableOf(a) && v !in ta && v != 0
    requires a[3].val != 0 && Outranks(Slot(v, c), a[3])
    requires IsTopFour(r, ta[v := c])
    ensures Holds(r, v)
  {
    if !Holds(r, v) {
      assert IsTopFour(r, ta);
      TopFourUnique(r, a, ta);
    }
  }
}
