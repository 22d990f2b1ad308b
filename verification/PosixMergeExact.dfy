/** When one merge of the aggregator is the exact top four of both tables, although the slots
    are never sorted again. */
module PosixMergeExact {
  import opened CommonValues
  import opened DfsReduction
  import opened PosixCommonValues

  /** A slot that does not outrank all that follow. */
  predicate OutOfPlace(c: seq<Slot>, i: nat) {
    i < |c| && exists j :: i < j < |c| && c[j].val != 0 && !(c[i].val != 0 && Outranks(c[i], c[j]))
  }

  /** How many slots, the first i among them, come before the first one out of place. */
  function InPlace(c: seq<Slot>, i: nat): (q: nat)
    requires i <= |c|
    ensures i <= q <= |c|
    ensures forall k :: i <= k < q ==> !OutOfPlace(c, k)
    ensures q < |c| ==> OutOfPlace(c, q)
    decreases |c| - i
  {
    if i == |c| || OutOfPlace(c, i) then i else InPlace(c, i + 1)
  }

  predicate Beats(n: Slot, low: seq<Slot>) {
    forall i :: 0 <= i < |low| && low[i].val != 0 ==> Outranks(n, low[i])
  }

  predicate IsNew(a: seq<Slot>, n: Slot) {
    n.val != 0 && !Holds(a, n.val)
  }

  /** How many of a record's values that the aggregate lacks outrank all of some slots. */
  function NewBeating(a: seq<Slot>, xs: seq<Slot>, low: seq<Slot>): nat {
    if xs == [] then 0
    else (if IsNew(a, xs[0]) && Beats(xs[0], low) then 1 else 0) + NewBeating(a, xs[1..], low)
  }

  lemma InPlaceIffOrdered(c: seq<Slot>)
    ensures InPlace(c, 0) == |c| <==> Ordered(c)
  {
    var q := InPlace(c, 0);
    if q < |c| {
      var j :| q < j < |c| && c[j].val != 0 && !(c[q].val != 0 && Outranks(c[q], c[j]));
      assert !Ordered(c);
    } else {
      forall i, j | 0 <= i < j < |c| && c[j].val != 0 ensures c[i].val != 0 && Outranks(c[i], c[j]) {
        assert !OutOfPlace(c, i);
      }
    }
  }

  // ---------------------------------------------------------------------------
  // Enough new values push out whatever is out of place
  // ---------------------------------------------------------------------------

  /** The first q slots are the first q of the table; behind them are slots of `low`, which holds
      all the rest of the table. */
  ghost predicate Leads(s: seq<Slot>, t: map<int, int>, q: nat, low: seq<Slot>) {
    InFront(s, q, low) && Covers(s, t, q, low)
  }

  /** The first q slots are in order and outrank those of `low`, which come next. */
  ghost predicate InFront(s: seq<Slot>, q: nat, low: seq<Slot>) {
    && |s| == 4 && q <= 4 <= q + |low| && s[q..] == low[..4 - q]
    && (forall i :: 0 <= i < q ==> s[i].val != 0)
    && (forall i, j :: 0 <= i < j < q ==> Outranks(s[i], s[j]))
    && (forall i :: 0 <= i < q ==> Beats(s[i], low))
  }

  ghost predicate Covers(s: seq<Slot>, t: map<int, int>, q: nat, low: seq<Slot>) {
    && q <= |s|
    && (forall i :: 0 <= i < q ==> s[i].val in t && s[i].cnt == t[s[i].val])
    && (forall k :: 0 <= k < |low| ==> if low[k].val == 0 then low[k].cnt == 0 else low[k].val in t)
    && (forall v :: v in t && v != 0 ==> Holds(s[..q], v) || Slot(v, t[v]) in low)
  }

  lemma LeadsAll(s: seq<Slot>, t: map<int, int>, low: seq<Slot>)
    requires Leads(s, t, 4, low)
    ensures IsTopFour(s, t)
  {
    assert s[..4] == s;
    forall v | v in t && v != 0 && !Holds(s, v) ensures Outranks(s[3], Slot(v, t[v])) {
      var k :| 0 <= k < |low| && low[k] == Slot(v, t[v]);
    }
  }

  lemma LeadsLacks(s: seq<Slot>, t: map<int, int>, q: nat, low: seq<Slot>, v: int)
    requires Leads(s, t, q, low) && v != 0 && v !in t
    ensures !Holds(s, v)
  {
    forall i | 0 <= i < 4 ensures s[i].val != v {
      if i >= q {
        assert s[i] == s[q..][i - q] == low[i - q];
      }
    }
  }

  lemma PlacedByShift(s: seq<Slot>, n: Slot, p: nat)
    requires |s| == 4 && p < 4 && !Holds(s, n.val)
    ensures PlacedNew(s, n, p) == s[..p] + [n] + s[p..3]
  {
    forall i | 0 <= i < |s[p..]| ensures s[p..][i].val != n.val {
      assert s[p..][i] == s[p + i];
    }
    WithoutNone(s[p..], n.val);
    assert (s[..p] + [n] + s[p..])[..4] == s[..p] + [n] + s[p..3];
  }

  /** The new value outranks the leading slots from its place on. */
  lemma NotBehind(s: seq<Slot>, n: Slot, p: nat, q: nat)
    requires |s| == 4 && p <= q < 4 && p == Ahead(s, n) && !Holds(s, n.val)
    requires forall i, j :: 0 <= i < j < q ==> Outranks(s[i], s[j])
    ensures forall i :: p <= i < q ==> Outranks(n, s[i])
  {
    if p < q {
      assert s[p].val != n.val;
    }
  }

  lemma InFrontMore(s: seq<Slot>, q: nat, low: seq<Slot>, n: Slot, p: nat)
    requires InFront(s, q, low) && q < 4 && n.val != 0 && Beats(n, low) && p <= q && p == Ahead(s, n) &&
      !Holds(s, n.val)
    ensures InFront(s[..p] + [n] + s[p..3], q + 1, low)
  {
    var r := s[..p] + [n] + s[p..3];
    assert r[q + 1..] == s[q..3] == s[q..][..3 - q] == low[..3 - q];
    NotBehind(s, n, p, q);
    assert forall i :: 0 <= i < 4 ==> r[i] == if i < p then s[i] else if i == p then n else s[i - 1];
    forall i | 0 <= i < q + 1 ensures r[i].val != 0 && Beats(r[i], low) {
      assert r[i] == if i < p then s[i] else if i == p then n else s[i - 1];
    }
    forall i, j | 0 <= i < j < q + 1 ensures Outranks(r[i], r[j]) {
      assert i < p ==> Outranks(s[i], n);
    }
  }

  lemma CoversMore(s: seq<Slot>, t: map<int, int>, q: nat, low: seq<Slot>, n: Slot, p: nat)
    requires Covers(s, t, q, low) && |s| == 4 && q < 4 && p <= q && n.val != 0 && n.val !in t
    ensures Covers(s[..p] + [n] + s[p..3], t[n.val := n.cnt], q + 1, low)
  {
    var r, u := s[..p] + [n] + s[p..3], t[n.val := n.cnt];
    assert forall i :: 0 <= i < 4 ==> r[i] == if i < p then s[i] else if i == p then n else s[i - 1];
    forall v | v in u && v != 0 ensures Holds(r[..q + 1], v) || Slot(v, u[v]) in low {
      if v == n.val {
        assert r[..q + 1][p].val == v;
      } else if Holds(s[..q], v) {
        var i :| 0 <= i < q && s[..q][i].val == v;
        assert r[..q + 1][if i < p then i else i + 1].val == v;
      }
    }
  }

  /** A new value that outranks all of `low` joins the leading slots. */
  lemma LeadsMore(s: seq<Slot>, t: map<int, int>, q: nat, low: seq<Slot>, n: Slot, p: nat)
    requires Leads(s, t, q, low) && q < 4 && n.val != 0 && n.val !in t && 1 <= n.cnt && Beats(n, low)
    requires p == Ahead(s, n)
    ensures p <= q && Leads(PlacedNew(s, n, p), t[n.val := n.cnt], q + 1, low)
  {
    assert s[q] == s[q..][0] == low[0];
    assert !Outranks(s[q], n);
    LeadsLacks(s, t, q, low, n.val);
    PlacedByShift(s, n, p);
    InFrontMore(s, q, low, n, p);
    CoversMore(s, t, q, low, n, p);
  }

  lemma FirstNewBeats(a: seq<Slot>, xs: seq<Slot>, low: seq<Slot>)
    requires Ordered(xs) && xs != [] && IsNew(a, xs[0]) && NewBeating(a, xs, low) > 0
    ensures Beats(xs[0], low)
  {
    SomeNewBeats(a, xs, low);
  }

  lemma {:induction false} SomeNewBeats(a: seq<Slot>, xs: seq<Slot>, low: seq<Slot>)
    requires NewBeating(a, xs, low) > 0
    ensures exists i :: 0 <= i < |xs| && xs[i].val != 0 && Beats(xs[i], low)
  {
    if !(IsNew(a, xs[0]) && Beats(xs[0], low)) {
      SomeNewBeats(a, xs[1..], low);
      var i :| 0 <= i < |xs[1..]| && xs[1..][i].val != 0 && Beats(xs[1..][i], low);
      assert xs[i + 1] == xs[1..][i];
    }
  }

  lemma OrderedTail(xs: seq<Slot>)
    requires xs != [] && Ordered(xs) && DistinctValues(xs)
    ensures Ordered(xs[1..]) && DistinctValues(xs[1..])
    ensures xs[0].val == 0 ==> forall i :: 0 <= i < |xs| ==> xs[i].val == 0
  {
    assert forall i :: 0 <= i < |xs[1..]| ==> xs[1..][i] == xs[i + 1];
  }

  lemma {:induction false} ZeroesBeatNothing(a: seq<Slot>, xs: seq<Slot>, low: seq<Slot>)
    requires forall i :: 0 <= i < |xs| ==> xs[i].val == 0
    ensures NewBeating(a, xs, low) == 0
  {
    if xs != [] {
      assert forall i :: 0 <= i < |xs[1..]| ==> xs[1..][i] == xs[i + 1];
      ZeroesBeatNothing(a, xs[1..], low);
    }
  }

  /** With as many new values above `low` as there are slots to fill, the merge is exact. */
  lemma {:induction false} EnoughIsExact(s: seq<Slot>, t: map<int, int>, q: nat, low: seq<Slot>, a: seq<Slot>,
                                         xs: seq<Slot>, u: map<int, int>)
    requires Leads(s, t, q, low) && Positive(t) && Countable(u) && DistinctValues(xs) && Ordered(xs)
    requires Pending(t, u, a, xs) && 4 <= q + NewBeating(a, xs, low)
    ensures IsTopFour(InsertNew(s, a, xs), u)
    decreases |xs|
  {
    if q == 4 {
      LeadsAll(s, t, low);
      InsertNewIsTopFour(s, t, a, xs, u);
    } else {
      var n, rest := xs[0], xs[1..];
      PendingTail(t, u, a, xs);
      OrderedTail(xs);
      if Holds(a, n.val) {
        EnoughIsExact(s, t, q, low, a, rest, u);
      } else if n.val == 0 {
        ZeroesBeatNothing(a, xs, low);
      } else {
        FirstNewBeats(a, xs, low);
        NewIsTaken(t, u, a, xs);
        var p := Ahead(s, n);
        LeadsMore(s, t, q, low, n, p);
        EnoughIsExact(PlacedNew(s, n, p), t[n.val := n.cnt], q + 1, low, a, rest, u);
        LeadsLacks(s, t, q, low, n.val);
        PlacedIsUpdated(s, n, p);
      }
    }
  }

  lemma NewIsTaken(t: map<int, int>, u: map<int, int>, a: seq<Slot>, xs: seq<Slot>)
    requires xs != [] && Pending(t, u, a, xs) && Countable(u) && IsNew(a, xs[0])
    ensures xs[0].val !in t && 1 <= xs[0].cnt <= INT32_MAX
  {
  }

  lemma InPlaceIsInFront(c: seq<Slot>, q: nat)
    requires |c| == 4 && q == InPlace(c, 0) < 4
    ensures InFront(c, q, c[q..])
  {
    var j :| q < j < 4 && c[j].val != 0 && !(c[q].val != 0 && Outranks(c[q], c[j]));
    forall i, k | 0 <= i < q && i < k < 4
      ensures c[i].val != 0 && (c[k].val != 0 ==> Outranks(c[i], c[k]))
    {
      assert !OutOfPlace(c, i);
      assert c[j].val != 0;
    }
  }

  lemma TableIsCovered(c: seq<Slot>, q: nat)
    requires |c| == 4 && q <= 4 && ZeroPadded(c) && forall i :: 0 <= i < q ==> c[i].val != 0
    ensures Covers(c, TableOf(c), q, c[q..])
  {
    forall i | 0 <= i < 4 && c[i].val != 0 ensures c[i].val in TableOf(c) && TableOf(c)[c[i].val] == c[i].cnt {
      assert Holds(c, c[i].val);
      CountOfDistinct(c, i);
    }
    forall v | v in TableOf(c) && v != 0 ensures Holds(c[..q], v) || Slot(v, TableOf(c)[v]) in c[q..] {
      var i :| 0 <= i < 4 && c[i].val == v;
      if i < q {
        assert c[..q][i].val == v;
      } else {
        assert c[q..][i - q] == Slot(v, TableOf(c)[v]);
      }
    }
  }

  lemma CollapsedIsPadded(a: seq<Slot>, xs: seq<Slot>)
    requires WellFormed(a) && WellFormed(xs)
    ensures ZeroPadded(Collapsed(a, xs)) && |Collapsed(a, xs)| == 4
  {
    WellFormedIsPadded(a);
    WellFormedIsPadded(xs);
    CountOfZero(xs);
  }

  /** The collapsed slots, up to the first one out of place. */
  lemma CollapsedLeads(a: seq<Slot>, xs: seq<Slot>, q: nat)
    requires WellFormed(a) && WellFormed(xs) && q == InPlace(Collapsed(a, xs), 0) < 4
    ensures var c := Collapsed(a, xs); Leads(c, TableOf(c), q, c[q..])
  {
    CollapsedIsPadded(a, xs);
    InPlaceIsInFront(Collapsed(a, xs), q);
    TableIsCovered(Collapsed(a, xs), q);
  }

  // ---------------------------------------------------------------------------
  // Otherwise something out of place stays
  // ---------------------------------------------------------------------------

  /** The slots whose values the aggregate had. */
  function Old(s: seq<Slot>, a: seq<Slot>): seq<Slot> {
    if s == [] then [] else IfOld(s[0], a) + Old(s[1..], a)
  }

  function IfOld(n: Slot, a: seq<Slot>): seq<Slot> {
    if Holds(a, n.val) then [n] else []
  }

  lemma Regroup(x: seq<Slot>, y: seq<Slot>, z: seq<Slot>)
    ensures x + (y + z) == (x + y) + z
  {
  }

  lemma {:induction false} OldConcat(s: seq<Slot>, t: seq<Slot>, a: seq<Slot>)
    ensures Old(s + t, a) == Old(s, a) + Old(t, a)
  {
    if s == [] {
      assert s + t == t;
    } else {
      OldConcat(s[1..], t, a);
      assert (s + t)[1..] == s[1..] + t && (s + t)[0] == s[0];
      Regroup(IfOld(s[0], a), Old(s[1..], a), Old(t, a));
    }
  }

  /** Placing a new value keeps the old ones in their order and drops at most the last. */
  lemma OldAfterPlacing(s: seq<Slot>, n: Slot, p: nat, a: seq<Slot>)
    requires |s| == 4 && p < 4 && !Holds(a, n.val)
    ensures Old(s[..p] + [n] + s[p..3], a) <= Old(s, a)
  {
    OldConcat(s[..p] + [n], s[p..3], a);
    OldConcat(s[..p], [n], a);
    OldConcat(s[..p], s[p..3], a);
    OldConcat(s[..3], s[3..], a);
    assert s[..p] + s[p..3] == s[..3] && s[..3] + s[3..] == s;
    assert Old([n], a) == [];
  }

  /** Every slot is one of the aggregate's values or one of the record's new ones. */
  ghost predicate FromBoth(s: seq<Slot>, a: seq<Slot>, xs: seq<Slot>) {
    forall i :: 0 <= i < |s| ==> Holds(a, s[i].val) || (s[i] in xs && IsNew(a, s[i]))
  }

  lemma OldOfInserted(s: seq<Slot>, a: seq<Slot>, xs: seq<Slot>, all: seq<Slot>)
    requires |s| == 4 && DistinctValues(xs) && FromBoth(s, a, all)
    requires forall i :: 0 <= i < |xs| ==> xs[i] in all
    requires forall i :: 0 <= i < |xs| && IsNew(a, xs[i]) ==> !Holds(s, xs[i].val)
    ensures Old(InsertNew(s, a, xs), a) <= Old(s, a) && FromBoth(InsertNew(s, a, xs), a, all)
    decreases |xs|
  {
    if xs != [] {
      var n, rest := xs[0], xs[1..];
      assert forall i :: 0 <= i < |rest| ==> rest[i] == xs[i + 1];
      if Holds(a, n.val) {
        OldOfInserted(s, a, rest, all);
      } else if n.val != 0 {
        var p := Ahead(s, Slot(n.val, CompareTotal(s, n)));
        if p < 4 {
          PlacedByShift(s, n, p);
          OldAfterPlacing(s, n, p, a);
          var r := PlacedNew(s, n, p);
          PlacedFromBoth(s, n, p, a, all);
          forall i | 0 <= i < |rest| && IsNew(a, rest[i]) ensures !Holds(r, rest[i].val) {
            PlacedLacks(s, n, p, rest[i].val);
          }
          OldOfInserted(r, a, rest, all);
        }
      }
    }
  }

  lemma PlacedFromBoth(s: seq<Slot>, n: Slot, p: nat, a: seq<Slot>, all: seq<Slot>)
    requires |s| == 4 && p < 4 && FromBoth(s, a, all) && n in all && IsNew(a, n)
    ensures FromBoth(s[..p] + [n] + s[p..3], a, all)
  {
    var r := s[..p] + [n] + s[p..3];
    assert forall i :: 0 <= i < 4 ==> r[i] == if i < p then s[i] else if i == p then n else s[i - 1];
  }

  lemma PlacedLacks(s: seq<Slot>, n: Slot, p: nat, v: int)
    requires |s| == 4 && p < 4 && !Holds(s, v) && n.val != v
    ensures !Holds(s[..p] + [n] + s[p..3], v)
  {
    var r := s[..p] + [n] + s[p..3];
    assert forall i :: 0 <= i < 4 ==> r[i] == if i < p then s[i] else if i == p then n else s[i - 1];
  }

  /** Old slots keep their order. */
  lemma {:induction false} OldPosition(s: seq<Slot>, a: seq<Slot>, k: nat, l: nat) returns (i: nat, j: nat)
    requires k < l < |Old(s, a)|
    ensures i < j < |s| && s[i] == Old(s, a)[k] && s[j] == Old(s, a)[l]
  {
    var rest := Old(s[1..], a);
    if !Holds(a, s[0].val) {
      i, j := OldPosition(s[1..], a, k, l);
      i, j := i + 1, j + 1;
    } else if k == 0 {
      i := 0;
      j := OldAt(s[1..], a, l - 1);
      j := j + 1;
    } else {
      i, j := OldPosition(s[1..], a, k - 1, l - 1);
      i, j := i + 1, j + 1;
    }
  }

  lemma {:induction false} OldAt(s: seq<Slot>, a: seq<Slot>, k: nat) returns (i: nat)
    requires k < |Old(s, a)|
    ensures i < |s| && s[i] == Old(s, a)[k]
  {
    if Holds(a, s[0].val) && k == 0 {
      i := 0;
    } else {
      i := OldAt(s[1..], a, if Holds(a, s[0].val) then k - 1 else k);
      i := i + 1;
    }
  }

  lemma {:induction false} OldHas(s: seq<Slot>, a: seq<Slot>, i: nat)
    requires i < |s| && Holds(a, s[i].val)
    ensures s[i] in Old(s, a)
  {
    if i > 0 {
      OldHas(s[1..], a, i - 1);
    }
  }

  lemma {:induction false} AllOld(s: seq<Slot>, a: seq<Slot>)
    requires forall i :: 0 <= i < |s| ==> Holds(a, s[i].val)
    ensures Old(s, a) == s
  {
    if s != [] {
      assert forall i :: 0 <= i < |s[1..]| ==> s[1..][i] == s[i + 1];
      AllOld(s[1..], a);
    }
  }

  /** The new values among some slots. */
  function NewValuesIn(s: seq<Slot>, a: seq<Slot>): set<int> {
    if s == [] then {} else (if Holds(a, s[0].val) then {} else {s[0].val}) + NewValuesIn(s[1..], a)
  }

  lemma {:induction false} NewValuesAre(s: seq<Slot>, a: seq<Slot>)
    ensures forall v :: v in NewValuesIn(s, a) <==> !Holds(a, v) && Holds(s, v)
    ensures (forall i, j :: 0 <= i < j < |s| ==> s[i].val != s[j].val) ==> |NewValuesIn(s, a)| + |Old(s, a)| == |s|
  {
    if s != [] {
      var rest := s[1..];
      assert forall i :: 0 <= i < |rest| ==> rest[i] == s[i + 1];
      NewValuesAre(rest, a);
      forall v ensures Holds(s, v) <==> v == s[0].val || Holds(rest, v) {
        if Holds(rest, v) {
          var i :| 0 <= i < |rest| && rest[i].val == v;
          assert s[i + 1].val == v;
        }
        if i :| 0 <= i < |s| && s[i].val == v {
          if i > 0 {
            assert rest[i - 1].val == v;
          }
        }
      }
    }
  }

  /** The record has at least as many new values above `low` as a set of them. */
  lemma {:induction false} BeatingAtLeast(a: seq<Slot>, xs: seq<Slot>, low: seq<Slot>, vs: set<int>)
    requires forall v :: v in vs ==> exists i :: 0 <= i < |xs| && xs[i].val == v && IsNew(a, xs[i]) && Beats(xs[i], low)
    ensures |vs| <= NewBeating(a, xs, low)
  {
    if xs == [] {
      forall v ensures v !in vs {
      }
      assert vs == {};
    } else {
      var n, rest := xs[0], xs[1..];
      var fewer := if IsNew(a, n) && Beats(n, low) then vs - {n.val} else vs;
      forall v | v in fewer
        ensures exists i :: 0 <= i < |rest| && rest[i].val == v && IsNew(a, rest[i]) && Beats(rest[i], low)
      {
        var i :| 0 <= i < |xs| && xs[i].val == v && IsNew(a, xs[i]) && Beats(xs[i], low);
        assert i > 0 && rest[i - 1] == xs[i];
      }
      BeatingAtLeast(a, rest, low, fewer);
    }
  }

  /** Of two slots that are out of order both cannot stay, nor the lower one alone. */
  lemma OutOfPlaceIsGone(r: seq<Slot>, u: map<int, int>, a: seq<Slot>, c: seq<Slot>, q: nat)
    requires IsTopFour(r, u) && Old(r, a) <= c && DistinctValues(c) && OutOfPlace(c, q)
    requires forall i :: 0 <= i < |c| ==>
      Holds(a, c[i].val) && (c[i].val != 0 ==> c[i].val in u && c[i].cnt == u[c[i].val])
    ensures |Old(r, a)| <= q
  {
    var k := |Old(r, a)|;
    var j :| q < j < |c| && c[j].val != 0 && !(c[q].val != 0 && Outranks(c[q], c[j]));
    if j < k {
      var m, n := OldPosition(r, a, q, j);
    } else if q < k {
      var m := OldAt(r, a, q);
      DroppedIsLacking(r, a, c, j);
      KeptOutranks(r, u, m, c[j]);
    }
  }

  lemma KeptOutranks(r: seq<Slot>, u: map<int, int>, m: nat, n: Slot)
    requires IsTopFour(r, u) && m < 4 && n.val != 0 && n.val in u && n.cnt == u[n.val] && !Holds(r, n.val)
    ensures r[m].val != 0 && Outranks(r[m], n)
  {
    assert Outranks(r[3], n) && (m == 3 || Outranks(r[m], r[3]));
  }

  /** A value whose slot is not among the old ones kept is not among the slots at all. */
  lemma DroppedIsLacking(r: seq<Slot>, a: seq<Slot>, c: seq<Slot>, j: nat)
    requires Old(r, a) <= c && DistinctValues(c) && |Old(r, a)| <= j < |c| && c[j].val != 0 && Holds(a, c[j].val)
    ensures !Holds(r, c[j].val)
  {
    forall i | 0 <= i < |r| ensures r[i].val != c[j].val {
      if Holds(a, r[i].val) {
        OldHas(r, a, i);
        var k :| 0 <= k < |Old(r, a)| && Old(r, a)[k] == r[i];
        assert c[k] == r[i];
      }
    }
  }

  lemma DistinctIfNonZero(r: seq<Slot>, u: map<int, int>)
    requires IsTopFour(r, u) && forall i :: 0 <= i < |r| ==> r[i].val != 0
    ensures forall i, j :: 0 <= i < j < |r| ==> r[i].val != r[j].val
  {
  }

  /** If the merge is exact although a slot is out of place, that slot and all behind it have given
      way to new values. */
  lemma ExactNeedsEnough(r: seq<Slot>, u: map<int, int>, a: seq<Slot>, xs: seq<Slot>, c: seq<Slot>, q: nat)
    requires |c| == 4 && q < 4 && q == InPlace(c, 0) && DistinctValues(c)
    requires IsTopFour(r, u) && Old(r, a) <= c && FromBoth(r, a, xs)
    requires forall i :: 0 <= i < |c| ==>
      Holds(a, c[i].val) && (c[i].val != 0 ==> c[i].val in u && c[i].cnt == u[c[i].val])
    ensures 4 <= q + NewBeating(a, xs, c[q..])
  {
    OutOfPlaceIsGone(r, u, a, c, q);
    var k := |Old(r, a)|;
    InPlaceIsInFront(c, q);
    forall i | 0 <= i < |r| ensures r[i].val != 0 {
      if Holds(a, r[i].val) {
        OldHas(r, a, i);
        var l :| 0 <= l < k && Old(r, a)[l] == r[i];
        assert c[l] == r[i];
      }
    }
    DistinctIfNonZero(r, u);
    NewValuesAre(r, a);
    forall v | v in NewValuesIn(r, a)
      ensures exists i :: 0 <= i < |xs| && xs[i].val == v && IsNew(a, xs[i]) && Beats(xs[i], c[q..])
    {
      var m :| 0 <= m < |r| && r[m].val == v;
      KeptBeatsDropped(r, u, a, c, q, m);
      var i :| 0 <= i < |xs| && xs[i] == r[m];
    }
    BeatingAtLeast(a, xs, c[q..], NewValuesIn(r, a));
  }

  lemma KeptBeatsDropped(r: seq<Slot>, u: map<int, int>, a: seq<Slot>, c: seq<Slot>, q: nat, m: nat)
    requires IsTopFour(r, u) && Old(r, a) <= c && DistinctValues(c) && |Old(r, a)| <= q <= |c| && m < 4
    requires forall i :: 0 <= i < |c| ==>
      Holds(a, c[i].val) && (c[i].val != 0 ==> c[i].val in u && c[i].cnt == u[c[i].val])
    ensures Beats(r[m], c[q..])
  {
    forall i | 0 <= i < |c[q..]| && c[q..][i].val != 0 ensures Outranks(r[m], c[q..][i]) {
      assert c[q..][i] == c[q + i];
      DroppedIsLacking(r, a, c, q + i);
      KeptOutranks(r, u, m, c[q + i]);
    }
  }

  /** The collapsed slots hold the aggregate's values with their totals. */
  lemma CollapsedHasTotals(a: seq<Slot>, xs: seq<Slot>)
    requires WellFormed(a) && WellFormed(xs)
    ensures var c, u := Collapsed(a, xs), Sum(TableOf(a), TableOf(xs));
            && |c| == 4 && DistinctValues(c)
            && forall i :: 0 <= i < |c| ==>
              Holds(a, c[i].val) && (c[i].val != 0 ==> c[i].val in u && c[i].cnt == u[c[i].val])
  {
    var c := Collapsed(a, xs);
    CollapsedIsPadded(a, xs);
    forall i | 0 <= i < |c| ensures Holds(a, c[i].val) {
      assert a[i].val == c[i].val;
    }
    forall i | 0 <= i < |c| && c[i].val != 0
      ensures c[i].val in TableOf(a) && c[i].cnt == Get(TableOf(a), c[i].val) + Get(TableOf(xs), c[i].val)
    {
      assert a[i].val == c[i].val && Holds(a, c[i].val);
      CountOfDistinct(a, i);
      CountIsGet(a, c[i].val);
      CountIsGet(xs, c[i].val);
    }
  }

  lemma MergedFromBoth(a: seq<Slot>, xs: seq<Slot>)
    requires WellFormed(a) && WellFormed(xs)
    ensures Old(Merged(a, xs), a) <= Collapsed(a, xs) && FromBoth(Merged(a, xs), a, xs)
  {
    var c := Collapsed(a, xs);
    CollapsedHasTotals(a, xs);
    AllOld(c, a);
    forall i | 0 <= i < |xs| && IsNew(a, xs[i]) ensures !Holds(c, xs[i].val) {
      CollapsedHolds(a, xs, xs[i].val);
    }
    OldOfInserted(c, a, xs, xs);
  }

  /** For any two well-formed records, the merge is the exact top four of both tables if and only
      if each collapsed slot from the first one out of place on has a new value of the record that
      outranks all of these slots. Without a slot out of place that asks for none. */
  lemma MergeIsExactIff(a: seq<Slot>, xs: seq<Slot>)
    requires WellFormed(a) && WellFormed(xs) && Countable(Sum(TableOf(a), TableOf(xs)))
    ensures var c := Collapsed(a, xs);
            var q := InPlace(c, 0);
            IsTopFour(Merged(a, xs), Sum(TableOf(a), TableOf(xs))) <==> |c| - q <= NewBeating(a, xs, c[q..])
  {
    var c, u := Collapsed(a, xs), Sum(TableOf(a), TableOf(xs));
    var q := InPlace(c, 0);
    if q == 4 {
      InPlaceIffOrdered(c);
      OrderedMergeIsTopFour(a, xs);
    } else {
      CollapsedLeads(a, xs, q);
      StartsPending(a, xs);
      if 4 <= q + NewBeating(a, xs, c[q..]) {
        EnoughIsExact(c, TableOf(c), q, c[q..], a, xs, u);
      } else if IsTopFour(Merged(a, xs), u) {
        CollapsedHasTotals(a, xs);
        MergedFromBoth(a, xs);
        ExactNeedsEnough(Merged(a, xs), u, a, xs, c, q);
      }
    }
  }

  lemma StartsPending(a: seq<Slot>, xs: seq<Slot>)
    requires WellFormed(a) && WellFormed(xs)
    ensures var t := TableOf(Collapsed(a, xs));
            Pending(t, Sum(TableOf(a), TableOf(xs)), a, xs) && Positive(t) && Ordered(xs) && DistinctValues(xs)
  {
    WellFormedIsPadded(a);
    WellFormedIsPadded(xs);
    CollapsedIsPadded(a, xs);
    var t := TableOf(Collapsed(a, xs));
    forall v
      ensures v in t <==> v in TableOf(a)
      ensures v in t ==> t[v] == Get(TableOf(a), v) + Get(TableOf(xs), v)
    {
      CollapsedEntry(a, xs, v);
    }
    assert t.Keys == TableOf(a).Keys;
    NewValues(a, xs, t);
    WellFormedIsOrdered(xs);
  }
}
