/** The four most common values of a file record, kept up to date at run time.

    A record holds eight contiguous counters: four values, then their four counts.
    The update macro rewrites them in place on every access; the frequency table
    behind them stops growing at 32 distinct values. */
module CommonValues {

  const INT32_MAX := 0x7fff_ffff
  const MAX_TRACKED := 32

  datatype Slot = Slot(val: int, cnt: int)

  const EMPTY_SLOTS: seq<Slot> := [Slot(0, 0), Slot(0, 0), Slot(0, 0), Slot(0, 0)]

  /** Conversion of a 64-bit count to the macro's 32-bit `int`. */
  function Int32(x: int): (r: int)
    ensures -INT32_MAX - 1 <= r <= INT32_MAX
    ensures -INT32_MAX - 1 <= x <= INT32_MAX ==> r == x
  {
    var m := x % 0x1_0000_0000;
    if m <= INT32_MAX then m else m - 0x1_0000_0000
  }

  /** It keeps the low 32 bits. */
  lemma Int32KeepsLowBits(x: int)
    ensures (x - Int32(x)) % 0x1_0000_0000 == 0 && -0x8000_0000 <= Int32(x) < 0x8000_0000
  {
    var m := x % 0x1_0000_0000;
    assert x - m == x / 0x1_0000_0000 * 0x1_0000_0000;
    assert x - m + 0x1_0000_0000 == (x / 0x1_0000_0000 + 1) * 0x1_0000_0000;
  }

  /** The order of the slots: larger count first, larger value on equal counts. */
  predicate Outranks(a: Slot, b: Slot) {
    a.cnt > b.cnt || (a.cnt == b.cnt && a.val > b.val)
  }

  /** The slots stored at `base`: values at base..base+4, counts at base+4..base+8. */
  function SlotsAt(c: seq<int>, base: nat): (s: seq<Slot>)
    requires base + 8 <= |c|
    ensures |s| == 4 && forall i :: 0 <= i < 4 ==> s[i] == Slot(c[base + i], c[base + 4 + i])
  {
    [Slot(c[base], c[base + 4]), Slot(c[base + 1], c[base + 5]), Slot(c[base + 2], c[base + 6]),
      Slot(c[base + 3], c[base + 7])]
  }

  predicate Holds(s: seq<Slot>, v: int) {
    exists i :: 0 <= i < |s| && s[i].val == v
  }

  predicate DistinctValues(s: seq<Slot>) {
    forall i, j :: 0 <= i < j < |s| && s[i].val == s[j].val ==> s[i].val == 0
  }

  /** `s` lists the four largest non-zero entries of the frequency table `t` by
      (count, value) descending, and is padded with zeros. */
  ghost predicate IsTopFour(s: seq<Slot>, t: map<int, int>) {
    && |s| == 4
    && (forall i :: 0 <= i < 4 && s[i].val != 0 ==> s[i].val in t && s[i].cnt == t[s[i].val])
    && (forall i :: 0 <= i < 4 && s[i].val == 0 ==> s[i].cnt == 0)
    && (forall i, j :: 0 <= i < j < 4 && s[j].val != 0 ==> s[i].val != 0 && Outranks(s[i], s[j]))
    && (forall v :: v in t && v != 0 && !Holds(s, v) ==> s[3].val != 0 && Outranks(s[3], Slot(v, t[v])))
  }

  /** The same in numbers: counts fall from slot to slot, and of equal counts the larger value comes
      first; a value that is not held has a smaller count than the last slot, or the same count and a
      smaller value. */
  ghost predicate ListsLargest(s: seq<Slot>, t: map<int, int>) {
    && |s| == 4
    && (forall i :: 0 <= i < 4 ==> if s[i].val == 0 then s[i].cnt == 0 else s[i].val in t && s[i].cnt == t[s[i].val])
    && (forall i, j :: 0 <= i < j < 4 && s[j].val != 0 ==>
      s[i].val != 0 && (s[i].cnt > s[j].cnt || (s[i].cnt == s[j].cnt && s[i].val > s[j].val)))
    && (forall v :: v in t && v != 0 && (forall i :: 0 <= i < 4 ==> s[i].val != v) ==>
      s[3].val != 0 && (t[v] < s[3].cnt || (t[v] == s[3].cnt && v < s[3].val)))
  }

  lemma TopFourInNumbers(s: seq<Slot>, t: map<int, int>)
    ensures IsTopFour(s, t) <==> ListsLargest(s, t)
  {
    if ListsLargest(s, t) {
      forall v | v in t && v != 0 && !Holds(s, v) ensures s[3].val != 0 && Outranks(s[3], Slot(v, t[v])) {
        assert forall i :: 0 <= i < 4 ==> s[i].val != v;
      }
    }
  }

  /** Every tracked non-zero value was seen at least once. */
  ghost predicate Positive(t: map<int, int>) {
    forall v :: v in t && v != 0 ==> t[v] >= 1
  }

  // ---------------------------------------------------------------------------
  // The update, as a function of the old slots
  // ---------------------------------------------------------------------------

  /** How many leading slots stay ahead of the updated value. */
  function Ahead(s: seq<Slot>, n: Slot): (p: nat)
    ensures p <= |s|
    ensures forall i :: 0 <= i < p ==> Outranks(s[i], n)
    ensures p < |s| ==> !Outranks(s[p], n)
  {
    if s == [] || !Outranks(s[0], n) then 0 else 1 + Ahead(s[1..], n)
  }

  function Without(s: seq<Slot>, v: int): (r: seq<Slot>)
    ensures |r| <= |s|
  {
    if s == [] then []
    else if s[0].val == v then Without(s[1..], v)
    else [s[0]] + Without(s[1..], v)
  }

  function CountOf(s: seq<Slot>, v: int): (r: int) {
    if s == [] then 0 else if s[0].val == v then s[0].cnt else CountOf(s[1..], v)
  }

  /** The total used by the macro: the count given, plus the first matching slot when
      adding, both narrowed to 32 bits. */
  function TotalCount(s: seq<Slot>, v: int, count: int, add: bool): int {
    if add && Holds(s, v) then Int32(Int32(count) + CountOf(s, v)) else Int32(count)
  }

  function Placed(s: seq<Slot>, n: Slot): (r: seq<Slot>)
  {
    var p := Ahead(s, n);
    if p == |s| then s else s[..p] + [n] + Without(s[p..], n.val)
  }

  /** The four slots after the macro. */
  function Updated(s: seq<Slot>, n: Slot): (r: seq<Slot>)
    requires |s| == 4
  {
    if n.val == 0 || |Placed(s, n)| < 4 then s else Placed(s, n)[..4]
  }

  lemma WithoutNone(s: seq<Slot>, v: int)
    requires !Holds(s, v)
    ensures Without(s, v) == s
  {
    if s != [] {
      assert s[0].val != v;
      assert forall i :: 0 <= i < |s[1..]| ==> s[1..][i] == s[i + 1];
      WithoutNone(s[1..], v);
    }
  }

  lemma WithoutOne(s: seq<Slot>, v: int, q: nat)
    requires q < |s| && s[q].val == v
    requires forall i :: 0 <= i < |s| && i != q ==> s[i].val != v
    ensures Without(s, v) == s[..q] + s[q + 1..]
  {
    if q == 0 {
      assert !Holds(s[1..], v);
      WithoutNone(s[1..], v);
    } else {
      WithoutOne(s[1..], v, q - 1);
      assert s[..q] + s[q + 1..] == [s[0]] + (s[1..][..q - 1] + s[1..][q..]);
    }
  }

  /** `r` is `s` with `n` moved in at `p` and the slot `q` taken out. */
  predicate MovedIn(s: seq<Slot>, r: seq<Slot>, n: Slot, p: nat, q: nat) {
    && |s| == |r| == 4 && p <= q < 4
    && r[0] == (if 0 < p then s[0] else n)
    && r[1] == (if 1 < p then s[1] else if 1 == p then n else if 1 <= q then s[0] else s[1])
    && r[2] == (if 2 < p then s[2] else if 2 == p then n else if 2 <= q then s[1] else s[2])
    && r[3] == (if 3 == p then n else if 3 <= q then s[2] else s[3])
  }

  /** What the update yields, by position: the slots ahead stay, the new one follows, and
      the slot removed is the old slot of the value or, if there is none, the last one. */
  lemma UpdatedAt(s: seq<Slot>, n: Slot) returns (q: nat)
    requires |s| == 4 && n.val != 0 && DistinctValues(s)
    ensures Ahead(s, n) == 4 ==> Updated(s, n) == s
    ensures Ahead(s, n) < 4 ==>
      && MovedIn(s, Updated(s, n), n, Ahead(s, n), q)
      && (s[q].val == n.val || (q == 3 && forall i :: Ahead(s, n) <= i < 4 ==> s[i].val != n.val))
  {
    var p := Ahead(s, n);
    q := 3;
    if p < 4 {
      q := OthersAt(s, n.val, p);
      PlacedIsMovedIn(s, n, p, q, Without(s[p..], n.val));
    }
  }

  lemma OthersIn(rest: seq<Slot>, v: int) returns (k: nat)
    requires rest != [] && v != 0 && DistinctValues(rest)
    ensures k < |rest|
    ensures Without(rest, v) == rest[..k] + rest[k + 1..] || (Without(rest, v) == rest && k == |rest| - 1)
    ensures rest[k].val == v || (k == |rest| - 1 && forall i :: 0 <= i < |rest| ==> rest[i].val != v)
  {
    if Holds(rest, v) {
      k :| 0 <= k < |rest| && rest[k].val == v;
      WithoutOne(rest, v, k);
    } else {
      k := |rest| - 1;
      WithoutNone(rest, v);
    }
  }

  /** Which slot behind the first `p` gives way: the one of the value, or the last. */
  lemma OthersAt(s: seq<Slot>, v: int, p: nat) returns (q: nat)
    requires |s| == 4 && p < 4 && v != 0 && DistinctValues(s)
    ensures p <= q < 4
    ensures Without(s[p..], v) == s[p..][..q - p] + s[p..][q - p + 1..] || (Without(s[p..], v) == s[p..] && q == 3)
    ensures s[q].val == v || (q == 3 && forall i :: p <= i < 4 ==> s[i].val != v)
  {
    assert forall i :: p <= i < 4 ==> s[i] == s[p..][i - p];
    var k := OthersIn(s[p..], v);
    q := p + k;
  }

  lemma PlacedIsMovedIn(s: seq<Slot>, n: Slot, p: nat, q: nat, others: seq<Slot>)
    requires |s| == 4 && p <= q < 4
    requires others == s[p..][..q - p] + s[p..][q - p + 1..] || (others == s[p..] && q == 3)
    ensures MovedIn(s, (s[..p] + [n] + others)[..4], n, p, q)
  {
    var r := s[..p] + [n] + others;
    var rest := s[p..];
    assert forall i {:trigger others[i]} :: 0 <= i < 3 - p ==>
      others[i] == (if i < q - p then rest[i] else rest[i + 1]) || (q == 3 && others[i] == rest[i]);
    assert r[0] == (if 0 < p then s[0] else n);
    assert r[1] == (if 1 < p then s[1] else if 1 == p then n else others[1 - p - 1]);
    assert r[2] == (if 2 < p then s[2] else if 2 == p then n else others[2 - p - 1]);
    assert r[3] == (if 3 == p then n else others[3 - p - 1]);
  }

  /** Recording a larger (or a first) count for one value keeps the four slots exactly
      the top four of the table. */
  lemma UpdateKeepsTopFour(s: seq<Slot>, t: map<int, int>, n: Slot)
    requires IsTopFour(s, t) && Positive(t)
    requires n.val != 0 && n.cnt >= 1
    requires n.val in t ==> n.cnt >= t[n.val]
    ensures IsTopFour(Updated(s, n), t[n.val := n.cnt])
  {
    var q := UpdatedAt(s, n);
    var p := Ahead(s, n);
    forall i | 0 <= i < p ensures s[i].val != n.val && s[i].val != 0 {
      assert Outranks(s[i], n);
    }
    if p < 4 {
      MovedInKeepsTopFour(s, t, n, p, q, Updated(s, n));
    }
  }

  lemma MovedInKeepsTopFour(s: seq<Slot>, t: map<int, int>, n: Slot, p: nat, q: nat, r: seq<Slot>)
    requires IsTopFour(s, t) && Positive(t) && n.val != 0 && n.cnt >= 1
    requires n.val in t ==> n.cnt >= t[n.val]
    requires MovedIn(s, r, n, p, q) && !Outranks(s[p], n)
    requires s[q].val == n.val || (q == 3 && forall i :: p <= i < 4 ==> s[i].val != n.val)
    requires forall i :: 0 <= i < p ==> Outranks(s[i], n) && s[i].val != n.val && s[i].val != 0
    ensures IsTopFour(r, t[n.val := n.cnt])
  {
    MovedInIsOrdered(s, t, n, p, q, r);
    MovedInIsComplete(s, t, n, p, q, r);
  }

  lemma MovedInIsOrdered(s: seq<Slot>, t: map<int, int>, n: Slot, p: nat, q: nat, r: seq<Slot>)
    requires IsTopFour(s, t) && n.val != 0 && n.cnt >= 1
    requires MovedIn(s, r, n, p, q) && !Outranks(s[p], n)
    requires s[q].val == n.val || (q == 3 && forall i :: p <= i < 4 ==> s[i].val != n.val)
    requires forall i :: 0 <= i < p ==> Outranks(s[i], n) && s[i].val != n.val && s[i].val != 0
    ensures forall i, j :: 0 <= i < j < 4 && r[j].val != 0 ==> r[i].val != 0 && Outranks(r[i], r[j])
    ensures forall i :: 0 <= i < 4 && i != p ==> r[i].val != n.val
  {
    assert s[0].val != 0 || s[1].val == 0;
  }

  lemma MovedInIsComplete(s: seq<Slot>, t: map<int, int>, n: Slot, p: nat, q: nat, r: seq<Slot>)
    requires IsTopFour(s, t) && n.val != 0
    requires MovedIn(s, r, n, p, q) && !Outranks(s[p], n)
    requires s[q].val == n.val || (q == 3 && forall i :: p <= i < 4 ==> s[i].val != n.val)
    requires forall i :: 0 <= i < p ==> Outranks(s[i], n) && s[i].val != n.val && s[i].val != 0
    ensures forall v :: v in t && v != 0 && v != n.val && !Holds(r, v) ==>
      r[3].val != 0 && Outranks(r[3], Slot(v, t[v]))
  {
    forall v | v in t && v != 0 && v != n.val && !Holds(r, v)
      ensures r[3].val != 0 && Outranks(r[3], Slot(v, t[v]))
    {
      assert r[0].val != v && r[1].val != v && r[2].val != v && r[3].val != v;
      if !Holds(s, v) {
        assert Outranks(s[3], Slot(v, t[v]));
      }
    }
  }

  /** The top four of a table are unique: the slots are a function of the table. */
  lemma TopFourUnique(a: seq<Slot>, b: seq<Slot>, t: map<int, int>)
    requires IsTopFour(a, t) && IsTopFour(b, t)
    ensures a == b
  {
    TopFourPrefix(a, b, t, 4);
  }

  lemma {:induction false} TopFourPrefix(a: seq<Slot>, b: seq<Slot>, t: map<int, int>, k: nat)
    requires IsTopFour(a, t) && IsTopFour(b, t) && k <= 4
    ensures a[..k] == b[..k]
  {
    if k > 0 {
      TopFourPrefix(a, b, t, k - 1);
      assert forall i :: 0 <= i < k - 1 ==> a[i] == a[..k - 1][i] == b[..k - 1][i] == b[i];
      SameSlot(a, b, t, k - 1);
      assert a[..k] == a[..k - 1] + [a[k - 1]];
      assert b[..k] == b[..k - 1] + [b[k - 1]];
    }
  }

  lemma SameSlot(a: seq<Slot>, b: seq<Slot>, t: map<int, int>, i: nat)
    requires IsTopFour(a, t) && IsTopFour(b, t) && i < 4
    requires forall j :: 0 <= j < i ==> a[j] == b[j]
    ensures a[i] == b[i]
  {
    NotBelow(a, b, t, i);
    NotBelow(b, a, t, i);
  }

  lemma NotBelow(a: seq<Slot>, b: seq<Slot>, t: map<int, int>, i: nat)
    requires IsTopFour(a, t) && IsTopFour(b, t) && i < 4
    requires forall j :: 0 <= j < i ==> a[j] == b[j]
    ensures a[i].val != 0 ==> b[i] == a[i] || Outranks(b[i], a[i])
    ensures a[i].val == 0 ==> b[i] == a[i]
  {
    if a[i].val != 0 {
      if Holds(b, a[i].val) {
        var j :| 0 <= j < 4 && b[j].val == a[i].val;
        assert j < i ==> Outranks(a[j], a[i]);
      } else {
        assert Outranks(b[3], a[i]);
      }
    }
  }

  /** Replacing one more slot of `a` by that of `c`. */
  lemma OverwriteStep(c: seq<Slot>, a: seq<Slot>, j: nat)
    requires j < |a| == |c|
    ensures (c[..j] + a[j..])[j] == a[j]
    ensures (c[..j] + a[j..])[j := c[j]] == c[..j + 1] + a[j + 1..]
  {
  }

  // ---------------------------------------------------------------------------
  // The update in place
  // ---------------------------------------------------------------------------

  lemma {:induction false} WithoutAppend(a: seq<Slot>, b: seq<Slot>, v: int)
    ensures Without(a + b, v) == Without(a, v) + Without(b, v)
  {
    if a == [] {
      assert a + b == b;
    } else {
      assert (a + b)[1..] == a[1..] + b;
      WithoutAppend(a[1..], b, v);
    }
  }

  /** One more slot seen: it joins those copied unless it holds the value. */
  lemma WithoutStep(s: seq<Slot>, v: int, p: nat, i: nat)
    requires p <= i <= |s| && |Without(s[p..i], v)| < |Without(s[p..], v)|
    ensures i < |s|
    ensures Without(s[p..i + 1], v) == Without(s[p..i], v) + (if s[i].val == v then [] else [s[i]])
    ensures Without(s[p..i + 1], v) <= Without(s[p..], v)
  {
    assert s[p..|s|] == s[p..];
    assert s[p..i + 1] == s[p..i] + [s[i]];
    assert s[p..] == s[p..i + 1] + s[i + 1..];
    WithoutAppend(s[p..i], [s[i]], v);
    WithoutAppend(s[p..i + 1], s[i + 1..], v);
  }

  lemma {:induction false} WithoutLosesOne(s: seq<Slot>, v: int)
    requires v != 0 && DistinctValues(s)
    ensures |Without(s, v)| >= |s| - 1
  {
    if s != [] {
      if s[0].val == v {
        forall i | 0 <= i < |s[1..]| ensures s[1..][i].val != v {
          assert s[1..][i] == s[i + 1];
        }
        WithoutNone(s[1..], v);
      } else {
        WithoutLosesOne(s[1..], v);
      }
    }
  }

  lemma CountOfAt(s: seq<Slot>, v: int, i: nat)
    requires i < |s| && s[i].val == v && forall k :: 0 <= k < i ==> s[k].val != v
    ensures CountOf(s, v) == s[i].cnt
  {
    if i > 0 {
      CountOfAt(s[1..], v, i - 1);
    }
  }

  lemma AheadIs(s: seq<Slot>, n: Slot, i: nat)
    requires i <= |s| && forall k :: 0 <= k < i ==> Outranks(s[k], n)
    requires i < |s| ==> !Outranks(s[i], n)
    ensures Ahead(s, n) == i
  {
    if i > 0 {
      AheadIs(s[1..], n, i - 1);
    }
  }

  /** The count to record: the one given plus, when adding, the value's current count. */
  method SumTotal(counters: array<int>, base: nat, val: int, count: int, add: bool) returns (totalCount: int)
    requires base + 8 <= counters.Length
    ensures totalCount == TotalCount(SlotsAt(counters[..], base), val, count, add)
  {
    ghost var s := SlotsAt(counters[..], base);
    totalCount := Int32(count);
    var i := 0;
    while i < 4
      invariant 0 <= i <= 4 && totalCount == Int32(count)
      invariant forall k :: 0 <= k < i && add ==> s[k].val != val
    {
      if add && counters[base + i] == val {
        totalCount := Int32(totalCount + counters[base + 4 + i]);
        CountOfAt(s, val, i);
        break;
      }
      i := i + 1;
    }
  }

  /** Copies the counters that should be sorted above the updated one. */
  method CopyAhead(counters: array<int>, base: nat, n: Slot, tmpVal: array<int>, tmpCnt: array<int>)
    returns (tmpNdx: nat)
    requires base + 8 <= counters.Length && tmpVal.Length == tmpCnt.Length == 4
    requires tmpVal != tmpCnt && counters != tmpVal && counters != tmpCnt
    modifies tmpVal, tmpCnt
    ensures tmpNdx == Ahead(SlotsAt(counters[..], base), n) <= 4
    ensures forall k :: 0 <= k < tmpNdx ==> Slot(tmpVal[k], tmpCnt[k]) == SlotsAt(counters[..], base)[k]
    ensures forall k :: 0 <= k < tmpNdx ==> tmpCnt[k] > n.cnt || (tmpCnt[k] == n.cnt && tmpVal[k] > n.val)
    ensures tmpNdx < 4 ==>
      var next := SlotsAt(counters[..], base)[tmpNdx]; next.cnt < n.cnt || (next.cnt == n.cnt && next.val <= n.val)
  {
    ghost var s := SlotsAt(counters[..], base);
    tmpNdx := 0;
    var i := 0;
    while i < 4
      invariant 0 <= i == tmpNdx <= 4
      invariant forall k :: 0 <= k < i ==> Slot(tmpVal[k], tmpCnt[k]) == s[k] && Outranks(s[k], n)
      invariant counters[..] == old(counters[..])
    {
      if counters[base + 4 + i] > n.cnt || (counters[base + 4 + i] == n.cnt && counters[base + i] > n.val) {
        tmpVal[tmpNdx] := counters[base + i];
        tmpCnt[tmpNdx] := counters[base + 4 + i];
        tmpNdx := tmpNdx + 1;
      } else {
        assert !Outranks(s[i], n);
        break;
      }
      i := i + 1;
    }
    AheadIs(s, n, i);
  }

  /** Copies the remaining counters, skipping the old slot of the value, up to four in
      all. No index leaves the four slots because the values are distinct. */
  method CopyOthers(counters: array<int>, base: nat, val: int, p: nat, tmpVal: array<int>, tmpCnt: array<int>)
    requires base + 8 <= counters.Length && tmpVal.Length == tmpCnt.Length == 4
    requires tmpVal != tmpCnt && counters != tmpVal && counters != tmpCnt
    requires p < 4 && val != 0 && DistinctValues(SlotsAt(counters[..], base))
    modifies tmpVal, tmpCnt
    ensures forall k :: 0 <= k <= p ==> tmpVal[k] == old(tmpVal[k]) && tmpCnt[k] == old(tmpCnt[k])
    ensures var others := Without(SlotsAt(counters[..], base)[p..], val);
      |others| >= 3 - p && forall k :: p < k < 4 ==> Slot(tmpVal[k], tmpCnt[k]) == others[k - p - 1]
  {
    ghost var s := SlotsAt(counters[..], base);
    ghost var others := Without(s[p..], val);
    WithoutLosesOne(s[p..], val);
    var i := p;
    var tmpNdx := p + 1;
    assert s[p..p] == [];
    while tmpNdx != 4
      invariant p <= i <= 4 && p < tmpNdx <= 4
      invariant counters[..] == old(counters[..])
      invariant tmpNdx == p + 1 + |Without(s[p..i], val)|
      invariant forall k :: 0 <= k <= p ==> tmpVal[k] == old(tmpVal[k]) && tmpCnt[k] == old(tmpCnt[k])
      invariant forall k :: p < k < tmpNdx ==> Slot(tmpVal[k], tmpCnt[k]) == others[k - p - 1]
      decreases 4 - i
    {
      WithoutStep(s, val, p, i);
      if counters[base + i] != val {
        tmpVal[tmpNdx] := counters[base + i];
        tmpCnt[tmpNdx] := counters[base + 4 + i];
        tmpNdx := tmpNdx + 1;
      }
      i := i + 1;
    }
  }

  /** The four slots put together. */
  lemma AssembledIs(s: seq<Slot>, n: Slot, p: nat, r: seq<Slot>)
    requires |s| == |r| == 4 && n.val != 0 && p == Ahead(s, n) < 4
    requires (forall k :: 0 <= k < p ==> r[k] == s[k]) && r[p] == n
    requires var others := Without(s[p..], n.val);
      |others| >= 3 - p && forall k :: p < k < 4 ==> r[k] == others[k - p - 1]
    ensures r == Updated(s, n)
  {
  }

  /** Copies the four temporary values and counts back over the counters. */
  method StoreSlots(counters: array<int>, base: nat, tmpVal: array<int>, tmpCnt: array<int>)
    requires base + 8 <= counters.Length && tmpVal.Length == tmpCnt.Length == 4
    requires counters != tmpVal && counters != tmpCnt
    modifies counters
    ensures forall i :: 0 <= i < counters.Length && !(base <= i < base + 8) ==> counters[i] == old(counters[i])
    ensures forall k :: 0 <= k < 4 ==> SlotsAt(counters[..], base)[k] == Slot(tmpVal[k], tmpCnt[k])
  {
    forall k | 0 <= k < 4 {
      counters[base + k] := tmpVal[k];
    }
    forall k | 0 <= k < 4 {
      counters[base + 4 + k] := tmpCnt[k];
    }
  }

  /** The macro: sums the count into a 32-bit total, copies the slots that stay ahead,
      then the updated one, then the others, and stores the four that result. */
  method UpdateCommonValCounters(counters: array<int>, base: nat, val: int, count: int, add: bool)
    requires base + 8 <= counters.Length
    requires DistinctValues(SlotsAt(counters[..], base))
    modifies counters
    ensures forall i :: 0 <= i < counters.Length && !(base <= i < base + 8) ==> counters[i] == old(counters[i])
    ensures SlotsAt(counters[..], base) ==
      var s := SlotsAt(old(counters[..]), base); Updated(s, Slot(val, TotalCount(s, val, count, add)))
  {
    ghost var s := SlotsAt(counters[..], base);
    var tmpVal := new int[4](_ => 0);
    var tmpCnt := new int[4](_ => 0);
    if val == 0 {
      return;
    }
    var totalCount := SumTotal(counters, base, val, count, add);
    var tmpNdx := CopyAhead(counters, base, Slot(val, totalCount), tmpVal, tmpCnt);
    if tmpNdx == 4 {
      return;
    }
    tmpVal[tmpNdx], tmpCnt[tmpNdx] := val, totalCount;
    CopyOthers(counters, base, val, tmpNdx, tmpVal, tmpCnt);
    StoreSlots(counters, base, tmpVal, tmpCnt);
    AssembledIs(s, Slot(val, totalCount), tmpNdx, SlotsAt(counters[..], base));
  }
}
