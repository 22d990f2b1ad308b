/** Counting the threads of a trace: their ids are collected and sorted, and duplicates are squeezed
    out of the array in place. */
module ThreadCount {

  predicate Sorted(s: seq<nat>) {
    forall i, j :: 0 <= i < j < |s| ==> s[i] <= s[j]
  }

  predicate Increasing(s: seq<nat>) {
    forall i, j :: 0 <= i < j < |s| ==> s[i] < s[j]
  }

  ghost function Elements(s: seq<nat>): set<nat> {
    set x | x in s
  }

  lemma {:induction false} IncreasingHasNoDuplicates(s: seq<nat>)
    requires Increasing(s)
    ensures |Elements(s)| == |s|
  {
    if s == [] {
      assert Elements(s) == {};
    } else {
      var front, last := s[..|s| - 1], s[|s| - 1];
      IncreasingHasNoDuplicates(front);
      assert Elements(s) == Elements(front) + {last};
    }
  }

  /** The distinct elements of the first i. */
  ghost predicate Squeezed(was: seq<nat>, i: nat, kept: seq<nat>) {
    && 0 < i <= |was| && kept != [] && Increasing(kept)
    && kept[|kept| - 1] == was[i - 1]
    && Elements(kept) == Elements(was[..i])
  }

  lemma SqueezeOne(was: seq<nat>, i: nat, kept: seq<nat>)
    requires Sorted(was) && i < |was| && Squeezed(was, i, kept)
    ensures Squeezed(was, i + 1, if was[i] > kept[|kept| - 1] then kept + [was[i]] else kept)
  {
    assert was[..i + 1] == was[..i] + [was[i]];
    assert Elements(was[..i + 1]) == Elements(was[..i]) + {was[i]};
    assert Elements(kept + [was[i]]) == Elements(kept) + {was[i]};
  }

  /** The number of distinct identifiers, which end up in front, in order. */
  method Squeeze(ids: array<nat>) returns (n: nat)
    requires Sorted(ids[..])
    modifies ids
    ensures n == |Elements(old(ids[..]))| <= ids.Length
    ensures Increasing(ids[..n]) && Elements(ids[..n]) == Elements(old(ids[..]))
  {
    if ids.Length == 0 { return 0; }
    ghost var was, kept := ids[..], [ids[0]];
    n := 0;
    assert was[..1] == kept;
    for i := 1 to ids.Length
      invariant 0 <= n < i && |kept| == n + 1
      invariant forall k :: 0 <= k <= n ==> ids[k] == kept[k]
      invariant forall k :: i <= k < ids.Length ==> ids[k] == was[k]
      invariant Squeezed(was, i, kept)
    {
      SqueezeOne(was, i, kept);
      if ids[i] > ids[n] {
        n := n + 1;
        ids[n] := ids[i];
        kept := kept + [was[i]];
      }
    }
    n := n + 1;
    assert was[..ids.Length] == was && ids[..n] == kept;
    IncreasingHasNoDuplicates(kept);
  }

  // ---------------------------------------------------------------------------
  // The whole count
  // ---------------------------------------------------------------------------

  function Insert(x: nat, s: seq<nat>): seq<nat> {
    if s == [] || x <= s[0] then [x] + s else [s[0]] + Insert(x, s[1..])
  }

  function SortedIds(s: seq<nat>): (r: seq<nat>) {
    if s == [] then [] else Insert(s[0], SortedIds(s[1..]))
  }

  lemma SortedFront(h: nat, t: seq<nat>)
    requires Sorted(t) && forall k :: 0 <= k < |t| ==> h <= t[k]
    ensures Sorted([h] + t)
  {
  }

  lemma {:induction false} InsertKeepsOrder(x: nat, s: seq<nat>)
    requires Sorted(s)
    ensures Sorted(Insert(x, s)) && multiset(Insert(x, s)) == multiset(s) + multiset{x}
  {
    if s == [] || x <= s[0] {
      SortedFront(x, s);
    } else {
      var h, t := s[0], s[1..];
      assert s == [h] + t;
      InsertKeepsOrder(x, t);
      var r := Insert(x, t);
      forall k | 0 <= k < |r| ensures h <= r[k] {
        assert r[k] in multiset(r);
        assert r[k] == x || r[k] in t;
      }
      SortedFront(h, r);
    }
  }

  /** Sorting gives a sorted permutation. */
  lemma {:induction false} SortedIdsAre(s: seq<nat>)
    ensures Sorted(SortedIds(s)) && multiset(SortedIds(s)) == multiset(s)
  {
    if s != [] {
      SortedIdsAre(s[1..]);
      InsertKeepsOrder(s[0], SortedIds(s[1..]));
      assert s == [s[0]] + s[1..];
    }
  }

  lemma SameElements(s: seq<nat>, t: seq<nat>)
    requires multiset(s) == multiset(t)
    ensures Elements(s) == Elements(t) && |s| == |t|
  {
    assert |multiset(s)| == |multiset(t)|;
    forall x ensures x in s <==> x in t {
      assert x in multiset(s) <==> x in multiset(t);
    }
  }

  /** The number of threads that made the I/O of a trace, given the thread of each of its elements. */
  method CountThreads(trace: seq<nat>) returns (n: nat)
    ensures n == |Elements(trace)| == |set id | id in trace|
  {
    SortedIdsAre(trace);
    var sorted := SortedIds(trace);
    SameElements(sorted, trace);
    var ids := new nat[|trace|](i requires 0 <= i < |sorted| => sorted[i]);
    assert ids[..] == sorted;
    n := Squeeze(ids);
    assert Elements(trace) == set id | id in trace;
  }
}
