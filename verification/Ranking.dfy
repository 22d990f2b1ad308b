/** Frequency tables and the values that lead them. */
module Ranking {
  import opened CommonValues

  lemma SubsetSize(a: set<int>, b: set<int>)
    requires a <= b
    ensures |a| <= |b|
    ensures |a| == |b| ==> a == b
  {
    assert b * a == a && |b - a| == |b| - |b * a|;
    if |a| == |b| {
      assert b - a == {};
      assert a == b;
    }
  }

  /** The non-zero values ahead of one in a table. */
  ghost function Outrankers(t: map<int, int>, v: int): set<int>
    requires v in t
  {
    set x | x in t && x != 0 && Outranks(Slot(x, t[x]), Slot(v, t[v]))
  }

  lemma OutrankersShrink(t: map<int, int>, v: int, y: int)
    requires v in t && y in Outrankers(t, v)
    ensures Outrankers(t, y) < Outrankers(t, v) && |Outrankers(t, y)| < |Outrankers(t, v)|
  {
    SubsetSize(Outrankers(t, y), Outrankers(t, v));
    assert y !in Outrankers(t, y);
  }

  lemma FourSlotsOutrank(s: seq<Slot>, t: map<int, int>, v: int)
    requires IsTopFour(s, t) && v in t && v != 0 && !Holds(s, v)
    ensures 4 <= |Outrankers(t, v)|
  {
    var n := Slot(v, t[v]);
    assert Outranks(s[3], n) && Outranks(s[2], s[3]) && Outranks(s[1], s[2]) && Outranks(s[0], s[1]);
    var four := {s[0].val, s[1].val, s[2].val, s[3].val};
    assert |four| == 4;
    SubsetSize(four, Outrankers(t, v));
  }

  lemma LeastOfFour(s: seq<Slot>, t: map<int, int>, ws: set<int>, n: Slot)
    requires IsTopFour(s, t) && 4 <= |ws| && forall x :: x in ws ==> x != 0 && x in t && Outranks(Slot(x, t[x]), n)
    ensures s[3].val != 0 && Outranks(s[3], n)
  {
    var held := {s[0].val, s[1].val, s[2].val, s[3].val};
    if x :| x in ws && !Holds(s, x) {
      assert Outranks(s[3], Slot(x, t[x]));
    } else {
      forall x | x in ws ensures x in held {
        var i :| 0 <= i < 4 && s[i].val == x;
      }
      SubsetSize(ws, held);
      assert s[3].val in ws;
    }
  }

  /** The values that belong in the four slots: fewer than four others are ahead of each. */
  ghost function Leaders(t: map<int, int>): set<int> {
    set v | v in t && v != 0 && |Outrankers(t, v)| < 4
  }

  /** There are four of them as soon as any value is left out. */
  lemma {:induction false} LeadersAreFour(t: map<int, int>, v: int)
    requires v in t && v != 0 && v !in Leaders(t)
    ensures 4 <= |Leaders(t)|
    decreases |Outrankers(t, v)|
  {
    if y :| y in Outrankers(t, v) && y !in Leaders(t) {
      OutrankersShrink(t, v, y);
      LeadersAreFour(t, y);
    } else {
      SubsetSize(Outrankers(t, v), Leaders(t));
    }
  }

  /** The slots of a table hold its leaders. */
  lemma LeadersAreHeld(s: seq<Slot>, t: map<int, int>, v: int)
    requires IsTopFour(s, t) && v in Leaders(t)
    ensures Holds(s, v)
  {
    if !Holds(s, v) {
      FourSlotsOutrank(s, t, v);
    }
  }

  /** `s` could be the slots of some table, with values of `t`, and it has every leader of `t` with
      its count. */
  ghost predicate HoldsLeaders(s: seq<Slot>, t: map<int, int>) {
    && |s| == 4
    && (forall i :: 0 <= i < 4 && s[i].val != 0 ==> s[i].val in t)
    && (forall i :: 0 <= i < 4 && s[i].val == 0 ==> s[i].cnt == 0)
    && (forall i, j :: 0 <= i < j < 4 && s[j].val != 0 ==> s[i].val != 0 && Outranks(s[i], s[j]))
    && DistinctValues(s)
    && (forall v :: v in Leaders(t) ==> Slot(v, t[v]) in s)
  }

  lemma HeldIsLeader(s: seq<Slot>, t: map<int, int>, i: nat)
    requires HoldsLeaders(s, t) && i < 4 && s[i].val != 0
    ensures s[i].val in Leaders(t) && s[i].cnt == t[s[i].val]
  {
    var x := s[i].val;
    var held := {s[0].val, s[1].val, s[2].val, s[3].val};
    assert Leaders(t) <= held;
    assert |held - {x}| < |held| <= 4;
    if x !in Leaders(t) {
      LeadersAreFour(t, x);
      SubsetSize(Leaders(t), held - {x});
    }
  }

  lemma LastHeldIsAhead(s: seq<Slot>, t: map<int, int>, v: int)
    requires HoldsLeaders(s, t) && v in t && v != 0 && !Holds(s, v)
    ensures s[3].val != 0 && Outranks(s[3], Slot(v, t[v]))
  {
    var held := {s[0].val, s[1].val, s[2].val, s[3].val};
    forall x | x in Leaders(t) ensures x in held {
      assert Slot(x, t[x]) in s;
    }
    assert v !in held;
    LeadersAreFour(t, v);
    SubsetSize(Leaders(t), held);
    assert s[3].val in Leaders(t);
    HeldIsLeader(s, t, 3);
    if !Outranks(s[3], Slot(v, t[v])) {
      SubsetSize(Outrankers(t, v), Outrankers(t, s[3].val));
    }
  }

  /** Slots that have every leader with its count are the top four. */
  lemma LeadersMakeTopFour(s: seq<Slot>, t: map<int, int>)
    requires HoldsLeaders(s, t)
    ensures IsTopFour(s, t)
  {
    forall i | 0 <= i < 4 && s[i].val != 0 ensures s[i].cnt == t[s[i].val] {
      HeldIsLeader(s, t, i);
    }
    forall v | v in t && v != 0 && !Holds(s, v) ensures s[3].val != 0 && Outranks(s[3], Slot(v, t[v])) {
      LastHeldIsAhead(s, t, v);
    }
  }
}
