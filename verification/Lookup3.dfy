/** The hash of record names: mixing steps that lose nothing, and three ways of reading the
    key that compute one function of its bytes. */
module Lookup3 {

  // ---------------------------------------------------------------------------
  // 32-bit words
  // ---------------------------------------------------------------------------

  // The C operators on uint32_t, which wrap. Named, so that proofs use their laws.

  function Add(x: bv32, y: bv32): bv32 { x + y }
  function Sub(x: bv32, y: bv32): bv32 { x - y }
  function Xor(x: bv32, y: bv32): bv32 { x ^ y }
  function And(x: bv32, y: bv32): bv32 { x & y }

  function Rot(x: bv32, k: bv6): bv32
    requires 0 < k < 32
  {
    (x << k) | (x >> (32 - k))
  }

  /** A byte moved up by a number of bits. */
  function Lane(b: bv8, sh: bv6): bv32
    requires sh < 32
  {
    (b as bv32) << sh
  }

  /** What a little-endian machine finds in four consecutive bytes. */
  function Quad(b0: bv8, b1: bv8, b2: bv8, b3: bv8): bv32 {
    b0 as bv32 | (b1 as bv32 << 8) | (b2 as bv32 << 16) | (b3 as bv32 << 24)
  }

  /** What a little-endian machine finds in two consecutive bytes, widened. */
  function Pair(b0: bv8, b1: bv8): bv32 {
    b0 as bv32 | (b1 as bv32 << 8)
  }

  function Shl16(x: bv32): bv32 { x << 16 }
  function Shl2(x: bv32): bv32 { x << 2 }

  /** A length cut to 32 bits: counting that wraps. */
  function U32(n: nat): bv32 {
    if n == 0 then 0 else Add(U32(n - 1), 1)
  }

  lemma AddZero(x: bv32)
    ensures Add(x, 0) == x
  {
  }

  lemma XorTwice(x: bv32, r: bv32)
    ensures Xor(Xor(x, r), r) == x
  {
  }

  lemma SubThenAdd(x: bv32, z: bv32)
    ensures Add(Sub(x, z), z) == x
  {
    assert Add(x - z, z) == x;
  }

  lemma AddThenSub(x: bv32, z: bv32)
    ensures Sub(Add(x, z), z) == x
  {
    assert Sub(x + z, z) == x;
  }

  lemma QuadsDiffer(b0: bv8, b1: bv8, b2: bv8, b3: bv8, c0: bv8, c1: bv8, c2: bv8, c3: bv8)
    requires Quad(b0, b1, b2, b3) == Quad(c0, c1, c2, c3)
    ensures b0 == c0 && b1 == c1 && b2 == c2 && b3 == c3
  {
  }

  lemma MaskedQuad(b0: bv8, b1: bv8, b2: bv8, b3: bv8)
    ensures And(Quad(b0, b1, b2, b3), 0xffffff) == Quad(b0, b1, b2, 0)
    ensures And(Quad(b0, b1, b2, b3), 0xffff) == Quad(b0, b1, 0, 0)
    ensures And(Quad(b0, b1, b2, b3), 0xff) == Quad(b0, 0, 0, 0)
  {
    MaskedToThree(b0, b1, b2, b3);
    MaskedToTwo(b0, b1, b2, b3);
    MaskedToOne(b0, b1, b2, b3);
  }

  lemma MaskedToThree(b0: bv8, b1: bv8, b2: bv8, b3: bv8)
    ensures And(Quad(b0, b1, b2, b3), 0xffffff) == Quad(b0, b1, b2, 0)
  {
  }

  lemma MaskedToTwo(b0: bv8, b1: bv8, b2: bv8, b3: bv8)
    ensures And(Quad(b0, b1, b2, b3), 0xffff) == Quad(b0, b1, 0, 0)
  {
  }

  lemma MaskedToOne(b0: bv8, b1: bv8, b2: bv8, b3: bv8)
    ensures And(Quad(b0, b1, b2, b3), 0xff) == Quad(b0, 0, 0, 0)
  {
  }

  lemma AddAssoc(x: bv32, y: bv32, z: bv32)
    ensures Add(Add(x, y), z) == Add(x, Add(y, z))
  {
    assert Add(x + y, z) == Add(x, y + z);
  }

  lemma AddComm(x: bv32, y: bv32)
    ensures Add(x, y) == Add(y, x)
  {
  }

  lemma FirstLane(b3: bv8)
    ensures Lane(b3, 24) == Quad(0, 0, 0, b3)
  {
  }

  lemma SecondLane(b2: bv8, b3: bv8)
    ensures Add(Lane(b2, 16), Quad(0, 0, 0, b3)) == Quad(0, 0, b2, b3)
  {
  }

  lemma ThirdLane(b1: bv8, b2: bv8, b3: bv8)
    ensures Add(Lane(b1, 8), Quad(0, 0, b2, b3)) == Quad(0, b1, b2, b3)
  {
  }

  lemma FourthLane(b0: bv8, b1: bv8, b2: bv8, b3: bv8)
    ensures Add(Lane(b0, 0), Quad(0, b1, b2, b3)) == Quad(b0, b1, b2, b3)
  {
  }

  /** A word added byte by byte, from the top byte down or from the bottom byte up. */
  lemma AddLanes(x: bv32, b0: bv8, b1: bv8, b2: bv8, b3: bv8)
    ensures Add(Add(Add(Add(x, Lane(b3, 24)), Lane(b2, 16)), Lane(b1, 8)), Lane(b0, 0)) == Add(x, Quad(b0, b1, b2, b3))
    ensures Add(Add(Add(Add(x, Lane(b0, 0)), Lane(b1, 8)), Lane(b2, 16)), Lane(b3, 24)) == Add(x, Quad(b0, b1, b2, b3))
  {
    FirstLane(b3);
    SecondLane(b2, b3);
    ThirdLane(b1, b2, b3);
    FourthLane(b0, b1, b2, b3);
    var q3, q2, q1 := Quad(0, 0, 0, b3), Quad(0, 0, b2, b3), Quad(0, b1, b2, b3);
    AddAssoc(x, Lane(b3, 24), Lane(b2, 16));
    AddComm(q3, Lane(b2, 16));
    AddAssoc(x, q2, Lane(b1, 8));
    AddComm(q2, Lane(b1, 8));
    AddAssoc(x, q1, Lane(b0, 0));
    AddComm(q1, Lane(b0, 0));
    AddAssoc(Add(Add(x, Lane(b0, 0)), Lane(b1, 8)), Lane(b2, 16), Lane(b3, 24));
    AddAssoc(Add(x, Lane(b0, 0)), Lane(b1, 8), q2);
    AddAssoc(x, Lane(b0, 0), q1);
  }

  lemma PairsMakeAQuad(b0: bv8, b1: bv8, b2: bv8, b3: bv8)
    ensures Add(Pair(b0, b1), Shl16(Pair(b2, b3))) == Quad(b0, b1, b2, b3)
  {
  }

  lemma PairAndByte(b0: bv8, b1: bv8, b2: bv8)
    ensures Add(Lane(b2, 16), Pair(b0, b1)) == Quad(b0, b1, b2, 0)
  {
  }

  lemma ShortQuads(b0: bv8, b1: bv8)
    ensures Pair(b0, b1) == Quad(b0, b1, 0, 0) && Lane(b0, 0) == Quad(b0, 0, 0, 0)
  {
  }

  lemma ZeroLanes()
    ensures Quad(0, 0, 0, 0) == 0 && Lane(0, 0) == 0 && Lane(0, 8) == 0 && Lane(0, 16) == 0 && Lane(0, 24) == 0
  {
  }

  // ---------------------------------------------------------------------------
  // Mixing
  // ---------------------------------------------------------------------------

  /** The internal state of three words. */
  datatype State = State(a: bv32, b: bv32, c: bv32)

  /** One line of the mixing step, x -= z; x ^= rot(z,k); z += y, on (x, y, z). The next line
      works on (y, z, x). */
  function Round(s: State, k: bv6): State
    requires 0 < k < 32
  {
    State(s.b, Add(s.c, s.b), Xor(Sub(s.a, s.c), Rot(s.c, k)))
  }

  function Unround(s: State, k: bv6): State
    requires 0 < k < 32
  {
    var z := Sub(s.b, s.a);
    State(Add(Xor(s.c, Rot(z, k)), z), s.a, z)
  }

  function Mix(s: State): State {
    Round(Round(Round(Round(Round(Round(s, 4), 6), 8), 16), 19), 4)
  }

  function Unmix(s: State): State {
    Unround(Unround(Unround(Unround(Unround(Unround(s, 4), 19), 16), 8), 6), 4)
  }

  lemma RoundUndone(s: State, k: bv6)
    requires 0 < k < 32
    ensures Unround(Round(s, k), k) == s
  {
    XorTwice(Sub(s.a, s.c), Rot(s.c, k));
    AddThenSub(s.c, s.b);
    SubThenAdd(s.a, s.c);
  }

  lemma UnroundRedone(s: State, k: bv6)
    requires 0 < k < 32
    ensures Round(Unround(s, k), k) == s
  {
    var z := Sub(s.b, s.a);
    XorTwice(s.c, Rot(z, k));
    SubThenAdd(s.b, s.a);
    AddThenSub(Xor(s.c, Rot(z, k)), z);
  }

  /** Mixing is a bijection on states: an explicit inverse undoes all six lines, in both
      directions. */
  lemma MixUndone(s: State)
    ensures Unmix(Mix(s)) == s && Mix(Unmix(s)) == s
  {
    var r1 := Round(s, 4);
    var r2 := Round(r1, 6);
    var r3 := Round(r2, 8);
    var r4 := Round(r3, 16);
    var r5 := Round(r4, 19);
    RoundUndone(s, 4);
    RoundUndone(r1, 6);
    RoundUndone(r2, 8);
    RoundUndone(r3, 16);
    RoundUndone(r4, 19);
    RoundUndone(r5, 4);
    var u1 := Unround(s, 4);
    var u2 := Unround(u1, 19);
    var u3 := Unround(u2, 16);
    var u4 := Unround(u3, 8);
    var u5 := Unround(u4, 6);
    UnroundRedone(s, 4);
    UnroundRedone(u1, 19);
    UnroundRedone(u2, 16);
    UnroundRedone(u3, 8);
    UnroundRedone(u4, 6);
    UnroundRedone(u5, 4);
  }

  /** One line of the final mixing, x ^= y; x -= rot(y,k), on (x, y, z). The next line works on
      (z, x, y). */
  function FinalRound(s: State, k: bv6): State
    requires 0 < k < 32
  {
    State(s.c, Sub(Xor(s.a, s.b), Rot(s.b, k)), s.b)
  }

  function Unfinal(s: State, k: bv6): State
    requires 0 < k < 32
  {
    State(Xor(Add(s.b, Rot(s.c, k)), s.c), s.c, s.a)
  }

  /** The seven lines, the first on (c, b, a). They end on (a, c, b). */
  function Final(s: State): State {
    var t := FinalRound(FinalRound(FinalRound(FinalRound(FinalRound(FinalRound(FinalRound(
      State(s.c, s.b, s.a), 14), 11), 25), 16), 4), 14), 24);
    State(t.a, t.c, t.b)
  }

  function Definal(s: State): State {
    var t := Unfinal(Unfinal(Unfinal(Unfinal(Unfinal(Unfinal(Unfinal(
      State(s.a, s.c, s.b), 24), 14), 4), 16), 25), 11), 14);
    State(t.c, t.b, t.a)
  }

  lemma FinalRoundUndone(s: State, k: bv6)
    requires 0 < k < 32
    ensures Unfinal(FinalRound(s, k), k) == s
  {
    XorTwice(s.a, s.b);
    SubThenAdd(Xor(s.a, s.b), Rot(s.b, k));
  }

  /** The final mixing loses nothing either. */
  lemma FinalUndone(s: State)
    ensures Definal(Final(s)) == s
  {
    var r0 := State(s.c, s.b, s.a);
    var r1 := FinalRound(r0, 14);
    var r2 := FinalRound(r1, 11);
    var r3 := FinalRound(r2, 25);
    var r4 := FinalRound(r3, 16);
    var r5 := FinalRound(r4, 4);
    var r6 := FinalRound(r5, 14);
    FinalRoundUndone(r0, 14);
    FinalRoundUndone(r1, 11);
    FinalRoundUndone(r2, 25);
    FinalRoundUndone(r3, 16);
    FinalRoundUndone(r4, 4);
    FinalRoundUndone(r5, 14);
    FinalRoundUndone(r6, 24);
  }

  /** The mixing macro, statement by statement. */
  method MixWords(s: State) returns (t: State)
    ensures t == Mix(s)
  {
    var a, b, c := s.a, s.b, s.c;
    a := Sub(a, c); a := Xor(a, Rot(c, 4)); c := Add(c, b);
    b := Sub(b, a); b := Xor(b, Rot(a, 6)); a := Add(a, c);
    c := Sub(c, b); c := Xor(c, Rot(b, 8)); b := Add(b, a);
    a := Sub(a, c); a := Xor(a, Rot(c, 16)); c := Add(c, b);
    b := Sub(b, a); b := Xor(b, Rot(a, 19)); a := Add(a, c);
    c := Sub(c, b); c := Xor(c, Rot(b, 4)); b := Add(b, a);
    t := State(a, b, c);
  }

  /** The final macro, statement by statement. */
  method FinalWords(s: State) returns (t: State)
    ensures t == Final(s)
  {
    var a, b, c := s.a, s.b, s.c;
    c := Xor(c, b); c := Sub(c, Rot(b, 14));
    a := Xor(a, c); a := Sub(a, Rot(c, 11));
    b := Xor(b, a); b := Sub(b, Rot(a, 25));
    c := Xor(c, b); c := Sub(c, Rot(b, 16));
    a := Xor(a, c); a := Sub(a, Rot(c, 4));
    b := Xor(b, a); b := Sub(b, Rot(a, 14));
    c := Xor(c, b); c := Sub(c, Rot(b, 24));
    t := State(a, b, c);
  }

  // ---------------------------------------------------------------------------
  // The hash as a function of the key's bytes
  // ---------------------------------------------------------------------------

  /** A key goes on with zero bytes. */
  function At(k: seq<bv8>, i: nat): bv8 {
    if i < |k| then k[i] else 0
  }

  function Word(k: seq<bv8>, i: nat): bv32 {
    Quad(At(k, i), At(k, i + 1), At(k, i + 2), At(k, i + 3))
  }

  /** A block of up to twelve bytes added to the state. */
  function Absorb(s: State, k: seq<bv8>): State {
    State(Add(s.a, Word(k, 0)), Add(s.b, Word(k, 4)), Add(s.c, Word(k, 8)))
  }

  /** Whole blocks are mixed in; the last one, of one to twelve bytes, is final. */
  function Digest(s: State, k: seq<bv8>): State
    decreases |k|
  {
    if |k| == 0 then s
    else if |k| <= 12 then Final(Absorb(s, k))
    else Digest(Mix(Absorb(s, k)), k[12..])
  }

  function Start(length: nat, initval: bv32): bv32 {
    Add(Add(0xdeadbeef, U32(length)), initval)
  }

  function HashLittle(k: seq<bv8>, initval: bv32): bv32 {
    var v := Start(|k|, initval);
    Digest(State(v, v, v), k).c
  }

  // ---------------------------------------------------------------------------
  // Information survives
  // ---------------------------------------------------------------------------

  lemma AbsorbKeepsStatesApart(s: State, t: State, k: seq<bv8>)
    requires Absorb(s, k) == Absorb(t, k)
    ensures s == t
  {
    AddThenSub(s.a, Word(k, 0));
    AddThenSub(t.a, Word(k, 0));
    AddThenSub(s.b, Word(k, 4));
    AddThenSub(t.b, Word(k, 4));
    AddThenSub(s.c, Word(k, 8));
    AddThenSub(t.c, Word(k, 8));
  }

  lemma AddKeepsWordsApart(x: bv32, y: bv32, z: bv32)
    requires Add(x, y) == Add(x, z)
    ensures y == z
  {
    AddComm(x, y);
    AddComm(x, z);
    AddThenSub(y, x);
    AddThenSub(z, x);
  }

  lemma WordsDiffer(j: seq<bv8>, k: seq<bv8>, i: nat)
    requires Word(j, i) == Word(k, i)
    ensures forall n :: i <= n < i + 4 ==> At(j, n) == At(k, n)
  {
    QuadsDiffer(At(j, i), At(j, i + 1), At(j, i + 2), At(j, i + 3), At(k, i), At(k, i + 1), At(k, i + 2), At(k, i + 3));
  }

  lemma AbsorbKeepsBlocksApart(s: State, j: seq<bv8>, k: seq<bv8>)
    requires |j| == |k| && Absorb(s, j) == Absorb(s, k)
    ensures forall i :: 0 <= i < 12 ==> At(j, i) == At(k, i)
  {
    AddKeepsWordsApart(s.a, Word(j, 0), Word(k, 0));
    AddKeepsWordsApart(s.b, Word(j, 4), Word(k, 4));
    AddKeepsWordsApart(s.c, Word(j, 8), Word(k, 8));
    WordsDiffer(j, k, 0);
    WordsDiffer(j, k, 4);
    WordsDiffer(j, k, 8);
  }

  lemma BlockRecovered(s: State, x: seq<bv8>, y: seq<bv8>, after: seq<bv8>)
    requires |x| == |y| <= 12
    requires Absorb(s, x + after) == Absorb(s, y + after)
    ensures x == y
  {
    AbsorbKeepsBlocksApart(s, x + after, y + after);
    forall i | 0 <= i < |x| ensures x[i] == y[i] {
      assert At(x + after, i) == At(y + after, i);
    }
  }

  /** Different states stay different under whatever follows. */
  lemma {:induction false} DigestKeepsStatesApart(s: State, t: State, k: seq<bv8>)
    requires s != t
    ensures Digest(s, k) != Digest(t, k)
    decreases |k|
  {
    if 0 < |k| {
      var s', t' := Absorb(s, k), Absorb(t, k);
      if s' == t' {
        AbsorbKeepsStatesApart(s, t, k);
      }
      if |k| <= 12 {
        FinalUndone(s');
        FinalUndone(t');
      } else {
        MixUndone(s');
        MixUndone(t');
        DigestKeepsStatesApart(Mix(s'), Mix(t'), k[12..]);
      }
    }
  }

  lemma AbsorbSeesTwelve(s: State, j: seq<bv8>, k: seq<bv8>)
    requires forall i :: 0 <= i < 12 ==> At(j, i) == At(k, i)
    ensures Absorb(s, j) == Absorb(s, k)
  {
  }

  /** Two keys that differ within one block, and agree before and after it, leave different
      internal states: no block is lost on the way to the 96 bits the hash is cut from. */
  lemma {:induction false} OneBlockMatters(s: State, before: seq<bv8>, x: seq<bv8>, y: seq<bv8>, after: seq<bv8>)
    requires |before| % 12 == 0
    requires x != y && |x| == |y| <= 12
    requires |x| < 12 ==> after == []
    ensures Digest(s, before + x + after) != Digest(s, before + y + after)
    decreases |before|
  {
    var j, k := before + x + after, before + y + after;
    if |before| == 0 {
      assert j == x + after && k == y + after;
      if Absorb(s, j) == Absorb(s, k) {
        BlockRecovered(s, x, y, after);
      }
      FinalUndone(Absorb(s, j));
      FinalUndone(Absorb(s, k));
      MixUndone(Absorb(s, j));
      MixUndone(Absorb(s, k));
      if 12 < |j| {
        assert j[12..] == after && k[12..] == after;
        DigestKeepsStatesApart(Mix(Absorb(s, j)), Mix(Absorb(s, k)), after);
      }
    } else {
      assert |before| >= 12 && |x| > 0;
      assert forall i :: 0 <= i < 12 ==> At(j, i) == before[i] && At(k, i) == before[i];
      AbsorbSeesTwelve(s, j, k);
      assert j[12..] == before[12..] + x + after && k[12..] == before[12..] + y + after;
      OneBlockMatters(Mix(Absorb(s, j)), before[12..], x, y, after);
    }
  }

  // ---------------------------------------------------------------------------
  // One byte at a time
  // ---------------------------------------------------------------------------

  lemma WordAfter(k: seq<bv8>, p: nat, i: nat)
    requires p <= |k|
    ensures Word(k[p..], i) == Quad(At(k, p + i), At(k, p + i + 1), At(k, p + i + 2), At(k, p + i + 3))
  {
  }

  /** Four bytes added in turn, lowest first. */
  method AddBytes(x: bv32, k: seq<bv8>, p: nat) returns (y: bv32)
    requires p + 4 <= |k|
    ensures y == Add(x, Quad(k[p], k[p + 1], k[p + 2], k[p + 3]))
  {
    y := Add(x, Lane(k[p], 0));
    y := Add(y, Lane(k[p + 1], 8));
    y := Add(y, Lane(k[p + 2], 16));
    y := Add(y, Lane(k[p + 3], 24));
    AddLanes(x, k[p], k[p + 1], k[p + 2], k[p + 3]);
  }

  /** The fall-through cases of one word: each byte the key still has, highest first. */
  method AddTailBytes(x: bv32, k: seq<bv8>, i: nat) returns (y: bv32)
    ensures y == Add(x, Word(k, i))
  {
    AddLanes(x, At(k, i), At(k, i + 1), At(k, i + 2), At(k, i + 3));
    ZeroLanes();
    AddZero(x);
    y := x;
    if i + 3 < |k| { y := Add(y, Lane(k[i + 3], 24)); }
    if i + 2 < |k| { y := Add(y, Lane(k[i + 2], 16)); }
    if i + 1 < |k| { y := Add(y, Lane(k[i + 1], 8)); }
    if i < |k| { y := Add(y, Lane(k[i], 0)); }
  }

  method DigestBytes(s: State, key: seq<bv8>) returns (t: State)
    ensures t == Digest(s, key)
  {
    t := s;
    var k, length: nat := 0, |key|;
    assert key[0..] == key;
    while length > 12
      invariant 0 <= k && k + length == |key|
      invariant Digest(t, key[k..]) == Digest(s, key)
    {
      WordAfter(key, k, 0);
      WordAfter(key, k, 4);
      WordAfter(key, k, 8);
      var a := AddBytes(t.a, key, k);
      var b := AddBytes(t.b, key, k + 4);
      var c := AddBytes(t.c, key, k + 8);
      assert State(a, b, c) == Absorb(t, key[k..]);
      assert key[k..][12..] == key[k + 12..];
      t := MixWords(State(a, b, c));
      length := length - 12;
      k := k + 12;
    }
    if length == 0 { return; }
    var tail := key[k..];
    var c := AddTailBytes(t.c, tail, 8);
    var b := AddTailBytes(t.b, tail, 4);
    var a := AddTailBytes(t.a, tail, 0);
    t := FinalWords(State(a, b, c));
  }

  // ---------------------------------------------------------------------------
  // Two bytes at a time
  // ---------------------------------------------------------------------------

  function Read16(key: seq<bv8>, p: nat): bv32
    requires p + 2 <= |key|
  {
    Pair(key[p], key[p + 1])
  }

  /** k[j] + ((uint32_t)k[j+1] << 16). */
  function TwoHalves(key: seq<bv8>, p: nat): bv32
    requires p + 4 <= |key|
  {
    Add(Read16(key, p), Shl16(Read16(key, p + 2)))
  }

  /** What each number of bytes left in a word adds to it. */
  lemma TailWord(x: bv32, k: seq<bv8>, i: nat)
    ensures i + 4 <= |k| ==> TwoHalves(k, i) == Word(k, i)
    ensures i + 3 == |k| ==> Add(Add(x, Lane(k[i + 2], 16)), Read16(k, i)) == Add(x, Word(k, i))
    ensures i + 2 == |k| ==> Read16(k, i) == Word(k, i)
    ensures i + 1 == |k| ==> Lane(k[i], 0) == Word(k, i)
    ensures |k| <= i ==> Add(x, Word(k, i)) == x
  {
    PairsMakeAQuad(At(k, i), At(k, i + 1), At(k, i + 2), At(k, i + 3));
    PairAndByte(At(k, i), At(k, i + 1), At(k, i + 2));
    AddAssoc(x, Lane(At(k, i + 2), 16), Pair(At(k, i), At(k, i + 1)));
    ShortQuads(At(k, i), At(k, i + 1));
    ZeroLanes();
    AddZero(x);
  }

  /** The last block, k being what is left of the key. The cases on which the source falls
      through or breaks are the cases here. */
  method AbsorbTailHalves(s: State, k: seq<bv8>) returns (t: State)
    requires 0 < |k| <= 12
    ensures t == Absorb(s, k)
  {
    var a, b, c := s.a, s.b, s.c;
    if |k| == 12 {
      c := Add(c, TwoHalves(k, 8));
      b := Add(b, TwoHalves(k, 4));
      a := Add(a, TwoHalves(k, 0));
    } else if 10 <= |k| {
      if |k| == 11 { c := Add(c, Lane(k[10], 16)); }
      c := Add(c, Read16(k, 8));
      b := Add(b, TwoHalves(k, 4));
      a := Add(a, TwoHalves(k, 0));
    } else if 8 <= |k| {
      if |k| == 9 { c := Add(c, Lane(k[8], 0)); }
      b := Add(b, TwoHalves(k, 4));
      a := Add(a, TwoHalves(k, 0));
    } else if 6 <= |k| {
      if |k| == 7 { b := Add(b, Lane(k[6], 16)); }
      b := Add(b, Read16(k, 4));
      a := Add(a, TwoHalves(k, 0));
    } else if 4 <= |k| {
      if |k| == 5 { b := Add(b, Lane(k[4], 0)); }
      a := Add(a, TwoHalves(k, 0));
    } else if 2 <= |k| {
      if |k| == 3 { a := Add(a, Lane(k[2], 16)); }
      a := Add(a, Read16(k, 0));
    } else {
      a := Add(a, Lane(k[0], 0));
    }
    TailWord(s.a, k, 0);
    TailWord(s.b, k, 4);
    TailWord(s.c, k, 8);
    t := State(a, b, c);
  }

  method AddTwoHalves(x: bv32, key: seq<bv8>, k: nat, i: nat) returns (y: bv32)
    requires k + i + 4 <= |key|
    ensures y == Add(x, Word(key[k..], i))
  {
    y := Add(x, TwoHalves(key, k + i));
    PairsMakeAQuad(key[k + i], key[k + i + 1], key[k + i + 2], key[k + i + 3]);
  }

  method AbsorbHalves(s: State, key: seq<bv8>, k: nat) returns (t: State)
    requires k + 12 <= |key|
    ensures t == Absorb(s, key[k..])
  {
    var a := AddTwoHalves(s.a, key, k, 0);
    var b := AddTwoHalves(s.b, key, k, 4);
    var c := AddTwoHalves(s.c, key, k, 8);
    t := State(a, b, c);
  }

  method DigestHalves(s: State, key: seq<bv8>) returns (t: State)
    ensures t == Digest(s, key)
  {
    t := s;
    var k, length: nat := 0, |key|;
    assert key[0..] == key;
    while length > 12
      invariant 0 <= k && k + length == |key|
      invariant Digest(t, key[k..]) == Digest(s, key)
    {
      t := AbsorbHalves(t, key, k);
      assert key[k..][12..] == key[k + 12..];
      t := MixWords(t);
      length := length - 12;
      k := k + 12;
    }
    if length == 0 { return; }
    t := AbsorbTailHalves(t, key[k..]);
    t := FinalWords(t);
  }

  // ---------------------------------------------------------------------------
  // Four bytes at a time
  // ---------------------------------------------------------------------------

  /** An aligned read. The memory the key lies in comes in whole words, so the last read may
      take in bytes that follow the key. */
  function Read32(mem: seq<bv8>, p: nat): bv32
    requires p + 4 <= |mem|
  {
    Quad(mem[p], mem[p + 1], mem[p + 2], mem[p + 3])
  }

  /** What the words at p hold of a key that ends at n: masking takes off what follows it. */
  lemma MaskedWord(x: bv32, mem: seq<bv8>, p: nat, n: nat, i: nat)
    requires p <= n <= |mem|
    requires p + i < n ==> p + i + 4 <= |mem|
    ensures p + i + 4 <= n ==> Read32(mem, p + i) == Word(mem[p..n], i)
    ensures p + i + 3 == n ==> And(Read32(mem, p + i), 0xffffff) == Word(mem[p..n], i)
    ensures p + i + 2 == n ==> And(Read32(mem, p + i), 0xffff) == Word(mem[p..n], i)
    ensures p + i + 1 == n ==> And(Read32(mem, p + i), 0xff) == Word(mem[p..n], i)
    ensures n <= p + i ==> Add(x, Word(mem[p..n], i)) == x
  {
    if p + i < n {
      MaskedQuad(mem[p + i], mem[p + i + 1], mem[p + i + 2], mem[p + i + 3]);
    }
    ZeroLanes();
    AddZero(x);
  }

  /** The last block, the key being mem[p..n]: the twelve cases, gathered by how many whole words
      come before the masked one. */
  method AbsorbTailWords(s: State, mem: seq<bv8>, p: nat, n: nat) returns (t: State)
    requires p < n <= |mem| && n - p <= 12
    requires p % 4 == 0 && |mem| % 4 == 0
    ensures t == Absorb(s, mem[p..n])
  {
    var a, b, c := s.a, s.b, s.c;
    var length := n - p;
    MaskedWord(a, mem, p, n, 0);
    MaskedWord(b, mem, p, n, 4);
    MaskedWord(c, mem, p, n, 8);
    if 8 < length {
      if length == 12 { c := Add(c, Read32(mem, p + 8)); }
      else if length == 11 { c := Add(c, And(Read32(mem, p + 8), 0xffffff)); }
      else if length == 10 { c := Add(c, And(Read32(mem, p + 8), 0xffff)); }
      else { c := Add(c, And(Read32(mem, p + 8), 0xff)); }
      b := Add(b, Read32(mem, p + 4));
      a := Add(a, Read32(mem, p));
    } else if 4 < length {
      if length == 8 { b := Add(b, Read32(mem, p + 4)); }
      else if length == 7 { b := Add(b, And(Read32(mem, p + 4), 0xffffff)); }
      else if length == 6 { b := Add(b, And(Read32(mem, p + 4), 0xffff)); }
      else { b := Add(b, And(Read32(mem, p + 4), 0xff)); }
      a := Add(a, Read32(mem, p));
    } else {
      if length == 4 { a := Add(a, Read32(mem, p)); }
      else if length == 3 { a := Add(a, And(Read32(mem, p), 0xffffff)); }
      else if length == 2 { a := Add(a, And(Read32(mem, p), 0xffff)); }
      else { a := Add(a, And(Read32(mem, p), 0xff)); }
    }
    t := State(a, b, c);
  }

  lemma StaysAligned(k: nat)
    requires k % 4 == 0
    ensures (k + 12) % 4 == 0
  {
  }

  /** One block of three whole words. */
  method DigestBlock(s: State, mem: seq<bv8>, k: nat, n: nat) returns (t: State)
    requires k + 12 < n <= |mem| && |mem| % 4 == 0 && k % 4 == 0
    ensures Digest(t, mem[k + 12..n]) == Digest(s, mem[k..n])
  {
    MaskedWord(s.a, mem, k, n, 0);
    MaskedWord(s.b, mem, k, n, 4);
    MaskedWord(s.c, mem, k, n, 8);
    var a := Add(s.a, Read32(mem, k));
    var b := Add(s.b, Read32(mem, k + 4));
    var c := Add(s.c, Read32(mem, k + 8));
    assert State(a, b, c) == Absorb(s, mem[k..n]);
    assert mem[k..n][12..] == mem[k + 12..n];
    t := MixWords(State(a, b, c));
  }

  method DigestWords(s: State, mem: seq<bv8>, n: nat) returns (t: State)
    requires n <= |mem| && |mem| % 4 == 0
    ensures t == Digest(s, mem[..n])
  {
    t := s;
    var k, length: nat := 0, n;
    assert mem[0..n] == mem[..n];
    while length > 12
      invariant 0 <= k && k + length == n && k % 4 == 0
      invariant Digest(t, mem[k..n]) == Digest(s, mem[..n])
    {
      t := DigestBlock(t, mem, k, n);
      StaysAligned(k);
      length := length - 12;
      k := k + 12;
    }
    if length == 0 { return; }
    t := AbsorbTailWords(t, mem, k, n);
    t := FinalWords(t);
  }

  // ---------------------------------------------------------------------------
  // The three entry points
  // ---------------------------------------------------------------------------

  /** The way of reading is chosen by the machine and the key's address; none of them shows in
      the result, nor does the memory that follows the key. */
  method DigestKey(s: State, mem: seq<bv8>, n: nat, address: nat, littleEndian: bool) returns (t: State)
    requires n <= |mem|
    requires littleEndian && address % 4 == 0 ==> |mem| % 4 == 0
    ensures t == Digest(s, mem[..n])
  {
    if littleEndian && address % 4 == 0 {
      t := DigestWords(s, mem, n);
    } else if littleEndian && address % 2 == 0 {
      t := DigestHalves(s, mem[..n]);
    } else {
      t := DigestBytes(s, mem[..n]);
    }
  }

  /** The hash of the first n bytes at an address. */
  method DarshanHashLittle(mem: seq<bv8>, n: nat, address: nat, littleEndian: bool, initval: bv32) returns (h: bv32)
    requires n <= |mem|
    requires littleEndian && address % 4 == 0 ==> |mem| % 4 == 0
    ensures h == HashLittle(mem[..n], initval)
  {
    var v := Add(Add(0xdeadbeef, U32(n)), initval);
    var t := DigestKey(State(v, v, v), mem, n, address, littleEndian);
    h := t.c;
  }

  /** Two hash values for one pass; with a zero second seed the first of them is the plain
      hash. */
  method HashLittle2(mem: seq<bv8>, n: nat, address: nat, littleEndian: bool, pc: bv32, pb: bv32)
    returns (c: bv32, b: bv32)
    requires n <= |mem|
    requires littleEndian && address % 4 == 0 ==> |mem| % 4 == 0
    ensures pb == 0 ==> c == HashLittle(mem[..n], pc)
    ensures var v := Start(n, pc);
            var t := Digest(State(v, v, Add(v, pb)), mem[..n]);
            c == t.c && b == t.b
  {
    var v := Add(Add(0xdeadbeef, U32(n)), pc);
    AddZero(v);
    var t := DigestKey(State(v, v, Add(v, pb)), mem, n, address, littleEndian);
    c, b := t.c, t.b;
  }

  lemma ShiftedSuccessor(x: bv32)
    ensures (x + 1) << 2 == (x << 2) + 4
  {
  }

  lemma Quadruple(x: bv32)
    ensures Add(Shl2(x), 4) == Shl2(Add(x, 1))
  {
    ShiftedSuccessor(x);
    assert Add(x << 2, 4) == Shl2(x + 1);
  }

  lemma FourSteps(y: bv32)
    ensures Add(Add(Add(Add(y, 1), 1), 1), 1) == Add(y, 4)
  {
    AddAssoc(Add(Add(y, 1), 1), 1, 1);
    AddAssoc(y, 1, 1);
    AddAssoc(y, 2, 2);
  }

  /** Counting four bytes a word wraps as the shifted count of words does. */
  lemma {:induction false} FourBytesAWord(n: nat)
    ensures U32(4 * n) == Shl2(U32(n))
  {
    if n > 0 {
      FourBytesAWord(n - 1);
      Quadruple(U32(n - 1));
      var m: nat := 4 * n - 4;
      assert U32(m + 4) == Add(U32(m + 3), 1) && U32(m + 3) == Add(U32(m + 2), 1);
      assert U32(m + 2) == Add(U32(m + 1), 1) && U32(m + 1) == Add(U32(m), 1);
      FourSteps(U32(m));
    }
  }

  lemma WordsAre(s: State, words: seq<bv32>, mem: seq<bv8>, k: nat)
    requires |mem| == 4 * |words|
    requires forall j :: 0 <= j < |words| ==> words[j] == Read32(mem, 4 * j)
    requires k <= |words|
    ensures k < |words| ==> words[k] == Word(mem[4 * k..], 0)
    ensures if k + 1 < |words| then words[k + 1] == Word(mem[4 * k..], 4) else Add(s.b, Word(mem[4 * k..], 4)) == s.b
    ensures if k + 2 < |words| then words[k + 2] == Word(mem[4 * k..], 8) else Add(s.c, Word(mem[4 * k..], 8)) == s.c
  {
    ZeroLanes();
    AddZero(s.b);
    AddZero(s.c);
    WordAfter(mem, 4 * k, 0);
    WordAfter(mem, 4 * k, 4);
    WordAfter(mem, 4 * k, 8);
  }

  method AbsorbLastWords(s: State, words: seq<bv32>, k: nat, ghost mem: seq<bv8>) returns (t: State)
    requires |mem| == 4 * |words| && k < |words| <= k + 3
    requires forall j :: 0 <= j < |words| ==> words[j] == Read32(mem, 4 * j)
    ensures t == Absorb(s, mem[4 * k..])
  {
    WordsAre(s, words, mem, k);
    var a, b, c := s.a, s.b, s.c;
    var length := |words| - k;
    if length == 3 { c := Add(c, words[k + 2]); }
    if 2 <= length { b := Add(b, words[k + 1]); }
    a := Add(a, words[k]);
    t := State(a, b, c);
  }

  /** The hash of a key of whole words, its length counted in words. */
  method HashWord(words: seq<bv32>, initval: bv32, ghost mem: seq<bv8>) returns (h: bv32)
    requires |mem| == 4 * |words|
    requires forall j :: 0 <= j < |words| ==> words[j] == Read32(mem, 4 * j)
    ensures h == HashLittle(mem, initval)
  {
    FourBytesAWord(|words|);
    var v := Add(Add(0xdeadbeef, Shl2(U32(|words|))), initval);
    var t := State(v, v, v);
    ghost var s := t;
    var k, length: nat := 0, |words|;
    assert mem[0..] == mem;
    while length > 3
      invariant 0 <= k && k + length == |words|
      invariant Digest(t, mem[4 * k..]) == Digest(s, mem)
    {
      WordsAre(t, words, mem, k);
      var a := Add(t.a, words[k]);
      var b := Add(t.b, words[k + 1]);
      var c := Add(t.c, words[k + 2]);
      assert State(a, b, c) == Absorb(t, mem[4 * k..]);
      assert mem[4 * k..][12..] == mem[4 * (k + 3)..];
      t := MixWords(State(a, b, c));
      length := length - 3;
      k := k + 3;
    }
    if 1 <= length {
      t := AbsorbLastWords(t, words, k, mem);
      t := FinalWords(t);
    }
    h := t.c;
  }
}
