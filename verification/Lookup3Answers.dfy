/** Known answers of the hash of record names: the values its author published, and two short keys. */
module Lookup3Answers {
  import opened Lookup3

  /** "Four score and seven years ago" */
  const FOUR_SCORE: seq<bv8> := [0x46, 0x6f, 0x75, 0x72, 0x20, 0x73, 0x63, 0x6f, 0x72, 0x65,
    0x20, 0x61, 0x6e, 0x64, 0x20, 0x73, 0x65, 0x76, 0x65, 0x6e,
    0x20, 0x79, 0x65, 0x61, 0x72, 0x73, 0x20, 0x61, 0x67, 0x6f]

  const FROM_13: seq<bv8> := [0x6e, 0x64, 0x20, 0x73, 0x65, 0x76, 0x65, 0x6e, 0x20, 0x79,
    0x65, 0x61, 0x72, 0x73, 0x20, 0x61, 0x67, 0x6f]

  const FROM_25: seq<bv8> := [0x72, 0x73, 0x20, 0x61, 0x67, 0x6f]

  lemma WordIs(k: seq<bv8>, i: nat, b0: bv8, b1: bv8, b2: bv8, b3: bv8)
    requires At(k, i) == b0 && At(k, i + 1) == b1 && At(k, i + 2) == b2 && At(k, i + 3) == b3
    ensures Word(k, i) == Quad(b0, b1, b2, b3)
  {
  }

  lemma FirstBlockWord0()
    ensures Word(FOUR_SCORE, 0) == 0x72756f46
  {
    WordIs(FOUR_SCORE, 0, 0x46, 0x6f, 0x75, 0x72);
    FirstBlockQuad0();
  }

  lemma FirstBlockQuad0()
    ensures Quad(0x46, 0x6f, 0x75, 0x72) == 0x72756f46
  {
  }

  lemma FirstBlockWord1()
    ensures Word(FOUR_SCORE, 4) == 0x6f637320
  {
    WordIs(FOUR_SCORE, 4, 0x20, 0x73, 0x63, 0x6f);
    FirstBlockQuad1();
  }

  lemma FirstBlockQuad1()
    ensures Quad(0x20, 0x73, 0x63, 0x6f) == 0x6f637320
  {
  }

  lemma FirstBlockWord2()
    ensures Word(FOUR_SCORE, 8) == 0x61206572
  {
    WordIs(FOUR_SCORE, 8, 0x72, 0x65, 0x20, 0x61);
    FirstBlockQuad2();
  }

  lemma FirstBlockQuad2()
    ensures Quad(0x72, 0x65, 0x20, 0x61) == 0x61206572
  {
  }

  lemma SecondBlockWord0()
    ensures Word(FROM_13, 0) == 0x7320646e
  {
    WordIs(FROM_13, 0, 0x6e, 0x64, 0x20, 0x73);
    SecondBlockQuad0();
  }

  lemma SecondBlockQuad0()
    ensures Quad(0x6e, 0x64, 0x20, 0x73) == 0x7320646e
  {
  }

  lemma SecondBlockWord1()
    ensures Word(FROM_13, 4) == 0x6e657665
  {
    WordIs(FROM_13, 4, 0x65, 0x76, 0x65, 0x6e);
    SecondBlockQuad1();
  }

  lemma SecondBlockQuad1()
    ensures Quad(0x65, 0x76, 0x65, 0x6e) == 0x6e657665
  {
  }

  lemma SecondBlockWord2()
    ensures Word(FROM_13, 8) == 0x61657920
  {
    WordIs(FROM_13, 8, 0x20, 0x79, 0x65, 0x61);
    SecondBlockQuad2();
  }

  lemma SecondBlockQuad2()
    ensures Quad(0x20, 0x79, 0x65, 0x61) == 0x61657920
  {
  }

  lemma LastBlockWord0()
    ensures Word(FROM_25, 0) == 0x61207372
  {
    WordIs(FROM_25, 0, 0x72, 0x73, 0x20, 0x61);
    LastBlockQuad0();
  }

  lemma LastBlockQuad0()
    ensures Quad(0x72, 0x73, 0x20, 0x61) == 0x61207372
  {
  }

  lemma LastBlockWord1()
    ensures Word(FROM_25, 4) == 0x00006f67
  {
    WordIs(FROM_25, 4, 0x67, 0x6f, 0x00, 0x00);
    LastBlockQuad1();
  }

  lemma LastBlockQuad1()
    ensures Quad(0x67, 0x6f, 0x00, 0x00) == 0x00006f67
  {
  }

  lemma LastBlockWord2()
    ensures Word(FROM_25, 8) == 0x00000000
  {
    WordIs(FROM_25, 8, 0x00, 0x00, 0x00, 0x00);
    LastBlockQuad2();
  }

  lemma LastBlockQuad2()
    ensures Quad(0x00, 0x00, 0x00, 0x00) == 0x00000000
  {
  }

  lemma RestOfKey()
    ensures FOUR_SCORE[12..] == FROM_13 && FROM_13[12..] == FROM_25
  {
  }

  /** The words of the long key: two blocks, and six bytes. */
  predicate LongWords(k: seq<bv8>) {
    && |k| == 30
    && Word(k, 0) == 0x72756f46 && Word(k, 4) == 0x6f637320 && Word(k, 8) == 0x61206572
    && Word(k[12..], 0) == 0x7320646e && Word(k[12..], 4) == 0x6e657665 && Word(k[12..], 8) == 0x61657920
    && Word(k[12..][12..], 0) == 0x61207372 && Word(k[12..][12..], 4) == 0x6f67 && Word(k[12..][12..], 8) == 0
  }

  lemma FourScoreWords()
    ensures LongWords(FOUR_SCORE)
  {
    RestOfKey();
    KeyLength();
    FirstBlockWord0();
    FirstBlockWord1();
    FirstBlockWord2();
    SecondBlockWord0();
    SecondBlockWord1();
    SecondBlockWord2();
    LastBlockWord0();
    LastBlockWord1();
    LastBlockWord2();
  }

  lemma Lengths()
    ensures U32(0) == 0 && U32(1) == 1 && U32(30) == 30
  {
    UpTo10();
    UpTo20();
    assert U32(21) == 21;
    assert U32(22) == 22;
    assert U32(23) == 23;
    assert U32(24) == 24;
    assert U32(25) == 25;
    assert U32(26) == 26;
    assert U32(27) == 27;
    assert U32(28) == 28;
    assert U32(29) == 29;
    assert U32(30) == 30;
  }

  lemma UpTo10()
    ensures U32(10) == 10
  {
    assert U32(1) == 1;
    assert U32(2) == 2;
    assert U32(3) == 3;
    assert U32(4) == 4;
    assert U32(5) == 5;
    assert U32(6) == 6;
    assert U32(7) == 7;
    assert U32(8) == 8;
    assert U32(9) == 9;
  }

  lemma UpTo20()
    ensures U32(20) == 20
  {
    UpTo10();
    assert U32(11) == 11;
    assert U32(12) == 12;
    assert U32(13) == 13;
    assert U32(14) == 14;
    assert U32(15) == 15;
    assert U32(16) == 16;
    assert U32(17) == 17;
    assert U32(18) == 18;
    assert U32(19) == 19;
  }

  lemma HashIs(k: seq<bv8>, initval: bv32, v: bv32, t: State)
    requires Start(|k|, initval) == v && Digest(State(v, v, v), k) == t
    ensures HashLittle(k, initval) == t.c
  {
  }

  lemma StartIs(k: seq<bv8>, initval: bv32)
    requires |k| == 30
    ensures Start(|k|, initval) == Add(0xdeadbf0d, initval)
  {
    Lengths();
    assert Add(0xdeadbeef, 30) == 0xdeadbf0d;
  }

  lemma StartSums()
    ensures Add(0xdeadbf0d, 0) == 0xdeadbf0d && Add(0xdeadbf0d, 1) == 0xdeadbf0e && Add(0xdeadbf0e, 0) == 0xdeadbf0e
  {
  }

  lemma KeyLength()
    ensures |FOUR_SCORE| == 30
  {
  }

  /** The digest of a key with these words, block by block. */
  lemma DigestOfBlocks(s: State, t: State, u: State, k: seq<bv8>)
    requires LongWords(k)
    requires t == Mix(State(Add(s.a, 0x72756f46), Add(s.b, 0x6f637320), Add(s.c, 0x61206572)))
    requires u == Mix(State(Add(t.a, 0x7320646e), Add(t.b, 0x6e657665), Add(t.c, 0x61657920)))
    ensures Digest(s, k) == Final(State(Add(u.a, 0x61207372), Add(u.b, 0x6f67), Add(u.c, 0)))
  {
    assert Digest(s, k) == Digest(t, k[12..]);
    assert Digest(t, k[12..]) == Digest(u, k[12..][12..]);
  }

  lemma FirstMixZero()
    ensures Mix(State(0x51232e53, 0x4e11322d, 0x3fce247f)) == State(0xf859ad7a, 0x04bc57ae, 0x40dddd7e)
  {
    assert Round(State(0x51232e53, 0x4e11322d, 0x3fce247f), 4) == State(0x4e11322d, 0x8ddf56ac, 0xedb74e27);
    assert Round(State(0x4e11322d, 0x8ddf56ac, 0xedb74e27), 6) == State(0x8ddf56ac, 0x7b96a4d3, 0x0d8a6dfd);
    assert Round(State(0x8ddf56ac, 0x7b96a4d3, 0x0d8a6dfd), 8) == State(0x7b96a4d3, 0x892112d0, 0x0a3915a2);
    assert Round(State(0x7b96a4d3, 0x892112d0, 0x0a3915a2), 16) == State(0x892112d0, 0x935a2872, 0x64ff8508);
    assert Round(State(0x892112d0, 0x935a2872, 0x64ff8508), 19) == State(0x935a2872, 0xf859ad7a, 0x0c62aa34);
    assert Round(State(0x935a2872, 0xf859ad7a, 0x0c62aa34), 4) == State(0xf859ad7a, 0x04bc57ae, 0x40dddd7e);
  }

  lemma SecondMixZero()
    ensures Mix(State(0x6b7a11e8, 0x7321ce13, 0xa243569e)) == State(0x336aded2, 0x059f2642, 0xbd02ebd5)
  {
    assert Round(State(0x6b7a11e8, 0x7321ce13, 0xa243569e), 4) == State(0x7321ce13, 0x156524b1, 0xed03d2a0);
    assert Round(State(0x7321ce13, 0x156524b1, 0xed03d2a0), 6) == State(0x156524b1, 0x0268f751, 0xc6e95348);
    assert Round(State(0x156524b1, 0x0268f751, 0xc6e95348), 8) == State(0x0268f751, 0xc9524a99, 0xa72899af);
    assert Round(State(0x0268f751, 0xc9524a99, 0xa72899af), 16) == State(0xc9524a99, 0x707ae448, 0xc2effa8a);
    assert Round(State(0xc9524a99, 0x707ae448, 0xc2effa8a), 19) == State(0x707ae448, 0x336aded2, 0xd2344770);
    assert Round(State(0x707ae448, 0x336aded2, 0xd2344770), 4) == State(0x336aded2, 0x059f2642, 0xbd02ebd5);
  }

  lemma LastMixZero()
    ensures Final(State(0x948b5244, 0x059f95a9, 0xbd02ebd5)) == State(0x9a837816, 0xce7226e6, 0x17770551)
  {
    assert FinalRound(State(0xbd02ebd5, 0x059f95a9, 0x948b5244), 14) == State(0x948b5244, 0xd3333d15, 0x059f95a9);
    assert FinalRound(State(0x948b5244, 0xd3333d15, 0x059f95a9), 11) == State(0x059f95a9, 0xadcfc0b8, 0xd3333d15);
    assert FinalRound(State(0x059f95a9, 0xadcfc0b8, 0xd3333d15), 25) == State(0xd3333d15, 0x36f4b590, 0xadcfc0b8);
    assert FinalRound(State(0xd3333d15, 0x36f4b590, 0xadcfc0b8), 16) == State(0xadcfc0b8, 0x30375191, 0x36f4b590);
    assert FinalRound(State(0xadcfc0b8, 0x30375191, 0x36f4b590), 4) == State(0x36f4b590, 0x9a837816, 0x30375191);
    assert FinalRound(State(0x36f4b590, 0x9a837816, 0x30375191), 14) == State(0x30375191, 0xce7226e6, 0x9a837816);
    assert FinalRound(State(0x30375191, 0xce7226e6, 0x9a837816), 24) == State(0x9a837816, 0x17770551, 0xce7226e6);
  }

  lemma DigestZero(k: seq<bv8>)
    requires LongWords(k)
    ensures Digest(State(0xdeadbf0d, 0xdeadbf0d, 0xdeadbf0d), k) == State(0x9a837816, 0xce7226e6, 0x17770551)
  {
    FirstMixZero();
    SecondMixZero();
    LastMixZero();
    DigestOfBlocks(State(0xdeadbf0d, 0xdeadbf0d, 0xdeadbf0d), State(0xf859ad7a, 0x04bc57ae, 0x40dddd7e),
                   State(0x336aded2, 0x059f2642, 0xbd02ebd5), k);
  }

  lemma FirstMixOne()
    ensures Mix(State(0x51232e54, 0x4e11322e, 0x3fce2480)) == State(0x9fb9ade6, 0x89211ba9, 0x3ffff143)
  {
    assert Round(State(0x51232e54, 0x4e11322e, 0x3fce2480), 4) == State(0x4e11322e, 0x8ddf56ae, 0xedb741d7);
    assert Round(State(0x4e11322e, 0x8ddf56ae, 0xedb741d7), 6) == State(0x8ddf56ae, 0x7b969885, 0x0d8985ac);
    assert Round(State(0x8ddf56ae, 0x7b969885, 0x0d8985ac), 8) == State(0x7b969885, 0x89201e31, 0x09d07d0f);
    assert Round(State(0x7b969885, 0x89201e31, 0x09d07d0f), 16) == State(0x89201e31, 0x92f09b40, 0x0cc912a6);
    assert Round(State(0x89201e31, 0x92f09b40, 0x0cc912a6), 19) == State(0x92f09b40, 0x9fb9ade6, 0xe9676dc3);
    assert Round(State(0x92f09b40, 0x9fb9ade6, 0xe9676dc3), 4) == State(0x9fb9ade6, 0x89211ba9, 0x3ffff143);
  }

  lemma SecondMixOne()
    ensures Mix(State(0x12da1254, 0xf786920e, 0xa1656a63)) == State(0xd68042ad, 0x488e0a5d, 0xab16e7b2)
  {
    assert Round(State(0x12da1254, 0xf786920e, 0xa1656a63), 4) == State(0xf786920e, 0x98ebfc71, 0x672201cb);
    assert Round(State(0xf786920e, 0x98ebfc71, 0x672201cb), 6) == State(0x98ebfc71, 0x000dfe3c, 0x58e4e29a);
    assert Round(State(0x98ebfc71, 0x000dfe3c, 0x58e4e29a), 8) == State(0x000dfe3c, 0x58f2e0d6, 0xa4e5838f);
    assert Round(State(0x000dfe3c, 0x58f2e0d6, 0xa4e5838f), 16) == State(0x58f2e0d6, 0xfdd86465, 0xd8a7de48);
    assert Round(State(0x58f2e0d6, 0xfdd86465, 0xd8a7de48), 19) == State(0xfdd86465, 0xd68042ad, 0x720dc7b0);
    assert Round(State(0xfdd86465, 0xd68042ad, 0x720dc7b0), 4) == State(0xd68042ad, 0x488e0a5d, 0xab16e7b2);
  }

  lemma LastMixOne()
    ensures Final(State(0x37a0b61f, 0x488e79c4, 0xab16e7b2)) == State(0x1336f927, 0x6cbea4b3, 0xcd628161)
  {
    assert FinalRound(State(0xab16e7b2, 0x488e79c4, 0x37a0b61f), 14) == State(0x37a0b61f, 0x45278c53, 0x488e79c4);
    assert FinalRound(State(0x37a0b61f, 0x45278c53, 0x488e79c4), 11) == State(0x488e79c4, 0x3624a023, 0x45278c53);
    assert FinalRound(State(0x488e79c4, 0x3624a023, 0x45278c53), 25) == State(0x45278c53, 0x383e90a7, 0x3624a023);
    assert FinalRound(State(0x45278c53, 0x383e90a7, 0x3624a023), 16) == State(0x3624a023, 0xec71e4b6, 0x383e90a7);
    assert FinalRound(State(0x3624a023, 0xec71e4b6, 0x383e90a7), 4) == State(0x383e90a7, 0x1336f927, 0xec71e4b6);
    assert FinalRound(State(0x383e90a7, 0x1336f927, 0xec71e4b6), 14) == State(0xec71e4b6, 0x6cbea4b3, 0x1336f927);
    assert FinalRound(State(0xec71e4b6, 0x6cbea4b3, 0x1336f927), 24) == State(0x1336f927, 0xcd628161, 0x6cbea4b3);
  }

  lemma DigestOne(k: seq<bv8>)
    requires LongWords(k)
    ensures Digest(State(0xdeadbf0e, 0xdeadbf0e, 0xdeadbf0e), k) == State(0x1336f927, 0x6cbea4b3, 0xcd628161)
  {
    FirstMixOne();
    SecondMixOne();
    LastMixOne();
    DigestOfBlocks(State(0xdeadbf0e, 0xdeadbf0e, 0xdeadbf0e), State(0x9fb9ade6, 0x89211ba9, 0x3ffff143),
                   State(0xd68042ad, 0x488e0a5d, 0xab16e7b2), k);
  }

  lemma FirstMixSecond()
    ensures Mix(State(0x51232e53, 0x4e11322d, 0x3fce2480)) == State(0x5880bf0f, 0x0507c285, 0x2e1afadd)
  {
    assert Round(State(0x51232e53, 0x4e11322d, 0x3fce2480), 4) == State(0x4e11322d, 0x8ddf56ad, 0xedb741d0);
    assert Round(State(0x4e11322d, 0x8ddf56ad, 0xedb741d0), 6) == State(0x8ddf56ad, 0x7b96987d, 0x0d898466);
    assert Round(State(0x8ddf56ad, 0x7b96987d, 0x0d898466), 8) == State(0x7b96987d, 0x89201ce3, 0x09d1b44a);
    assert Round(State(0x7b96987d, 0x89201ce3, 0x09d1b44a), 16) == State(0x89201ce3, 0x92f1d12d, 0xc58eede2);
    assert Round(State(0x89201ce3, 0x92f1d12d, 0xc58eede2), 19) == State(0x92f1d12d, 0x5880bf0f, 0xac870376);
    assert Round(State(0x92f1d12d, 0x5880bf0f, 0xac870376), 4) == State(0x5880bf0f, 0x0507c285, 0x2e1afadd);
  }

  lemma SecondMixSecond()
    ensures Mix(State(0xcba1237d, 0x736d38ea, 0x8f8073fd)) == State(0xf0a95c6c, 0x6ea72b3e, 0x327297d5)
  {
    assert Round(State(0xcba1237d, 0x736d38ea, 0x8f8073fd), 4) == State(0x736d38ea, 0x02edace7, 0xc4279058);
    assert Round(State(0x736d38ea, 0x02edace7, 0xc4279058), 6) == State(0x02edace7, 0xc7153d3f, 0xa6a1bea3);
    assert Round(State(0x02edace7, 0xc7153d3f, 0xa6a1bea3), 8) == State(0xc7153d3f, 0x6db6fbe2, 0xfdf54de2);
    assert Round(State(0xc7153d3f, 0x6db6fbe2, 0xfdf54de2), 16) == State(0x6db6fbe2, 0x6bac49c4, 0x84fd12a8);
    assert Round(State(0x6db6fbe2, 0x6bac49c4, 0x84fd12a8), 19) == State(0x6bac49c4, 0xf0a95c6c, 0x7dfdced2);
    assert Round(State(0x6bac49c4, 0xf0a95c6c, 0x7dfdced2), 4) == State(0xf0a95c6c, 0x6ea72b3e, 0x327297d5);
  }

  lemma LastMixSecond()
    ensures Final(State(0x51c9cfde, 0x6ea79aa5, 0x327297d5)) == State(0x6cd40950, 0xbd371de4, 0xe3607cae)
  {
    assert FinalRound(State(0x327297d5, 0x6ea79aa5, 0x51c9cfde), 14) == State(0x51c9cfde, 0x762bb1c7, 0x6ea79aa5);
    assert FinalRound(State(0x51c9cfde, 0x762bb1c7, 0x6ea79aa5), 11) == State(0x6ea79aa5, 0xca544268, 0x762bb1c7);
    assert FinalRound(State(0x6ea79aa5, 0xca544268, 0x762bb1c7), 25) == State(0x762bb1c7, 0xd35f3049, 0xca544268);
    assert FinalRound(State(0x762bb1c7, 0xd35f3049, 0xca544268), 16) == State(0xca544268, 0x752aae2f, 0xd35f3049);
    assert FinalRound(State(0xca544268, 0x752aae2f, 0xd35f3049), 4) == State(0xd35f3049, 0x6cd40950, 0x752aae2f);
    assert FinalRound(State(0xd35f3049, 0x6cd40950, 0x752aae2f), 14) == State(0x752aae2f, 0xbd371de4, 0x6cd40950);
    assert FinalRound(State(0x752aae2f, 0xbd371de4, 0x6cd40950), 24) == State(0x6cd40950, 0xe3607cae, 0xbd371de4);
  }

  lemma DigestSecond(k: seq<bv8>)
    requires LongWords(k)
    ensures Digest(State(0xdeadbf0d, 0xdeadbf0d, 0xdeadbf0e), k) == State(0x6cd40950, 0xbd371de4, 0xe3607cae)
  {
    FirstMixSecond();
    SecondMixSecond();
    LastMixSecond();
    DigestOfBlocks(State(0xdeadbf0d, 0xdeadbf0d, 0xdeadbf0e), State(0x5880bf0f, 0x0507c285, 0x2e1afadd),
                   State(0xf0a95c6c, 0x6ea72b3e, 0x327297d5), k);
  }

  lemma LastMixA()
    ensures Final(State(0xdeadbf51, 0xdeadbef0, 0xdeadbef0)) == State(0x9d14722c, 0x582647ac, 0x58d68708)
  {
    assert FinalRound(State(0xdeadbef0, 0xdeadbef0, 0xdeadbf51), 14) == State(0xdeadbf51, 0x9043c855, 0xdeadbef0);
    assert FinalRound(State(0xdeadbf51, 0x9043c855, 0xdeadbef0), 11) == State(0xdeadbef0, 0x30abca82, 0x9043c855);
    assert FinalRound(State(0xdeadbef0, 0x30abca82, 0x9043c855), 25) == State(0x9043c855, 0xe9a51cdd, 0x30abca82);
    assert FinalRound(State(0x9043c855, 0xe9a51cdd, 0x30abca82), 16) == State(0x30abca82, 0x5d08eae3, 0xe9a51cdd);
    assert FinalRound(State(0x30abca82, 0x5d08eae3, 0xe9a51cdd), 4) == State(0xe9a51cdd, 0x9d14722c, 0x5d08eae3);
    assert FinalRound(State(0xe9a51cdd, 0x9d14722c, 0x5d08eae3), 14) == State(0x5d08eae3, 0x582647ac, 0x9d14722c);
    assert FinalRound(State(0x5d08eae3, 0x582647ac, 0x9d14722c), 24) == State(0x9d14722c, 0x58d68708, 0x582647ac);
  }

  /** The empty key hashes to the constant the hash starts from. */
  lemma EmptyKey()
    ensures HashLittle([], 0) == 0xdeadbeef
  {
    Lengths();
  }

  /** A key of one byte. */
  lemma OneByte()
    ensures HashLittle([0x61], 0) == 0x58d68708
  {
    Lengths();
    var k: seq<bv8> := [0x61];
    assert Start(|k|, 0) == 0xdeadbef0;
    assert Word(k, 0) == 0x61 && Word(k, 4) == 0 && Word(k, 8) == 0;
    assert Absorb(State(0xdeadbef0, 0xdeadbef0, 0xdeadbef0), k) == State(0xdeadbf51, 0xdeadbef0, 0xdeadbef0);
    LastMixA();
  }

  /** The published values for a key of two whole blocks and a part, with first seeds 0 and 1. */
  lemma FourScore(k: seq<bv8>)
    requires k == FOUR_SCORE
    ensures HashLittle(k, 0) == 0x17770551 && HashLittle(k, 1) == 0xcd628161
  {
    FourScoreWords();
    StartIs(k, 0);
    StartIs(k, 1);
    DigestZero(k);
    DigestOne(k);
    HashIs(k, 0, 0xdeadbf0d, State(0x9a837816, 0xce7226e6, 0x17770551));
    HashIs(k, 1, 0xdeadbf0e, State(0x1336f927, 0x6cbea4b3, 0xcd628161));
  }

  /** The state both outputs are taken from. */
  function Both(k: seq<bv8>, pc: bv32, pb: bv32): State {
    var v := Start(|k|, pc);
    Digest(State(v, v, Add(v, pb)), k)
  }

  lemma BothAre(k: seq<bv8>, pc: bv32, pb: bv32, v: bv32, w: bv32, t: State)
    requires Start(|k|, pc) == v && Add(v, pb) == w && Digest(State(v, v, w), k) == t
    ensures Both(k, pc, pb) == t
  {
  }

  lemma BothZero(k: seq<bv8>)
    requires LongWords(k)
    ensures Both(k, 0, 0) == State(0x9a837816, 0xce7226e6, 0x17770551)
  {
    StartIs(k, 0);
    DigestZero(k);
    StartSums();
    BothAre(k, 0, 0, 0xdeadbf0d, 0xdeadbf0d, State(0x9a837816, 0xce7226e6, 0x17770551));
  }

  lemma BothOne(k: seq<bv8>)
    requires LongWords(k)
    ensures Both(k, 1, 0) == State(0x1336f927, 0x6cbea4b3, 0xcd628161)
  {
    StartIs(k, 1);
    DigestOne(k);
    StartSums();
    BothAre(k, 1, 0, 0xdeadbf0e, 0xdeadbf0e, State(0x1336f927, 0x6cbea4b3, 0xcd628161));
  }

  lemma BothSecond(k: seq<bv8>)
    requires LongWords(k)
    ensures Both(k, 0, 1) == State(0x6cd40950, 0xbd371de4, 0xe3607cae)
  {
    StartIs(k, 0);
    DigestSecond(k);
    StartSums();
    BothAre(k, 0, 1, 0xdeadbf0d, 0xdeadbf0e, State(0x6cd40950, 0xbd371de4, 0xe3607cae));
  }

  /** And those of both outputs, for the seeds (0, 0), (1, 0) and (0, 1). */
  lemma FourScoreTwice(k: seq<bv8>)
    requires k == FOUR_SCORE
    ensures Both(k, 0, 0).c == 0x17770551 && Both(k, 0, 0).b == 0xce7226e6
    ensures Both(k, 1, 0).c == 0xcd628161 && Both(k, 1, 0).b == 0x6cbea4b3
    ensures Both(k, 0, 1).c == 0xe3607cae && Both(k, 0, 1).b == 0xbd371de4
  {
    FourScoreWords();
    BothZero(k);
    BothOne(k);
    BothSecond(k);
  }
}
