/** A codec that keeps the promises made of the compressor, so that they are known to be
    consistent: each byte is stored behind a one, and a zero ends the stream. */
module StoredCodec {
  import opened Codec

  /** Output not yet given, and whether the stream is being finished. */
  datatype Held = Held(bytes: seq<Byte>, finishing: bool)

  function Stored(p: seq<Byte>): seq<Byte> {
    if p == [] then [] else [1, p[0]] + Stored(p[1..])
  }

  function Compress(s: Held, input: seq<Byte>, room: nat, finish: bool): Step<Held> {
    if room == 0 then Step(s, 0, [], BufError)
    else if !finish then
      var all := s.bytes + Stored(input);
      if |all| <= room then Step(Held([], s.finishing), |input|, all, Ok)
      else Step(Held(all[room..], s.finishing), |input|, all[..room], Ok)
    else
      var all := if s.finishing then s.bytes else s.bytes + [0];
      if |all| <= room then Step(Held([], true), 0, all, StreamEnd)
      else Step(Held(all[room..], true), 0, all[..room], Ok)
  }

  predicate Running(s: Held, finishing: bool, p: seq<Byte>, o: seq<Byte>) {
    s.finishing == finishing && o + s.bytes == Stored(p) + (if finishing then [0] else [])
  }

  function Pending(s: Held): nat {
    |s.bytes| + (if s.finishing then 0 else 1)
  }

  /** The state of the decompressor: whether the mark of a byte was taken. */
  function Decompress(marked: bool, input: seq<Byte>, room: nat): Step<bool>
    decreases |input|
  {
    if input == [] || room == 0 then Step(marked, 0, [], Ok)
    else if marked then
      var r := Decompress(false, input[1..], room - 1);
      Step(r.state, r.consumed + 1, [input[0]] + r.emitted, r.status)
    else if input[0] == 0 then Step(false, 1, [], StreamEnd)
    else
      var r := Decompress(true, input[1..], room);
      Step(r.state, r.consumed + 1, r.emitted, r.status)
  }

  predicate Inflated(marked: bool, zin: seq<Byte>, pout: seq<Byte>) {
    zin == Stored(pout) + (if marked then [1] else [])
  }

  predicate Encodes(z: seq<Byte>, p: seq<Byte>) {
    z == Stored(p) + [0]
  }

  const STORED := Codec(Held([], false), Compress, Running, Pending, false, Decompress, Inflated, Encodes)

  lemma {:induction false} StoredAppend(a: seq<Byte>, b: seq<Byte>)
    ensures Stored(a + b) == Stored(a) + Stored(b)
  {
    if a == [] {
      assert a + b == b;
    } else {
      assert (a + b)[1..] == a[1..] + b;
      StoredAppend(a[1..], b);
    }
  }

  lemma CompressOk(s: Held, p: seq<Byte>, o: seq<Byte>, input: seq<Byte>, room: nat)
    requires Running(s, false, p, o) && input != [] && room > 0
    ensures DeflateStepOk(STORED, s, p, o, input, room)
  {
    var all := s.bytes + Stored(input);
    AllIsRunning(s, p, o, input);
    assert input[..|input|] == input;
    if |all| > room {
      assert o + all[..room] + all[room..] == o + all;
    } else {
      assert o + all + [] == o + all;
    }
  }

  lemma AllIsRunning(s: Held, p: seq<Byte>, o: seq<Byte>, input: seq<Byte>)
    requires Running(s, false, p, o)
    ensures o + (s.bytes + Stored(input)) == Stored(p + input)
  {
    StoredAppend(p, input);
    assert o + (s.bytes + Stored(input)) == o + s.bytes + Stored(input);
    assert Stored(p) + [] == Stored(p);
  }

  lemma FinishOk(s: Held, f: bool, p: seq<Byte>, o: seq<Byte>, room: nat)
    requires Running(s, f, p, o) && room > 0
    ensures FinishStepOk(STORED, s, p, o, room)
  {
    var all := if s.finishing then s.bytes else s.bytes + [0];
    if !s.finishing {
      assert o + (s.bytes + [0]) == o + s.bytes + [0];
      assert Stored(p) + [] == Stored(p);
    }
    assert o + all == Stored(p) + [0];
    if |all| > room {
      assert o + all[..room] + all[room..] == o + all;
    }
  }

  lemma KeepsDeflatePromises()
    ensures DeflateOk(STORED)
  {
    assert [] + Held([], false).bytes == Stored([]) + [];
    forall s: Held, p, o, input, room: nat | STORED.running(s, false, p, o) && input != [] && room > 0
      ensures DeflateStepOk(STORED, s, p, o, input, room)
    {
      CompressOk(s, p, o, input, room);
    }
    forall s: Held, f, p, o, room: nat | STORED.running(s, f, p, o) && room > 0
      ensures FinishStepOk(STORED, s, p, o, room)
    {
      FinishOk(s, f, p, o, room);
    }
  }

  /** What a stream still holds when `q` is to come. */
  function Rest(marked: bool, q: seq<Byte>): seq<Byte>
    requires marked ==> q != []
  {
    (if marked then [q[0]] + Stored(q[1..]) else Stored(q)) + [0]
  }

  /** What decompressing does with input that continues a stream. */
  ghost predicate Takes(marked: bool, q: seq<Byte>, input: seq<Byte>, room: nat, r: Step<bool>)
    requires marked ==> q != []
  {
    var rest := Rest(marked, q);
    && r.consumed <= |input| && r.consumed <= |rest| && |r.emitted| <= room && r.emitted <= q
    && r.status != BufError && (r.status == StreamEnd <==> r.consumed == |rest|)
    && (r.status == StreamEnd ==> r.emitted == q)
    && (r.status == Ok ==> r.consumed == |input| || |r.emitted| == room)
    && (r.status == Ok && r.state ==> |r.emitted| < |q|)
    && (r.status == Ok ==> rest[r.consumed..] == Rest(r.state, q[|r.emitted|..]))
  }

  lemma {:induction false} DecompressTakes(marked: bool, q: seq<Byte>, input: seq<Byte>, room: nat)
    requires (marked ==> q != []) && Comparable(input, Rest(marked, q))
    ensures Takes(marked, q, input, room, Decompress(marked, input, room))
    decreases |input|
  {
    if input == [] || room == 0 {
      TakesNothing(marked, q, input, room);
    } else if marked {
      RestFront(q);
      TailContinues(input, Rest(true, q), q[0], Rest(false, q[1..]));
      DecompressTakes(false, q[1..], input[1..], room - 1);
      TakesByte(q, input, room, Decompress(false, input[1..], room - 1));
    } else if q != [] {
      RestFront(q);
      TailContinues(input, Rest(false, q), 1, Rest(true, q));
      DecompressTakes(true, q, input[1..], room);
      TakesMark(q, input, room, Decompress(true, input[1..], room));
    }
  }

  lemma TakesNothing(marked: bool, q: seq<Byte>, input: seq<Byte>, room: nat)
    requires (marked ==> q != []) && (input == [] || room == 0)
    ensures Takes(marked, q, input, room, Step(marked, 0, [], Ok))
  {
    var rest := Rest(marked, q);
    assert rest[0..] == rest && q[0..] == q;
  }

  lemma RestFront(q: seq<Byte>)
    requires q != []
    ensures Rest(true, q) == [q[0]] + Rest(false, q[1..])
    ensures Rest(false, q) == [1] + Rest(true, q)
  {
    Associate([q[0]], Stored(q[1..]), [0]);
    StoredFront(q);
    Regroup([], [1], [q[0]], Stored(q[1..]), [0]);
  }

  lemma TailContinues(input: seq<Byte>, rest: seq<Byte>, b: Byte, w: seq<Byte>)
    requires input != [] && rest == [b] + w && Comparable(input, rest)
    ensures input == [b] + input[1..] && Comparable(input[1..], w)
  {
    assert rest[1..] == w;
  }

  lemma TakesByte(q: seq<Byte>, input: seq<Byte>, room: nat, r: Step<bool>)
    requires q != [] && input != [] && room > 0 && Takes(false, q[1..], input[1..], room - 1, r)
    ensures Takes(true, q, input, room, Step(r.state, r.consumed + 1, [q[0]] + r.emitted, r.status))
  {
    var rest := Rest(true, q);
    RestFront(q);
    assert q == [q[0]] + q[1..];
    assert rest[r.consumed + 1..] == Rest(false, q[1..])[r.consumed..];
    assert q[1..][|r.emitted|..] == q[|r.emitted| + 1..];
  }

  lemma TakesMark(q: seq<Byte>, input: seq<Byte>, room: nat, r: Step<bool>)
    requires q != [] && input != [] && room > 0 && Takes(true, q, input[1..], room, r)
    ensures Takes(false, q, input, room, Step(r.state, r.consumed + 1, r.emitted, r.status))
  {
    var rest := Rest(false, q);
    RestFront(q);
    assert rest[r.consumed + 1..] == Rest(true, q)[r.consumed..];
  }

  lemma DecompressOk(marked: bool, zin: seq<Byte>, pout: seq<Byte>, z: seq<Byte>, p: seq<Byte>, input: seq<Byte>,
                     room: nat)
    requires Inflated(marked, zin, pout) && Encodes(z, p) && zin < z && pout <= p && input != [] && room > 0
    requires Comparable(input, z[|zin|..])
    ensures InflateStepOk(STORED, marked, zin, pout, z, p, input, room)
  {
    var q := p[|pout|..];
    StillToCome(marked, zin, pout, z, p, q);
    DecompressTakes(marked, q, input, room);
    var r := Decompress(marked, input, room);
    assert p[..|pout| + |r.emitted|] == pout + r.emitted;
    if r.status == Ok {
      TakenSoFar(marked, zin, pout, z, q, r, input, room);
    }
  }

  lemma StillToCome(marked: bool, zin: seq<Byte>, pout: seq<Byte>, z: seq<Byte>, p: seq<Byte>, q: seq<Byte>)
    requires Inflated(marked, zin, pout) && Encodes(z, p) && zin < z && p == pout + q
    ensures (marked ==> q != []) && z == zin + Rest(marked, q) && z[|zin|..] == Rest(marked, q)
  {
    StoredAppend(pout, q);
    assert Stored([]) == [];
    assert |zin| < |z| && |z| == |Stored(pout)| + |Stored(q)| + 1;
    assert marked ==> q != [];
  }

  lemma CancelSuffix(x: seq<Byte>, y: seq<Byte>, w: seq<Byte>)
    requires x + w == y + w
    ensures x == y
  {
    assert |x| == |y|;
    assert (x + w)[..|x|] == x && (y + w)[..|y|] == y;
  }

  lemma Regroup(s: seq<Byte>, m: seq<Byte>, x: seq<Byte>, t: seq<Byte>, e: seq<Byte>)
    ensures (s + m) + (x + t + e) == s + (m + x + t) + e
  {
  }

  lemma SplitStored(marked: bool, p: seq<Byte>, q: seq<Byte>)
    requires marked ==> q != []
    ensures (Stored(p) + (if marked then [1] else [])) + Rest(marked, q) == Stored(p) + Stored(q) + [0]
  {
    var s := Stored(p);
    if marked {
      var x, t := [q[0]], Stored(q[1..]);
      StoredFront(q);
      Regroup(s, [1], x, t, [0]);
    } else {
      assert s + [] == s;
      Associate(s, Stored(q), [0]);
    }
  }

  lemma StoredFront(q: seq<Byte>)
    requires q != []
    ensures Stored(q) == [1] + [q[0]] + Stored(q[1..])
  {
    assert [1, q[0]] == [1] + [q[0]];
  }

  lemma Associate(a: seq<Byte>, b: seq<Byte>, c: seq<Byte>)
    ensures a + (b + c) == a + b + c
  {
  }

  lemma TakenSoFar(marked: bool, zin: seq<Byte>, pout: seq<Byte>, z: seq<Byte>, q: seq<Byte>, r: Step<bool>,
                   input: seq<Byte>, room: nat)
    requires (marked ==> q != []) && z == Stored(pout + q) + [0] && z == zin + Rest(marked, q)
    requires r.status == Ok && Comparable(input, Rest(marked, q)) && Takes(marked, q, input, room, r)
    ensures Inflated(r.state, zin + input[..r.consumed], pout + r.emitted)
  {
    var q', n, rest := q[|r.emitted|..], r.consumed, Rest(marked, q);
    assert pout + q == (pout + r.emitted) + q';
    StoredAppend(pout + r.emitted, q');
    SplitStored(r.state, pout + r.emitted, q');
    assert input[..n] == rest[..n];
    SplitAt(zin, rest, n);
    CancelSuffix(zin + input[..n], Stored(pout + r.emitted) + (if r.state then [1] else []), Rest(r.state, q'));
  }

  lemma SplitAt(a: seq<Byte>, b: seq<Byte>, n: nat)
    requires n <= |b|
    ensures (a + b[..n]) + b[n..] == a + b
  {
  }

  lemma KeepsInflatePromises()
    ensures InflateOk(STORED)
  {
    assert Stored([]) + [] == [];
    forall t: bool, zin, pout, z, p, input, room: nat |
      STORED.inflated(t, zin, pout) && STORED.encodes(z, p) && zin < z && pout <= p && input != [] && room > 0 &&
        Comparable(input, z[|zin|..])
      ensures InflateStepOk(STORED, t, zin, pout, z, p, input, room)
    {
      DecompressOk(t, zin, pout, z, p, input, room);
    }
  }
}
