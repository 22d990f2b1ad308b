/** Bytes, and the streaming compressor the log container is written against.

    The compression library is not part of this model: a codec is any pair of step
    functions that keeps the promises stated here, which are zlib's. */
module Codec {

  type Byte = b: int | 0 <= b < 256

  datatype Status = Ok | StreamEnd | BufError

  /** What one call of the compressor did: the input it took and the output it gave. */
  datatype Step<S> = Step(state: S, consumed: nat, emitted: seq<Byte>, status: Status)

  /** `deflate(state, input, room, finish)` and `inflate(state, input, room)` are the calls;
      `running` and `inflated` relate a state to the bytes it took and gave since the last
      reset; `pending` bounds the output still held back. */
  datatype Codec<!S, !T> = Codec(
    deflateInit: S,
    deflate: (S, seq<Byte>, nat, bool) -> Step<S>,
    running: (S, bool, seq<Byte>, seq<Byte>) -> bool,
    pending: S -> nat,
    inflateInit: T,
    inflate: (T, seq<Byte>, nat) -> Step<T>,
    inflated: (T, seq<Byte>, seq<Byte>) -> bool,
    encodes: (seq<Byte>, seq<Byte>) -> bool)

  /** A compressing call without flush takes all its input or fills all its room. */
  ghost predicate DeflateStepOk<S, T>(c: Codec<S, T>, s: S, p: seq<Byte>, o: seq<Byte>, input: seq<Byte>, room: nat) {
    var r := c.deflate(s, input, room, false);
    && r.status == Ok && r.consumed <= |input| && |r.emitted| <= room
    && (r.consumed == |input| || |r.emitted| == room)
    && (r.consumed > 0 || c.pending(r.state) < c.pending(s))
    && c.running(r.state, false, p + input[..r.consumed], o + r.emitted)
  }

  /** A finishing call ends the stream or fills all its room. */
  ghost predicate FinishStepOk<S, T>(c: Codec<S, T>, s: S, p: seq<Byte>, o: seq<Byte>, room: nat) {
    var r := c.deflate(s, [], room, true);
    && r.consumed == 0 && |r.emitted| <= room
    && (r.status == StreamEnd || r.status == Ok)
    && (r.status == StreamEnd ==> c.encodes(o + r.emitted, p) && o + r.emitted != [])
    && (r.status == Ok ==>
      |r.emitted| == room && c.pending(r.state) < c.pending(s) && c.running(r.state, true, p, o + r.emitted))
  }

  /** The compressor's promises. Without room it makes no progress and says so. */
  ghost predicate DeflateOk<S(!new), T>(c: Codec<S, T>) {
    && c.running(c.deflateInit, false, [], [])
    && (forall s, p, o, input, room {:trigger c.running(s, false, p, o), c.deflate(s, input, room, false)} ::
      c.running(s, false, p, o) && input != [] && room > 0 ==> DeflateStepOk(c, s, p, o, input, room))
    && (forall s, f, p, o, room {:trigger c.running(s, f, p, o), c.deflate(s, [], room, true)} ::
      c.running(s, f, p, o) && room > 0 ==> FinishStepOk(c, s, p, o, room))
    && (forall s, input, f {:trigger c.deflate(s, input, 0, f)} ::
      c.deflate(s, input, 0, f) == Step(s, 0, [], BufError))
  }

  /** A decompressing call, `rest` being what the stream still holds: it stops at the end
      of the stream, and it takes the stream's last byte exactly when all output is out. */
  ghost predicate InflateStepOk<S, T>(c: Codec<S, T>, t: T, zin: seq<Byte>, pout: seq<Byte>, z: seq<Byte>,
                                      p: seq<Byte>, input: seq<Byte>, room: nat)
  {
    var r := c.inflate(t, input, room);
    && r.consumed <= |input| && |zin| + r.consumed <= |z| && |r.emitted| <= room
    && pout + r.emitted <= p
    && (r.status == StreamEnd || r.status == Ok)
    && (r.status == StreamEnd <==> |zin| + r.consumed == |z|)
    && (r.status == StreamEnd ==> pout + r.emitted == p)
    && (r.status == Ok ==>
      (r.consumed == |input| || |r.emitted| == room) &&
        c.inflated(r.state, zin + input[..r.consumed], pout + r.emitted))
  }

  ghost predicate Comparable(a: seq<Byte>, b: seq<Byte>) {
    a <= b || b <= a
  }

  /** The decompressor's promises, for input that continues a complete stream. */
  ghost predicate InflateOk<S, T(!new)>(c: Codec<S, T>) {
    && c.inflated(c.inflateInit, [], [])
    && (forall z, p :: c.encodes(z, p) ==> z != [])
    && (forall t, zin, pout, z, p, input, room
      {:trigger c.inflated(t, zin, pout), c.encodes(z, p), c.inflate(t, input, room)} ::
      (c.inflated(t, zin, pout) && c.encodes(z, p) && zin < z && pout <= p && input != [] && room > 0 &&
      Comparable(input, z[|zin|..])) ==> InflateStepOk(c, t, zin, pout, z, p, input, room))
  }

  lemma DeflateCall<S(!new), T>(c: Codec<S, T>, s: S, p: seq<Byte>, o: seq<Byte>, input: seq<Byte>, room: nat)
    requires DeflateOk(c) && c.running(s, false, p, o) && input != [] && room > 0
    ensures DeflateStepOk(c, s, p, o, input, room)
  {
    var _ := c.deflate(s, input, room, false);
  }

  lemma FinishCall<S(!new), T>(c: Codec<S, T>, s: S, f: bool, p: seq<Byte>, o: seq<Byte>, room: nat)
    requires DeflateOk(c) && c.running(s, f, p, o)
    ensures room > 0 ==> FinishStepOk(c, s, p, o, room)
    ensures room == 0 ==> c.deflate(s, [], room, true) == Step(s, 0, [], BufError)
  {
    var _ := c.deflate(s, [], room, true);
  }

  lemma InflateCall<S, T(!new)>(c: Codec<S, T>, t: T, zin: seq<Byte>, pout: seq<Byte>, z: seq<Byte>, p: seq<Byte>,
                                input: seq<Byte>, room: nat)
    requires InflateOk(c) && c.inflated(t, zin, pout) && c.encodes(z, p) && zin < z && pout <= p
    requires input != [] && room > 0 && Comparable(input, z[|zin|..])
    ensures InflateStepOk(c, t, zin, pout, z, p, input, room)
  {
    var _ := c.inflate(t, input, room);
  }
}
