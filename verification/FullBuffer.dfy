/** The staging buffer can be full to the last byte when a region ends. */
module FullBuffer {
  import opened Codec
  import opened LogFile
  import opened LogWriter
  import opened RoundTrip
  import opened StoredCodec

  lemma {:induction false} StoredDoubles(p: seq<Byte>)
    ensures |Stored(p)| == 2 * |p|
  {
    if p != [] {
      StoredDoubles(p[1..]);
    }
  }

  lemma AllAtOnce<S, T>(c: Codec<S, T>, f: Fill<S>, input: seq<Byte>, emitted: seq<Byte>, state: S)
    requires f.room > 0 && input != [] && |emitted| <= f.room
    requires c.deflate(f.strm, input, f.room, false) == Step(state, |input|, emitted, Ok)
    ensures Deflated(c, f, input) == Fill(state, f.room - |emitted|)
  {
    assert input[|input|..] == [];
  }

  lemma StoresAll(bytes: seq<Byte>, room: nat)
    requires 0 < 2 * |bytes| <= room
    ensures STORED.deflate(Held([], false), bytes, room, false) == Step(Held([], false), |bytes|, Stored(bytes), Ok)
  {
    StoredDoubles(bytes);
    assert [] + Stored(bytes) == Stored(bytes);
  }

  /** Half a buffer of bytes, stored with their marks, fills the buffer. */
  lemma HalfFills(bytes: seq<Byte>, room: nat)
    requires 0 < 2 * |bytes| == room
    ensures Deflated(STORED, Fill(STORED.deflateInit, room), bytes) == Fill(Held([], false), 0)
  {
    StoredDoubles(bytes);
    StoresAll(bytes, room);
    AllAtOnce(STORED, Fill(Held([], false), room), bytes, Stored(bytes), Held([], false));
  }

  /** Writes in region order from which no log comes: a job that fills the buffer to the last byte,
      whatever is written behind it to higher regions. */
  lemma FullJobFails(job: seq<Byte>, more: seq<Write>)
    requires 2 * |job| == COMP_BUF_SZ
    requires forall i :: 0 <= i < |more| ==> more[i].region > JOB_REGION
    ensures EndsFull(STORED, [Write(JOB_REGION, job)] + more)
  {
    var first := [Write(JOB_REGION, job)];
    var writes := first + more;
    HalfFills(job, COMP_BUF_SZ);
    assert first[..0] == [] && writes[..1] == first;
    assert FillAfter(STORED, first) == Fill(Held([], false), 0);
    assert FullAt(STORED, writes, 1);
  }
}
