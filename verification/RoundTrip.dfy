/** The container's round trip: whatever was written region by region is read back, with
    any sequence of lengths, as exactly the bytes written. */
module RoundTrip {
  import opened Codec
  import opened LogFile
  import opened LogReader
  import opened LogWriter

  datatype Write = Write(region: int, bytes: seq<Byte>)
  datatype Read = Read(region: int, len: nat)

  /** The bytes of each region after some writes. */
  function Contents(writes: seq<Write>): (m: map<int, seq<Byte>>) {
    if writes == [] then map[]
    else
      var w := writes[|writes| - 1];
      Appended(Contents(writes[..|writes| - 1]), w.region, w.bytes)
  }

  /** Region ids never decrease. */
  ghost predicate InOrder(writes: seq<Write>) {
    forall i, j :: 0 <= i < j < |writes| ==> writes[i].region <= writes[j].region
  }

  /** Each region of the log is one complete stream of what was written to it. */
  ghost predicate HoldsWrites<S, T>(codec: Codec<S, T>, log: Log, enc: map<int, seq<Byte>>, m: map<int, seq<Byte>>) {
    LaidOut(log, enc) && enc.Keys == m.Keys && forall r :: r in enc ==> codec.encodes(enc[r], m[r])
  }

  /** The region of the last write. */
  function LastRegion(writes: seq<Write>): int {
    if writes == [] then HEADER_REGION else writes[|writes| - 1].region
  }

  /** The compressor and the room left in the staging buffer after some writes. */
  function FillAfter<S, T>(c: Codec<S, T>, writes: seq<Write>): Fill<S> {
    if writes == [] then Fill(c.deflateInit, COMP_BUF_SZ)
    else
      var front, w := writes[..|writes| - 1], writes[|writes| - 1];
      Deflated(c, if w.region == LastRegion(front) then FillAfter(c, front)
        else Fill(c.deflateInit, COMP_BUF_SZ), w.bytes)
  }

  /** After the first `i` writes a region ends, and the staging buffer is full to the last byte. */
  ghost predicate FullAt<S, T>(c: Codec<S, T>, writes: seq<Write>, i: nat) {
    && 0 < i <= |writes| && (i == |writes| || writes[i].region != writes[i - 1].region)
    && FillAfter(c, writes[..i]).room == 0
  }

  /** Some region ends with the staging buffer full to the last byte. */
  ghost predicate EndsFull<S, T>(c: Codec<S, T>, writes: seq<Write>) {
    exists i :: FullAt(c, writes, i)
  }

  lemma OneMore(before: seq<Write>, w: Write)
    requires InOrder(before) && (before != [] ==> LastRegion(before) <= w.region)
    ensures InOrder(before + [w]) && LastRegion(before + [w]) == w.region
    ensures Contents(before + [w]) == Appended(Contents(before), w.region, w.bytes)
  {
    assert (before + [w])[..|before|] == before;
  }

  lemma FillsOneMore<S, T>(c: Codec<S, T>, before: seq<Write>, w: Write)
    ensures FillAfter(c, before + [w]) ==
      Deflated(c, if w.region == LastRegion(before) then FillAfter(c, before)
        else Fill(c.deflateInit, COMP_BUF_SZ), w.bytes)
  {
    assert (before + [w])[..|before|] == before;
  }

  /** A writer that has made some writes, in order, without refusing any. */
  ghost predicate Made<S(!new), T>(fd: Writer<S, T>, writes: seq<Write>)
    reads fd, fd.buf
  {
    && fd.Valid() && !fd.err && fd.written == Contents(writes) && InOrder(writes) && fd.prevReg == LastRegion(writes)
    && fd.Now() == FillAfter(fd.codec, writes)
  }

  /** A write is refused that goes back, or that ends a region with the buffer full. */
  ghost predicate Refused<S, T>(c: Codec<S, T>, before: seq<Write>, w: Write) {
    w.region < LastRegion(before) || (w.region > LastRegion(before) != HEADER_REGION && FillAfter(c, before).room == 0)
  }

  method PutNext<S(!new), T>(fd: Writer<S, T>, w: Write, ghost before: seq<Write>)
    requires Made(fd, before) && IsRegion(w.region)
    modifies fd, fd.buf
    ensures fd.err <==> Refused(fd.codec, before, w)
    ensures !fd.err ==> Made(fd, before + [w])
  {
    var _ := fd.DzWrite(w.region, w.bytes);
    if !fd.err {
      OneMore(before, w);
      FillsOneMore(fd.codec, before, w);
    }
  }

  lemma RefusedMeans<S, T>(c: Codec<S, T>, writes: seq<Write>, i: nat)
    requires i < |writes| && InOrder(writes[..i]) && (forall k :: 0 <= k < |writes| ==> IsRegion(writes[k].region))
    ensures Refused(c, writes[..i], writes[i]) ==> !InOrder(writes) || FullAt(c, writes, i)
    ensures !Refused(c, writes[..i], writes[i]) ==> !FullAt(c, writes, i)
    ensures writes[..i + 1] == writes[..i] + [writes[i]]
  {
    if i > 0 {
      assert LastRegion(writes[..i]) == writes[i - 1].region;
    }
  }

  /** No region that ends within the first `n` writes, before the last of all, ends with the buffer
      full. */
  ghost predicate NoneFull<S, T>(c: Codec<S, T>, writes: seq<Write>, n: nat) {
    forall k :: 0 < k < n ==> !FullAt(c, writes, k)
  }

  lemma FullAtTheEnd<S, T>(c: Codec<S, T>, writes: seq<Write>)
    requires writes != [] && NoneFull(c, writes, |writes|)
    ensures EndsFull(c, writes) <==> FillAfter(c, writes).room == 0
  {
    assert writes[..|writes|] == writes;
    assert FullAt(c, writes, |writes|) <==> FillAfter(c, writes).room == 0;
  }

  method PutOne<S(!new), T>(fd: Writer<S, T>, writes: seq<Write>, i: nat)
    requires i < |writes| && Made(fd, writes[..i]) && NoneFull(fd.codec, writes, i)
    requires forall k :: 0 <= k < |writes| ==> IsRegion(writes[k].region)
    modifies fd, fd.buf
    ensures fd.err ==> !InOrder(writes) || EndsFull(fd.codec, writes)
    ensures !fd.err ==> Made(fd, writes[..i + 1]) && NoneFull(fd.codec, writes, i + 1)
  {
    RefusedMeans(fd.codec, writes, i);
    PutNext(fd, writes[i], writes[..i]);
  }

  /** Makes the writes one by one, up to the first that is refused. */
  method PutAll<S(!new), T>(fd: Writer<S, T>, writes: seq<Write>)
    requires Made(fd, []) && forall k :: 0 <= k < |writes| ==> IsRegion(writes[k].region)
    modifies fd, fd.buf
    ensures fd.err ==> !InOrder(writes) || EndsFull(fd.codec, writes)
    ensures !fd.err ==> Made(fd, writes) && NoneFull(fd.codec, writes, |writes|)
  {
    var i := 0;
    assert writes[..0] == [];
    while i < |writes| && !fd.err
      invariant 0 <= i <= |writes|
      invariant !fd.err ==> Made(fd, writes[..i]) && NoneFull(fd.codec, writes, i)
      invariant fd.err ==> !InOrder(writes) || EndsFull(fd.codec, writes)
    {
      PutOne(fd, writes, i);
      i := i + 1;
    }
    assert writes[..|writes|] == writes;
  }

  /** Writes a whole log. Nothing comes out exactly if the writes go back to a lower region, or if
      some region ends with the staging buffer full to the last byte. */
  method WriteLog<S(!new), T>(codec: Codec<S, T>, partialFlag: bv64, writes: seq<Write>)
    returns (log: Option<Log>, ghost enc: map<int, seq<Byte>>)
    requires DeflateOk(codec) && writes != []
    requires forall i :: 0 <= i < |writes| ==> IsRegion(writes[i].region)
    ensures log == None <==> !InOrder(writes) || EndsFull(codec, writes)
    ensures log.Some? ==> HoldsWrites(codec, log.value, enc, Contents(writes))
    ensures log.Some? ==> log.value.header.partialFlag == partialFlag
  {
    var fd := new Writer(codec, partialFlag);
    PutAll(fd, writes);
    if !fd.err {
      FullAtTheEnd(codec, writes);
    }
    log := fd.Close();
    enc := fd.encoded;
  }

  /** Where a read leaves off: at the beginning again when it came short. */
  function After(m: map<int, seq<Byte>>, given: nat, r: Read): nat
    requires r.region in m
  {
    if given + r.len > |m[r.region]| then 0 else given + r.len
  }

  /** The bytes one read yields when `given` bytes of its region have been read. */
  function Yield(m: map<int, seq<Byte>>, given: nat, r: Read): seq<Byte>
    requires r.region in m && given <= |m[r.region]|
  {
    if given + r.len > |m[r.region]| then m[r.region][given..] else m[r.region][given..given + r.len]
  }

  /** A run of reads, `given` bytes of the region `current` having been read. A region may
      be left once a read of it came short, or before it was begun. */
  ghost predicate Permitted(m: map<int, seq<Byte>>, current: int, given: nat, rs: seq<Read>)
    decreases |rs|
  {
    rs != [] ==>
      && rs[0].region in m && (rs[0].region != current ==> given == 0) && given <= |m[rs[0].region]|
      && Permitted(m, rs[0].region, After(m, given, rs[0]), rs[1..])
  }

  ghost function Expected(m: map<int, seq<Byte>>, current: int, given: nat, rs: seq<Read>): (r: seq<seq<Byte>>)
    requires Permitted(m, current, given, rs)
    ensures |r| == |rs|
    decreases |rs|
  {
    if rs == [] then [] else [Yield(m, given, rs[0])] + Expected(m, rs[0].region, After(m, given, rs[0]), rs[1..])
  }

  /** The reads still to come are permitted, and with what was read give the whole. */
  ghost predicate Remains(m: map<int, seq<Byte>>, current: int, given: nat, rs: seq<Read>, done: seq<seq<Byte>>,
                          all: seq<seq<Byte>>)
  {
    Permitted(m, current, given, rs) && done + Expected(m, current, given, rs) == all
  }

  lemma NextRead(m: map<int, seq<Byte>>, current: int, given: nat, rs: seq<Read>, i: nat, done: seq<seq<Byte>>,
                 all: seq<seq<Byte>>)
    requires i < |rs| && Remains(m, current, given, rs[i..], done, all)
    ensures var r := rs[i];
      && r.region in m && (r.region != current ==> given == 0) && given <= |m[r.region]|
      && Remains(m, r.region, After(m, given, r), rs[i + 1..], done + [Yield(m, given, r)], all)
  {
    assert rs[i..][0] == rs[i] && rs[i..][1..] == rs[i + 1..];
  }

  method ReadNext<S, T(!new)>(fd: Reader<S, T>, r: Read, ghost m: map<int, seq<Byte>>) returns (bytes: seq<Byte>)
    requires fd.Opened() && fd.Valid() && r.region in fd.enc && (r.region != fd.prevReg ==> fd.given == 0)
    requires r.region in m && POf(fd.streams[r.region]) == m[r.region] && fd.given <= |m[r.region]|
    modifies fd, fd.buf
    ensures fd.Valid() && fd.prevReg == r.region && fd.given == After(m, old(fd.given), r)
    ensures bytes == Yield(m, old(fd.given), r)
  {
    var _, b := fd.DzRead(r.region, r.len);
    bytes := b;
  }

  ghost function Single(enc: map<int, seq<Byte>>, m: map<int, seq<Byte>>): (streams: map<int, seq<Stream>>)
    requires enc.Keys == m.Keys
    ensures streams.Keys == enc.Keys
    ensures forall r :: r in enc ==> streams[r] == [Stream(enc[r], m[r])]
  {
    map r | r in enc :: [Stream(enc[r], m[r])]
  }

  lemma OneStream(s: Stream)
    ensures ZOf([s]) == s.z && POf([s]) == s.p
  {
    assert ZUpTo([s], 0) == [] && PUpTo([s], 0) == [];
    assert ZUpTo([s], 1) == [] + s.z && PUpTo([s], 1) == [] + s.p;
  }

  /** Every region's compressed length fits 32 bits. */
  ghost predicate Loadable(enc: map<int, seq<Byte>>) {
    forall r :: r in enc ==> |enc[r]| < 0x1_0000_0000
  }

  /** Opens a log for reading. */
  method OpenLog<S, T(!new)>(codec: Codec<S, T>, log: Log, ghost enc: map<int, seq<Byte>>, ghost m: map<int, seq<Byte>>)
    returns (fd: Reader<S, T>)
    requires InflateOk(codec) && HoldsWrites(codec, log, enc, m) && JOB_REGION in m
    requires Loadable(enc)
    ensures fresh(fd) && fresh(fd.buf) && fd.Opened() && fd.Valid() && fd.prevReg == HEADER_REGION && fd.given == 0
    ensures fd.enc == enc && fd.streams == Single(enc, m)
  {
    ghost var streams := Single(enc, m);
    forall r | r in enc ensures ZOf(streams[r]) == enc[r] && POf(streams[r]) == m[r] {
      OneStream(streams[r][0]);
    }
    fd := new Reader(codec, log, enc, streams);
  }

  /** Reads from an open log with any sequence of lengths. */
  method ReadAll<S, T(!new)>(fd: Reader<S, T>, rs: seq<Read>, ghost m: map<int, seq<Byte>>)
    returns (results: seq<seq<Byte>>)
    requires fd.Opened() && fd.Valid() && fd.enc.Keys == m.Keys && fd.streams == Single(fd.enc, m)
    requires Permitted(m, fd.prevReg, fd.given, rs)
    modifies fd, fd.buf
    ensures results == Expected(m, old(fd.prevReg), old(fd.given), rs)
  {
    ghost var all := Expected(m, fd.prevReg, fd.given, rs);
    results := [];
    var i := 0;
    assert rs[0..] == rs;
    while i < |rs|
      invariant 0 <= i <= |rs| && fd.Valid()
      invariant Remains(m, fd.prevReg, fd.given, rs[i..], results, all)
    {
      NextRead(m, fd.prevReg, fd.given, rs, i, results, all);
      OneStream(fd.streams[rs[i].region][0]);
      var bytes := ReadNext(fd, rs[i], m);
      results := results + [bytes];
      i := i + 1;
    }
    assert rs[i..] == [];
  }

  /** Reads a log with any sequence of lengths. */
  method ReadLog<S, T(!new)>(codec: Codec<S, T>, log: Log, rs: seq<Read>, ghost enc: map<int, seq<Byte>>,
                             ghost m: map<int, seq<Byte>>)
    returns (results: seq<seq<Byte>>)
    requires InflateOk(codec) && HoldsWrites(codec, log, enc, m) && JOB_REGION in m
    requires Loadable(enc)
    requires Permitted(m, HEADER_REGION, 0, rs)
    ensures results == Expected(m, HEADER_REGION, 0, rs)
  {
    var fd := OpenLog(codec, log, enc, m);
    results := ReadAll(fd, rs, m);
  }

  /** Whether the loader can deliver every region of a log, from its maps. */
  method CheckLoadable<S, T(!new)>(codec: Codec<S, T>, log: Log, ghost enc: map<int, seq<Byte>>) returns (ok: bool)
    requires LaidOut(log, enc) && JOB_REGION in enc
    ensures ok <==> Loadable(enc)
  {
    var jobMap := Reader<S, T>.InferJobMap(log, enc);
    ok := jobMap.len < 0x1_0000_0000 && log.header.nameMap.len < 0x1_0000_0000;
    for m := 0 to MAX_MODS
      invariant ok ==> forall r :: r in enc && r < m ==> |enc[r]| < 0x1_0000_0000
      invariant !ok ==> !Loadable(enc)
    {
      assert log.header.modMap[m] == MapFor(enc, m);
      if log.header.modMap[m].len >= 0x1_0000_0000 {
        ok := false;
      }
    }
  }

  /** The whole round trip. Any region sequence that gives a log starts, in this model, with
      the job region. What was written comes back if every region of the log can be loaded. */
  method WriteThenRead<S(!new), T(!new)>(codec: Codec<S, T>, writes: seq<Write>, rs: seq<Read>)
    returns (log: Option<Log>, ghost enc: map<int, seq<Byte>>, results: Option<seq<seq<Byte>>>)
    requires DeflateOk(codec) && InflateOk(codec)
    requires writes != [] && writes[0].region == JOB_REGION
    requires forall i :: 0 <= i < |writes| ==> IsRegion(writes[i].region)
    requires Permitted(Contents(writes), HEADER_REGION, 0, rs)
    ensures log == None <==> !InOrder(writes) || EndsFull(codec, writes)
    ensures log.Some? ==> HoldsWrites(codec, log.value, enc, Contents(writes))
    ensures results.Some? <==> log.Some? && Loadable(enc)
    ensures results.Some? ==> results.value == Expected(Contents(writes), HEADER_REGION, 0, rs)
  {
    results := None;
    log, enc := WriteLog(codec, 0, writes);
    if log == None {
      return;
    }
    ContentsHas(writes, 0);
    var ok := CheckLoadable(codec, log.value, enc);
    if ok {
      var bytes := ReadLog(codec, log.value, rs, enc, Contents(writes));
      results := Some(bytes);
    }
  }

  lemma ContentsHas(writes: seq<Write>, i: nat)
    requires i < |writes|
    ensures writes[i].region in Contents(writes)
  {
    if i < |writes| - 1 {
      ContentsHas(writes[..|writes| - 1], i);
    }
  }
}
