/** Reading a log: the staging buffer is refilled from the region until its end, and any
    number of complete compressed streams in a region are decompressed one after another. */
module LogReader {
  import opened Codec
  import opened LogFile

  /** One complete compressed stream and the bytes it holds. */
  datatype Stream = Stream(z: seq<Byte>, p: seq<Byte>)

  function ZUpTo(zs: seq<Stream>, k: nat): seq<Byte>
    requires k <= |zs|
  {
    if k == 0 then [] else ZUpTo(zs, k - 1) + zs[k - 1].z
  }

  function PUpTo(zs: seq<Stream>, k: nat): seq<Byte>
    requires k <= |zs|
  {
    if k == 0 then [] else PUpTo(zs, k - 1) + zs[k - 1].p
  }

  /** All compressed bytes, and all the bytes they hold. */
  function ZOf(zs: seq<Stream>): seq<Byte> {
    ZUpTo(zs, |zs|)
  }

  function POf(zs: seq<Stream>): seq<Byte> {
    PUpTo(zs, |zs|)
  }

  lemma {:induction false} UpToGrows(zs: seq<Stream>, j: nat, k: nat)
    requires j <= k <= |zs|
    ensures ZUpTo(zs, j) <= ZUpTo(zs, k) && PUpTo(zs, j) <= PUpTo(zs, k)
    decreases k - j
  {
    if j < k {
      UpToGrows(zs, j, k - 1);
    }
  }

  /** What is left to load: the loader computes it in 32 bits. */
  function Remaining32(left: nat): (r: nat)
    ensures r <= left && (r == left <==> left < 0x1_0000_0000)
  {
    left % 0x1_0000_0000
  }

  /** Loading a part of what is left leaves the rest of it, in 32 bits too. */
  lemma LoadLeaves(left: nat, n: nat)
    requires n <= Remaining32(left)
    ensures Remaining32(left - n) == Remaining32(left) - n
  {
    var q, r := left / 0x1_0000_0000, left % 0x1_0000_0000;
    assert left - n == q * 0x1_0000_0000 + (r - n);
  }

  /** Every region is a run of complete streams, short enough for the loader. */
  ghost predicate Readable<S, T>(codec: Codec<S, T>, log: Log, enc: map<int, seq<Byte>>,
                                 streams: map<int, seq<Stream>>)
  {
    && LaidOut(log, enc) && JOB_REGION in enc && enc.Keys == streams.Keys
    && (forall r :: r in enc ==> enc[r] == ZOf(streams[r]) && |enc[r]| < 0x1_0000_0000)
    && (forall r, i :: r in enc && 0 <= i < |streams[r]| ==> codec.encodes(streams[r][i].z, streams[r][i].p))
  }

  /** Streams that the decompressor can be trusted with. */
  ghost predicate Decodable<S, T(!new)>(c: Codec<S, T>, zs: seq<Stream>) {
    InflateOk(c) && forall i :: 0 <= i < |zs| ==> c.encodes(zs[i].z, zs[i].p)
  }

  /** Where a reader is within one region of streams `zs`, that hold `z` and `plain`: in
      stream `k`, having taken `zin` and given `pout` of it. */
  datatype Place = Place(zs: seq<Stream>, z: seq<Byte>, plain: seq<Byte>, k: nat, zBefore: nat, pBefore: nat,
                         zin: seq<Byte>, pout: seq<Byte>) {

    ghost predicate Ok()
    {
      && k <= |zs| && (zs != [] ==> zs[0].z != [])
      && z == ZOf(zs) && plain == POf(zs)
      && zBefore == |ZUpTo(zs, k)| && pBefore == |PUpTo(zs, k)|
      && (k < |zs| ==> zin < zs[k].z && pout <= zs[k].p)
      && (k == |zs| ==> zin == [] && pout == [])
    }

    /** The compressed bytes taken so far. */
    function Taken(): nat {
      zBefore + |zin|
    }

    /** The bytes given so far. */
    function Given(): nat {
      pBefore + |pout|
    }

    /** The beginning of the same region. */
    function Restart(): Place {
      this.(k := 0, zBefore := 0, pBefore := 0, zin := [], pout := [])
    }
  }

  function Beginning(zs: seq<Stream>): (a: Place)
    requires zs != [] ==> zs[0].z != []
    ensures a == a.Restart() && a.Ok() && a.zs == zs
  {
    Place(zs, ZOf(zs), POf(zs), 0, 0, 0, [], [])
  }

  lemma PlaceBounds(a: Place)
    requires a.Ok()
    ensures a.Taken() <= |a.z| && a.Given() <= |a.plain|
    ensures a.Taken() == |a.z| <==> a.k == |a.zs|
    ensures a.k == |a.zs| ==> a.Given() == |a.plain|
    ensures a.Restart().Ok()
  {
    if a.k < |a.zs| {
      UpToGrows(a.zs, a.k + 1, |a.zs|);
    }
  }

  /** What one decompressing call on loaded bytes yields. */
  lemma InflateAt<S, T(!new)>(c: Codec<S, T>, t: T, a: Place, input: seq<Byte>, room: nat) returns (b: Place)
    requires Decodable(c, a.zs) && a.Ok() && c.inflated(t, a.zin, a.pout)
    requires a.Taken() + |input| <= |a.z| && input == a.z[a.Taken()..a.Taken() + |input|]
    requires input != [] && room > 0
    ensures var r := c.inflate(t, input, room);
      && b.Ok() && b.zs == a.zs
      && r.status != BufError && r.consumed <= |input| && |r.emitted| <= room
      && c.inflated(if r.status == StreamEnd then c.inflateInit else r.state, b.zin, b.pout)
      && b.Taken() == a.Taken() + r.consumed
      && b.Given() == a.Given() + |r.emitted| <= |a.plain|
      && r.emitted == a.plain[a.Given()..b.Given()]
      && (r.consumed > 0 || r.emitted != [])
  {
    PlaceBounds(a);
    var r := c.inflate(t, input, room);
    var s := a.zs[a.k];
    ContinuesStream(a, input);
    InflateCall(c, t, a.zin, a.pout, s.z, s.p, input, room);
    EmitsSlice(a, r.emitted);
    if r.status == StreamEnd {
      b := a.(k := a.k + 1, zBefore := a.zBefore + |s.z|, pBefore := a.pBefore + |s.p|, zin := [], pout := []);
      assert b.k < |b.zs| ==> c.encodes(b.zs[b.k].z, b.zs[b.k].p);
    } else {
      b := a.(zin := a.zin + input[..r.consumed], pout := a.pout + r.emitted);
      TakesPrefix(a, input, r.consumed);
    }
  }

  lemma ContinuesStream(a: Place, input: seq<Byte>)
    requires a.Ok() && a.k < |a.zs|
    requires a.Taken() + |input| <= |a.z| && input == a.z[a.Taken()..a.Taken() + |input|]
    ensures Comparable(input, a.zs[a.k].z[|a.zin|..])
  {
    UpToGrows(a.zs, a.k + 1, |a.zs|);
    var upTo := ZUpTo(a.zs, a.k + 1);
    assert a.z == upTo + a.z[|upTo|..];
    SliceOfConcat(ZUpTo(a.zs, a.k), a.zs[a.k].z, a.z[|upTo|..], |a.zin|, input);
  }

  lemma SliceOfConcat(u: seq<Byte>, v: seq<Byte>, w: seq<Byte>, i: nat, input: seq<Byte>)
    requires i <= |v| && |u| + i + |input| <= |u + v + w|
    requires input == (u + v + w)[|u| + i..|u| + i + |input|]
    ensures Comparable(input, v[i..])
  {
    forall j | 0 <= j < |input| && i + j < |v| ensures input[j] == v[i + j] {
      assert (u + v + w)[|u| + i + j] == v[i + j];
    }
    if |input| <= |v| - i {
      assert input == v[i..][..|input|];
    } else {
      assert v[i..] == input[..|v| - i];
    }
  }

  lemma TakesPrefix(a: Place, input: seq<Byte>, n: nat)
    requires a.Ok() && a.k < |a.zs| && n <= |input| && |a.zin| + n < |a.zs[a.k].z|
    requires Comparable(input, a.zs[a.k].z[|a.zin|..])
    ensures a.zin + input[..n] < a.zs[a.k].z
  {
    var z := a.zs[a.k].z;
    assert input[..n] == z[|a.zin|..][..n];
    assert z[..|a.zin| + n] == a.zin + input[..n];
  }

  lemma EmitsSlice(a: Place, emitted: seq<Byte>)
    requires a.Ok() && a.k < |a.zs| && a.pout + emitted <= a.zs[a.k].p
    ensures a.Given() + |emitted| <= |a.plain| && emitted == a.plain[a.Given()..a.Given() + |emitted|]
  {
    var p := a.zs[a.k].p;
    UpToGrows(a.zs, a.k + 1, |a.zs|);
    var upTo := PUpTo(a.zs, a.k + 1);
    forall i | 0 <= i < |emitted| ensures a.plain[a.Given() + i] == emitted[i] {
      assert p[|a.pout| + i] == (a.pout + emitted)[|a.pout| + i];
      assert upTo[a.Given() + i] == p[|a.pout| + i];
    }
  }

  /** A file position between regions is never strictly inside one. */
  lemma EdgeIsOutside(log: Log, enc: map<int, seq<Byte>>, edge: int, r: int)
    requires LaidOut(log, enc) && r in enc
    ensures |Below(enc, edge)| <= |Below(enc, r)| || |Below(enc, edge)| >= |Below(enc, r)| + |enc[r]|
  {
    RegionBytes(log, enc, r);
    if edge <= r {
      BelowGrows(enc, edge, r);
    } else {
      BelowGrows(enc, r + 1, edge);
    }
  }

  /** The job map that the header lets a reader infer is the writer's. */
  lemma JobMapInferred(log: Log, enc: map<int, seq<Byte>>, first: int)
    requires LaidOut(log, enc) && JOB_REGION in enc && JOB_REGION < first <= MAX_MODS
    requires forall r :: JOB_REGION < r < first ==> r !in enc
    ensures first in enc ==> MapFor(enc, first).off - HEADER_SIZE == |enc[JOB_REGION]|
    ensures first == MAX_MODS ==> |log.data| == |enc[JOB_REGION]|
  {
    BelowSkips(enc, JOB_REGION + 1, first);
    assert Below(enc, JOB_REGION + 1) == [] + enc[JOB_REGION];
  }

  lemma SliceAppend(p: seq<Byte>, i: nat, j: nat, k: nat)
    requires i <= j <= k <= |p|
    ensures p[i..j] + p[j..k] == p[i..k]
  {
  }

  lemma SliceOfSlice(data: seq<Byte>, start: nat, z: seq<Byte>, from: nat, n: nat)
    requires start + |z| <= |data| && data[start..start + |z|] == z && from + n <= |z|
    ensures data[start + from..start + from + n] == z[from..from + n]
  {
    forall i | start + from <= i < start + from + n ensures data[i] == z[i - start] {
      assert data[start..start + |z|][i - start] == data[i];
    }
  }

  /** What a read of up to `len` bytes yields when `from` bytes of `p` have been given, and how
      many have been given then: none again once it came short. */
  ghost predicate Answers(p: seq<Byte>, from: nat, len: nat, ret: int, bytes: seq<Byte>, given: nat) {
    && from <= |p|
    && ret == |bytes| == (if from + len <= |p| then len else |p| - from)
    && bytes == p[from..from + ret]
    && given == (if ret < len then 0 else from + len)
  }

  class Reader<S, T(!new)> {
    const codec: Codec<S, T>
    const log: Log
    const jobMap: LogMap
    const buf: array<Byte>
    var pos: nat
    var eor: bool
    var size: nat
    var availIn: nat
    var strm: T
    var prevReg: int
    // the contents of all regions and where they start after the header; the current region's
    // compressed bytes `z`, at `start` after the header, of which `loaded` bytes were read from the
    // file and `taken` passed to the decompressor; its bytes `plain`, of which `given` were
    // delivered since its beginning; and the place in its streams
    ghost const enc: map<int, seq<Byte>>
    ghost const streams: map<int, seq<Stream>>
    ghost const offs: map<int, nat>
    ghost var z: seq<Byte>
    ghost var start: nat
    ghost var plain: seq<Byte>
    ghost var taken: nat
    ghost var given: nat
    ghost var loaded: nat
    ghost var at: Place

    function MapOf(r: int): LogMap
      requires IsRegion(r) && |log.header.modMap| == MAX_MODS
    {
      if r == JOB_REGION then jobMap else if r == NAME_MAP_REGION then log.header.nameMap else log.header.modMap[r]
    }

    /** No position between regions is strictly inside `len` bytes at `from`. */
    ghost predicate EdgesOutside(from: nat, len: nat) {
      forall e :: e in offs ==> offs[e] <= from || offs[e] >= from + len
    }

    /** What opening the log tells of one region: where it is and what it holds, and that
        no position between regions is strictly inside it. */
    ghost predicate Located(r: int)
      requires r in enc && r in streams
    {
      && IsRegion(r) && |log.header.modMap| == MAX_MODS
      && r in offs && r + 1 in offs && offs[r + 1] == offs[r] + |enc[r]|
      && MapOf(r) == LogMap(HEADER_SIZE + offs[r], |enc[r]|) && 0 < |enc[r]| < 0x1_0000_0000
      && enc[r] == ZOf(streams[r]) && Decodable(codec, streams[r]) && (streams[r] != [] ==> streams[r][0].z != [])
      && offs[r] + |enc[r]| <= |log.data| && log.data[offs[r]..offs[r] + |enc[r]|] == enc[r]
      && EdgesOutside(offs[r], |enc[r]|)
    }

    ghost predicate Opened() {
      && buf.Length == COMP_BUF_SZ && enc.Keys == streams.Keys && (forall r :: r in enc ==> Located(r))
      && (NAME_MAP_REGION !in enc ==> log.header.nameMap.len == 0)
    }

    /** The bytes loaded but not yet taken are at the end of the staging buffer, and the
        end of the region is flagged once all of it is loaded. */
    ghost predicate Buffered()
      reads this`pos, this`eor, this`size, this`availIn, this`loaded, this`taken, this`z, this`start, buf
    {
      && availIn <= size <= buf.Length == COMP_BUF_SZ
      && loaded == taken + availIn <= |z|
      && buf[size - availIn..size] == z[taken..loaded]
      && (loaded == 0 ==> !eor)
      && (loaded > 0 ==> pos == HEADER_SIZE + start + loaded && (eor <==> loaded == |z|))
    }

    /** With nothing loaded, the file is positioned between two regions. */
    ghost predicate AtEdge()
      reads this`loaded, this`pos
    {
      loaded == 0 ==> exists edge :: edge in offs && pos == HEADER_SIZE + offs[edge]
    }

    /** The decompressor's place in the streams of the region. */
    ghost predicate InStreams()
      reads this`strm, this`at, this`z, this`taken, this`plain, this`given
    {
      && at.Ok() && codec.inflated(strm, at.zin, at.pout)
      && z == at.z && taken == at.Taken()
      && plain == at.plain && given == at.Given()
    }

    /** Nothing of the region is loaded: the next read begins it. */
    ghost predicate AtBeginning()
      reads this`loaded, this`given, this`at
    {
      loaded == given == 0 && at == at.Restart()
    }

    ghost predicate Valid()
      reads this, buf
    {
      && Buffered() && AtEdge() && InStreams() && given <= |plain|
      && (given == 0 ==> AtBeginning())
      && (prevReg == HEADER_REGION ==> given == 0 && at.zs == [])
      && (prevReg != HEADER_REGION ==> prevReg in streams && at.zs == streams[prevReg])
      && (prevReg != HEADER_REGION ==> prevReg in offs && start == offs[prevReg])
    }

    /** The bytes of a region. */
    ghost function Contents(r: int): seq<Byte>
      requires r in streams
    {
      POf(streams[r])
    }

    /** The job region starts after the header and ends where the name table does or,
        without one, the first module region, or the file. */
    static method InferJobMap(log: Log, ghost enc: map<int, seq<Byte>>) returns (jobMap: LogMap)
      requires LaidOut(log, enc) && JOB_REGION in enc
      ensures jobMap == MapFor(enc, JOB_REGION)
    {
      var jobLen := 0;
      if log.header.nameMap.off == 0 {
        var i := 0;
        while i < MAX_MODS
          invariant 0 <= i <= MAX_MODS && jobLen == 0
          invariant forall k :: 0 <= k < i ==> k !in enc
        {
          assert log.header.modMap[i] == MapFor(enc, i);
          if log.header.modMap[i].off != 0 {
            JobMapInferred(log, enc, i);
            jobLen := log.header.modMap[i].off - HEADER_SIZE;
            break;
          }
          i := i + 1;
        }
        if jobLen == 0 {
          JobMapInferred(log, enc, MAX_MODS);
          jobLen := |log.data|;
        }
      } else {
        JobMapInferred(log, enc, NAME_MAP_REGION);
        jobLen := log.header.nameMap.off - HEADER_SIZE;
      }
      jobMap := LogMap(HEADER_SIZE, jobLen);
    }

    constructor (codec: Codec<S, T>, log: Log, ghost enc: map<int, seq<Byte>>, ghost streams: map<int, seq<Stream>>)
      requires InflateOk(codec) && Readable(codec, log, enc, streams)
      ensures Opened() && Valid() && fresh(buf) && prevReg == HEADER_REGION && given == 0
      ensures this.codec == codec && this.log == log && this.enc == enc && this.streams == streams
    {
      this.codec, this.log, this.enc, this.streams := codec, log, enc, streams;
      buf := new Byte[COMP_BUF_SZ](_ => 0);
      var m := InferJobMap(log, enc);
      jobMap := m;
      pos, eor, size, availIn := HEADER_SIZE, false, 0, 0;
      strm, prevReg := codec.inflateInit, HEADER_REGION;
      z, plain, start, taken, given, loaded := [], [], 0, 0, 0, 0;
      at := Beginning([]);
      offs := map r | JOB_REGION <= r <= MAX_MODS :: |Below(enc, r)|;
      new;
      OpensAll();
      StartsValid();
    }

    lemma OpensAll()
      requires InflateOk(codec) && Readable(codec, log, enc, streams) && buf.Length == COMP_BUF_SZ
      requires jobMap == MapFor(enc, JOB_REGION)
      requires offs == map k | JOB_REGION <= k <= MAX_MODS :: |Below(enc, k)|
      ensures Opened()
    {
      forall r | r in enc ensures Located(r) {
        LocateRegion(r);
      }
    }

    /** A reader just opened has nothing loaded and stands before the first region. */
    lemma StartsValid()
      requires buf.Length == COMP_BUF_SZ && pos == HEADER_SIZE && !eor && size == availIn == 0
      requires prevReg == HEADER_REGION && codec.inflated(strm, [], [])
      requires z == plain == [] && start == taken == given == loaded == 0 && at == Beginning([])
      requires JOB_REGION in offs && offs[JOB_REGION] == 0
      ensures Valid()
    {
    }

    lemma LocateRegion(r: int)
      requires InflateOk(codec) && Readable(codec, log, enc, streams) && r in enc
      requires jobMap == MapFor(enc, JOB_REGION)
      requires offs == map k | JOB_REGION <= k <= MAX_MODS :: |Below(enc, k)|
      ensures Located(r)
    {
      RegionBytes(log, enc, r);
      forall edge | edge in offs ensures offs[edge] <= offs[r] || offs[edge] >= offs[r] + |enc[r]| {
        EdgeIsOutside(log, enc, edge, r);
      }
      if streams[r] != [] {
        assert codec.encodes(streams[r][0].z, streams[r][0].p);
      }
    }

    /** The current region is where `m` says. */
    ghost predicate InFile(m: LogMap)
      reads this`start, this`z
    {
      && m == LogMap(HEADER_SIZE + start, |z|) && z != []
      && start + |z| <= |log.data| && log.data[start..start + |z|] == z
    }

    /** Reads up to `len` bytes of the file into the staging buffer. */
    method LogRead(len: nat) returns (got: nat)
      requires len <= buf.Length && HEADER_SIZE <= pos <= HEADER_SIZE + |log.data|
      modifies this`pos, buf
      ensures got == (if old(pos) + len <= HEADER_SIZE + |log.data| then len else HEADER_SIZE + |log.data| - old(pos))
      ensures pos == old(pos) + got
      ensures buf[..got] == log.data[old(pos) - HEADER_SIZE..pos - HEADER_SIZE]
    {
      var from := pos - HEADER_SIZE;
      got := if from + len <= |log.data| then len else |log.data| - from;
      forall i | 0 <= i < got {
        buf[i] := log.data[from + i];
      }
      pos := pos + got;
    }

    /** A region of any length: what is loaded is at most its length in 32 bits, and its end is
        flagged once that much is loaded. */
    ghost predicate Staged()
      reads this`pos, this`eor, this`size, this`availIn, this`loaded, this`taken, this`z, this`start, buf
    {
      && availIn <= size <= buf.Length == COMP_BUF_SZ
      && loaded == taken + availIn <= Remaining32(|z|)
      && buf[size - availIn..size] == z[taken..loaded]
      && (loaded > 0 ==> pos == HEADER_SIZE + start + loaded)
      && (eor ==> loaded == Remaining32(|z|))
      && (0 < loaded == Remaining32(|z|) ==> eor)
    }

    lemma BufferedIsStaged()
      requires Buffered() && |z| < 0x1_0000_0000
      ensures Staged() && (eor || z == [] || loaded < Remaining32(|z|))
    {
    }

    lemma StagedIsBuffered()
      requires Staged() && |z| < 0x1_0000_0000 && loaded > 0
      ensures Buffered()
    {
    }

    /** Loads the next chunk of the region, given how much of it is left. */
    method LoadChunk(remaining: nat) returns (ok: bool)
      requires Staged() && !eor && availIn == 0 && remaining == Remaining32(|z|) - loaded
      requires pos == HEADER_SIZE + start + loaded
      requires start + |z| <= |log.data| && log.data[start..start + |z|] == z
      modifies this`pos, this`eor, this`size, this`availIn, this`loaded, buf
      ensures Staged() && ok && availIn == size == loaded - old(loaded)
      ensures size == if remaining > COMP_BUF_SZ then COMP_BUF_SZ else remaining
      ensures eor <==> loaded == Remaining32(|z|)
    {
      var readSize := if remaining > COMP_BUF_SZ then COMP_BUF_SZ else remaining;
      var got := LogRead(readSize);
      SliceOfSlice(log.data, start, z, taken, got);
      assert buf[..got] == z[taken..taken + got];
      if got < readSize {
        return false;
      }
      if got == remaining {
        eor := true;
      }
      size := readSize;
      // the caller hands the whole buffer to the decompressor
      availIn := size;
      loaded := loaded + got;
      assert size - availIn == 0 && size == got && buf[0..got] == buf[..got];
      ok := true;
    }

    /** Refills the staging buffer, from the beginning of the region if the file is
        positioned outside it, and flags the end of the region. */
    method DzLoad(m: LogMap) returns (ok: bool)
      requires InFile(m) && Staged() && !eor && availIn == 0
      requires loaded == 0 ==> pos <= m.off || pos >= m.off + m.len
      modifies this`pos, this`eor, this`size, this`availIn, this`loaded, buf
      ensures Staged() && ok && availIn == size == loaded - old(loaded)
      ensures var left := Remaining32(|z|) - old(loaded); size == if left > COMP_BUF_SZ then COMP_BUF_SZ else left
      ensures (eor <==> loaded == Remaining32(|z|)) && (eor || loaded > old(loaded))
      ensures old(loaded) < Remaining32(|z|) ==> size > 0
    {
      if pos < m.off || pos >= m.off + m.len {
        pos := m.off;
      }
      LoadLeaves(|z|, loaded);
      var remaining := Remaining32(m.off + m.len - pos);
      ok := LoadChunk(remaining);
    }

    /** Takes all that is staged, behind the bytes already taken. */
    method TakeAll(bytes: seq<Byte>) returns (more: seq<Byte>)
      requires Staged() && bytes == z[..taken]
      modifies this`availIn, this`taken
      ensures Staged() && availIn == 0 && taken == loaded && more == z[..loaded]
    {
      more := bytes + buf[size - availIn..size];
      SliceAppend(z, 0, taken, loaded);
      assert z[0..taken] == z[..taken] && z[0..loaded] == z[..loaded];
      availIn, taken := 0, loaded;
    }

    /** The bytes loaded so far of the region `m` says where to find, all of them taken. */
    ghost predicate Loading(m: LogMap, bytes: seq<Byte>)
      reads this, buf
    {
      && InFile(m) && Staged() && availIn == 0 && taken == loaded && bytes == z[..loaded]
      && (!eor && loaded == 0 ==> pos <= m.off || pos >= m.off + m.len)
    }

    /** One more chunk. It is empty, which the caller asserts it is not, exactly if the length of the
        region is zero in 32 bits. */
    method LoadMore(m: LogMap, bytes: seq<Byte>) returns (more: seq<Byte>, empty: bool)
      requires Loading(m, bytes) && !eor
      modifies this`pos, this`eor, this`size, this`availIn, this`loaded, this`taken, buf
      ensures Loading(m, more) && (empty <==> Remaining32(|z|) == 0) && (eor || loaded > old(loaded))
    {
      NotAllLoaded(m, bytes);
      var _ := DzLoad(m);
      empty := size == 0;
      more := TakeAll(bytes);
    }

    lemma NotAllLoaded(m: LogMap, bytes: seq<Byte>)
      requires Loading(m, bytes) && !eor
      ensures Remaining32(|z|) == 0 ==> loaded == 0
      ensures Remaining32(|z|) > 0 ==> loaded < Remaining32(|z|)
    {
    }

    lemma LoadedAtMost(m: LogMap, bytes: seq<Byte>)
      requires Loading(m, bytes)
      ensures loaded <= |z|
      ensures eor ==> bytes == z[..Remaining32(|z|)]
    {
    }

    lemma WholeIfShort(bytes: seq<Byte>)
      requires bytes == z[..Remaining32(|z|)]
      ensures bytes == z <==> |z| < 0x1_0000_0000
    {
    }

    /** Loads a region, from its beginning to its flagged end, for a decompressor that takes each
        chunk in full. It gets the first bytes of the region, in number its length in 32 bits: all
        of them if and only if the length fits. If that number is zero, the assertion that a chunk
        is not empty stops the program at the first. */
    method LoadRegion(m: LogMap) returns (bytes: seq<Byte>, stopped: bool)
      requires Loading(m, []) && !eor && loaded == 0
      modifies this`pos, this`eor, this`size, this`availIn, this`loaded, this`taken, buf
      ensures stopped <==> |z| % 0x1_0000_0000 == 0
      ensures !stopped ==> bytes == z[..|z| % 0x1_0000_0000] && (bytes == z <==> |z| < 0x1_0000_0000)
    {
      bytes, stopped := [], false;
      while !eor && !stopped
        invariant Loading(m, bytes) && loaded <= |z|
        invariant stopped ==> Remaining32(|z|) == 0
        invariant eor && !stopped ==> Remaining32(|z|) != 0
        decreases !eor && !stopped, |z| - loaded
      {
        bytes, stopped := LoadMore(m, bytes);
        LoadedAtMost(m, bytes);
      }
      if !stopped {
        LoadedAtMost(m, bytes);
        WholeIfShort(bytes);
      }
    }

    /** One decompressing call on the bytes in the staging buffer; at the end of a stream
        the decompressor is reset for the next one. */
    method InflateStep(room: nat) returns (ok: bool, emitted: seq<Byte>)
      requires Buffered() && InStreams() && Decodable(codec, at.zs) && availIn > 0 && room > 0
      modifies this`availIn, this`strm, this`taken, this`given, this`at
      ensures Buffered() && InStreams() && at.zs == old(at.zs)
      ensures ok && |emitted| <= room && taken >= old(taken) && (taken > old(taken) || emitted != [])
      ensures given == old(given) + |emitted| <= |plain| && emitted == plain[old(given)..given]
    {
      var input := buf[size - availIn..size];
      var r := codec.inflate(strm, input, room);
      ghost var b := InflateAt(codec, strm, at, input, room);
      if r.status == BufError {
        return false, [];
      }
      MoveTo(if r.status == StreamEnd then codec.inflateInit else r.state, r.consumed, b);
      ok, emitted := true, r.emitted;
    }

    method MoveTo(state: T, consumed: nat, ghost b: Place)
      requires Buffered() && InStreams() && consumed <= availIn
      requires b.Ok() && b.zs == at.zs && codec.inflated(state, b.zin, b.pout) && b.Taken() == taken + consumed
      modifies this`availIn, this`strm, this`taken, this`given, this`at
      ensures Buffered() && InStreams() && at == b && taken == old(taken) + consumed
    {
      Consume(consumed);
      strm := state;
      at, given := b, b.Given();
    }

    method Consume(n: nat)
      requires Buffered() && n <= availIn
      modifies this`availIn, this`taken
      ensures Buffered() && taken == old(taken) + n
    {
      assert buf[size - (availIn - n)..size] == buf[size - availIn..size][n..];
      assert z[taken + n..loaded] == z[taken..loaded][n..];
      availIn := availIn - n;
      taken := taken + n;
    }

    /** The end of the region: the flag is cleared and the next read starts over. */
    method EndRegion()
      requires Buffered() && InStreams() && eor && availIn == 0
      modifies this`eor, this`loaded, this`taken, this`given, this`at
      ensures Buffered() && InStreams() && AtBeginning() && at.zs == old(at.zs)
      ensures old(given) == |plain|
    {
      PlaceBounds(at);
      eor := false;
      loaded, taken, given := 0, 0, 0;
      at := at.Restart();
    }

    /** Loads a chunk that is not empty; none is in a region shorter than 4 GiB. */
    method Refill(m: LogMap) returns (ok: bool)
      requires Buffered() && availIn == 0 && !eor && InFile(m) && |z| < 0x1_0000_0000
      requires loaded == 0 ==> pos <= m.off || pos >= m.off + m.len
      modifies this`pos, this`eor, this`size, this`availIn, this`loaded, buf
      ensures Buffered() && ok && availIn > 0
    {
      BufferedIsStaged();
      ok := DzLoad(m);
      if ok {
        assert size > 0;
        StagedIsBuffered();
      }
    }

    /** Decompresses once, refilling the staging buffer if it is empty; with the end of the
        region flagged and nothing left to take, ends the region instead. */
    method ReadStep(m: LogMap, room: nat) returns (ok: bool, ended: bool, emitted: seq<Byte>)
      requires Buffered() && InStreams() && Decodable(codec, at.zs) && room > 0
      requires InFile(m) && |z| < 0x1_0000_0000
      requires loaded == 0 ==> pos <= m.off || pos >= m.off + m.len
      modifies this`pos, this`eor, this`size, this`availIn, this`strm, this`loaded, this`taken, this`given, this`at, buf
      ensures Buffered() && InStreams() && at.zs == old(at.zs) && ok
      ensures ended ==> AtBeginning() && emitted == [] && old(given) == |plain| && pos == m.off + m.len
      ensures !ended ==> |emitted| <= room && taken >= old(taken) && (taken > old(taken) || emitted != []) && loaded > 0
      ensures !ended ==> given == old(given) + |emitted| <= |plain| && emitted == plain[old(given)..given]
    {
      ended := false;
      if availIn == 0 {
        if eor {
          EndRegion();
          return true, true, [];
        }
        var loadedOk := Refill(m);
        if !loadedOk {
          return false, false, [];
        }
      }
      ok, emitted := InflateStep(room);
    }

    /** The region `m` says where to find, of which streams `zs` are being read. */
    ghost predicate Reading(m: LogMap, zs: seq<Stream>)
      reads this, buf
    {
      && Buffered() && InStreams() && at.zs == zs && Decodable(codec, zs)
      && InFile(m) && |z| < 0x1_0000_0000
    }

    /** The bytes got since `from`; the region may have ended with them. */
    ghost predicate Got(m: LogMap, from: nat, bytes: seq<Byte>, ended: bool)
      reads this
    {
      && from + |bytes| <= |plain| && bytes == plain[from..from + |bytes|]
      && if ended then AtBeginning() && from + |bytes| == |plain| && pos == m.off + m.len
         else given == from + |bytes| && (loaded == 0 ==> pos <= m.off || pos >= m.off + m.len)
    }

    /** Adds the bytes of one step to those already got. */
    method ReadMore(m: LogMap, room: nat, got: seq<Byte>, ghost from: nat, ghost zs: seq<Stream>)
      returns (ok: bool, ended: bool, bytes: seq<Byte>)
      requires Reading(m, zs) && Got(m, from, got, false) && room > 0
      modifies this`pos, this`eor, this`size, this`availIn, this`strm, this`loaded, this`taken, this`given, this`at, buf
      ensures Reading(m, zs) && Got(m, from, bytes, ended) && ok
      ensures |got| <= |bytes| <= |got| + room && (ended ==> bytes == got)
      ensures !ended ==> loaded > 0 && taken >= old(taken) && (taken > old(taken) || |bytes| > |got|)
    {
      var emitted;
      ok, ended, emitted := ReadStep(m, room);
      bytes := got + emitted;
      if !ended {
        GotMore(m, from, got, emitted);
      }
    }

    lemma GotMore(m: LogMap, from: nat, got: seq<Byte>, emitted: seq<Byte>)
      requires from + |got| + |emitted| == given <= |plain| && got == plain[from..from + |got|]
      requires emitted == plain[from + |got|..given] && loaded > 0
      ensures Got(m, from, got + emitted, false)
    {
      SliceAppend(plain, from, from + |got|, given);
    }

    lemma NotPastTheEnd(m: LogMap, zs: seq<Stream>)
      requires Reading(m, zs)
      ensures taken <= |z|
    {
    }

    /** Decompresses until `len` bytes are out or the region ends; the end clears the flag
        so that the next read starts over. */
    method LibzRead(m: LogMap, len: nat, ghost zs: seq<Stream>) returns (ret: int, bytes: seq<Byte>)
      requires Reading(m, zs) && Got(m, given, [], false) && len > 0
      modifies this`pos, this`eor, this`size, this`availIn, this`strm, this`loaded, this`taken, this`given, this`at, buf
      ensures Reading(m, zs) && ret == |bytes| <= len
      ensures Got(m, old(given), bytes, ret < len) && (ret == len ==> loaded > 0)
    {
      ghost var from := given;
      var ok, ended;
      ok, ended, bytes := ReadMore(m, len, [], from, zs);
      NotPastTheEnd(m, zs);
      while ok && !ended && |bytes| < len
        invariant Reading(m, zs) && Got(m, from, bytes, ended) && ok && taken <= |z|
        invariant if ended then |bytes| < len else |bytes| <= len && loaded > 0
        decreases !ended, |z| - taken + len - |bytes|
      {
        ok, ended, bytes := ReadMore(m, len - |bytes|, bytes, from, zs);
        NotPastTheEnd(m, zs);
      }
      ret := if ok then |bytes| else -1;
    }

    /** Nothing is loaded and the decompressor is at the beginning of a stream. */
    ghost predicate Idle()
      reads this
    {
      && loaded == taken == given == 0 && AtEdge() && buf.Length == COMP_BUF_SZ
      && codec.inflated(strm, [], [])
    }

    /** Moves to the beginning of another region; only a region read to its short end, or
        not begun, may be left, since the decompressor is not reset. */
    method SwitchTo(region: int)
      requires Idle() && region in streams && region in offs && region != HEADER_REGION
      requires streams[region] != [] ==> streams[region][0].z != []
      modifies this`eor, this`size, this`availIn, this`prevReg, this`z, this`plain, this`start, this`at
      ensures Valid() && prevReg == region && plain == Contents(region) && z == ZOf(streams[region])
    {
      eor, size, availIn := false, 0, 0;
      prevReg := region;
      start := offs[region];
      Begin(streams[region]);
      BegunIsValid();
    }

    /** With nothing loaded, a region just begun. */
    lemma BegunIsValid()
      requires InStreams() && at == at.Restart() && AtEdge() && buf.Length == COMP_BUF_SZ
      requires loaded == taken == given == size == availIn == 0 && !eor
      requires prevReg != HEADER_REGION && prevReg in streams && at.zs == streams[prevReg]
      requires prevReg in offs && start == offs[prevReg]
      ensures Valid()
    {
    }

    ghost method Begin(zs: seq<Stream>)
      requires codec.inflated(strm, [], []) && taken == given == 0
      requires zs != [] ==> zs[0].z != []
      modifies this`z, this`plain, this`at
      ensures InStreams() && at == at.Restart() && at.zs == zs && z == ZOf(zs) && plain == POf(zs)
    {
      z, plain := ZOf(zs), POf(zs);
      at := Beginning(zs);
    }

    lemma ValidIsIdle()
      requires Valid() && given == 0
      ensures Idle()
    {
    }

    /** Reads on in the current region. */
    method ReadCurrent(m: LogMap, len: nat) returns (ret: int, bytes: seq<Byte>)
      requires Valid() && Decodable(codec, at.zs) && prevReg != HEADER_REGION
      requires InFile(m) && |z| < 0x1_0000_0000
      requires EdgesOutside(start, |z|)
      requires prevReg + 1 in offs && offs[prevReg + 1] == start + |z|
      modifies this`pos, this`eor, this`size, this`availIn, this`strm, this`loaded, this`taken, this`given, this`at, buf
      ensures Valid() && Answers(plain, old(given), len, ret, bytes, given)
    {
      if len == 0 {
        return 0, [];
      }
      CanRead(m);
      ghost var from := given;
      ret, bytes := LibzRead(m, len, at.zs);
      GotAnswers(m, from, bytes, len);
      StillValid(m, from, bytes, ret < len);
    }

    lemma GotAnswers(m: LogMap, from: nat, bytes: seq<Byte>, len: nat)
      requires |bytes| <= len && Got(m, from, bytes, |bytes| < len)
      ensures Answers(plain, from, len, |bytes|, bytes, given)
    {
    }

    lemma CanRead(m: LogMap)
      requires Valid() && Decodable(codec, at.zs) && prevReg != HEADER_REGION
      requires InFile(m) && |z| < 0x1_0000_0000
      requires EdgesOutside(start, |z|)
      ensures Reading(m, at.zs) && Got(m, given, [], false)
    {
    }

    /** After reading, nothing is loaded if the region ended, and then the file is positioned
        behind it. */
    lemma StillValid(m: LogMap, from: nat, bytes: seq<Byte>, ended: bool)
      requires Reading(m, at.zs) && Got(m, from, bytes, ended)
      requires prevReg + 1 in offs && m.off + m.len == HEADER_SIZE + offs[prevReg + 1]
      requires !ended ==> loaded > 0 && given > 0
      requires prevReg != HEADER_REGION && prevReg in streams && at.zs == streams[prevReg]
      requires prevReg in offs && start == offs[prevReg]
      ensures Valid()
    {
      PlaceBounds(at);
    }

    /** The region to read is the current one, or the reader moves to its beginning. */
    method SelectRegion(region: int)
      requires Opened() && Valid() && region in enc && (region != prevReg ==> given == 0)
      modifies this`eor, this`size, this`availIn, this`prevReg, this`z, this`plain, this`start, this`at
      ensures Valid() && prevReg == region && plain == Contents(region) && z == enc[region] && at.zs == streams[region]
      ensures given == old(given)
    {
      assert Located(region);
      if region != prevReg {
        ValidIsIdle();
        SwitchTo(region);
      }
    }

    /** What opening the log has told of the current region. */
    lemma LocatedHere(region: int)
      requires Opened() && Valid() && region in enc && prevReg == region && z == enc[region] && at.zs == streams[region]
      ensures IsRegion(region) && |log.header.modMap| == MAX_MODS && Decodable(codec, at.zs)
      ensures InFile(MapOf(region)) && |z| < 0x1_0000_0000
      ensures EdgesOutside(start, |z|)
      ensures region + 1 in offs && offs[region + 1] == start + |z|
    {
      assert Located(region);
    }

    method ReadHere(region: int, len: nat) returns (ret: int, bytes: seq<Byte>)
      requires Opened() && Valid() && region in enc && prevReg == region && z == enc[region] && at.zs == streams[region]
      modifies this`pos, this`eor, this`size, this`availIn, this`strm, this`loaded, this`taken, this`given, this`at, buf
      ensures Valid() && Answers(plain, old(given), len, ret, bytes, given)
    {
      LocatedHere(region);
      ret, bytes := ReadCurrent(MapOf(region), len);
    }

    /** Reads up to `len` bytes of a region, from where the last read of it stopped. */
    method DzRead(region: int, len: nat) returns (ret: int, bytes: seq<Byte>)
      requires Opened() && Valid() && region in enc && (region != prevReg ==> given == 0)
      modifies this, buf
      ensures Valid() && prevReg == region
      ensures Answers(Contents(region), old(given), len, ret, bytes, given)
    {
      SelectRegion(region);
      ret, bytes := ReadHere(region, len);
    }
  }
}
