/** The layout of a log file: an uncompressed header, then compressed regions. */
module LogFile {
  import opened Codec

  const JOB_REGION := -2
  const NAME_MAP_REGION := -1
  const HEADER_REGION := -3
  const MAX_MODS := 64
  const HEADER_SIZE: nat := 1328
  const COMP_BUF_SZ: nat := 1024 * 1024

  /** Where a region lies in the file, in compressed terms. */
  datatype LogMap = LogMap(off: nat, len: nat)

  datatype Option<T> = None | Some(value: T)

  const NO_MAP := LogMap(0, 0)

  predicate IsRegion(r: int) {
    JOB_REGION <= r < MAX_MODS
  }

  /** The header: the job region's map is not stored. */
  datatype Header = Header(partialFlag: bv64, nameMap: LogMap, modMap: seq<LogMap>)

  /** A finished log: its header and the bytes that follow it. */
  datatype Log = Log(header: Header, data: seq<Byte>)

  /** The compressed bytes of all regions below `r`, in increasing order of region. */
  function Below(enc: map<int, seq<Byte>>, r: int): (z: seq<Byte>)
    decreases r - JOB_REGION
  {
    if r <= JOB_REGION then [] else Below(enc, r - 1) + (if r - 1 in enc then enc[r - 1] else [])
  }

  /** The map of a region laid out after the header and all lower regions. */
  function MapFor(enc: map<int, seq<Byte>>, r: int): LogMap {
    if r in enc then LogMap(HEADER_SIZE + |Below(enc, r)|, |enc[r]|) else NO_MAP
  }

  /** The regions lie contiguously after the header in increasing order, and the stored
      maps say where. */
  ghost predicate LaidOut(log: Log, enc: map<int, seq<Byte>>) {
    && (forall r :: r in enc ==> IsRegion(r) && enc[r] != [])
    && log.data == Below(enc, MAX_MODS)
    && log.header.nameMap == MapFor(enc, NAME_MAP_REGION)
    && |log.header.modMap| == MAX_MODS
    && (forall m :: 0 <= m < MAX_MODS ==> log.header.modMap[m] == MapFor(enc, m))
  }

  lemma {:induction false} BelowAgrees(a: map<int, seq<Byte>>, b: map<int, seq<Byte>>, r: int)
    requires forall k :: k < r ==> (k in a <==> k in b) && (k in a ==> a[k] == b[k])
    ensures Below(a, r) == Below(b, r)
    decreases r - JOB_REGION
  {
    if r > JOB_REGION {
      BelowAgrees(a, b, r - 1);
    }
  }

  /** Regions that were not written take no room. */
  lemma {:induction false} BelowSkips(enc: map<int, seq<Byte>>, q: int, r: int)
    requires q <= r && forall k :: q <= k < r ==> k !in enc
    ensures Below(enc, q) == Below(enc, r)
    decreases r - q
  {
    if q < r && r > JOB_REGION {
      BelowSkips(enc, q, r - 1);
    }
  }

  lemma {:induction false} BelowGrows(enc: map<int, seq<Byte>>, q: int, r: int)
    requires q <= r
    ensures Below(enc, q) <= Below(enc, r)
    decreases r - q
  {
    if q < r {
      BelowGrows(enc, q, r - 1);
    }
  }

  /** A region's map points at its bytes. */
  lemma RegionBytes(log: Log, enc: map<int, seq<Byte>>, r: int)
    requires LaidOut(log, enc) && r in enc
    ensures var i := |Below(enc, r)|; i + |enc[r]| <= |log.data| && log.data[i..i + |enc[r]|] == enc[r]
    ensures |Below(enc, r + 1)| == |Below(enc, r)| + |enc[r]|
  {
    BelowGrows(enc, r + 1, MAX_MODS);
    var upTo := Below(enc, r + 1);
    assert upTo == Below(enc, r) + enc[r];
    var i := |Below(enc, r)|;
    assert upTo[i..] == enc[r];
    assert log.data[..|upTo|] == upTo;
    assert log.data[i..|upTo|] == log.data[..|upTo|][i..];
  }

  /** The map of a region as the header stores it. */
  function StoredMap(log: Log, r: int): LogMap
    requires NAME_MAP_REGION <= r < |log.header.modMap|
  {
    if r == NAME_MAP_REGION then log.header.nameMap else log.header.modMap[r]
  }

  /** In numbers: a stored map points at the bytes of its region, behind a header of 1328 bytes. */
  lemma MapInNumbers(log: Log, enc: map<int, seq<Byte>>, r: int)
    requires LaidOut(log, enc) && r in enc && -1 <= r
    ensures r < |log.header.modMap| == 64
    ensures var m := StoredMap(log, r);
      && 1328 <= m.off && m.off - 1328 + m.len <= |log.data|
      && log.data[m.off - 1328..m.off - 1328 + m.len] == enc[r]
  {
    RegionBytes(log, enc, r);
    assert StoredMap(log, r) == LogMap(1328 + |Below(enc, r)|, |enc[r]|);
  }

  /** One region begins behind the other. */
  lemma MapsAscend(log: Log, enc: map<int, seq<Byte>>, q: int, r: int)
    requires LaidOut(log, enc) && q in enc && r in enc && -1 <= q < r
    ensures StoredMap(log, q).off + StoredMap(log, q).len <= StoredMap(log, r).off
  {
    assert Below(enc, q + 1) == Below(enc, q) + enc[q];
    BelowGrows(enc, q + 1, r);
  }

  /** The job region is the first thing behind the header. */
  lemma JobComesFirst(log: Log, enc: map<int, seq<Byte>>)
    requires LaidOut(log, enc) && -2 in enc
    ensures enc[-2] <= log.data
  {
    RegionBytes(log, enc, JOB_REGION);
  }

  /** Finishing a region and moving on to a higher one extends the layout. */
  lemma FinishRegion(enc: map<int, seq<Byte>>, prev: int, z: seq<Byte>, next: int)
    requires prev < next && forall r :: r in enc ==> r < prev
    requires prev >= JOB_REGION
    ensures var enc' := enc[prev := z];
      && Below(enc', next) == Below(enc, prev) + z
      && MapFor(enc', prev) == LogMap(HEADER_SIZE + |Below(enc, prev)|, |z|)
      && (forall r :: r != prev ==> MapFor(enc', r) == MapFor(enc, r))
  {
    var enc' := enc[prev := z];
    BelowAgrees(enc, enc', prev);
    BelowSkips(enc', prev + 1, next);
    forall r | r != prev ensures MapFor(enc', r) == MapFor(enc, r) {
      if r in enc {
        BelowAgrees(enc, enc', r);
      }
    }
  }
}
