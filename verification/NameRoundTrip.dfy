/** The name table's round trip through a log: written record by record behind the job
    region, read back through buffers of any size that each record fits. */
module NameRoundTrip {
  import opened Codec
  import opened LogFile
  import opened LogReader
  import opened LogWriter
  import opened NameTable
  import opened RoundTrip

  /** One write per record, as the table is iterated, on a machine of this byte order or, `foreign`,
      of the other. */
  function NameWrites(job: seq<Byte>, rs: seq<Name>, foreign: bool): (ws: seq<Write>)
    ensures |ws| == |rs| + 1 && ws[0] == Write(JOB_REGION, job)
    ensures forall i :: 0 < i < |ws| ==> ws[i].region == NAME_MAP_REGION
  {
    if rs == [] then [Write(JOB_REGION, job)]
    else NameWrites(job, rs[..|rs| - 1], foreign) + [Write(NAME_MAP_REGION, Serialized(rs[|rs| - 1], foreign))]
  }

  lemma {:induction false} SerializedSnoc(rs: seq<Name>, r: Name, foreign: bool)
    ensures SerializedAll(rs + [r], foreign) == SerializedAll(rs, foreign) + Serialized(r, foreign)
    decreases |rs|
  {
    if rs == [] {
      assert rs + [r] == [r] && [r][1..] == [];
    } else {
      assert (rs + [r])[1..] == rs[1..] + [r];
      SerializedSnoc(rs[1..], r, foreign);
    }
  }

  lemma JobWritten(job: seq<Byte>)
    ensures Contents([Write(JOB_REGION, job)]) == map[JOB_REGION := job]
  {
    var ws := [Write(JOB_REGION, job)];
    assert ws[..0] == [] && [] + job == job;
    assert Contents(ws) == Appended(map[], JOB_REGION, job);
  }

  lemma OneMoreName(job: seq<Byte>, rs: seq<Name>, r: Name, foreign: bool)
    ensures Contents(NameWrites(job, rs + [r], foreign)) ==
      Appended(Contents(NameWrites(job, rs, foreign)), NAME_MAP_REGION, Serialized(r, foreign))
  {
    assert (rs + [r])[..|rs|] == rs;
    var before := NameWrites(job, rs, foreign);
    assert (before + [Write(NAME_MAP_REGION, Serialized(r, foreign))])[..|before|] == before;
  }

  /** What the job and some bytes of names leave in the log; no bytes leave no region. */
  function JobAndNames(job: seq<Byte>, names: seq<Byte>): map<int, seq<Byte>> {
    if names == [] then map[JOB_REGION := job] else map[JOB_REGION := job, NAME_MAP_REGION := names]
  }

  lemma MoreNames(job: seq<Byte>, names: seq<Byte>, more: seq<Byte>)
    requires more != []
    ensures Appended(JobAndNames(job, names), NAME_MAP_REGION, more) == JobAndNames(job, names + more)
  {
    assert names == [] ==> [] + more == names + more;
  }

  lemma {:induction false} NamesWritten(job: seq<Byte>, rs: seq<Name>, foreign: bool)
    ensures Contents(NameWrites(job, rs, foreign)) == JobAndNames(job, SerializedAll(rs, foreign))
  {
    if rs == [] {
      JobWritten(job);
    } else {
      var before, r := rs[..|rs| - 1], rs[|rs| - 1];
      assert rs == before + [r];
      NamesWritten(job, before, foreign);
      OneMoreName(job, before, r, foreign);
      SerializedSnoc(before, r, foreign);
      MoreNames(job, SerializedAll(before, foreign), Serialized(r, foreign));
    }
  }

  /** Every id comes back with its name. */
  ghost predicate SameNames(t: Table, rs: seq<Name>) {
    && (forall id :: id in t ==> exists i :: 0 <= i < |rs| && rs[i].id == id)
    && (forall i :: 0 <= i < |rs| ==> rs[i].id in t && t[rs[i].id] == rs[i].name)
  }

  lemma ParsesToSameNames(rs: seq<Name>, foreign: bool)
    requires Storable(rs) && forall i, j :: 0 <= i < j < |rs| ==> rs[i].id != rs[j].id
    ensures var r := Parse(map[], SerializedAll(rs, foreign), foreign, None); SameNames(r.table, rs) && r.rest == []
  {
    SerializedParsesBack(map[], rs, foreign, None);
    var t := Parse(map[], SerializedAll(rs, foreign), foreign, None).table;
    forall id | id in t ensures exists i :: 0 <= i < |rs| && rs[i].id == id {
      DistinctIdsRoundTrip(rs, foreign, id);
    }
    forall i | 0 <= i < |rs| ensures rs[i].id in t && t[rs[i].id] == rs[i].name {
      DistinctIdsRoundTrip(rs, foreign, rs[i].id);
    }
  }

  /** A table of distinct ids, written to a log on a machine of either byte order and read back, is
      the same table, also if it is empty, and the closing assertion of the reader holds. A table
      comes back exactly if a log does whose regions can all be loaded. */
  method WriteThenReadNames<S(!new), T(!new)>(codec: Codec<S, T>, job: seq<Byte>, rs: seq<Name>, foreign: bool,
                                              size: nat)
    returns (log: LogFile.Option<Log>, ghost enc: map<int, seq<Byte>>, table: LogFile.Option<Table>, complete: bool)
    requires DeflateOk(codec) && InflateOk(codec) && Storable(rs)
    requires forall i, j :: 0 <= i < j < |rs| ==> rs[i].id != rs[j].id
    requires forall i :: 0 <= i < |rs| ==> ID_SIZE + |rs[i].name| + 1 <= size
    ensures log == LogFile.None <==> EndsFull(codec, NameWrites(job, rs, foreign))
    ensures log.Some? ==> HoldsWrites(codec, log.value, enc, Contents(NameWrites(job, rs, foreign)))
    ensures table.Some? <==> log.Some? && Loadable(enc)
    ensures table.Some? ==> SameNames(table.value, rs) && complete
  {
    table, complete := LogFile.None, false;
    NamesWritten(job, rs, foreign);
    log, enc := WriteLog(codec, 0, NameWrites(job, rs, foreign));
    if log.None? {
      return;
    }
    var ok := CheckLoadable(codec, log.value, enc);
    if ok {
      var t, c := LoadNames(codec, log.value, enc, Contents(NameWrites(job, rs, foreign)), foreign, size, rs);
      table, complete := LogFile.Some(t), c;
    }
  }

  method LoadNames<S, T(!new)>(codec: Codec<S, T>, log: Log, ghost enc: map<int, seq<Byte>>,
                               ghost m: map<int, seq<Byte>>, foreign: bool, size: nat, ghost rs: seq<Name>)
    returns (table: Table, complete: bool)
    requires InflateOk(codec) && HoldsWrites(codec, log, enc, m) && JOB_REGION in m
    requires Loadable(enc)
    requires Storable(rs) && forall i, j :: 0 <= i < j < |rs| ==> rs[i].id != rs[j].id
    requires forall i :: 0 <= i < |rs| ==> ID_SIZE + |rs[i].name| + 1 <= size
    requires NAME_MAP_REGION in m <==> rs != []
    requires rs != [] ==> m[NAME_MAP_REGION] == SerializedAll(rs, foreign)
    ensures SameNames(table, rs) && complete
  {
    var fd := OpenLog(codec, log, enc, m);
    if rs != [] {
      OneStream(fd.streams[NAME_MAP_REGION][0]);
      SerializedFits(rs, foreign, size);
      ParsesToSameNames(rs, foreign);
    }
    var ends;
    ends, table, complete := GetNameHash(fd, foreign, None, size);
  }
}
