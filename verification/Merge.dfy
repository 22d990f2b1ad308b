/** Merging per-rank logs: the records of files that every rank recorded are reduced to one, all
    others are copied. One module's records at a time. */
module Merge {
  import opened PosixAggregate

  /** An entry of the shared-record hash. */
  datatype Ref = Ref(cnt: nat, agg: Record)

  // ---------------------------------------------------------------------------
  // The input
  // ---------------------------------------------------------------------------

  /** All records in the order in which the logs are read. */
  function Stream(logs: seq<seq<Record>>): seq<Record> {
    if logs == [] then [] else Stream(logs[..|logs| - 1]) + logs[|logs| - 1]
  }

  function OfId(rs: seq<Record>, id: nat): seq<Record> {
    if rs == [] then []
    else
      var r := rs[|rs| - 1];
      OfId(rs[..|rs| - 1], id) + (if r.id == id then [r] else [])
  }

  predicate HasId(rs: seq<Record>, id: nat) {
    exists i :: 0 <= i < |rs| && rs[i].id == id
  }

  /** One log for each rank, with at most one record of each file. */
  ghost predicate OneRankEach(logs: seq<seq<Record>>, ranks: seq<int>) {
    && |ranks| == |logs|
    && (forall j :: 0 <= j < |ranks| ==> 0 <= ranks[j])
    && (forall i, j :: 0 <= i < j < |ranks| ==> ranks[i] != ranks[j])
    && (forall j, k :: 0 <= j < |logs| && 0 <= k < |logs[j]| ==> logs[j][k].Valid() && logs[j][k].rank == ranks[j])
    && (forall j :: 0 <= j < |logs| ==> OncePerId(logs[j]))
  }

  ghost predicate OncePerId(rs: seq<Record>) {
    forall i, k :: 0 <= i < k < |rs| ==> rs[i].id != rs[k].id
  }

  /** What that means for the stream: no rank records a file twice, and the first rank's records
      come first. */
  ghost predicate Orderly(rs: seq<Record>) {
    && AllValid(rs)
    && (forall i :: 0 <= i < |rs| ==> 0 <= rs[i].rank)
    && (forall i, k :: 0 <= i < k < |rs| && rs[i].id == rs[k].id ==> rs[i].rank != rs[k].rank)
    && (forall i, k :: 0 <= i < k < |rs| && rs[k].rank == rs[0].rank ==> rs[i].rank == rs[0].rank)
  }

  lemma OrderlyPrefix(rs: seq<Record>, n: nat)
    requires Orderly(rs) && n <= |rs|
    ensures Orderly(rs[..n])
  {
  }

  /** Records of logs read so far have ranks of those logs. */
  lemma {:induction false} StreamRanks(logs: seq<seq<Record>>, ranks: seq<int>)
    requires OneRankEach(logs, ranks)
    ensures forall i :: 0 <= i < |Stream(logs)| ==> Stream(logs)[i].rank in ranks
  {
    if logs != [] {
      StreamRanks(logs[..|logs| - 1], ranks[..|ranks| - 1]);
    }
  }

  lemma {:induction false} StreamIsOrderly(logs: seq<seq<Record>>, ranks: seq<int>)
    requires OneRankEach(logs, ranks)
    ensures Orderly(Stream(logs))
  {
    if logs != [] {
      var n := |logs| - 1;
      StreamIsOrderly(logs[..n], ranks[..n]);
      StreamRanks(logs[..n], ranks[..n]);
      OrderlyThenNewRank(Stream(logs[..n]), logs[n], ranks[n]);
    }
  }

  lemma OrderlyThenNewRank(rs: seq<Record>, log: seq<Record>, rank: int)
    requires Orderly(rs) && AllValid(log) && OncePerId(log) && 0 <= rank
    requires forall i :: 0 <= i < |rs| ==> rs[i].rank != rank
    requires forall k :: 0 <= k < |log| ==> log[k].rank == rank
    ensures Orderly(rs + log)
  {
  }

  lemma {:induction false} OfIdAll(rs: seq<Record>, id: nat)
    ensures |OfId(rs, id)| <= |rs| && (OfId(rs, id) != [] <==> HasId(rs, id))
    ensures forall r :: r in OfId(rs, id) ==> r in rs && r.id == id
  {
    if rs != [] {
      OfIdAll(rs[..|rs| - 1], id);
      if HasId(rs, id) && !HasId(rs[..|rs| - 1], id) {
        assert rs[|rs| - 1].id == id;
      }
    }
  }

  lemma {:induction false} OfIdConcat(rs: seq<Record>, ts: seq<Record>, id: nat)
    ensures OfId(rs + ts, id) == OfId(rs, id) + OfId(ts, id)
  {
    if ts == [] {
      assert rs + ts == rs;
    } else {
      var front, r := ts[..|ts| - 1], ts[|ts| - 1];
      OfIdConcat(rs, front, id);
      assert rs + ts == rs + front + [r] && ts == front + [r];
      OfIdSnoc(rs + front, r, id);
      OfIdSnoc(front, r, id);
    }
  }

  lemma {:induction false} OfIdOnce(rs: seq<Record>, id: nat)
    requires OncePerId(rs)
    ensures |OfId(rs, id)| == if HasId(rs, id) then 1 else 0
  {
    if rs != [] {
      var front := rs[..|rs| - 1];
      OfIdOnce(front, id);
      if i :| 0 <= i < |rs| && rs[i].id == id {
        if i < |rs| - 1 {
          assert front[i].id == id;
        }
      }
    }
  }

  predicate AllHave(logs: seq<seq<Record>>, id: nat) {
    forall j :: 0 <= j < |logs| ==> HasId(logs[j], id)
  }

  lemma HasIdInWords(rs: seq<Record>, id: nat)
    ensures HasId(rs, id) <==> exists r :: r in rs && r.id == id
  {
    if HasId(rs, id) {
      var i :| 0 <= i < |rs| && rs[i].id == id;
      assert rs[i] in rs;
    }
  }

  lemma AllHaveSnoc(logs: seq<seq<Record>>, n: nat, id: nat)
    requires n + 1 == |logs|
    ensures AllHave(logs, id) <==> AllHave(logs[..n], id) && HasId(logs[n], id)
  {
    assert forall j :: 0 <= j < n ==> logs[..n][j] == logs[j];
  }

  /** A file has one record for each log that has it. */
  lemma {:induction false} RecordsOfId(logs: seq<seq<Record>>, id: nat)
    requires forall j :: 0 <= j < |logs| ==> OncePerId(logs[j])
    ensures |OfId(Stream(logs), id)| <= |logs|
    ensures |OfId(Stream(logs), id)| == |logs| <==> AllHave(logs, id)
  {
    if logs != [] {
      var n := |logs| - 1;
      RecordsOfId(logs[..n], id);
      OfIdConcat(Stream(logs[..n]), logs[n], id);
      OfIdOnce(logs[n], id);
      AllHaveSnoc(logs, n, id);
    }
  }

  // ---------------------------------------------------------------------------
  // The shared-record hash
  // ---------------------------------------------------------------------------

  function IdsOfRank(rs: seq<Record>, rank: int): seq<nat> {
    if rs == [] then []
    else
      var r := rs[|rs| - 1];
      IdsOfRank(rs[..|rs| - 1], rank) + (if r.rank == rank then [r.id] else [])
  }

  lemma {:induction false} IdsOfRankAre(rs: seq<Record>, rank: int)
    ensures forall id :: id in IdsOfRank(rs, rank) <==>
      exists i :: 0 <= i < |rs| && rs[i].rank == rank && rs[i].id == id
  {
    if rs != [] {
      var n := |rs| - 1;
      IdsOfRankAre(rs[..n], rank);
      forall id ensures id in IdsOfRank(rs, rank) <==>
        exists i :: 0 <= i < |rs| && rs[i].rank == rank && rs[i].id == id {
        if i :| 0 <= i < |rs| && rs[i].rank == rank && rs[i].id == id {
          if i < n {
            assert rs[..n][i].id == id;
          }
        }
      }
    }
  }

  function FirstRank(rs: seq<Record>): int {
    if rs == [] then -1 else rs[0].rank
  }

  ghost predicate EntryFor(ref: Ref, rs: seq<Record>, id: nat) {
    var own := OfId(rs, id);
    own != [] && AllValid(own) && ref == Ref(|own|, AggregateOf(own))
  }

  /** The hash after reading some records: an entry for each file of the first rank, with the
      number of its records and their aggregate. */
  ghost predicate Built(hash: map<nat, Ref>, order: seq<nat>, initRank: int, rs: seq<Record>) {
    Keyed(hash, order, initRank, rs) && EntriesFor(hash, rs)
  }

  ghost predicate Keyed(hash: map<nat, Ref>, order: seq<nat>, initRank: int, rs: seq<Record>) {
    && initRank == FirstRank(rs) && order == IdsOfRank(rs, initRank)
    && (forall id :: id in hash <==> id in order)
  }

  ghost predicate EntriesFor(hash: map<nat, Ref>, rs: seq<Record>) {
    forall id :: id in hash ==> EntryFor(hash[id], rs, id)
  }

  lemma OfIdSnoc(rs: seq<Record>, r: Record, id: nat)
    ensures OfId(rs + [r], id) == OfId(rs, id) + (if r.id == id then [r] else [])
  {
    assert (rs + [r])[..|rs|] == rs;
  }

  lemma IdsOfRankSnoc(rs: seq<Record>, r: Record, rank: int)
    ensures IdsOfRank(rs + [r], rank) == IdsOfRank(rs, rank) + (if r.rank == rank then [r.id] else [])
  {
    assert (rs + [r])[..|rs|] == rs;
  }

  /** Another rank's record of a file that has an entry. */
  lemma EntryGrows(ref: Ref, rs: seq<Record>, r: Record)
    requires EntryFor(ref, rs, r.id) && r.Valid()
    ensures ref.agg.Valid() && EntryFor(Ref(ref.cnt + 1, Step(ref.agg, r, false)), rs + [r], r.id)
  {
    var own := OfId(rs, r.id);
    OfIdSnoc(rs, r, r.id);
    assert (own + [r])[..|own|] == own;
  }

  lemma EntryStays(ref: Ref, rs: seq<Record>, r: Record, id: nat)
    requires EntryFor(ref, rs, id) && r.id != id
    ensures EntryFor(ref, rs + [r], id)
  {
    OfIdSnoc(rs, r, id);
    assert OfId(rs, id) + [] == OfId(rs, id);
  }

  /** The first rank's record of a file is the first record of the file. */
  lemma FirstOfFile(rs: seq<Record>, r: Record)
    requires Orderly(rs + [r]) && r.rank == (rs + [r])[0].rank
    ensures OfId(rs + [r], r.id) == [r]
  {
    OfIdSnoc(rs, r, r.id);
    OfIdAll(rs, r.id);
    forall i | 0 <= i < |rs| ensures rs[i].id != r.id {
      assert (rs + [r])[i] == rs[i] && (rs + [r])[|rs|] == r;
    }
    assert [] + [r] == [r];
  }

  lemma OthersStay(hash: map<nat, Ref>, rs: seq<Record>, r: Record, ref: Ref)
    requires EntriesFor(hash, rs) && EntryFor(ref, rs + [r], r.id)
    ensures EntriesFor(hash[r.id := ref], rs + [r])
  {
    forall id | id in hash && id != r.id ensures EntryFor(hash[id], rs + [r], id) {
      EntryStays(hash[id], rs, r, id);
    }
  }

  lemma KeysGrow(hash: map<nat, Ref>, order: seq<nat>, initRank: int, rs: seq<Record>, r: Record, ref: Ref)
    requires Keyed(hash, order, initRank, rs) && r.rank == FirstRank(rs + [r])
    ensures Keyed(hash[r.id := ref], order + [r.id], r.rank, rs + [r])
  {
    IdsOfRankSnoc(rs, r, r.rank);
    if rs != [] {
      assert (rs + [r])[0] == rs[0];
    }
  }

  lemma StartsEntry(hash: map<nat, Ref>, order: seq<nat>, initRank: int, rs: seq<Record>, r: Record)
    requires Built(hash, order, initRank, rs) && Orderly(rs + [r]) && r.Valid() && r.rank == FirstRank(rs + [r])
    ensures Built(hash[r.id := Ref(1, AggregateOf([r]))], order + [r.id], r.rank, rs + [r])
  {
    FirstOfFile(rs, r);
    KeysGrow(hash, order, initRank, rs, r, Ref(1, AggregateOf([r])));
    OthersStay(hash, rs, r, Ref(1, AggregateOf([r])));
  }

  /** A record of another rank: it counts if its file has an entry. */
  lemma KeepsEntries(hash: map<nat, Ref>, order: seq<nat>, initRank: int, rs: seq<Record>, r: Record,
                     hash': map<nat, Ref>)
    requires Built(hash, order, initRank, rs) && rs != [] && r.Valid() && r.rank != initRank
    requires r.id !in hash ==> hash' == hash
    requires r.id in hash ==> hash[r.id].agg.Valid() &&
                              hash' == hash[r.id := Ref(hash[r.id].cnt + 1, Step(hash[r.id].agg, r, false))]
    ensures Built(hash', order, initRank, rs + [r])
  {
    IdsOfRankSnoc(rs, r, initRank);
    assert order + [] == order;
    assert (rs + [r])[0] == rs[0];
    if r.id in hash {
      EntryGrows(hash[r.id], rs, r);
      OthersStay(hash, rs, r, hash'[r.id]);
    } else {
      forall id | id in hash ensures EntryFor(hash[id], rs + [r], id) {
        EntryStays(hash[id], rs, r, id);
      }
    }
  }

  /** The files whose entries count as many records as there are processes. */
  function Survivors(order: seq<nat>, hash: map<nat, Ref>, nprocs: nat): seq<nat> {
    if order == [] then []
    else
      var id := order[|order| - 1];
      Survivors(order[..|order| - 1], hash, nprocs) + (if id in hash && hash[id].cnt == nprocs then [id] else [])
  }

  lemma NextOfLog(before: seq<Record>, log: seq<Record>, k: nat)
    requires Orderly(before + log) && k < |log|
    ensures Orderly(before + log[..k] + [log[k]]) && log[k].Valid()
    ensures before + log[..k] + [log[k]] == before + log[..k + 1]
  {
    var n := |before| + k;
    assert (before + log)[n] == log[k];
    assert before + log[..k] + [log[k]] == (before + log)[..n + 1];
    OrderlyPrefix(before + log, n + 1);
  }

  method FirstValue(rec: Record) returns (value: Record)
    requires rec.Valid()
    ensures value == AggregateOf([rec])
  {
    var agg := new Aggregate();
    agg.AddRecord(rec, true);
    agg.id, agg.rank := rec.id, -1;
    value := agg.Copy();
  }

  method NextValue(sofar: Record, rec: Record) returns (value: Record)
    requires sofar.Valid() && rec.Valid()
    ensures value == Step(sofar, rec, false)
  {
    var agg := new Aggregate();
    agg.Load(sofar);
    agg.AddRecord(rec, false);
    value := agg.Copy();
  }

  class SharedRecords {
    var hash: map<nat, Ref>
    var order: seq<nat>
    var initRank: int

    ghost predicate BuiltFrom(rs: seq<Record>)
      reads this
    {
      Built(hash, order, initRank, rs)
    }

    constructor ()
      ensures BuiltFrom([])
    {
      hash, order, initRank := map[], [], -1;
    }

    /** Begins a file's entry with its first record. */
    method StartEntry(rec: Record, ghost rs: seq<Record>)
      requires BuiltFrom(rs) && Orderly(rs + [rec]) && rec.Valid() && rec.rank == FirstRank(rs + [rec])
      modifies this
      ensures BuiltFrom(rs + [rec])
    {
      StartsEntry(hash, order, initRank, rs, rec);
      var value := FirstValue(rec);
      initRank := rec.rank;
      hash := hash[rec.id := Ref(1, value)];
      order := order + [rec.id];
    }

    /** Adds another rank's record if its file has an entry. */
    method AddToEntry(rec: Record, ghost rs: seq<Record>)
      requires BuiltFrom(rs) && rs != [] && rec.Valid() && rec.rank != initRank
      modifies this
      ensures BuiltFrom(rs + [rec])
    {
      ghost var was := hash;
      if rec.id in hash {
        var ref := hash[rec.id];
        EntryIsValid(ref, rs, rec.id);
        var value := NextValue(ref.agg, rec);
        hash := hash[rec.id := Ref(ref.cnt + 1, value)];
      }
      KeepsEntries(was, order, initRank, rs, rec, hash);
    }

    method Take(rec: Record, ghost rs: seq<Record>)
      requires BuiltFrom(rs) && Orderly(rs + [rec]) && rec.Valid()
      modifies this
      ensures BuiltFrom(rs + [rec])
    {
      FirstRankOf(rs, rec);
      if initRank == -1 || rec.rank == initRank {
        StartEntry(rec, rs);
      } else {
        AddToEntry(rec, rs);
      }
    }

    /** Reads a log's records of the module. */
    method ReadLog(log: seq<Record>, ghost before: seq<Record>)
      requires BuiltFrom(before) && Orderly(before + log)
      modifies this
      ensures BuiltFrom(before + log)
    {
      assert before + log[..0] == before;
      for k := 0 to |log|
        invariant BuiltFrom(before + log[..k])
      {
        NextOfLog(before, log, k);
        Take(log[k], before + log[..k]);
      }
      assert log[..|log|] == log;
    }

    /** Reads every log. */
    method Build(logs: seq<seq<Record>>, ghost ranks: seq<int>)
      requires OneRankEach(logs, ranks) && BuiltFrom([])
      modifies this
      ensures BuiltFrom(Stream(logs))
    {
      for i := 0 to |logs|
        invariant BuiltFrom(Stream(logs[..i]))
      {
        StreamIsOrderly(logs[..i + 1], ranks[..i + 1]);
        assert logs[..i + 1][..i] == logs[..i];
        ReadLog(logs[i], Stream(logs[..i]));
      }
      assert logs[..|logs|] == logs;
    }

    /** Drops the files that not every process recorded. */
    method Prune(nprocs: nat)
      modifies this
      ensures order == Survivors(old(order), old(hash), nprocs)
      ensures forall id :: id in hash <==> id in old(hash) && old(hash)[id].cnt == nprocs
      ensures forall id :: id in hash ==> hash[id] == old(hash)[id]
    {
      var kept: seq<nat> := [];
      for i := 0 to |order|
        invariant kept == Survivors(order[..i], hash, nprocs)
      {
        assert order[..i + 1][..i] == order[..i];
        if order[i] in hash && hash[order[i]].cnt == nprocs {
          kept := kept + [order[i]];
        }
      }
      assert order[..|order|] == order;
      order := kept;
      hash := map id | id in hash && hash[id].cnt == nprocs :: hash[id];
    }
  }

  lemma FirstRankOf(rs: seq<Record>, r: Record)
    requires Orderly(rs + [r]) && r.Valid()
    ensures rs == [] ==> FirstRank(rs + [r]) == r.rank
    ensures rs != [] ==> FirstRank(rs) == FirstRank(rs + [r]) >= 0
  {
    if rs != [] {
      assert (rs + [r])[0] == rs[0];
    }
  }

  lemma EntryIsValid(ref: Ref, rs: seq<Record>, id: nat)
    requires EntryFor(ref, rs, id)
    ensures ref.agg.Valid()
  {
  }

  // ---------------------------------------------------------------------------
  // Which files survive
  // ---------------------------------------------------------------------------

  lemma {:induction false} SurvivorsAre(order: seq<nat>, hash: map<nat, Ref>, nprocs: nat)
    ensures forall id :: id in Survivors(order, hash, nprocs) <==> id in order && id in hash && hash[id].cnt == nprocs
    ensures Distinct(order) ==> Distinct(Survivors(order, hash, nprocs))
  {
    if order != [] {
      SurvivorsAre(order[..|order| - 1], hash, nprocs);
    }
  }

  ghost predicate Distinct(ids: seq<nat>) {
    forall i, j :: 0 <= i < j < |ids| ==> ids[i] != ids[j]
  }

  lemma {:induction false} IdsOfRankDistinct(rs: seq<Record>, rank: int)
    requires Orderly(rs)
    ensures Distinct(IdsOfRank(rs, rank))
  {
    if rs != [] {
      var n := |rs| - 1;
      OrderlyPrefix(rs, n);
      IdsOfRankDistinct(rs[..n], rank);
      IdsOfRankAre(rs[..n], rank);
      forall id | id in IdsOfRank(rs[..n], rank) && rs[n].rank == rank ensures id != rs[n].id {
        var i :| 0 <= i < n && rs[..n][i].rank == rank && rs[..n][i].id == id;
        assert rs[..n][i] == rs[i];
      }
      var ids := IdsOfRank(rs[..n], rank);
      assert forall i :: 0 <= i < |ids| ==> ids[i] in ids;
    }
  }

  /** A file that the first log has is keyed by its rank. */
  lemma KeyedIfInAll(logs: seq<seq<Record>>, ranks: seq<int>, id: nat)
    requires OneRankEach(logs, ranks) && logs != [] && AllHave(logs, id)
    ensures id in IdsOfRank(Stream(logs), FirstRank(Stream(logs)))
  {
    var all := Stream(logs);
    assert HasId(logs[0], id);
    var k :| 0 <= k < |logs[0]| && logs[0][k].id == id;
    BeginsWith(logs);
    assert all[0] == logs[0][0] && all[k] == logs[0][k];
    IdsOfRankAre(all, FirstRank(all));
  }

  lemma {:induction false} BeginsWith(logs: seq<seq<Record>>)
    requires logs != []
    ensures logs[0] <= Stream(logs)
  {
    if |logs| == 1 {
      assert Stream(logs[..0]) == [];
    } else {
      BeginsWith(logs[..|logs| - 1]);
    }
  }

  /** With one log per rank, the files reduced are exactly those that every rank recorded, and
      each one's entry aggregates the records of all ranks. */
  lemma SharedByAll(logs: seq<seq<Record>>, ranks: seq<int>, hash: map<nat, Ref>, order: seq<nat>, initRank: int,
                    id: nat)
    requires OneRankEach(logs, ranks) && logs != [] && Built(hash, order, initRank, Stream(logs))
    ensures id in hash && hash[id].cnt == |logs| <==> AllHave(logs, id)
    ensures id in hash ==>
              var own := OfId(Stream(logs), id);
              own != [] && AllValid(own) && OneFile(own) && Aggregates(hash[id].agg, own)
  {
    RecordsOfId(logs, id);
    if AllHave(logs, id) {
      KeyedIfInAll(logs, ranks, id);
    }
    if id in hash {
      assert EntryFor(hash[id], Stream(logs), id);
      StreamIsOrderly(logs, ranks);
      OwnRecords(Stream(logs), id);
      FileAggregate(OfId(Stream(logs), id));
    }
  }

  /** The fastest and the slowest rank of such an entry, in numbers, among the records of all ranks. */
  lemma SharedExtremes(logs: seq<seq<Record>>, ranks: seq<int>, hash: map<nat, Ref>, order: seq<nat>, initRank: int,
                       id: nat)
    returns (fast: nat, slow: nat)
    requires OneRankEach(logs, ranks) && logs != [] && Built(hash, order, initRank, Stream(logs)) && id in hash
    ensures var own, a := OfId(Stream(logs), id), hash[id].agg;
      && fast < |own| && slow < |own| && AllValid(own)
      && IsExtremeOf(a.fastest, own[fast]) && IsExtremeOf(a.slowest, own[slow])
      && forall j :: 0 <= j < |own| ==>
           a.fastest.time <= own[j].times[0] + own[j].times[1] + own[j].times[2] <= a.slowest.time
  {
    assert EntryFor(hash[id], Stream(logs), id);
    StreamIsOrderly(logs, ranks);
    OwnRecords(Stream(logs), id);
    fast, slow := ExtremesInNumbers(OfId(Stream(logs), id));
  }

  lemma OwnRecords(rs: seq<Record>, id: nat)
    requires Orderly(rs)
    ensures OneFile(OfId(rs, id))
  {
    OfIdAll(rs, id);
    var own := OfId(rs, id);
    forall i | 0 <= i < |own| ensures own[i].Valid() && own[i].id == id && 0 <= own[i].rank {
      assert own[i] in own;
      var k :| 0 <= k < |rs| && rs[k] == own[i];
    }
  }

  // ---------------------------------------------------------------------------
  // The output
  // ---------------------------------------------------------------------------

  /** The records whose files are not among some ids, in order. */
  function Without(rs: seq<Record>, ids: seq<nat>): seq<Record> {
    if rs == [] then []
    else
      var r := rs[|rs| - 1];
      Without(rs[..|rs| - 1], ids) + (if r.id in ids then [] else [r])
  }

  /** Each record of another file is copied as often as it came, each of these files not at all. */
  lemma {:induction false} OthersCopiedOnce(rs: seq<Record>, ids: seq<nat>, r: Record)
    ensures multiset(Without(rs, ids))[r] == if r.id in ids then 0 else multiset(rs)[r]
  {
    if rs != [] {
      var front, last := rs[..|rs| - 1], rs[|rs| - 1];
      OthersCopiedOnce(front, ids, r);
      assert rs == front + [last];
      assert Without(front, ids) + [] == Without(front, ids);
    }
  }

  function Reduced(ids: seq<nat>, hash: map<nat, Ref>): seq<Record>
    requires forall id :: id in ids ==> id in hash
  {
    if ids == [] then []
    else Reduced(ids[..|ids| - 1], hash) + [hash[ids[|ids| - 1]].agg]
  }

  lemma WithoutSnoc(rs: seq<Record>, r: Record, ids: seq<nat>)
    ensures Without(rs + [r], ids) == if r.id in ids then Without(rs, ids) else Without(rs, ids) + [r]
  {
    assert (rs + [r])[..|rs|] == rs;
  }

  lemma Associates(rs: seq<Record>, ts: seq<Record>, r: Record)
    ensures rs + (ts + [r]) == rs + ts + [r]
  {
  }

  lemma WithoutConcatStep(rs: seq<Record>, ts: seq<Record>, r: Record, ids: seq<nat>)
    requires Without(rs + ts, ids) == Without(rs, ids) + Without(ts, ids)
    ensures Without(rs + (ts + [r]), ids) == Without(rs, ids) + Without(ts + [r], ids)
  {
    Associates(rs, ts, r);
    Associates(Without(rs, ids), Without(ts, ids), r);
    WithoutSnoc(rs + ts, r, ids);
    WithoutSnoc(ts, r, ids);
  }

  lemma {:induction false} WithoutConcat(rs: seq<Record>, ts: seq<Record>, ids: seq<nat>)
    ensures Without(rs + ts, ids) == Without(rs, ids) + Without(ts, ids)
  {
    if ts == [] {
      assert rs + ts == rs;
    } else {
      var front, r := ts[..|ts| - 1], ts[|ts| - 1];
      WithoutConcat(rs, front, ids);
      assert ts == front + [r];
      WithoutConcatStep(rs, front, r, ids);
    }
  }

  /** The records of a log that are not skipped. */
  method CopyLog(log: seq<Record>, hash: map<nat, Ref>, ghost ids: seq<nat>) returns (out: seq<Record>)
    requires forall id :: id in hash <==> id in ids
    ensures out == Without(log, ids)
  {
    out := [];
    for k := 0 to |log|
      invariant out == Without(log[..k], ids)
    {
      assert log[..k + 1][..k] == log[..k];
      if log[k].id in hash {
        continue;
      }
      out := out + [log[k]];
    }
    assert log[..|log|] == log;
  }

  method CopyLogs(logs: seq<seq<Record>>, hash: map<nat, Ref>, ghost ids: seq<nat>) returns (out: seq<Record>)
    requires forall id :: id in hash <==> id in ids
    ensures out == Without(Stream(logs), ids)
  {
    out := [];
    for j := 0 to |logs|
      invariant out == Without(Stream(logs[..j]), ids)
    {
      var own := CopyLog(logs[j], hash, ids);
      out := out + own;
      assert logs[..j + 1][..j] == logs[..j];
      WithoutConcat(Stream(logs[..j]), logs[j], ids);
    }
    assert logs[..|logs|] == logs;
  }

  method PutReduced(order: seq<nat>, hash: map<nat, Ref>) returns (out: seq<Record>)
    requires forall id :: id in order ==> id in hash
    ensures out == Reduced(order, hash)
  {
    out := [];
    for i := 0 to |order|
      invariant out == Reduced(order[..i], hash)
    {
      assert order[..i + 1][..i] == order[..i];
      out := out + [hash[order[i]].agg];
    }
    assert order[..|order|] == order;
  }

  /** One module of the merged log: the reduced records first, then each log's others. */
  method MergeModule(logs: seq<seq<Record>>, sharedRedux: bool, ghost ranks: seq<int>)
    returns (out: seq<Record>, ghost ids: seq<nat>, ghost hash: map<nat, Ref>)
    requires OneRankEach(logs, ranks) && logs != []
    ensures Distinct(ids) && forall id :: id in ids <==> id in hash
    ensures sharedRedux ==> forall id :: id in ids <==> AllHave(logs, id)
    ensures !sharedRedux ==> ids == []
    ensures forall id :: id in ids ==> EntryFor(hash[id], Stream(logs), id)
    ensures out == Reduced(ids, hash) + Without(Stream(logs), ids)
  {
    var shared: map<nat, Ref>, order: seq<nat> := map[], [];
    if sharedRedux {
      shared, order := BuildShared(logs, ranks);
    }
    ids, hash := order, shared;
    var reduced := PutReduced(order, shared);
    var copied := CopyLogs(logs, shared, order);
    out := reduced + copied;
  }

  /** The hash for a module, pruned to the files of all ranks. */
  method BuildShared(logs: seq<seq<Record>>, ghost ranks: seq<int>) returns (hash: map<nat, Ref>, order: seq<nat>)
    requires OneRankEach(logs, ranks) && logs != []
    ensures Distinct(order) && forall id :: id in order <==> id in hash
    ensures forall id :: id in order <==> AllHave(logs, id)
    ensures forall id :: id in order ==> EntryFor(hash[id], Stream(logs), id)
  {
    var shared := new SharedRecords();
    shared.Build(logs, ranks);
    ghost var all, was := shared.hash, shared.order;
    StreamIsOrderly(logs, ranks);
    IdsOfRankDistinct(Stream(logs), shared.initRank);
    SurvivorsAre(was, all, |logs|);
    forall id ensures id in all && all[id].cnt == |logs| <==> AllHave(logs, id) {
      SharedByAll(logs, ranks, all, was, shared.initRank, id);
    }
    shared.Prune(|logs|);
    hash, order := shared.hash, shared.order;
  }

  // ---------------------------------------------------------------------------
  // Conservation
  // ---------------------------------------------------------------------------

  /** A summed counter, or one of the summed times. */
  datatype Field = Counter(i: nat) | Time(i: nat)

  function Amount(r: Record, f: Field): real {
    match f
    case Counter(i) => if i < |r.sums| then r.sums[i] as real else 0.0
    case Time(i) => if i < |r.times| then r.times[i] else 0.0
  }

  function Total(rs: seq<Record>, f: Field): real {
    if rs == [] then 0.0 else Total(rs[..|rs| - 1], f) + Amount(rs[|rs| - 1], f)
  }

  function TotalOfFiles(rs: seq<Record>, ids: seq<nat>, f: Field): real {
    if ids == [] then 0.0 else TotalOfFiles(rs, ids[..|ids| - 1], f) + Total(OfId(rs, ids[|ids| - 1]), f)
  }

  lemma {:induction false} TotalConcat(rs: seq<Record>, ts: seq<Record>, f: Field)
    ensures Total(rs + ts, f) == Total(rs, f) + Total(ts, f)
  {
    if ts == [] {
      assert rs + ts == rs;
    } else {
      TotalConcat(rs, ts[..|ts| - 1], f);
      assert (rs + ts)[..|rs + ts| - 1] == rs + ts[..|ts| - 1];
    }
  }

  lemma TotalSnoc(rs: seq<Record>, r: Record, f: Field)
    ensures Total(rs + [r], f) == Total(rs, f) + Amount(r, f)
  {
    assert (rs + [r])[..|rs|] == rs;
  }

  lemma WithoutLast(rs: seq<Record>, r: Record, ids: seq<nat>, f: Field)
    ensures Total(Without(rs + [r], ids), f) == Total(Without(rs, ids), f) + (if r.id in ids then 0.0 else Amount(r, f))
  {
    assert (rs + [r])[..|rs|] == rs;
    TotalSnoc(Without(rs, ids), r, f);
    assert Without(rs, ids) + [] == Without(rs, ids);
  }

  lemma OfIdLast(rs: seq<Record>, r: Record, id: nat, f: Field)
    ensures Total(OfId(rs + [r], id), f) == Total(OfId(rs, id), f) + (if r.id == id then Amount(r, f) else 0.0)
  {
    OfIdSnoc(rs, r, id);
    TotalSnoc(OfId(rs, id), r, f);
    assert OfId(rs, id) + [] == OfId(rs, id);
  }

  /** Leaving out one more file leaves out its records' total. */
  ghost predicate LeavesOut(rs: seq<Record>, ids: seq<nat>, more: seq<nat>, id: nat, f: Field) {
    Total(Without(rs, ids), f) == Total(Without(rs, more), f) + Total(OfId(rs, id), f)
  }

  lemma LeavesOutStep(rs: seq<Record>, r: Record, ids: seq<nat>, more: seq<nat>, id: nat, f: Field)
    requires (r.id in more <==> r.id in ids || r.id == id) && id !in ids
    requires LeavesOut(rs, ids, more, id, f)
    ensures LeavesOut(rs + [r], ids, more, id, f)
  {
    WithoutLast(rs, r, ids, f);
    WithoutLast(rs, r, more, f);
    OfIdLast(rs, r, id, f);
  }

  lemma {:induction false} WithoutOneMore(rs: seq<Record>, ids: seq<nat>, more: seq<nat>, id: nat, f: Field)
    requires id !in ids && forall x :: x in more <==> x in ids || x == id
    ensures LeavesOut(rs, ids, more, id, f)
  {
    if rs == [] {
    } else {
      var front, r := rs[..|rs| - 1], rs[|rs| - 1];
      assert rs == front + [r];
      WithoutOneMore(front, ids, more, id, f);
      assert r.id in more <==> r.id in ids || r.id == id;
      LeavesOutStep(front, r, ids, more, id, f);
    }
  }

  lemma {:induction false} WithoutNone(rs: seq<Record>)
    ensures Without(rs, []) == rs
  {
    if rs != [] {
      WithoutNone(rs[..|rs| - 1]);
      assert rs == rs[..|rs| - 1] + [rs[|rs| - 1]];
    }
  }

  lemma {:induction false} FilesPartition(rs: seq<Record>, ids: seq<nat>, f: Field)
    requires Distinct(ids)
    ensures Total(rs, f) == Total(Without(rs, ids), f) + TotalOfFiles(rs, ids, f)
  {
    if ids == [] {
      WithoutNone(rs);
    } else {
      var n := |ids| - 1;
      FilesPartition(rs, ids[..n], f);
      assert ids == ids[..n] + [ids[n]];
      WithoutOneMore(rs, ids[..n], ids, ids[n], f);
    }
  }

  lemma {:induction false} CounterTotal(rs: seq<Record>, i: nat)
    requires AllValid(rs) && i < SUMMED
    ensures Total(rs, Counter(i)) == Sum(Counters(rs, i)) as real
  {
    if rs != [] {
      CounterTotal(rs[..|rs| - 1], i);
      assert Counters(rs, i)[..|rs| - 1] == Counters(rs[..|rs| - 1], i);
    }
  }

  lemma {:induction false} TimeTotal(rs: seq<Record>, i: nat)
    requires AllValid(rs) && i < TIMES
    ensures Total(rs, Time(i)) == RealSum(Seconds(rs, i))
  {
    if rs != [] {
      TimeTotal(rs[..|rs| - 1], i);
      assert Seconds(rs, i)[..|rs| - 1] == Seconds(rs[..|rs| - 1], i);
    }
  }

  ghost predicate IsField(f: Field) {
    match f
    case Counter(i) => i < SUMMED
    case Time(i) => i < TIMES
  }

  /** The aggregate of some records keeps a summed time always, and a counter if no sum over the
      first of them falls below -1. */
  ghost predicate Keeps(rs: seq<Record>, f: Field)
    requires AllValid(rs) && IsField(f)
  {
    match f
    case Counter(i) => forall k :: 0 <= k <= |rs| ==> -1 <= Sum(Counters(rs, i)[..k])
    case Time(i) => true
  }

  lemma AggregateTotal(a: Record, rs: seq<Record>, f: Field)
    requires rs != [] && OneFile(rs) && IsField(f) && a.Valid() && Aggregates(a, rs)
    ensures Amount(a, f) >= Total(rs, f)
    ensures Amount(a, f) == Total(rs, f) <==> Keeps(rs, f)
  {
    match f
    case Counter(i) =>
      CounterTotal(rs, i);
      KeptSumExactIff(Counters(rs, i));
    case Time(i) =>
      TimeTotal(rs, i);
  }

  /** The merge keeps the field for each of some files. */
  ghost predicate KeepsAll(rs: seq<Record>, ids: seq<nat>, f: Field)
    requires Orderly(rs) && IsField(f)
  {
    forall id :: id in ids ==> AllValid(OfId(rs, id)) && Keeps(OfId(rs, id), f)
  }

  lemma KeepsOneMore(rs: seq<Record>, ids: seq<nat>, id: nat, f: Field)
    requires Orderly(rs) && IsField(f) && AllValid(OfId(rs, id))
    ensures KeepsAll(rs, ids + [id], f) <==> KeepsAll(rs, ids, f) && Keeps(OfId(rs, id), f)
  {
    assert forall x :: x in ids + [id] <==> x in ids || x == id;
  }

  lemma EntryTotal(rs: seq<Record>, id: nat, ref: Ref, f: Field)
    requires Orderly(rs) && IsField(f) && EntryFor(ref, rs, id)
    ensures var own := OfId(rs, id);
      && AllValid(own) && Amount(ref.agg, f) >= Total(own, f)
      && (Amount(ref.agg, f) == Total(own, f) <==> Keeps(own, f))
  {
    OwnRecords(rs, id);
    FileAggregate(OfId(rs, id));
    AggregateTotal(ref.agg, OfId(rs, id), f);
  }

  lemma {:induction false} ReducedTotal(rs: seq<Record>, ids: seq<nat>, hash: map<nat, Ref>, f: Field)
    requires Orderly(rs) && IsField(f)
    requires forall id :: id in ids ==> id in hash && EntryFor(hash[id], rs, id)
    ensures Total(Reduced(ids, hash), f) >= TotalOfFiles(rs, ids, f)
    ensures Total(Reduced(ids, hash), f) == TotalOfFiles(rs, ids, f) <==> KeepsAll(rs, ids, f)
  {
    if ids != [] {
      var n := |ids| - 1;
      var front, id := ids[..n], ids[n];
      assert ids == front + [id];
      ReducedTotal(rs, front, hash, f);
      ReducedOneMore(rs, front, id, hash, f);
    }
  }

  lemma ReducedOneMore(rs: seq<Record>, ids: seq<nat>, id: nat, hash: map<nat, Ref>, f: Field)
    requires Orderly(rs) && IsField(f)
    requires (forall x :: x in ids ==> x in hash) && id in hash && EntryFor(hash[id], rs, id)
    requires Total(Reduced(ids, hash), f) >= TotalOfFiles(rs, ids, f)
    requires Total(Reduced(ids, hash), f) == TotalOfFiles(rs, ids, f) <==> KeepsAll(rs, ids, f)
    ensures Total(Reduced(ids + [id], hash), f) >= TotalOfFiles(rs, ids + [id], f)
    ensures Total(Reduced(ids + [id], hash), f) == TotalOfFiles(rs, ids + [id], f) <==> KeepsAll(rs, ids + [id], f)
  {
    var more := ids + [id];
    assert more[..|ids|] == ids && more[|ids|] == id;
    TotalSnoc(Reduced(ids, hash), hash[id].agg, f);
    EntryTotal(rs, id, hash[id], f);
    KeepsOneMore(rs, ids, id, f);
  }

  /** What merging conserves: the output's total of each summed time is the input's. So is that of a
      counter if and only if, for each file reduced, no sum over the first ranks falls below -1;
      otherwise it is larger. */
  lemma MergeConserves(logs: seq<seq<Record>>, ranks: seq<int>, ids: seq<nat>, hash: map<nat, Ref>, f: Field)
    requires OneRankEach(logs, ranks) && Distinct(ids) && IsField(f)
    requires forall id :: id in ids ==> id in hash && EntryFor(hash[id], Stream(logs), id)
    ensures Orderly(Stream(logs))
    ensures var before, after := Total(Stream(logs), f), Total(Reduced(ids, hash) + Without(Stream(logs), ids), f);
      after >= before && (after == before <==> KeepsAll(Stream(logs), ids, f)) && (f.Time? ==> after == before)
  {
    StreamIsOrderly(logs, ranks);
    TotalConcat(Reduced(ids, hash), Without(Stream(logs), ids), f);
    ReducedTotal(Stream(logs), ids, hash, f);
    FilesPartition(Stream(logs), ids, f);
    forall id | id in ids ensures AllValid(OfId(Stream(logs), id)) {
      OwnRecords(Stream(logs), id);
    }
  }

  /** Counts that are valid in all records of the files reduced are conserved, whatever the records
      that are copied hold. */
  lemma ValidCountsAreConserved(logs: seq<seq<Record>>, ranks: seq<int>, ids: seq<nat>, hash: map<nat, Ref>, i: nat)
    requires OneRankEach(logs, ranks) && Distinct(ids) && i < SUMMED
    requires forall id :: id in ids ==> id in hash && EntryFor(hash[id], Stream(logs), id)
    requires forall r :: r in Stream(logs) && r.id in ids && i < |r.sums| ==> 0 <= r.sums[i]
    ensures Total(Reduced(ids, hash) + Without(Stream(logs), ids), Counter(i)) == Total(Stream(logs), Counter(i))
  {
    var rs := Stream(logs);
    MergeConserves(logs, ranks, ids, hash, Counter(i));
    forall id | id in ids ensures AllValid(OfId(rs, id)) && Keeps(OfId(rs, id), Counter(i)) {
      OwnRecords(rs, id);
      OfIdAll(rs, id);
      ValidCountsAreKept(OfId(rs, id), i);
    }
  }

  lemma ValidCountsAreKept(own: seq<Record>, i: nat)
    requires AllValid(own) && i < SUMMED && forall r :: r in own ==> i < |r.sums| && 0 <= r.sums[i]
    ensures Keeps(own, Counter(i))
  {
    var xs := Counters(own, i);
    forall k | 0 <= k <= |xs| ensures -1 <= Sum(xs[..k]) {
      forall j | 0 <= j < k ensures 0 <= xs[j] {
        assert own[j] in own;
      }
      ValidCountsAreExact(xs[..k]);
    }
  }

  lemma TwoUnavailable(own: seq<Record>, i: nat)
    requires AllValid(own) && i < SUMMED && 2 <= |own| && own[0].sums[i] == own[1].sums[i] == -1
    ensures !Keeps(own, Counter(i))
  {
    AllUnavailable(Counters(own, i)[..2]);
  }

  /** A counter that no rank could take is not conserved: the -1 of each rank's record of a file
      that all ranks share becomes a single one. */
  lemma UnavailableIsNotConserved(logs: seq<seq<Record>>, ranks: seq<int>, ids: seq<nat>, hash: map<nat, Ref>, i: nat,
                                  id: nat)
    requires OneRankEach(logs, ranks) && Distinct(ids) && i < SUMMED
    requires forall x :: x in ids ==> x in hash && EntryFor(hash[x], Stream(logs), x)
    requires id in ids && AllHave(logs, id) && 2 <= |logs|
    requires forall r :: r in Stream(logs) && r.id == id && i < |r.sums| ==> r.sums[i] == -1
    ensures Total(Reduced(ids, hash) + Without(Stream(logs), ids), Counter(i)) > Total(Stream(logs), Counter(i))
  {
    var rs := Stream(logs);
    MergeConserves(logs, ranks, ids, hash, Counter(i));
    OwnRecords(rs, id);
    OfIdAll(rs, id);
    RecordsOfId(logs, id);
    assert OfId(rs, id)[0] in OfId(rs, id) && OfId(rs, id)[1] in OfId(rs, id);
    TwoUnavailable(OfId(rs, id), i);
  }
}
