/** Deriving metrics from a stream of records: per-file totals kept in a hash, put into
    categories at the end, and the times of the ranks. */
module Accumulator {

  /** What one record contributes. A negative rank stands for all of them, an offset of -1 for none
      known. */
  datatype Metrics = Metrics(id: nat, rBytes: int, wBytes: int, offset: int, rank: int,
                             ioTime: real, rwTime: real, mdTime: real) {
    /** A shared record counts for all processes, any other for one. */
    function Nprocs(): int { if rank < 0 then -1 else 1 }
  }

  /** A file's entry in the hash. */
  datatype Entry = Entry(rBytes: int, wBytes: int, offset: int, nprocs: int)

  const NEW_ENTRY := Entry(0, 0, 0, 0)

  datatype Category = Category(count: nat, rBytes: int, wBytes: int, maxR: int, maxW: int,
                               totalOffset: int, maxOffset: int, nprocs: int)

  const ALL_FILES := 0
  const RO_FILES := 1
  const WO_FILES := 2
  const RW_FILES := 3
  const UNIQ_FILES := 4
  const SHARED_FILES := 5
  const PART_SHARED_FILES := 6
  const CATEGORIES: nat := 7

  // ---------------------------------------------------------------------------
  // Files
  // ---------------------------------------------------------------------------

  function Larger(x: int, y: int): int { if x > y then x else y }

  /** An entry after one more record of its file. */
  function Counted(e: Entry, m: Metrics): Entry {
    Entry(e.rBytes + m.rBytes, e.wBytes + m.wBytes, if m.offset == -1 then -1 else Larger(e.offset, m.offset),
          if m.Nprocs() == -1 then -1 else e.nprocs + m.Nprocs())
  }

  function OfFile(ms: seq<Metrics>, id: nat): seq<Metrics> {
    if ms == [] then []
    else
      var m := ms[|ms| - 1];
      OfFile(ms[..|ms| - 1], id) + (if m.id == id then [m] else [])
  }

  /** The entry after some records of one file. */
  function EntryOf(own: seq<Metrics>): Entry {
    if own == [] then NEW_ENTRY else Counted(EntryOf(own[..|own| - 1]), own[|own| - 1])
  }

  /** The files in the order in which they first came, which is that of the hash. */
  function Files(ms: seq<Metrics>): seq<nat> {
    if ms == [] then []
    else
      var before := Files(ms[..|ms| - 1]);
      var id := ms[|ms| - 1].id;
      if id in before then before else before + [id]
  }

  function ReadOf(ms: seq<Metrics>): int {
    if ms == [] then 0 else ReadOf(ms[..|ms| - 1]) + ms[|ms| - 1].rBytes
  }

  function WrittenOf(ms: seq<Metrics>): int {
    if ms == [] then 0 else WrittenOf(ms[..|ms| - 1]) + ms[|ms| - 1].wBytes
  }

  function BytesOf(ms: seq<Metrics>): int {
    ReadOf(ms) + WrittenOf(ms)
  }

  lemma BytesSnoc(ms: seq<Metrics>, m: Metrics)
    ensures BytesOf(ms + [m]) == BytesOf(ms) + m.rBytes + m.wBytes
  {
    assert (ms + [m])[..|ms|] == ms;
  }

  /** A file counts as shared exactly if its last record is a shared one: records of single ranks
      that follow count up from there. Otherwise, without any shared record, it counts its
      records. */
  lemma {:induction false} SharedIffLastIsShared(own: seq<Metrics>)
    requires own != []
    ensures EntryOf(own).nprocs == -1 <==> own[|own| - 1].rank < 0
    ensures (forall i :: 0 <= i < |own| ==> 0 <= own[i].rank) ==> EntryOf(own).nprocs == |own|
    ensures EntryOf(own).nprocs >= -1
  {
    if |own| > 1 {
      SharedIffLastIsShared(own[..|own| - 1]);
    } else {
      assert EntryOf(own[..0]) == NEW_ENTRY;
    }
  }

  /** What one more record does to its file and to the times, in numbers. */
  lemma RecordInNumbers(own: seq<Metrics>, m: Metrics)
    ensures var e, next := EntryOf(own), EntryOf(own + [m]);
            && next.rBytes == e.rBytes + m.rBytes && next.wBytes == e.wBytes + m.wBytes
            && next.nprocs == (if m.rank < 0 then -1 else e.nprocs + 1)
            && next.offset == (if m.offset == -1 then -1 else if e.offset > m.offset then e.offset else m.offset)
    ensures EntryOf([]) == Entry(0, 0, 0, 0)
  {
    EntryOfSnoc(own, m);
  }

  /** The times of one rank and of the shared records, in numbers. */
  lemma TimesInNumbers(ms: seq<Metrics>, m: Metrics, rank: nat)
    ensures RankTime(ms + [m], rank) == RankTime(ms, rank) + (if m.rank == rank then m.ioTime else 0.0)
    ensures RankRwTime(ms + [m], rank) == RankRwTime(ms, rank) + (if m.rank == rank then m.rwTime else 0.0)
    ensures RankMdTime(ms + [m], rank) == RankMdTime(ms, rank) + (if m.rank == rank then m.mdTime else 0.0)
    ensures SharedTime(ms + [m]) == SharedTime(ms) + (if m.rank < 0 then m.ioTime else 0.0)
    ensures RankTime([], rank) == RankRwTime([], rank) == RankMdTime([], rank) == SharedTime([]) == 0.0
  {
    assert (ms + [m])[..|ms|] == ms;
  }

  /** One record of a single rank behind shared ones, and the file counts as used by no process. */
  lemma SharedThenSingle(own: seq<Metrics>, m: Metrics)
    requires own != [] && own[|own| - 1].rank < 0 <= m.rank
    ensures EntryOf(own).nprocs == -1 && EntryOf(own + [m]).nprocs == 0
  {
    SharedIffLastIsShared(own);
    assert (own + [m])[..|own|] == own;
  }

  lemma {:induction false} EntryBytes(own: seq<Metrics>)
    ensures EntryOf(own).rBytes == ReadOf(own) && EntryOf(own).wBytes == WrittenOf(own)
  {
    if own != [] {
      EntryBytes(own[..|own| - 1]);
    }
  }

  // ---------------------------------------------------------------------------
  // Categories
  // ---------------------------------------------------------------------------

  predicate Belongs(e: Entry, k: nat) {
    match k
    case 0 => true
    case 1 => e.rBytes > 0 && e.wBytes == 0
    case 2 => e.wBytes > 0 && e.rBytes == 0
    case 3 => e.wBytes > 0 && e.rBytes > 0
    case 4 => e.nprocs == 1
    case 5 => e.nprocs == -1
    case 6 => e.nprocs != 1 && e.nprocs != -1
    case _ => false
  }

  function Members(es: seq<Entry>, k: nat): seq<Entry> {
    if es == [] then []
    else
      var e := es[|es| - 1];
      Members(es[..|es| - 1], k) + (if Belongs(e, k) then [e] else [])
  }

  function ReadVolume(es: seq<Entry>): int {
    if es == [] then 0 else ReadVolume(es[..|es| - 1]) + es[|es| - 1].rBytes
  }

  function WriteVolume(es: seq<Entry>): int {
    if es == [] then 0 else WriteVolume(es[..|es| - 1]) + es[|es| - 1].wBytes
  }

  /** The number of processes of the files that count some. */
  function Procs(es: seq<Entry>): nat {
    if es == [] then 0 else Procs(es[..|es| - 1]) + (if es[|es| - 1].nprocs > 0 then es[|es| - 1].nprocs else 0)
  }

  predicate AnyShared(es: seq<Entry>) {
    exists i :: 0 <= i < |es| && es[i].nprocs < 0
  }

  /** All processes, if a file is shared or the files' processes add up to the job's. */
  ghost function CategoryProcs(es: seq<Entry>, jobNprocs: nat): int {
    if AnyShared(es) || Procs(es) >= jobNprocs then -1 else Procs(es)
  }

  predicate IsMax(x: int, xs: seq<int>) {
    (x == 0 || x in xs) && 0 <= x && forall y :: y in xs ==> y <= x
  }

  function Reads(es: seq<Entry>): (xs: seq<int>)
    ensures |xs| == |es| && forall i :: 0 <= i < |xs| ==> xs[i] == es[i].rBytes
  {
    seq(|es|, i requires 0 <= i < |es| => es[i].rBytes)
  }

  function Writes(es: seq<Entry>): (xs: seq<int>)
    ensures |xs| == |es| && forall i :: 0 <= i < |xs| ==> xs[i] == es[i].wBytes
  {
    seq(|es|, i requires 0 <= i < |es| => es[i].wBytes)
  }

  /** The sum of the files' offsets, begun again at -1 by each file without one. */
  function OffsetTotal(es: seq<Entry>): int {
    if es == [] then 0
    else if es[|es| - 1].offset == -1 then -1
    else OffsetTotal(es[..|es| - 1]) + es[|es| - 1].offset
  }

  function OffsetMax(es: seq<Entry>): int {
    if es == [] then 0
    else if es[|es| - 1].offset == -1 then -1
    else Larger(OffsetMax(es[..|es| - 1]), es[|es| - 1].offset)
  }

  /** What a category holds of its files. */
  ghost predicate Describes(c: Category, es: seq<Entry>, jobNprocs: nat) {
    Numbers(c, es, jobNprocs) && c.totalOffset == OffsetTotal(es) && c.maxOffset == OffsetMax(es)
  }

  /** All of it but the offsets. */
  ghost predicate Numbers(c: Category, es: seq<Entry>, jobNprocs: nat) {
    && c.count == |es| && c.rBytes == ReadVolume(es) && c.wBytes == WriteVolume(es)
    && IsMax(c.maxR, Reads(es)) && IsMax(c.maxW, Writes(es))
    && c.nprocs == CategoryProcs(es, jobNprocs)
  }

  lemma MaxGrows(x: int, xs: seq<int>, y: int)
    requires IsMax(x, xs)
    ensures IsMax(if x > y then x else y, xs + [y])
  {
  }

  lemma SumsGrow(es: seq<Entry>, e: Entry)
    ensures ReadVolume(es + [e]) == ReadVolume(es) + e.rBytes && WriteVolume(es + [e]) == WriteVolume(es) + e.wBytes
    ensures Procs(es + [e]) == Procs(es) + (if e.nprocs > 0 then e.nprocs else 0)
    ensures AnyShared(es + [e]) <==> AnyShared(es) || e.nprocs < 0
    ensures Reads(es + [e]) == Reads(es) + [e.rBytes] && Writes(es + [e]) == Writes(es) + [e.wBytes]
    ensures OffsetTotal(es + [e]) == if e.offset == -1 then -1 else OffsetTotal(es) + e.offset
    ensures OffsetMax(es + [e]) == if e.offset == -1 then -1 else Larger(OffsetMax(es), e.offset)
  {
    var all := es + [e];
    assert all[..|es|] == es && all[|es|] == e;
    if i :| 0 <= i < |es| && es[i].nprocs < 0 {
      assert all[i].nprocs < 0;
    }
  }

  /** The increment of a category. */
  method CategoryInc(c: Category, e: Entry, jobNprocs: nat, ghost es: seq<Entry>) returns (r: Category)
    requires 0 < jobNprocs && Describes(c, es, jobNprocs)
    ensures Describes(r, es + [e], jobNprocs)
  {
    SumsGrow(es, e);
    MaxGrows(c.maxR, Reads(es), e.rBytes);
    MaxGrows(c.maxW, Writes(es), e.wBytes);
    r := c.(count := c.count + 1,
            rBytes := c.rBytes + e.rBytes,
            wBytes := c.wBytes + e.wBytes,
            maxR := if c.maxR > e.rBytes then c.maxR else e.rBytes,
            maxW := if c.maxW > e.wBytes then c.maxW else e.wBytes);
    if e.offset == -1 {
      r := r.(totalOffset := -1, maxOffset := -1);
    } else {
      r := r.(totalOffset := r.totalOffset + e.offset, maxOffset := Larger(r.maxOffset, e.offset));
    }
    if e.nprocs > 0 && r.nprocs > -1 {
      r := r.(nprocs := r.nprocs + e.nprocs);
    }
    if e.nprocs < 0 || r.nprocs >= jobNprocs {
      r := r.(nprocs := -1);
    }
  }

  const NO_FILES := Category(0, 0, 0, 0, 0, 0, 0, 0)

  ghost predicate AllDescribe(cats: seq<Category>, es: seq<Entry>, jobNprocs: nat) {
    |cats| == CATEGORIES && forall k :: 0 <= k < CATEGORIES ==> Describes(cats[k], Members(es, k), jobNprocs)
  }

  lemma NoFilesDescribed(cats: seq<Category>, jobNprocs: nat)
    requires 0 < jobNprocs && |cats| == CATEGORIES && forall k :: 0 <= k < CATEGORIES ==> cats[k] == NO_FILES
    ensures AllDescribe(cats, [], jobNprocs)
  {
  }

  lemma MembersSnoc(es: seq<Entry>, e: Entry, k: nat)
    ensures Members(es + [e], k) == if Belongs(e, k) then Members(es, k) + [e] else Members(es, k)
  {
    assert (es + [e])[..|es|] == es;
  }

  /** Counts a file in one category. */
  method Put(cats: array<Category>, k: nat, e: Entry, jobNprocs: nat, ghost es: seq<Entry>)
    requires 0 < jobNprocs && cats.Length == CATEGORIES && k < CATEGORIES && Belongs(e, k)
    requires Describes(cats[k], Members(es, k), jobNprocs)
    modifies cats
    ensures Describes(cats[k], Members(es + [e], k), jobNprocs)
    ensures forall i :: 0 <= i < CATEGORIES && i != k ==> cats[i] == old(cats[i])
  {
    MembersSnoc(es, e, k);
    cats[k] := CategoryInc(cats[k], e, jobNprocs, Members(es, k));
  }

  lemma NotMember(c: Category, es: seq<Entry>, e: Entry, k: nat, jobNprocs: nat)
    requires Describes(c, Members(es, k), jobNprocs) && !Belongs(e, k)
    ensures Describes(c, Members(es + [e], k), jobNprocs)
  {
    MembersSnoc(es, e, k);
  }

  ghost predicate Described(cats: seq<Category>, lo: nat, hi: nat, es: seq<Entry>, jobNprocs: nat) {
    hi < |cats| == CATEGORIES && forall k :: lo <= k <= hi ==> Describes(cats[k], Members(es, k), jobNprocs)
  }

  /** Counting a file in the only one of some categories that it belongs to. */
  lemma PutInOne(was: seq<Category>, now: seq<Category>, k: nat, lo: nat, hi: nat, es: seq<Entry>, e: Entry,
                 jobNprocs: nat)
    requires Described(was, lo, hi, es, jobNprocs) && lo <= k <= hi && |now| == CATEGORIES
    requires Describes(now[k], Members(es + [e], k), jobNprocs)
    requires forall i :: lo <= i <= hi && i != k ==> now[i] == was[i] && !Belongs(e, i)
    ensures Described(now, lo, hi, es + [e], jobNprocs)
  {
    forall i | lo <= i <= hi && i != k ensures Describes(now[i], Members(es + [e], i), jobNprocs) {
      NotMember(was[i], es, e, i, jobNprocs);
    }
  }

  method PutWithin(cats: array<Category>, k: nat, lo: nat, hi: nat, e: Entry, jobNprocs: nat, ghost es: seq<Entry>)
    requires 0 < jobNprocs && cats.Length == CATEGORIES && lo <= k <= hi
    requires Described(cats[..], lo, hi, es, jobNprocs)
    requires forall i :: lo <= i <= hi ==> (Belongs(e, i) <==> i == k)
    modifies cats
    ensures Described(cats[..], lo, hi, es + [e], jobNprocs)
    ensures forall i :: 0 <= i < CATEGORIES && i != k ==> cats[i] == old(cats[i])
  {
    ghost var was := cats[..];
    assert Describes(was[k], Members(es, k), jobNprocs);
    Put(cats, k, e, jobNprocs, es);
    ghost var now := cats[..];
    assert forall i :: 0 <= i < CATEGORIES && i != k ==> now[i] == was[i];
    PutInOne(was, now, k, lo, hi, es, e, jobNprocs);
  }

  /** A file that belongs to none of them. */
  lemma PutInNone(cats: seq<Category>, lo: nat, hi: nat, es: seq<Entry>, e: Entry, jobNprocs: nat)
    requires Described(cats, lo, hi, es, jobNprocs) && forall i :: lo <= i <= hi ==> !Belongs(e, i)
    ensures Described(cats, lo, hi, es + [e], jobNprocs)
  {
    forall i | lo <= i <= hi ensures Describes(cats[i], Members(es + [e], i), jobNprocs) {
      NotMember(cats[i], es, e, i, jobNprocs);
    }
  }

  function AccessOf(e: Entry): (k: nat)
    ensures RO_FILES <= k <= RW_FILES || k == CATEGORIES
    ensures forall i :: RO_FILES <= i <= RW_FILES ==> (Belongs(e, i) <==> i == k)
  {
    if e.rBytes > 0 && e.wBytes == 0 then RO_FILES
    else if e.wBytes > 0 && e.rBytes == 0 then WO_FILES
    else if e.wBytes > 0 && e.rBytes > 0 then RW_FILES
    else CATEGORIES
  }

  /** Read-only, write-only or both. */
  method CategorizeAccess(cats: array<Category>, e: Entry, jobNprocs: nat, ghost es: seq<Entry>)
    requires 0 < jobNprocs && cats.Length == CATEGORIES && Described(cats[..], RO_FILES, RW_FILES, es, jobNprocs)
    modifies cats
    ensures Described(cats[..], RO_FILES, RW_FILES, es + [e], jobNprocs)
    ensures forall i :: 0 <= i < CATEGORIES && !(RO_FILES <= i <= RW_FILES) ==> cats[i] == old(cats[i])
  {
    var k := AccessOf(e);
    if k < CATEGORIES {
      PutWithin(cats, k, RO_FILES, RW_FILES, e, jobNprocs, es);
    } else {
      PutInNone(cats[..], RO_FILES, RW_FILES, es, e, jobNprocs);
    }
  }

  function SharingOf(e: Entry): (k: nat)
    ensures UNIQ_FILES <= k <= PART_SHARED_FILES
    ensures forall i :: UNIQ_FILES <= i <= PART_SHARED_FILES ==> (Belongs(e, i) <==> i == k)
  {
    if e.nprocs == 1 then UNIQ_FILES else if e.nprocs == -1 then SHARED_FILES else PART_SHARED_FILES
  }

  /** Unique, shared or partially shared. */
  method CategorizeSharing(cats: array<Category>, e: Entry, jobNprocs: nat, ghost es: seq<Entry>)
    requires 0 < jobNprocs && cats.Length == CATEGORIES &&
      Described(cats[..], UNIQ_FILES, PART_SHARED_FILES, es, jobNprocs)
    modifies cats
    ensures Described(cats[..], UNIQ_FILES, PART_SHARED_FILES, es + [e], jobNprocs)
    ensures forall i :: 0 <= i < CATEGORIES && !(UNIQ_FILES <= i <= PART_SHARED_FILES) ==> cats[i] == old(cats[i])
  {
    PutWithin(cats, SharingOf(e), UNIQ_FILES, PART_SHARED_FILES, e, jobNprocs, es);
  }

  lemma DescribedApart(cats: seq<Category>, es: seq<Entry>, jobNprocs: nat)
    requires |cats| == CATEGORIES
    ensures AllDescribe(cats, es, jobNprocs) <==>
              && Described(cats, ALL_FILES, ALL_FILES, es, jobNprocs)
              && Described(cats, RO_FILES, RW_FILES, es, jobNprocs)
              && Described(cats, UNIQ_FILES, PART_SHARED_FILES, es, jobNprocs)
  {
  }

  /** Counts a file in its categories. */
  method Categorize(cats: array<Category>, e: Entry, jobNprocs: nat, ghost es: seq<Entry>)
    requires 0 < jobNprocs && cats.Length == CATEGORIES && AllDescribe(cats[..], es, jobNprocs)
    modifies cats
    ensures AllDescribe(cats[..], es + [e], jobNprocs)
  {
    DescribedApart(cats[..], es, jobNprocs);
    Put(cats, ALL_FILES, e, jobNprocs, es);
    CategorizeAccess(cats, e, jobNprocs, es);
    CategorizeSharing(cats, e, jobNprocs, es);
    DescribedApart(cats[..], es + [e], jobNprocs);
  }

  // ---------------------------------------------------------------------------
  // The accumulator
  // ---------------------------------------------------------------------------

  /** The time one rank spent on records of its own. */
  function RankTime(ms: seq<Metrics>, rank: nat): real {
    if ms == [] then 0.0
    else RankTime(ms[..|ms| - 1], rank) + (if ms[|ms| - 1].rank == rank then ms[|ms| - 1].ioTime else 0.0)
  }

  function RankRwTime(ms: seq<Metrics>, rank: nat): real {
    if ms == [] then 0.0
    else RankRwTime(ms[..|ms| - 1], rank) + (if ms[|ms| - 1].rank == rank then ms[|ms| - 1].rwTime else 0.0)
  }

  function RankMdTime(ms: seq<Metrics>, rank: nat): real {
    if ms == [] then 0.0
    else RankMdTime(ms[..|ms| - 1], rank) + (if ms[|ms| - 1].rank == rank then ms[|ms| - 1].mdTime else 0.0)
  }

  function SharedTime(ms: seq<Metrics>): real {
    if ms == [] then 0.0
    else SharedTime(ms[..|ms| - 1]) + (if ms[|ms| - 1].rank < 0 then ms[|ms| - 1].ioTime else 0.0)
  }

  ghost predicate HashHolds(files: map<nat, Entry>, order: seq<nat>, ms: seq<Metrics>) {
    KeysHold(files, order, ms) && EntriesHold(files, ms)
  }

  ghost predicate KeysHold(files: map<nat, Entry>, order: seq<nat>, ms: seq<Metrics>) {
    order == Files(ms) && forall id :: id in files <==> id in order
  }

  ghost predicate EntriesHold(files: map<nat, Entry>, ms: seq<Metrics>) {
    forall id :: id in files ==> files[id] == EntryOf(OfFile(ms, id))
  }

  lemma {:induction false} FilesAre(ms: seq<Metrics>)
    ensures forall id :: id in Files(ms) <==> OfFile(ms, id) != []
    ensures forall i, j :: 0 <= i < j < |Files(ms)| ==> Files(ms)[i] != Files(ms)[j]
  {
    if ms != [] {
      FilesAre(ms[..|ms| - 1]);
    }
  }

  lemma OfFileSnoc(ms: seq<Metrics>, m: Metrics, id: nat)
    ensures OfFile(ms + [m], id) == if m.id == id then OfFile(ms, id) + [m] else OfFile(ms, id)
  {
    assert (ms + [m])[..|ms|] == ms;
  }

  lemma EntryOfSnoc(own: seq<Metrics>, m: Metrics)
    ensures EntryOf(own + [m]) == Counted(EntryOf(own), m)
  {
    assert (own + [m])[..|own|] == own;
  }

  lemma EntriesGrow(files: map<nat, Entry>, ms: seq<Metrics>, m: Metrics, e: Entry)
    requires EntriesHold(files, ms) && e == EntryOf(OfFile(ms, m.id))
    ensures EntriesHold(files[m.id := Counted(e, m)], ms + [m])
  {
    var files' := files[m.id := Counted(e, m)];
    EntryOfSnoc(OfFile(ms, m.id), m);
    forall id | id in files' ensures files'[id] == EntryOf(OfFile(ms + [m], id)) {
      OfFileSnoc(ms, m, id);
    }
  }

  lemma KeysGrow(files: map<nat, Entry>, order: seq<nat>, ms: seq<Metrics>, m: Metrics, e: Entry)
    requires KeysHold(files, order, ms)
    ensures KeysHold(files[m.id := e], if m.id in files then order else order + [m.id], ms + [m])
  {
    assert (ms + [m])[..|ms|] == ms;
  }

  /** One more record, e being what the hash holds of its file. */
  lemma HashGrows(files: map<nat, Entry>, order: seq<nat>, ms: seq<Metrics>, m: Metrics, e: Entry)
    requires HashHolds(files, order, ms)
    requires e == if m.id in files then files[m.id] else NEW_ENTRY
    ensures HashHolds(files[m.id := Counted(e, m)], if m.id in files then order else order + [m.id], ms + [m])
  {
    FilesAre(ms);
    EntriesGrow(files, ms, m, e);
    KeysGrow(files, order, ms, m, Counted(e, m));
  }

  /** What comes out: the categories, the total and the slowest times. */
  datatype Derived = Derived(cats: seq<Category>, totalBytes: int, sharedTime: real,
                             slowestTime: real, slowestRw: real, slowestMd: real, slowestRank: nat,
                             aggTime: real, aggPerf: real)

  lemma NextOfBatch(ms: seq<Metrics>, batch: seq<Metrics>, i: nat)
    requires i < |batch|
    ensures ms + batch[..i] + [batch[i]] == ms + batch[..i + 1]
  {
  }

  lemma NextEntry(files: map<nat, Entry>, order: seq<nat>, ms: seq<Metrics>, i: nat)
    requires HashHolds(files, order, ms) && i < |order|
    ensures order[i] in files
    ensures EntriesOf(ms, order[..i + 1]) == EntriesOf(ms, order[..i]) + [files[order[i]]]
  {
    assert order[i] in order;
    assert order[..i + 1] == order[..i] + [order[i]];
    EntriesSnoc(ms, order[..i], order[i]);
  }

  lemma EntriesSnoc(ms: seq<Metrics>, ids: seq<nat>, id: nat)
    ensures EntriesOf(ms, ids + [id]) == EntriesOf(ms, ids) + [EntryOf(OfFile(ms, id))]
  {
    assert (ids + [id])[..|ids|] == ids;
  }

  class State {
    const jobNprocs: nat
    var files: map<nat, Entry>
    var order: seq<nat>
    var totalBytes: int
    var sharedTime: real
    const ioTime: array<real>
    const rwTime: array<real>
    const mdTime: array<real>

    ghost predicate Shaped()
      reads this
    {
      && 0 < jobNprocs == ioTime.Length == rwTime.Length == mdTime.Length
      && ioTime != rwTime && ioTime != mdTime && rwTime != mdTime
    }

    /** The state is that after some records, however they were batched. */
    ghost predicate After(ms: seq<Metrics>)
      reads this, ioTime, rwTime, mdTime
    {
      && Shaped() && HashHolds(files, order, ms)
      && totalBytes == BytesOf(ms) && sharedTime == SharedTime(ms)
      && TimesAre(ms)
    }

    ghost predicate TimesAre(ms: seq<Metrics>)
      reads this, ioTime, rwTime, mdTime
      requires Shaped()
    {
      forall i :: 0 <= i < jobNprocs ==>
        ioTime[i] == RankTime(ms, i) && rwTime[i] == RankRwTime(ms, i) && mdTime[i] == RankMdTime(ms, i)
    }

    constructor (jobNprocs: nat)
      requires 0 < jobNprocs
      ensures this.jobNprocs == jobNprocs && fresh(ioTime) && fresh(rwTime) && fresh(mdTime)
      ensures After([])
    {
      this.jobNprocs := jobNprocs;
      files, order, totalBytes, sharedTime := map[], [], 0, 0.0;
      ioTime := new real[jobNprocs](_ => 0.0);
      rwTime := new real[jobNprocs](_ => 0.0);
      mdTime := new real[jobNprocs](_ => 0.0);
    }

    method AddTimes(m: Metrics, ghost ms: seq<Metrics>)
      requires Shaped() && TimesAre(ms) && sharedTime == SharedTime(ms) && m.rank < jobNprocs
      modifies this`sharedTime, ioTime, rwTime, mdTime
      ensures TimesAre(ms + [m]) && sharedTime == SharedTime(ms + [m])
    {
      assert (ms + [m])[..|ms|] == ms;
      if m.rank < 0 {
        sharedTime := sharedTime + m.ioTime;
      } else {
        ioTime[m.rank] := ioTime[m.rank] + m.ioTime;
        rwTime[m.rank] := rwTime[m.rank] + m.rwTime;
        mdTime[m.rank] := mdTime[m.rank] + m.mdTime;
      }
    }

    /** The entry's own counters. */
    static method AddToEntry(e: Entry, m: Metrics) returns (next: Entry)
      ensures next == Counted(e, m)
    {
      var r, w, nprocs := e.rBytes + m.rBytes, e.wBytes + m.wBytes, e.nprocs;
      if m.Nprocs() == -1 {
        nprocs := -1;
      } else {
        nprocs := nprocs + m.Nprocs();
      }
      var offset := if m.offset == -1 then -1 else Larger(e.offset, m.offset);
      next := Entry(r, w, offset, nprocs);
    }

    /** Tracks the record's file. */
    method AddToFile(m: Metrics, ghost ms: seq<Metrics>)
      requires HashHolds(files, order, ms)
      modifies this`files, this`order
      ensures HashHolds(files, order, ms + [m])
    {
      var e := NEW_ENTRY;
      if m.id in files {
        e := files[m.id];
      }
      HashGrows(files, order, ms, m, e);
      var next := AddToEntry(e, m);
      if m.id !in files {
        order := order + [m.id];
      }
      files := files[m.id := next];
    }

    method InjectOne(m: Metrics, ghost ms: seq<Metrics>)
      requires After(ms) && m.rank < jobNprocs
      modifies this, ioTime, rwTime, mdTime
      ensures After(ms + [m])
    {
      BytesSnoc(ms, m);
      totalBytes := totalBytes + (m.rBytes + m.wBytes);
      AddTimes(m, ms);
      AddToFile(m, ms);
    }

    /** One batch of records. */
    method Inject(batch: seq<Metrics>, ghost ms: seq<Metrics>)
      requires After(ms) && forall i :: 0 <= i < |batch| ==> batch[i].rank < jobNprocs
      modifies this, ioTime, rwTime, mdTime
      ensures After(ms + batch)
    {
      ghost var sofar := ms;
      for i := 0 to |batch|
        invariant sofar == ms + batch[..i] && After(sofar)
      {
        NextOfBatch(ms, batch, i);
        InjectOne(batch[i], sofar);
        sofar := ms + batch[..i + 1];
      }
      assert batch[..|batch|] == batch;
    }

    /** The walk over the hash. */
    method Categories(ghost ms: seq<Metrics>) returns (cats: array<Category>)
      requires After(ms)
      ensures fresh(cats) && AllDescribe(cats[..], EntriesOf(ms, Files(ms)), jobNprocs)
    {
      cats := new Category[CATEGORIES](_ => NO_FILES);
      NoFilesDescribed(cats[..], jobNprocs);
      for i := 0 to |order|
        invariant AllDescribe(cats[..], EntriesOf(ms, order[..i]), jobNprocs)
      {
        NextEntry(files, order, ms, i);
        Categorize(cats, files[order[i]], jobNprocs, EntriesOf(ms, order[..i]));
      }
      assert order[..|order|] == order;
    }

    /** The rank with the slowest path through files of its own. */
    method Slowest(ghost ms: seq<Metrics>) returns (time: real, rw: real, md: real, rank: nat)
      requires After(ms)
      ensures IsSlowest(ms, jobNprocs, time, rw, md, rank)
      ensures 0.0 <= time && forall i :: 0 <= i < jobNprocs ==> ioTime[i] <= time
      ensures if time == 0.0 then rw == md == 0.0 && rank == 0
        else rank < jobNprocs && (time, rw, md) == (ioTime[rank], rwTime[rank], mdTime[rank])
      ensures forall i :: 0 <= i < rank ==> ioTime[i] < time
    {
      time, rw, md, rank := 0.0, 0.0, 0.0, 0;
      for i := 0 to jobNprocs
        invariant IsSlowest(ms, i, time, rw, md, rank)
      {
        if ioTime[i] > time {
          time, rw, md, rank := ioTime[i], rwTime[i], mdTime[i], i;
        }
      }
    }

    method Emit(ghost ms: seq<Metrics>) returns (d: Derived)
      requires After(ms)
      ensures AllDescribe(d.cats, EntriesOf(ms, Files(ms)), jobNprocs)
      ensures d.totalBytes == BytesOf(ms) && d.sharedTime == SharedTime(ms)
      ensures IsSlowest(ms, jobNprocs, d.slowestTime, d.slowestRw, d.slowestMd, d.slowestRank)
      ensures d.aggTime == d.slowestTime + SharedTime(ms)
      ensures PerfIs(d.aggPerf, d.aggTime, BytesOf(ms) as real)
    {
      var cats := Categories(ms);
      var time, rw, md, rank := Slowest(ms);
      var aggTime := time + sharedTime;
      var aggPerf := Perf(totalBytes, aggTime);
      d := Derived(cats[..], totalBytes, sharedTime, time, rw, md, rank, aggTime, aggPerf);
    }
  }

  /** Mebibytes per second, or zero when no time was spent. */
  ghost predicate PerfIs(perf: real, time: real, bytes: real) {
    if time == 0.0 then perf == 0.0 else perf * time * 1048576.0 == bytes
  }

  method Perf(bytes: int, time: real) returns (perf: real)
    ensures PerfIs(perf, time, bytes as real)
    ensures if time == 0.0 then perf == 0.0 else perf * time * 1048576.0 == bytes as real
  {
    perf := 0.0;
    if time != 0.0 {
      perf := bytes as real / 1048576.0 / time;
      assert perf * time == bytes as real / 1048576.0;
    }
  }

  /** The greatest of the first n ranks' times, at least zero, with what belongs to its first
      rank. */
  ghost predicate IsSlowest(ms: seq<Metrics>, n: nat, time: real, rw: real, md: real, rank: nat) {
    && 0.0 <= time && (forall i: nat :: i < n ==> RankTime(ms, i) <= time)
    && (time == 0.0 ==> rw == 0.0 && md == 0.0 && rank == 0)
    && (time > 0.0 ==>
          && rank < n && time == RankTime(ms, rank) && rw == RankRwTime(ms, rank) && md == RankMdTime(ms, rank)
          && forall i: nat :: i < rank ==> RankTime(ms, i) < time)
  }

  /** The entries of some files, in their order. */
  function EntriesOf(ms: seq<Metrics>, ids: seq<nat>): seq<Entry> {
    if ids == [] then [] else EntriesOf(ms, ids[..|ids| - 1]) + [EntryOf(OfFile(ms, ids[|ids| - 1]))]
  }

  function Concat(batches: seq<seq<Metrics>>): seq<Metrics> {
    if batches == [] then [] else Concat(batches[..|batches| - 1]) + batches[|batches| - 1]
  }

  /** Any batching of a stream leaves the state of the stream. */
  method InjectAll(acc: State, batches: seq<seq<Metrics>>)
    requires acc.After([])
    requires forall i, k :: 0 <= i < |batches| && 0 <= k < |batches[i]| ==> batches[i][k].rank < acc.jobNprocs
    modifies acc, acc.ioTime, acc.rwTime, acc.mdTime
    ensures acc.After(Concat(batches))
  {
    for i := 0 to |batches|
      invariant acc.After(Concat(batches[..i]))
    {
      acc.Inject(batches[i], Concat(batches[..i]));
      assert batches[..i + 1][..i] == batches[..i];
    }
    assert batches[..|batches|] == batches;
  }

  // ---------------------------------------------------------------------------
  // What the categories say
  // ---------------------------------------------------------------------------

  lemma {:induction false} SharingPartitions(es: seq<Entry>)
    ensures |Members(es, UNIQ_FILES)| + |Members(es, SHARED_FILES)| + |Members(es, PART_SHARED_FILES)| == |es|
    ensures ReadVolume(Members(es, UNIQ_FILES)) + ReadVolume(Members(es, SHARED_FILES)) +
      ReadVolume(Members(es, PART_SHARED_FILES)) == ReadVolume(es)
    ensures WriteVolume(Members(es, UNIQ_FILES)) + WriteVolume(Members(es, SHARED_FILES)) +
      WriteVolume(Members(es, PART_SHARED_FILES)) == WriteVolume(es)
  {
    if es != [] {
      var front, e := es[..|es| - 1], es[|es| - 1];
      SharingPartitions(front);
      VolumesSnoc(Members(front, UNIQ_FILES), e);
      VolumesSnoc(Members(front, SHARED_FILES), e);
      VolumesSnoc(Members(front, PART_SHARED_FILES), e);
    }
  }

  lemma VolumesSnoc(es: seq<Entry>, e: Entry)
    ensures ReadVolume(es + [e]) == ReadVolume(es) + e.rBytes && WriteVolume(es + [e]) == WriteVolume(es) + e.wBytes
    ensures es + [] == es
  {
    SumsGrow(es, e);
  }

  lemma {:induction false} AccessPartitions(es: seq<Entry>)
    requires forall i :: 0 <= i < |es| ==> 0 <= es[i].rBytes && 0 <= es[i].wBytes
    ensures ReadVolume(Members(es, RO_FILES)) + ReadVolume(Members(es, RW_FILES)) == ReadVolume(es)
    ensures WriteVolume(Members(es, WO_FILES)) + WriteVolume(Members(es, RW_FILES)) == WriteVolume(es)
  {
    if es != [] {
      var front, e := es[..|es| - 1], es[|es| - 1];
      AccessPartitions(front);
      VolumesSnoc(Members(front, RO_FILES), e);
      VolumesSnoc(Members(front, WO_FILES), e);
      VolumesSnoc(Members(front, RW_FILES), e);
    }
  }

  lemma {:induction false} AllAreMembers(es: seq<Entry>)
    ensures Members(es, ALL_FILES) == es
  {
    if es != [] {
      AllAreMembers(es[..|es| - 1]);
      assert es == es[..|es| - 1] + [es[|es| - 1]];
    }
  }

  lemma VolumesOfEntries(ms: seq<Metrics>, ids: seq<nat>, id: nat)
    ensures ReadVolume(EntriesOf(ms, ids + [id])) == ReadVolume(EntriesOf(ms, ids)) + EntryOf(OfFile(ms, id)).rBytes
    ensures WriteVolume(EntriesOf(ms, ids + [id])) == WriteVolume(EntriesOf(ms, ids)) + EntryOf(OfFile(ms, id)).wBytes
  {
    EntriesSnoc(ms, ids, id);
    VolumesSnoc(EntriesOf(ms, ids), EntryOf(OfFile(ms, id)));
  }

  lemma EntryAfter(ms: seq<Metrics>, m: Metrics, id: nat)
    ensures EntryOf(OfFile(ms + [m], id)) == if m.id == id then Counted(EntryOf(OfFile(ms, id)), m)
      else EntryOf(OfFile(ms, id))
  {
    OfFileSnoc(ms, m, id);
    EntryOfSnoc(OfFile(ms, id), m);
  }

  ghost predicate VolumesGrow(ms: seq<Metrics>, m: Metrics, ids: seq<nat>) {
    && ReadVolume(EntriesOf(ms + [m], ids)) == ReadVolume(EntriesOf(ms, ids)) + (if m.id in ids then m.rBytes else 0)
    && WriteVolume(EntriesOf(ms + [m], ids)) == WriteVolume(EntriesOf(ms, ids)) + (if m.id in ids then m.wBytes else 0)
  }

  lemma VolumesGrowStep(ms: seq<Metrics>, m: Metrics, ids: seq<nat>, id: nat)
    requires VolumesGrow(ms, m, ids) && id !in ids
    ensures VolumesGrow(ms, m, ids + [id])
  {
    VolumesOfEntries(ms, ids, id);
    VolumesOfEntries(ms + [m], ids, id);
    EntryAfter(ms, m, id);
  }

  lemma {:induction false} EntriesSnocRecord(ms: seq<Metrics>, m: Metrics, ids: seq<nat>)
    requires forall i, j :: 0 <= i < j < |ids| ==> ids[i] != ids[j]
    ensures VolumesGrow(ms, m, ids)
  {
    if ids != [] {
      var front, id := ids[..|ids| - 1], ids[|ids| - 1];
      assert ids == front + [id];
      EntriesSnocRecord(ms, m, front);
      VolumesGrowStep(ms, m, front, id);
    }
  }

  ghost predicate HoldsAllBytes(ms: seq<Metrics>) {
    ReadVolume(EntriesOf(ms, Files(ms))) == ReadOf(ms) && WriteVolume(EntriesOf(ms, Files(ms))) == WrittenOf(ms)
  }

  /** All files together have read and written what the records say. */
  lemma {:induction false} FilesHoldAllBytes(ms: seq<Metrics>)
    ensures HoldsAllBytes(ms)
  {
    if ms != [] {
      var front, m := ms[..|ms| - 1], ms[|ms| - 1];
      assert ms == front + [m];
      FilesHoldAllBytes(front);
      FilesHoldOneMore(front, m);
    }
  }

  lemma StreamSnoc(ms: seq<Metrics>, m: Metrics)
    ensures Files(ms + [m]) == if m.id in Files(ms) then Files(ms) else Files(ms) + [m.id]
    ensures ReadOf(ms + [m]) == ReadOf(ms) + m.rBytes && WrittenOf(ms + [m]) == WrittenOf(ms) + m.wBytes
  {
    assert (ms + [m])[..|ms|] == ms;
  }

  lemma KnownFilesGrow(ms: seq<Metrics>, m: Metrics)
    ensures VolumesGrow(ms, m, Files(ms))
  {
    FilesAre(ms);
    EntriesSnocRecord(ms, m, Files(ms));
  }

  lemma FilesHoldOneMore(ms: seq<Metrics>, m: Metrics)
    requires HoldsAllBytes(ms)
    ensures HoldsAllBytes(ms + [m])
  {
    StreamSnoc(ms, m);
    KnownFilesGrow(ms, m);
    if m.id !in Files(ms) {
      NewFile(ms, m);
    }
  }

  lemma NewFile(ms: seq<Metrics>, m: Metrics)
    requires m.id !in Files(ms)
    ensures var ids, all := Files(ms), ms + [m];
            && ReadVolume(EntriesOf(all, ids + [m.id])) == ReadVolume(EntriesOf(all, ids)) + m.rBytes
            && WriteVolume(EntriesOf(all, ids + [m.id])) == WriteVolume(EntriesOf(all, ids)) + m.wBytes
  {
    FilesAre(ms);
    EntryAfter(ms, m, m.id);
    VolumesOfEntries(ms + [m], Files(ms), m.id);
  }

  lemma {:induction false} NonNegativeEntries(ms: seq<Metrics>, ids: seq<nat>)
    requires forall i :: 0 <= i < |ms| ==> 0 <= ms[i].rBytes && 0 <= ms[i].wBytes
    ensures forall i :: 0 <= i < |EntriesOf(ms, ids)| ==>
      0 <= EntriesOf(ms, ids)[i].rBytes && 0 <= EntriesOf(ms, ids)[i].wBytes
  {
    if ids != [] {
      NonNegativeEntries(ms, ids[..|ids| - 1]);
      NonNegativeEntry(ms, ids[|ids| - 1]);
    }
  }

  lemma {:induction false} NonNegativeEntry(ms: seq<Metrics>, id: nat)
    requires forall i :: 0 <= i < |ms| ==> 0 <= ms[i].rBytes && 0 <= ms[i].wBytes
    ensures 0 <= EntryOf(OfFile(ms, id)).rBytes && 0 <= EntryOf(OfFile(ms, id)).wBytes
  {
    if ms != [] {
      var n := |ms| - 1;
      NonNegativeEntry(ms[..n], id);
      OfFileSnoc(ms[..n], ms[n], id);
      EntryOfSnoc(OfFile(ms[..n], id), ms[n]);
      assert ms == ms[..n] + [ms[n]];
    }
  }

  /** For every stream: unique, shared and partially shared files make up all files, in number
      and in both volumes; all files' reads and writes are the total; and without negative byte
      counts the read-only and read-write files did all reading, the write-only and read-write
      files all writing. */
  lemma CategoriesConserve(d: Derived, ms: seq<Metrics>, jobNprocs: nat)
    requires AllDescribe(d.cats, EntriesOf(ms, Files(ms)), jobNprocs) && d.totalBytes == BytesOf(ms)
    ensures d.cats[UNIQ_FILES].count + d.cats[SHARED_FILES].count + d.cats[PART_SHARED_FILES].count ==
      d.cats[ALL_FILES].count == |Files(ms)|
    ensures d.cats[UNIQ_FILES].rBytes + d.cats[SHARED_FILES].rBytes + d.cats[PART_SHARED_FILES].rBytes ==
      d.cats[ALL_FILES].rBytes
    ensures d.cats[UNIQ_FILES].wBytes + d.cats[SHARED_FILES].wBytes + d.cats[PART_SHARED_FILES].wBytes ==
      d.cats[ALL_FILES].wBytes
    ensures d.cats[ALL_FILES].rBytes + d.cats[ALL_FILES].wBytes == d.totalBytes
    ensures (forall i :: 0 <= i < |ms| ==> 0 <= ms[i].rBytes && 0 <= ms[i].wBytes) ==>
              && d.cats[RO_FILES].rBytes + d.cats[RW_FILES].rBytes == d.cats[ALL_FILES].rBytes
              && d.cats[WO_FILES].wBytes + d.cats[RW_FILES].wBytes == d.cats[ALL_FILES].wBytes
  {
    var es := EntriesOf(ms, Files(ms));
    AllAreMembers(es);
    SharingPartitions(es);
    FilesHoldAllBytes(ms);
    EntriesCount(ms, Files(ms));
    if forall i :: 0 <= i < |ms| ==> 0 <= ms[i].rBytes && 0 <= ms[i].wBytes {
      NonNegativeEntries(ms, Files(ms));
      AccessPartitions(es);
    }
  }

  lemma {:induction false} EntriesCount(ms: seq<Metrics>, ids: seq<nat>)
    ensures |EntriesOf(ms, ids)| == |ids|
  {
    if ids != [] {
      EntriesCount(ms, ids[..|ids| - 1]);
    }
  }

  // ---------------------------------------------------------------------------
  // The order of the hash
  // ---------------------------------------------------------------------------

  lemma MembersMultiset(es: seq<Entry>, k: nat)
    ensures forall e :: multiset(Members(es, k))[e] == if Belongs(e, k) then multiset(es)[e] else 0
  {
    if es != [] {
      var front, last := es[..|es| - 1], es[|es| - 1];
      MembersMultiset(front, k);
      assert es == front + [last];
      assert Members(front, k) + [] == Members(front, k);
    }
  }

  lemma SwapIn(es: seq<Entry>, fs: seq<Entry>) returns (i: nat)
    requires multiset(es) == multiset(fs) && es != []
    ensures i < |fs| && fs[i] == es[|es| - 1]
    ensures multiset(es[..|es| - 1]) == multiset(fs[..i] + fs[i + 1..])
  {
    var last := es[|es| - 1];
    assert last in multiset(fs);
    i :| 0 <= i < |fs| && fs[i] == last;
    var n := |es| - 1;
    TakenOut(es, n);
    TakenOut(fs, i);
    assert es[..n] + es[n + 1..] == es[..n];
  }

  lemma TakenOut(es: seq<Entry>, i: nat)
    requires i < |es|
    ensures multiset(es[..i] + es[i + 1..]) == multiset(es) - multiset{es[i]}
  {
    assert es == es[..i] + [es[i]] + es[i + 1..];
  }

  lemma {:induction false} SumsWithout(fs: seq<Entry>, i: nat)
    requires i < |fs|
    ensures ReadVolume(fs) == ReadVolume(fs[..i] + fs[i + 1..]) + fs[i].rBytes
    ensures WriteVolume(fs) == WriteVolume(fs[..i] + fs[i + 1..]) + fs[i].wBytes
    ensures Procs(fs) == Procs(fs[..i] + fs[i + 1..]) + (if fs[i].nprocs > 0 then fs[i].nprocs else 0)
  {
    var n := |fs| - 1;
    if i == n {
      assert fs[..i] + fs[i + 1..] == fs[..n];
    } else {
      var front, rest := fs[..n], fs[..i] + fs[i + 1..];
      SumsWithout(front, i);
      assert rest[..|rest| - 1] == front[..i] + front[i + 1..] && front[i] == fs[i];
    }
  }

  lemma {:induction false} SumsOfRearranged(es: seq<Entry>, fs: seq<Entry>)
    requires multiset(es) == multiset(fs)
    ensures ReadVolume(es) == ReadVolume(fs) && WriteVolume(es) == WriteVolume(fs) && Procs(es) == Procs(fs)
  {
    assert |multiset(es)| == |es| && |multiset(fs)| == |fs|;
    if es != [] {
      var i := SwapIn(es, fs);
      SumsOfRearranged(es[..|es| - 1], fs[..i] + fs[i + 1..]);
      SumsWithout(fs, i);
    }
  }

  lemma SameElements(es: seq<Entry>, fs: seq<Entry>)
    requires multiset(es) == multiset(fs)
    ensures |es| == |fs| && forall e :: e in es <==> e in fs
  {
    assert |multiset(es)| == |es| && |multiset(fs)| == |fs|;
    assert forall e :: e in es <==> e in multiset(es);
    assert forall e :: e in fs <==> e in multiset(fs);
  }

  lemma SameVolumes(es: seq<Entry>, fs: seq<Entry>)
    requires forall e :: e in es ==> e in fs
    ensures forall y :: y in Reads(es) ==> y in Reads(fs)
    ensures forall y :: y in Writes(es) ==> y in Writes(fs)
  {
    forall y | y in Reads(es) ensures y in Reads(fs) {
      var i :| 0 <= i < |es| && Reads(es)[i] == y;
      assert es[i] in fs;
      var j :| 0 <= j < |fs| && fs[j] == es[i];
      assert Reads(fs)[j] == y;
    }
    forall y | y in Writes(es) ensures y in Writes(fs) {
      var i :| 0 <= i < |es| && Writes(es)[i] == y;
      assert es[i] in fs;
      var j :| 0 <= j < |fs| && fs[j] == es[i];
      assert Writes(fs)[j] == y;
    }
  }

  lemma SameMax(x: int, xs: seq<int>, ys: seq<int>)
    requires forall y :: y in xs <==> y in ys
    ensures IsMax(x, xs) ==> IsMax(x, ys)
  {
  }

  lemma MaxOfRearranged(x: int, es: seq<Entry>, fs: seq<Entry>)
    requires forall e :: e in es <==> e in fs
    ensures IsMax(x, Reads(es)) ==> IsMax(x, Reads(fs))
    ensures IsMax(x, Writes(es)) ==> IsMax(x, Writes(fs))
  {
    SameVolumes(es, fs);
    SameVolumes(fs, es);
    SameMax(x, Reads(es), Reads(fs));
    SameMax(x, Writes(es), Writes(fs));
  }

  lemma SharedOfRearranged(es: seq<Entry>, fs: seq<Entry>)
    requires forall e :: e in es <==> e in fs
    ensures AnyShared(es) <==> AnyShared(fs)
  {
    if i :| 0 <= i < |es| && es[i].nprocs < 0 {
      assert es[i] in fs;
    }
    if i :| 0 <= i < |fs| && fs[i].nprocs < 0 {
      assert fs[i] in es;
    }
  }

  /** The number of a file's records behind its last shared one. */
  function BehindShared(own: seq<Metrics>): nat {
    if own == [] || own[|own| - 1].rank < 0 then 0 else 1 + BehindShared(own[..|own| - 1])
  }

  lemma {:induction false} BehindSharedIs(own: seq<Metrics>, n: nat)
    requires n <= |own| && forall i :: |own| - n <= i < |own| ==> 0 <= own[i].rank
    requires n < |own| ==> own[|own| - n - 1].rank < 0
    ensures BehindShared(own) == n
  {
    if n > 0 {
      BehindSharedIs(own[..|own| - 1], n - 1);
    }
  }

  lemma {:induction false} ProcsInNumbers(own: seq<Metrics>)
    ensures EntryOf(own).nprocs == if BehindShared(own) == |own| then |own| else BehindShared(own) - 1
  {
    if own != [] {
      ProcsInNumbers(own[..|own| - 1]);
    }
  }

  /** Which categories a file is in, from its own records: by the bytes read and written by all of
      them, and by the number of records behind the last shared one. */
  lemma FileInNumbers(own: seq<Metrics>, n: nat)
    requires own != [] && n <= |own| && forall i :: |own| - n <= i < |own| ==> 0 <= own[i].rank
    requires n < |own| ==> own[|own| - n - 1].rank < 0
    ensures var e, r, w := EntryOf(own), ReadOf(own), WrittenOf(own);
            && Belongs(e, 0)
            && (Belongs(e, 1) <==> r > 0 && w == 0)
            && (Belongs(e, 2) <==> w > 0 && r == 0)
            && (Belongs(e, 3) <==> r > 0 && w > 0)
    ensures var e, whole := EntryOf(own), n == |own|;
            && (Belongs(e, 4) <==> if whole then n == 1 else n == 2)
            && (Belongs(e, 5) <==> !whole && n == 0)
            && (Belongs(e, 6) <==> if whole then n > 1 else n == 1 || n > 2)
  {
    EntryBytes(own);
    ProcsInNumbers(own);
    BehindSharedIs(own, n);
  }

  /** What a category says of its files, in numbers. */
  lemma CategoryInNumbers(c: Category, es: seq<Entry>, jobNprocs: nat)
    requires Describes(c, es, jobNprocs)
    ensures c.count == |es| && c.rBytes == ReadVolume(es) && c.wBytes == WriteVolume(es)
    ensures forall e :: e in es ==> e.rBytes <= c.maxR && e.wBytes <= c.maxW
    ensures c.maxR == 0 || exists e :: e in es && e.rBytes == c.maxR > 0
    ensures c.maxW == 0 || exists e :: e in es && e.wBytes == c.maxW > 0
    ensures c.nprocs == -1 <==> (exists e :: e in es && e.nprocs < 0) || Procs(es) >= jobNprocs
    ensures c.nprocs != -1 ==> c.nprocs == Procs(es)
    ensures c.totalOffset == OffsetTotal(es) && c.maxOffset == OffsetMax(es)
  {
    forall e | e in es ensures e.rBytes <= c.maxR && e.wBytes <= c.maxW {
      var i :| 0 <= i < |es| && es[i] == e;
      assert Reads(es)[i] in Reads(es) && Writes(es)[i] in Writes(es);
    }
    if c.maxR != 0 {
      var i :| 0 <= i < |es| && Reads(es)[i] == c.maxR;
      assert es[i] in es;
    }
    if c.maxW != 0 {
      var i :| 0 <= i < |es| && Writes(es)[i] == c.maxW;
      assert es[i] in es;
    }
    if AnyShared(es) {
      var i :| 0 <= i < |es| && es[i].nprocs < 0;
      assert es[i] in es;
    }
  }

  /** No category depends on the order of the hash. */
  lemma HashOrderDoesNotMatter(c: Category, es: seq<Entry>, fs: seq<Entry>, k: nat, jobNprocs: nat)
    requires multiset(es) == multiset(fs) && Numbers(c, Members(es, k), jobNprocs)
    ensures Numbers(c, Members(fs, k), jobNprocs)
  {
    var a, b := Members(es, k), Members(fs, k);
    MembersMultiset(es, k);
    MembersMultiset(fs, k);
    assert multiset(a) == multiset(b);
    NumbersRearranged(c, a, b, jobNprocs);
  }

  lemma NumbersRearranged(c: Category, a: seq<Entry>, b: seq<Entry>, jobNprocs: nat)
    requires multiset(a) == multiset(b) && Numbers(c, a, jobNprocs)
    ensures Numbers(c, b, jobNprocs)
  {
    SumsOfRearranged(a, b);
    SameElements(a, b);
    MaxOfRearranged(c.maxR, a, b);
    MaxOfRearranged(c.maxW, a, b);
    SharedOfRearranged(a, b);
  }

  // ---------------------------------------------------------------------------
  // When the order of the hash shows in the offsets
  // ---------------------------------------------------------------------------

  /** A file has no offset exactly if its last record has none: records that follow one without
      count up again. */
  lemma NoOffsetIffLastHasNone(own: seq<Metrics>)
    requires own != [] && forall i :: 0 <= i < |own| ==> -1 <= own[i].offset
    ensures EntryOf(own).offset == -1 <==> own[|own| - 1].offset == -1
  {
  }

  ghost predicate NoneLacks(es: seq<Entry>) {
    forall e :: e in es ==> 0 <= e.offset
  }

  ghost predicate AllLack(es: seq<Entry>) {
    forall e :: e in es ==> e.offset == -1
  }

  function OffsetSum(es: seq<Entry>): int {
    if es == [] then 0 else OffsetSum(es[..|es| - 1]) + es[|es| - 1].offset
  }

  function Offsets(es: seq<Entry>): (xs: seq<int>)
    ensures |xs| == |es| && forall i :: 0 <= i < |xs| ==> xs[i] == es[i].offset
  {
    seq(|es|, i requires 0 <= i < |es| => es[i].offset)
  }

  /** With an offset for each file, a category holds their sum and their greatest. */
  lemma {:induction false} OffsetsAreExact(es: seq<Entry>)
    requires NoneLacks(es)
    ensures OffsetTotal(es) == OffsetSum(es) && IsMax(OffsetMax(es), Offsets(es))
  {
    if es != [] {
      var front, e := es[..|es| - 1], es[|es| - 1];
      OffsetsAreExact(front);
      assert e in es;
      MaxGrows(OffsetMax(front), Offsets(front), e.offset);
      assert Offsets(es) == Offsets(front) + [e.offset];
    }
  }

  lemma {:induction false} OffsetSumWithout(fs: seq<Entry>, i: nat)
    requires i < |fs|
    ensures OffsetSum(fs) == OffsetSum(fs[..i] + fs[i + 1..]) + fs[i].offset
  {
    var n := |fs| - 1;
    if i == n {
      assert fs[..i] + fs[i + 1..] == fs[..n];
    } else {
      var front, rest := fs[..n], fs[..i] + fs[i + 1..];
      OffsetSumWithout(front, i);
      assert rest[..|rest| - 1] == front[..i] + front[i + 1..];
    }
  }

  lemma {:induction false} OffsetSumOfRearranged(es: seq<Entry>, fs: seq<Entry>)
    requires multiset(es) == multiset(fs)
    ensures OffsetSum(es) == OffsetSum(fs)
  {
    assert |multiset(es)| == |es| && |multiset(fs)| == |fs|;
    if es != [] {
      var i := SwapIn(es, fs);
      OffsetSumOfRearranged(es[..|es| - 1], fs[..i] + fs[i + 1..]);
      OffsetSumWithout(fs, i);
    }
  }

  lemma SameOffsetMax(es: seq<Entry>, fs: seq<Entry>)
    requires (forall e :: e in es <==> e in fs) && NoneLacks(es)
    ensures OffsetMax(es) == OffsetMax(fs)
  {
    OffsetsAreExact(es);
    OffsetsAreExact(fs);
    SameOffsets(es, fs);
    SameOffsets(fs, es);
  }

  lemma SameOffsets(es: seq<Entry>, fs: seq<Entry>)
    requires forall e :: e in es ==> e in fs
    ensures forall y :: y in Offsets(es) ==> y in Offsets(fs)
  {
    forall y | y in Offsets(es) ensures y in Offsets(fs) {
      var i :| 0 <= i < |es| && Offsets(es)[i] == y;
      assert es[i] in fs;
      var j :| 0 <= j < |fs| && fs[j] == es[i];
      assert Offsets(fs)[j] == y;
    }
  }

  lemma OffsetsOfLacking(es: seq<Entry>)
    requires AllLack(es)
    ensures OffsetTotal(es) == OffsetMax(es) == if es == [] then 0 else -1
  {
    if es != [] {
      assert es[|es| - 1] in es;
    }
  }

  ghost predicate SameOffsetValues(es: seq<Entry>, fs: seq<Entry>) {
    OffsetTotal(fs) == OffsetTotal(es) && OffsetMax(fs) == OffsetMax(es)
  }

  lemma AlikeInAnyOrder(es: seq<Entry>, fs: seq<Entry>)
    requires multiset(fs) == multiset(es) && (NoneLacks(es) || AllLack(es))
    ensures SameOffsetValues(es, fs)
  {
    SameElements(es, fs);
    if NoneLacks(es) {
      OffsetsAreExact(es);
      OffsetsAreExact(fs);
      OffsetSumOfRearranged(es, fs);
      SameOffsetMax(es, fs);
    } else {
      OffsetsOfLacking(es);
      OffsetsOfLacking(fs);
    }
  }

  /** A file moved to the end of the hash. */
  function MovedLast(es: seq<Entry>, i: nat): seq<Entry>
    requires i < |es|
  {
    es[..i] + es[i + 1..] + [es[i]]
  }

  lemma MovedLastRearranges(es: seq<Entry>, i: nat)
    requires i < |es|
    ensures multiset(MovedLast(es, i)) == multiset(es)
    ensures 0 <= es[i].offset ==> 0 <= OffsetMax(MovedLast(es, i))
    ensures es[i].offset == -1 ==> OffsetMax(MovedLast(es, i)) == -1
  {
    TakenOut(es, i);
    var rest := es[..i] + es[i + 1..];
    SumsGrow(rest, es[i]);
  }

  /** The order of the hash does not show in the offsets of a category if and only if all of its
      files have one or none has. */
  lemma OffsetOrderIff(es: seq<Entry>)
    requires forall e :: e in es ==> -1 <= e.offset
    ensures (forall fs :: multiset(fs) == multiset(es) ==> SameOffsetValues(es, fs)) <==> NoneLacks(es) || AllLack(es)
  {
    if NoneLacks(es) || AllLack(es) {
      forall fs | multiset(fs) == multiset(es) ensures SameOffsetValues(es, fs) {
        AlikeInAnyOrder(es, fs);
      }
    } else {
      var e, f :| e in es && f in es && e.offset == -1 && f.offset != -1;
      var i, j :| 0 <= i < |es| && es[i] == e && 0 <= j < |es| && es[j] == f;
      MovedLastRearranges(es, i);
      MovedLastRearranges(es, j);
      assert OffsetMax(MovedLast(es, i)) != OffsetMax(MovedLast(es, j));
      assert !SameOffsetValues(es, MovedLast(es, i)) || !SameOffsetValues(es, MovedLast(es, j));
    }
  }
}
