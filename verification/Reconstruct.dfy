/** Rebuilding a log from a stream of record snapshots: the latest snapshot of each record is
    kept, and the survivors are written out module by module. */
module Reconstruct {
  import opened Codec
  import opened LogFile
  import opened LogWriter
  import opened RoundTrip
  import HeaderShift
  import JsonString

  const KNOWN_MODULES := 18
  const POSIX_MOD := 1
  const MPIIO_MOD := 2
  const H5F_MOD := 3
  const H5D_MOD := 4
  const STDIO_MOD := 9

  /** Modules whose records have a fixed size that can be checked. */
  predicate Sized(mod: int) {
    mod == POSIX_MOD || mod == MPIIO_MOD || mod == H5F_MOD || mod == H5D_MOD || mod == STDIO_MOD
  }

  /** Modules with functions for their records: not the null module, nor the two optional ones. */
  predicate HasLogutils(mod: int) {
    0 < mod < KNOWN_MODULES && mod != 13 && mod != 14
  }

  datatype Key = Key(mod: int, id: nat, rank: int)
  datatype Snapshot = Snapshot(buf: seq<Byte>, seqNo: nat, endedAt: real)

  /** An event of the stream with the fields its line holds. */
  datatype Event = Event(key: Key, recSize: int, hex: Option<seq<Byte>>, seqNo: nat, endedAt: real)

  /** A snapshot that has been taken up. */
  datatype Arrival = Arrival(key: Key, snap: Snapshot)

  // ---------------------------------------------------------------------------
  // The latest snapshot
  // ---------------------------------------------------------------------------

  /** Later in the stream's own order: by sequence number, then by end time. */
  predicate Newer(a: Snapshot, b: Snapshot) {
    a.seqNo > b.seqNo || (a.seqNo == b.seqNo && a.endedAt > b.endedAt)
  }

  /** The i-th arrival is the greatest of its key, and the first of the greatest. */
  ghost predicate Wins(arrivals: seq<Arrival>, k: Key, i: nat) {
    && i < |arrivals| && arrivals[i].key == k
    && (forall j :: 0 <= j < |arrivals| && arrivals[j].key == k ==> !Newer(arrivals[j].snap, arrivals[i].snap))
    && (forall j :: 0 <= j < i && arrivals[j].key == k ==> Newer(arrivals[i].snap, arrivals[j].snap))
  }

  /** The keys in the order in which they first came. */
  function FirstSeen(arrivals: seq<Arrival>): seq<Key> {
    if arrivals == [] then []
    else
      var before := FirstSeen(arrivals[..|arrivals| - 1]);
      var k := arrivals[|arrivals| - 1].key;
      if k in before then before else before + [k]
  }

  /** The table after some arrivals: each key's winner, iterated in the order of first arrival. */
  ghost predicate Latest(entries: map<Key, Snapshot>, order: seq<Key>, arrivals: seq<Arrival>) {
    && order == FirstSeen(arrivals)
    && (forall k :: k in entries <==> k in order)
    && (forall k :: k in entries ==> exists i: nat :: Wins(arrivals, k, i) && entries[k] == arrivals[i].snap)
  }

  lemma {:induction false} FirstSeenOnce(arrivals: seq<Arrival>)
    ensures forall i, j :: 0 <= i < j < |FirstSeen(arrivals)| ==> FirstSeen(arrivals)[i] != FirstSeen(arrivals)[j]
    ensures forall k :: k in FirstSeen(arrivals) <==> exists i :: 0 <= i < |arrivals| && arrivals[i].key == k
  {
    if arrivals != [] {
      var n := |arrivals| - 1;
      FirstSeenOnce(arrivals[..n]);
      forall k ensures k in FirstSeen(arrivals) <==> exists i :: 0 <= i < |arrivals| && arrivals[i].key == k {
        if i :| 0 <= i < |arrivals| && arrivals[i].key == k {
          if i < n {
            assert arrivals[..n][i].key == k;
          }
        }
      }
    }
  }

  lemma WinnerStays(arrivals: seq<Arrival>, a: Arrival, k: Key, i: nat)
    requires Wins(arrivals, k, i) && (a.key == k ==> !Newer(a.snap, arrivals[i].snap))
    ensures Wins(arrivals + [a], k, i)
  {
  }

  lemma LastWins(arrivals: seq<Arrival>, a: Arrival, i: nat)
    requires Wins(arrivals, a.key, i) && Newer(a.snap, arrivals[i].snap)
    ensures Wins(arrivals + [a], a.key, |arrivals|)
  {
    forall j | 0 <= j < |arrivals| && arrivals[j].key == a.key ensures Newer(a.snap, arrivals[j].snap) {
      assert !Newer(arrivals[j].snap, arrivals[i].snap);
    }
  }

  lemma FirstWins(arrivals: seq<Arrival>, a: Arrival)
    requires forall i :: 0 <= i < |arrivals| ==> arrivals[i].key != a.key
    ensures Wins(arrivals + [a], a.key, |arrivals|)
  {
  }

  /** Taking up one arrival. */
  lemma LatestGrows(entries: map<Key, Snapshot>, order: seq<Key>, arrivals: seq<Arrival>, a: Arrival)
    requires Latest(entries, order, arrivals)
    ensures Latest(if a.key !in entries || Newer(a.snap, entries[a.key]) then entries[a.key := a.snap] else entries,
                   if a.key in entries then order else order + [a.key],
                   arrivals + [a])
  {
    var after := arrivals + [a];
    assert after[..|arrivals|] == arrivals;
    var replace := a.key !in entries || Newer(a.snap, entries[a.key]);
    var entries' := if replace then entries[a.key := a.snap] else entries;
    forall k | k in entries' ensures exists i: nat :: Wins(after, k, i) && entries'[k] == after[i].snap {
      if k == a.key && replace {
        if a.key in entries {
          var i: nat :| Wins(arrivals, k, i) && entries[k] == arrivals[i].snap;
          LastWins(arrivals, a, i);
        } else {
          FirstSeenOnce(arrivals);
          FirstWins(arrivals, a);
        }
        assert after[|arrivals|] == a;
      } else {
        var i: nat :| Wins(arrivals, k, i) && entries[k] == arrivals[i].snap;
        WinnerStays(arrivals, a, k, i);
        assert after[i] == arrivals[i];
      }
    }
  }

  /** In numbers: no snapshot of a record has a greater sequence number than the one kept, nor a later
      end with the same number; it is the first with that number and end. */
  lemma LatestInNumbers(entries: map<Key, Snapshot>, order: seq<Key>, arrivals: seq<Arrival>, k: Key)
    returns (i: nat)
    requires Latest(entries, order, arrivals) && k in entries
    ensures i < |arrivals| && arrivals[i] == Arrival(k, entries[k])
    ensures forall j :: 0 <= j < |arrivals| && arrivals[j].key == k ==>
      && arrivals[j].snap.seqNo <= entries[k].seqNo
      && (arrivals[j].snap.seqNo == entries[k].seqNo ==> arrivals[j].snap.endedAt <= entries[k].endedAt)
    ensures forall j :: 0 <= j < i && arrivals[j].key == k ==>
      arrivals[j].snap.seqNo != entries[k].seqNo || arrivals[j].snap.endedAt != entries[k].endedAt
  {
    i :| 0 <= i && Wins(arrivals, k, i) && entries[k] == arrivals[i].snap;
  }

  // ---------------------------------------------------------------------------
  // Reading the stream
  // ---------------------------------------------------------------------------

  /** The events a build takes up: of a module with known record size, and with a record of
      exactly that size. */
  ghost predicate TakenUp(size: map<int, nat>, e: Event) {
    && e.key.mod in size && 0 < size[e.key.mod]
    && (0 < e.recSize ==> e.recSize == size[e.key.mod])
    && e.hex.Some? && JsonString.Decodable(e.hex.value, size[e.key.mod])
  }

  /** The arrivals that come of some events. */
  ghost predicate ArrivalsOf(size: map<int, nat>, events: seq<Event>, arrivals: seq<Arrival>)
    decreases |events|
  {
    if events == [] then arrivals == []
    else
      var n, e := |events| - 1, events[|events| - 1];
      if TakenUp(size, e) then
        && arrivals != []
        && ArrivalsOf(size, events[..n], arrivals[..|arrivals| - 1])
        && arrivals[|arrivals| - 1].key == e.key
        && arrivals[|arrivals| - 1].snap.seqNo == e.seqNo && arrivals[|arrivals| - 1].snap.endedAt == e.endedAt
        && JsonString.StandsFor(e.hex.value, arrivals[|arrivals| - 1].snap.buf)
      else ArrivalsOf(size, events[..n], arrivals)
  }

  lemma OneMoreEvent(size: map<int, nat>, events: seq<Event>, arrivals: seq<Arrival>, e: Event)
    requires ArrivalsOf(size, events, arrivals)
    ensures !TakenUp(size, e) ==> ArrivalsOf(size, events + [e], arrivals)
    ensures TakenUp(size, e) ==> forall buf :: JsonString.StandsFor(e.hex.value, buf) ==>
              ArrivalsOf(size, events + [e], arrivals + [Arrival(e.key, Snapshot(buf, e.seqNo, e.endedAt))])
  {
    assert (events + [e])[..|events|] == events;
    forall buf | TakenUp(size, e) && JsonString.StandsFor(e.hex.value, buf)
      ensures ArrivalsOf(size, events + [e], arrivals + [Arrival(e.key, Snapshot(buf, e.seqNo, e.endedAt))])
    {
      var a := arrivals + [Arrival(e.key, Snapshot(buf, e.seqNo, e.endedAt))];
      assert a[..|a| - 1] == arrivals;
    }
  }

  /** What one more event of the stream brings in: its record, from two digits a byte, if its module's
      records have a known size that is not zero, the size it gives is that or none, and its digits are
      all hexadecimal and as many as that size takes; otherwise nothing. */
  lemma ArrivalInNumbers(size: map<int, nat>, events: seq<Event>, e: Event, arrivals: seq<Arrival>)
    requires ArrivalsOf(size, events + [e], arrivals)
    ensures var n := if e.key.mod in size then size[e.key.mod] else 0;
      if 0 < n && (e.recSize <= 0 || e.recSize == n) && e.hex.Some? && |e.hex.value| == 2 * n &&
         forall i :: 0 <= i < 2 * n ==> 0 <= JsonString.HexValue(e.hex.value[i])
      then arrivals != [] &&
        var before, last := arrivals[..|arrivals| - 1], arrivals[|arrivals| - 1];
        && ArrivalsOf(size, events, before)
        && last == Arrival(e.key, Snapshot(last.snap.buf, e.seqNo, e.endedAt)) && |last.snap.buf| == n
        && forall i :: 0 <= i < n ==>
             (var hi, lo := JsonString.HexValue(e.hex.value[2 * i]), JsonString.HexValue(e.hex.value[2 * i + 1]);
              last.snap.buf[i] == 16 * hi + lo)
      else ArrivalsOf(size, events, arrivals)
  {
    assert (events + [e])[..|events|] == events;
  }

  /** The table of records, and the ghost list of what has gone into it. */
  class Records {
    const size: map<int, nat>
    var entries: map<Key, Snapshot>
    var order: seq<Key>
    ghost var arrivals: seq<Arrival>

    ghost predicate Valid()
      reads this
    {
      Latest(entries, order, arrivals)
    }

    constructor (size: map<int, nat>)
      ensures Valid() && arrivals == [] && this.size == size
    {
      this.size := size;
      entries, order, arrivals := map[], [], [];
    }

    method ShouldReplace(k: Key, snap: Snapshot) returns (r: bool)
      ensures r <==> k !in entries || Newer(snap, entries[k])
      ensures r <==> k !in entries || snap.seqNo > entries[k].seqNo ||
                     (snap.seqNo == entries[k].seqNo && snap.endedAt > entries[k].endedAt)
    {
      if k !in entries { return true; }
      if snap.seqNo > entries[k].seqNo { return true; }
      if snap.seqNo == entries[k].seqNo && snap.endedAt > entries[k].endedAt { return true; }
      return false;
    }

    method AddRecord(k: Key, buf: seq<Byte>, seqNo: nat, endedAt: real)
      requires Valid()
      modifies this
      ensures Valid() && arrivals == old(arrivals) + [Arrival(k, Snapshot(buf, seqNo, endedAt))]
    {
      var snap := Snapshot(buf, seqNo, endedAt);
      LatestGrows(entries, order, arrivals, Arrival(k, snap));
      arrivals := arrivals + [Arrival(k, snap)];
      var replace := ShouldReplace(k, snap);
      if !replace { return; }
      if k !in entries {
        order := order + [k];
      }
      entries := entries[k := snap];
    }

    method ReadEvent(e: Event, ghost events: seq<Event>)
      requires Valid() && ArrivalsOf(size, events, arrivals)
      modifies this
      ensures Valid() && ArrivalsOf(size, events + [e], arrivals)
    {
      OneMoreEvent(size, events, arrivals, e);
      if e.key.mod !in size || size[e.key.mod] == 0 { return; }
      var expected := size[e.key.mod];
      if e.recSize > 0 && e.recSize != expected { return; }
      var buf := JsonString.DecodeHex(e.hex, expected);
      if buf.None? || |buf.value| != expected { return; }
      AddRecord(e.key, buf.value, e.seqNo, e.endedAt);
    }

    /** After any stream, the table holds each record's greatest snapshot. */
    method ReadEvents(events: seq<Event>)
      requires Valid() && arrivals == []
      modifies this
      ensures Valid() && ArrivalsOf(size, events, arrivals)
    {
      for i := 0 to |events|
        invariant Valid() && ArrivalsOf(size, events[..i], arrivals)
      {
        ReadEvent(events[i], events[..i]);
        assert events[..i + 1] == events[..i] + [events[i]];
      }
      assert events[..|events|] == events;
    }
  }

  // ---------------------------------------------------------------------------
  // What is written
  // ---------------------------------------------------------------------------

  /** The names of the records, and whether a standard-stream record shows no reads or writes. */
  datatype Pruning = Pruning(names: map<nat, seq<Byte>>, idle: seq<Byte> -> bool)

  const STDIN: seq<Byte> := [0x3C, 0x53, 0x54, 0x44, 0x49, 0x4E, 0x3E]
  const STDOUT: seq<Byte> := [0x3C, 0x53, 0x54, 0x44, 0x4F, 0x55, 0x54, 0x3E]
  const STDERR: seq<Byte> := [0x3C, 0x53, 0x54, 0x44, 0x45, 0x52, 0x52, 0x3E]

  /** Only unused standard streams are left out. */
  predicate RecordIsEmpty(p: Pruning, k: Key, buf: seq<Byte>) {
    && k.mod == STDIO_MOD && k.id in p.names
    && (p.names[k.id] == STDIN || p.names[k.id] == STDOUT || p.names[k.id] == STDERR)
    && p.idle(buf)
  }

  predicate Survives(entries: map<Key, Snapshot>, p: Pruning, k: Key) {
    k in entries && !RecordIsEmpty(p, k, entries[k].buf)
  }

  /** A module's survivors, in table order. */
  function OfModule(order: seq<Key>, entries: map<Key, Snapshot>, p: Pruning, m: int): seq<Key> {
    if order == [] then []
    else
      var n, k := |order| - 1, order[|order| - 1];
      OfModule(order[..n], entries, p, m) + (if k.mod == m && Survives(entries, p, k) then [k] else [])
  }

  /** The survivors of the modules below m, module by module. */
  function BelowModule(order: seq<Key>, entries: map<Key, Snapshot>, p: Pruning, m: nat): seq<Key> {
    if m == 0 then []
    else
      BelowModule(order, entries, p, m - 1)
      + (if HasLogutils(m - 1) then OfModule(order, entries, p, m - 1) else [])
  }

  ghost predicate Distinct(ks: seq<Key>) {
    forall i, j :: 0 <= i < j < |ks| ==> ks[i] != ks[j]
  }

  ghost predicate ModulesAscend(ks: seq<Key>) {
    forall i, j :: 0 <= i < j < |ks| ==> ks[i].mod <= ks[j].mod
  }

  lemma {:induction false} OfModuleOnce(order: seq<Key>, entries: map<Key, Snapshot>, p: Pruning, m: int)
    requires Distinct(order)
    ensures Distinct(OfModule(order, entries, p, m))
    ensures forall k :: k in OfModule(order, entries, p, m) <==> k in order && k.mod == m && Survives(entries, p, k)
  {
    if order != [] {
      OfModuleOnce(order[..|order| - 1], entries, p, m);
    }
  }

  lemma JoinModules(below: seq<Key>, own: seq<Key>, m: int)
    requires Distinct(below) && ModulesAscend(below) && Distinct(own)
    requires (forall k :: k in below ==> k.mod < m) && (forall k :: k in own ==> k.mod == m)
    ensures Distinct(below + own) && ModulesAscend(below + own) && Distinct(below + []) && ModulesAscend(below + [])
  {
    assert forall i :: 0 <= i < |below| ==> below[i] in below;
    assert forall i :: 0 <= i < |own| ==> own[i] in own;
    assert below + [] == below;
  }

  lemma {:induction false} BelowModuleOnce(order: seq<Key>, entries: map<Key, Snapshot>, p: Pruning, m: nat)
    requires Distinct(order)
    ensures Distinct(BelowModule(order, entries, p, m)) && ModulesAscend(BelowModule(order, entries, p, m))
    ensures forall k :: k in BelowModule(order, entries, p, m) <==>
              k in order && 0 <= k.mod < m && HasLogutils(k.mod) && Survives(entries, p, k)
  {
    if m > 0 {
      BelowModuleOnce(order, entries, p, m - 1);
      OfModuleOnce(order, entries, p, m - 1);
      JoinModules(BelowModule(order, entries, p, m - 1), OfModule(order, entries, p, m - 1), m - 1);
    }
  }

  /** What write_log emits for a stream: each surviving record of the stream exactly once, in
      ascending order of module, with its latest snapshot. */
  lemma EmittedExactlyOnce(entries: map<Key, Snapshot>, order: seq<Key>, arrivals: seq<Arrival>, p: Pruning)
    requires Latest(entries, order, arrivals)
    requires forall i :: 0 <= i < |arrivals| ==> Sized(arrivals[i].key.mod)
    ensures var emitted := BelowModule(order, entries, p, KNOWN_MODULES);
            && Distinct(emitted) && ModulesAscend(emitted)
            && forall k :: k in emitted <==> k in entries && !RecordIsEmpty(p, k, entries[k].buf)
    ensures forall k :: k in entries <==> exists i :: 0 <= i < |arrivals| && arrivals[i].key == k
  {
    FirstSeenOnce(arrivals);
    BelowModuleOnce(order, entries, p, KNOWN_MODULES);
  }

  /** In full: emitted are the records of the stream, of modules 1 to 17 but 13 and 14, other than those
      of module 9 that are idle and named as a standard stream. */
  lemma EmittedInFull(entries: map<Key, Snapshot>, order: seq<Key>, arrivals: seq<Arrival>, p: Pruning, k: Key)
    requires Latest(entries, order, arrivals)
    ensures k in BelowModule(order, entries, p, KNOWN_MODULES) <==>
      && (exists i :: 0 <= i < |arrivals| && arrivals[i].key == k)
      && 1 <= k.mod <= 17 && k.mod != 13 && k.mod != 14
      && !(k.mod == 9 && k in entries && k.id in p.names && StandardStream(p.names[k.id]) && p.idle(entries[k].buf))
  {
    FirstSeenOnce(arrivals);
    BelowModuleOnce(order, entries, p, KNOWN_MODULES);
    if k.id in p.names {
      StandardNames(p.names[k.id]);
    }
  }

  /** The bytes are those of a string. */
  predicate Spells(name: seq<Byte>, s: string) {
    |name| == |s| && forall i :: 0 <= i < |s| ==> name[i] == s[i] as int
  }

  predicate StandardStream(name: seq<Byte>) {
    Spells(name, "<STDIN>") || Spells(name, "<STDOUT>") || Spells(name, "<STDERR>")
  }

  lemma StandardNames(name: seq<Byte>)
    ensures StandardStream(name) <==> name == STDIN || name == STDOUT || name == STDERR
  {
    assert Spells(STDIN, "<STDIN>") && Spells(STDOUT, "<STDOUT>") && Spells(STDERR, "<STDERR>");
    SpeltAlike(name, STDIN, "<STDIN>");
    SpeltAlike(name, STDOUT, "<STDOUT>");
    SpeltAlike(name, STDERR, "<STDERR>");
  }

  lemma SpeltAlike(name: seq<Byte>, b: seq<Byte>, s: string)
    requires Spells(b, s)
    ensures Spells(name, s) <==> name == b
  {
  }

  // ---------------------------------------------------------------------------
  // The flags of partial modules
  // ---------------------------------------------------------------------------

  lemma SetBit(flags: bv64, b: bv7, c: bv7)
    requires b < 64 && c < 64
    ensures HeaderShift.Bit(flags | (1 << b), c) <==> c == b || HeaderShift.Bit(flags, c)
  {
  }

  lemma ShiftOf(m: nat)
    requires m < MAX_MODS
    ensures m as bv7 < 64 && m as bv7 as nat == m
  {
  }

  function SetFlag(flags: bv64, m: nat): bv64
    requires m < MAX_MODS
  {
    flags | (1 << m)
  }

  lemma SetFlagSets(flags: bv64, m: nat, n: nat)
    requires m < MAX_MODS && n < MAX_MODS
    ensures HeaderShift.FlagIsSet(SetFlag(flags, m), n) <==> n == m || HeaderShift.FlagIsSet(flags, n)
  {
    ShiftOf(m);
    ShiftOf(n);
    SetBit(flags, m as bv7, n as bv7);
  }

  lemma NoFlags(n: nat)
    requires n < MAX_MODS
    ensures !HeaderShift.FlagIsSet(0, n)
  {
  }

  /** A flag for each module with a survivor among some keys. */
  ghost predicate FlagsOf(flags: bv64, ks: seq<Key>, entries: map<Key, Snapshot>, p: Pruning) {
    forall m :: 0 <= m < MAX_MODS ==>
      (HeaderShift.FlagIsSet(flags, m) <==> exists k :: k in ks && k.mod == m && Survives(entries, p, k))
  }

  lemma NoKeysNoFlags(entries: map<Key, Snapshot>, p: Pruning)
    ensures FlagsOf(0, [], entries, p)
  {
    forall m | 0 <= m < MAX_MODS ensures !HeaderShift.FlagIsSet(0, m) {
      NoFlags(m);
    }
  }

  lemma FlagsGrow(flags: bv64, ks: seq<Key>, entries: map<Key, Snapshot>, p: Pruning, k: Key)
    requires FlagsOf(flags, ks, entries, p) && 0 <= k.mod < MAX_MODS
    ensures FlagsOf(if Survives(entries, p, k) then SetFlag(flags, k.mod) else flags, ks + [k], entries, p)
  {
    var flags' := if Survives(entries, p, k) then SetFlag(flags, k.mod) else flags;
    forall m | 0 <= m < MAX_MODS
      ensures HeaderShift.FlagIsSet(flags', m) <==> exists l :: l in ks + [k] && l.mod == m && Survives(entries, p, l)
    {
      SetFlagSets(flags, k.mod, m);
      if l :| l in ks && l.mod == m && Survives(entries, p, l) {
        assert l in ks + [k];
      }
      assert k in ks + [k];
    }
  }

  lemma FlagsOfSameKeys(flags: bv64, ks: seq<Key>, ls: seq<Key>, entries: map<Key, Snapshot>, p: Pruning)
    requires FlagsOf(flags, ks, entries, p)
    requires forall k :: k in ls <==> k in ks && Survives(entries, p, k)
    ensures FlagsOf(flags, ls, entries, p)
  {
    forall m | 0 <= m < MAX_MODS
      ensures HeaderShift.FlagIsSet(flags, m) <==> exists k :: k in ls && k.mod == m && Survives(entries, p, k)
    {
    }
  }

  // ---------------------------------------------------------------------------
  // Writing the log
  // ---------------------------------------------------------------------------

  /** The writes for some records. */
  function WritesOf(ks: seq<Key>, entries: map<Key, Snapshot>): (w: seq<Write>)
    requires forall k :: k in ks ==> k in entries
    ensures |w| == |ks|
    ensures forall i :: 0 <= i < |ks| ==> w[i] == Write(ks[i].mod, entries[ks[i]].buf)
  {
    if ks == [] then [] else [Write(ks[0].mod, entries[ks[0]].buf)] + WritesOf(ks[1..], entries)
  }

  /** The regions written before the modules: job, command line and mounts, then the names. */
  ghost predicate IsPreamble(head: seq<Write>) {
    head != [] && head[0].region == JOB_REGION && InOrder(head)
    && forall i :: 0 <= i < |head| ==> JOB_REGION <= head[i].region <= NAME_MAP_REGION
  }

  /** The writer's check of the region order never rejects what is written. */
  lemma WritesAreInOrder(head: seq<Write>, ks: seq<Key>, entries: map<Key, Snapshot>)
    requires IsPreamble(head) && ModulesAscend(ks)
    requires forall k :: k in ks ==> k in entries && 0 <= k.mod < KNOWN_MODULES
    ensures var writes := head + WritesOf(ks, entries);
            && InOrder(writes) && writes[0].region == JOB_REGION
            && forall i :: 0 <= i < |writes| ==> IsRegion(writes[i].region)
  {
    var tail := WritesOf(ks, entries);
    forall i | 0 <= i < |tail| ensures 0 <= tail[i].region < KNOWN_MODULES && tail[i].region == ks[i].mod {
      assert ks[i] in ks;
    }
  }

  /** The first pass: a flag for each module that will have records. */
  method PartialFlag(order: seq<Key>, entries: map<Key, Snapshot>, p: Pruning) returns (partial: bv64)
    requires forall k :: k in order ==> k in entries && 0 <= k.mod < MAX_MODS
    ensures FlagsOf(partial, order, entries, p)
  {
    partial := 0;
    NoKeysNoFlags(entries, p);
    for i := 0 to |order|
      invariant FlagsOf(partial, order[..i], entries, p)
    {
      var k := order[i];
      FlagsGrow(partial, order[..i], entries, p, k);
      assert order[..i + 1] == order[..i] + [k];
      if RecordIsEmpty(p, k, entries[k].buf) {
        continue;
      }
      partial := SetFlag(partial, k.mod);
    }
    assert order[..|order|] == order;
  }

  /** One module's records. */
  method ModuleKeys(order: seq<Key>, entries: map<Key, Snapshot>, p: Pruning, m: int) returns (ks: seq<Key>)
    requires forall k :: k in order ==> k in entries
    ensures ks == OfModule(order, entries, p, m)
  {
    ks := [];
    for i := 0 to |order|
      invariant ks == OfModule(order[..i], entries, p, m)
    {
      var k := order[i];
      assert order[..i + 1][..i] == order[..i];
      if k.mod != m || RecordIsEmpty(p, k, entries[k].buf) {
        continue;
      }
      ks := ks + [k];
    }
    assert order[..|order|] == order;
  }

  /** The second pass: the loop over the modules. */
  method KeysToWrite(order: seq<Key>, entries: map<Key, Snapshot>, p: Pruning) returns (ks: seq<Key>)
    requires forall k :: k in order ==> k in entries
    ensures ks == BelowModule(order, entries, p, KNOWN_MODULES)
  {
    ks := [];
    for m := 0 to KNOWN_MODULES
      invariant ks == BelowModule(order, entries, p, m)
    {
      if !HasLogutils(m) {
        continue;
      }
      var own := ModuleKeys(order, entries, p, m);
      ks := ks + own;
    }
  }

  method WriteSnapshots<S(!new), T>(codec: Codec<S, T>, partial: bv64, head: seq<Write>, ks: seq<Key>,
                                    entries: map<Key, Snapshot>)
    returns (log: Option<Log>, ghost enc: map<int, seq<Byte>>)
    requires DeflateOk(codec) && IsPreamble(head) && ModulesAscend(ks)
    requires forall k :: k in ks ==> k in entries && 0 <= k.mod < KNOWN_MODULES
    ensures InOrder(head + WritesOf(ks, entries))
    ensures log == None <==> EndsFull(codec, head + WritesOf(ks, entries))
    ensures log.Some? ==> HoldsWrites(codec, log.value, enc, Contents(head + WritesOf(ks, entries)))
    ensures log.Some? ==> log.value.header.partialFlag == partial
  {
    WritesAreInOrder(head, ks, entries);
    log, enc := WriteLog(codec, partial, head + WritesOf(ks, entries));
  }

  /** Writes the reconstructed log. It holds the latest snapshot of each surviving record of the
      stream, module by module, and flags exactly the modules with records as partial. */
  method WriteReconstructed<S(!new), T>(codec: Codec<S, T>, records: Records, p: Pruning, head: seq<Write>)
    returns (log: Option<Log>, ghost enc: map<int, seq<Byte>>)
    requires DeflateOk(codec) && IsPreamble(head)
    requires records.Valid() && forall i :: 0 <= i < |records.arrivals| ==> Sized(records.arrivals[i].key.mod)
    ensures var emitted := BelowModule(records.order, records.entries, p, KNOWN_MODULES);
            && (forall k :: k in emitted ==> k in records.entries)
            && InOrder(head + WritesOf(emitted, records.entries))
            && (log == None <==> EndsFull(codec, head + WritesOf(emitted, records.entries)))
            && (log.Some? ==> HoldsWrites(codec, log.value, enc, Contents(head + WritesOf(emitted, records.entries))))
            && (log.Some? ==> FlagsOf(log.value.header.partialFlag, emitted, records.entries, p))
  {
    var order, entries := records.order, records.entries;
    EmittedExactlyOnce(entries, order, records.arrivals, p);
    var partial := PartialFlag(order, entries, p);
    var ks := KeysToWrite(order, entries, p);
    FlagsOfSameKeys(partial, order, ks, entries, p);
    log, enc := WriteSnapshots(codec, partial, head, ks, entries);
  }
}
