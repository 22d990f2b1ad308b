/** The table of record ids and names: variable-length records parsed out of a stream that
    arrives in chunks which need not end where a record does. */
module NameTable {
  import opened Codec
  import opened LogFile
  import opened LogReader

  const ID_SIZE: nat := 8

  // ---------------------------------------------------------------------------
  // One record
  // ---------------------------------------------------------------------------

  /** The number a little-endian machine reads from some bytes. */
  function Number(b: seq<Byte>): nat {
    if b == [] then 0 else b[0] + 256 * Number(b[1..])
  }

  function Digits(id: nat, n: nat): (b: seq<Byte>)
    ensures |b| == n
  {
    if n == 0 then [] else [id % 256] + Digits(id / 256, n - 1)
  }

  function Reversed(b: seq<Byte>): (r: seq<Byte>)
    ensures |r| == |b| && forall i :: 0 <= i < |b| ==> r[i] == b[|b| - 1 - i]
  {
    seq(|b|, i requires 0 <= i < |b| => b[|b| - 1 - i])
  }

  /** The id of a record, whose bytes are swapped first if the log's byte order is foreign. */
  function IdOf(b: seq<Byte>, swap: bool): nat {
    Number(if swap then Reversed(b) else b)
  }

  /** The id as a machine of the same or of the opposite byte order stores it. */
  function IdBytes(id: nat, foreign: bool): (b: seq<Byte>)
    ensures |b| == ID_SIZE
  {
    if foreign then Reversed(Digits(id, ID_SIZE)) else Digits(id, ID_SIZE)
  }

  function Power(n: nat): nat {
    if n == 0 then 1 else 256 * Power(n - 1)
  }

  lemma {:induction false} DigitsRoundTrip(id: nat, n: nat)
    requires id < Power(n)
    ensures Number(Digits(id, n)) == id
  {
    if n > 0 {
      DigitsRoundTrip(id / 256, n - 1);
      assert Digits(id, n)[1..] == Digits(id / 256, n - 1);
    }
  }

  lemma IdRoundTrip(id: nat, foreign: bool)
    requires id < Power(ID_SIZE)
    ensures IdOf(IdBytes(id, foreign), foreign) == id
  {
    DigitsRoundTrip(id, ID_SIZE);
    assert Reversed(Reversed(Digits(id, ID_SIZE))) == Digits(id, ID_SIZE);
  }

  /** The length of a string up to its terminator, or of all of `s` without one. */
  function StrLen(s: seq<Byte>): (n: nat)
    ensures n <= |s| && forall i :: 0 <= i < n ==> s[i] != 0
    ensures n < |s| ==> s[n] == 0
  {
    if s == [] || s[0] == 0 then 0 else 1 + StrLen(s[1..])
  }

  lemma {:induction false} StrLenIs(s: seq<Byte>, n: nat)
    requires n < |s| && s[n] == 0 && forall i :: 0 <= i < n ==> s[i] != 0
    ensures StrLen(s) == n
  {
    if n > 0 {
      StrLenIs(s[1..], n - 1);
    }
  }

  /** The length of the record at the front of a buffer, zero when it is incomplete. */
  function RecLen(buf: seq<Byte>): (n: nat)
    ensures n <= |buf| && (n > 0 ==> n > ID_SIZE)
  {
    if |buf| < ID_SIZE + 1 then 0
    else
      var n := StrLen(buf[ID_SIZE..]);
      if n == |buf| - ID_SIZE then 0 else ID_SIZE + n + 1
  }

  function NameOf(buf: seq<Byte>): seq<Byte>
    requires RecLen(buf) > 0
  {
    buf[ID_SIZE..RecLen(buf) - 1]
  }

  /** A complete record is not changed by what follows it. */
  lemma RecLenStable(a: seq<Byte>, b: seq<Byte>)
    requires RecLen(a) > 0
    ensures RecLen(a + b) == RecLen(a) && NameOf(a + b) == NameOf(a)
    ensures (a + b)[..ID_SIZE] == a[..ID_SIZE]
  {
    var n := StrLen(a[ID_SIZE..]);
    assert (a + b)[ID_SIZE..] == a[ID_SIZE..] + b;
    StrLenIs((a + b)[ID_SIZE..], n);
  }

  lemma NumberOfFour(b: seq<Byte>)
    requires 4 <= |b|
    ensures Number(b) == b[0] as int + 0x100 * b[1] as int + 0x1_0000 * b[2] as int + 0x100_0000 * b[3] as int
                          + 0x1_0000_0000 * Number(b[4..])
  {
    var c := b[2..];
    assert b[1..][1..] == c && c[1..][1..] == b[4..];
    assert Number(b) == b[0] + 0x100 * (b[1] + 0x100 * Number(c));
    assert Number(c) == c[0] + 0x100 * (c[1] + 0x100 * Number(b[4..]));
  }

  /** In numbers: an id takes eight bytes, the lowest first, or last if the byte order is foreign. */
  lemma IdInNumbers(b: seq<Byte>, swap: bool)
    requires |b| == 8
    ensures var c := if swap then [b[7], b[6], b[5], b[4], b[3], b[2], b[1], b[0]] else b;
      IdOf(b, swap) == c[0] as int + 0x100 * c[1] as int + 0x1_0000 * c[2] as int + 0x100_0000 * c[3] as int
                       + 0x1_0000_0000 * c[4] as int + 0x100_0000_0000 * c[5] as int
                       + 0x1_0000_0000_0000 * c[6] as int + 0x100_0000_0000_0000 * c[7] as int
  {
    var c := if swap then Reversed(b) else b;
    NumberOfFour(c);
    NumberOfFour(c[4..]);
    assert c[4..][4..] == [];
  }

  /** A record is an id, a name and a zero byte, whatever follows. */
  lemma RecordInNumbers(id: seq<Byte>, name: seq<Byte>, rest: seq<Byte>)
    requires |id| == 8 && 0 !in name
    ensures var buf := id + name + [0] + rest;
      RecLen(buf) == |name| + 9 && NameOf(buf) == name && buf[..ID_SIZE] == id
  {
    var buf := id + name + [0] + rest;
    assert buf[ID_SIZE..] == name + [0] + rest;
    StrLenIs(buf[ID_SIZE..], |name|);
  }

  /** It is incomplete exactly if no zero byte follows the id. */
  lemma IncompleteInNumbers(buf: seq<Byte>)
    ensures RecLen(buf) == 0 <==> forall i :: 8 <= i < |buf| ==> buf[i] != 0
  {
    if 8 < |buf| {
      var s := buf[8..];
      var n := StrLen(s);
      assert forall i :: 8 <= i < |buf| ==> buf[i] == s[i - 8];
      assert n < |s| ==> buf[8 + n] == 0;
    }
  }

  // ---------------------------------------------------------------------------
  // The table
  // ---------------------------------------------------------------------------

  type Table = map<nat, seq<Byte>>

  predicate Listed(id: nat, whitelist: Option<seq<nat>>) {
    whitelist == None || id in whitelist.value
  }

  /** The first name of an id enters the table; an empty one gives way to the next. */
  function AddName(t: Table, id: nat, name: seq<Byte>, whitelist: Option<seq<nat>>): Table {
    if id !in t then (if Listed(id, whitelist) then t[id := name] else t)
    else if t[id] == [] && name != [] then t[id := name]
    else t
  }

  /** The table after parsing a buffer, and the bytes left over. */
  datatype Parsed = Parsed(table: Table, rest: seq<Byte>)

  /** The table after the record at the front of a buffer. */
  function Enter(t: Table, buf: seq<Byte>, swap: bool, whitelist: Option<seq<nat>>): Table
    requires RecLen(buf) > 0
  {
    AddName(t, IdOf(buf[..ID_SIZE], swap), NameOf(buf), whitelist)
  }

  /** All complete records at the front of a buffer. */
  function Parse(t: Table, buf: seq<Byte>, swap: bool, whitelist: Option<seq<nat>>): (r: Parsed)
    decreases |buf|
  {
    var n := RecLen(buf);
    if n == 0 then Parsed(t, buf) else Parse(Enter(t, buf, swap, whitelist), buf[n..], swap, whitelist)
  }

  /** `r` is the end of the buffer, and no complete record. */
  predicate IsLeftOver(buf: seq<Byte>, r: seq<Byte>) {
    |r| <= |buf| && r == buf[|buf| - |r|..] && RecLen(r) == 0
  }

  lemma EndOfEnd(buf: seq<Byte>, n: nat, r: seq<Byte>)
    requires n <= |buf| && IsLeftOver(buf[n..], r)
    ensures IsLeftOver(buf, r)
  {
  }

  lemma ParseOne(t: Table, buf: seq<Byte>, swap: bool, whitelist: Option<seq<nat>>)
    ensures RecLen(buf) == 0 ==> Parse(t, buf, swap, whitelist) == Parsed(t, buf)
    ensures RecLen(buf) > 0 ==>
      Parse(t, buf, swap, whitelist) == Parse(Enter(t, buf, swap, whitelist), buf[RecLen(buf)..], swap, whitelist)
  {
  }

  /** What is left over is the end of the buffer, and no complete record. */
  lemma {:induction false} ParseLeaves(t: Table, buf: seq<Byte>, swap: bool, whitelist: Option<seq<nat>>)
    ensures IsLeftOver(buf, Parse(t, buf, swap, whitelist).rest)
    decreases |buf|
  {
    var n := RecLen(buf);
    ParseOne(t, buf, swap, whitelist);
    if n > 0 {
      var entered, rest := Enter(t, buf, swap, whitelist), buf[n..];
      ParseLeaves(entered, rest, swap, whitelist);
      EndOfEnd(buf, n, Parse(entered, rest, swap, whitelist).rest);
    }
  }

  /** Parsing does not depend on where the stream is cut: what one chunk leaves over is
      parsed with the next one, and the table is the same. */
  lemma {:induction false} ParseInChunks(t: Table, a: seq<Byte>, b: seq<Byte>, swap: bool, whitelist: Option<seq<nat>>)
    ensures var first := Parse(t, a, swap, whitelist);
      Parse(t, a + b, swap, whitelist) == Parse(first.table, first.rest + b, swap, whitelist)
    decreases |a|
  {
    var n := RecLen(a);
    if n > 0 {
      RecLenStable(a, b);
      assert (a + b)[n..] == a[n..] + b;
      ParseInChunks(Enter(t, a, swap, whitelist), a[n..], b, swap, whitelist);
    }
  }

  // ---------------------------------------------------------------------------
  // The round trip
  // ---------------------------------------------------------------------------

  datatype Name = Name(id: nat, name: seq<Byte>)

  ghost predicate Storable(rs: seq<Name>) {
    forall i :: 0 <= i < |rs| ==> rs[i].id < Power(ID_SIZE) && 0 !in rs[i].name
  }

  function Serialized(r: Name, foreign: bool): (b: seq<Byte>)
    ensures |b| == ID_SIZE + |r.name| + 1
  {
    IdBytes(r.id, foreign) + r.name + [0]
  }

  function SerializedAll(rs: seq<Name>, foreign: bool): seq<Byte> {
    if rs == [] then [] else Serialized(rs[0], foreign) + SerializedAll(rs[1..], foreign)
  }

  /** The table that some records add up to. */
  function AddAll(t: Table, rs: seq<Name>, whitelist: Option<seq<nat>>): Table
    decreases |rs|
  {
    if rs == [] then t else AddAll(AddName(t, rs[0].id, rs[0].name, whitelist), rs[1..], whitelist)
  }

  lemma RecordReadBack(r: Name, rest: seq<Byte>, foreign: bool)
    requires r.id < Power(ID_SIZE) && 0 !in r.name
    ensures var buf := Serialized(r, foreign) + rest;
      RecLen(buf) == |Serialized(r, foreign)| && NameOf(buf) == r.name && IdOf(buf[..ID_SIZE], foreign) == r.id
  {
    var buf := Serialized(r, foreign) + rest;
    SerializedParts(r, rest, foreign);
    StrLenIs(buf[ID_SIZE..], |r.name|);
    IdRoundTrip(r.id, foreign);
  }

  lemma SerializedParts(r: Name, rest: seq<Byte>, foreign: bool)
    ensures var buf := Serialized(r, foreign) + rest;
      && buf[..ID_SIZE] == IdBytes(r.id, foreign) && buf[ID_SIZE..] == r.name + ([0] + rest)
      && buf[ID_SIZE..ID_SIZE + |r.name|] == r.name
  {
  }

  /** A table written on a machine of either byte order parses back, to the last byte, into
      the records that were written. */
  lemma {:induction false} SerializedParsesBack(t: Table, rs: seq<Name>, foreign: bool, whitelist: Option<seq<nat>>)
    requires Storable(rs)
    ensures var s := SerializedAll(rs, foreign);
      Parse(t, s, foreign, whitelist) == Parsed(AddAll(t, rs, whitelist), [])
    decreases |rs|
  {
    if rs != [] {
      var rest := SerializedAll(rs[1..], foreign);
      RecordReadBack(rs[0], rest, foreign);
      var s := Serialized(rs[0], foreign) + rest;
      assert s[|Serialized(rs[0], foreign)|..] == rest;
      SerializedParsesBack(AddName(t, rs[0].id, rs[0].name, whitelist), rs[1..], foreign, whitelist);
    }
  }

  /** `name` is what an id keeps: its first non-empty name or, without one, the empty one. */
  ghost predicate Keeps(rs: seq<Name>, id: nat, name: seq<Byte>) {
    if name == [] then
      && (exists i :: 0 <= i < |rs| && rs[i].id == id)
      && forall i :: 0 <= i < |rs| && rs[i].id == id ==> rs[i].name == []
    else
      exists i :: 0 <= i < |rs| && rs[i] == Name(id, name) &&
        forall j :: 0 <= j < i && rs[j].id == id ==> rs[j].name == []
  }

  /** The table after any records: exactly the listed ids, each with its first non-empty
      name. */
  lemma {:induction false} AddAllKeeps(rs: seq<Name>, whitelist: Option<seq<nat>>, id: nat)
    ensures var t := AddAll(map[], rs, whitelist);
      && (id in t <==> Listed(id, whitelist) && exists i :: 0 <= i < |rs| && rs[i].id == id)
      && (id in t ==> Keeps(rs, id, t[id]))
    decreases |rs|
  {
    if rs != [] {
      var before, r := rs[..|rs| - 1], rs[|rs| - 1];
      assert rs == before + [r];
      AddAllSnoc(map[], before, r, whitelist);
      AddAllKeeps(before, whitelist, id);
      KeepsSnoc(before, r, whitelist, id);
    }
  }

  lemma {:induction false} AddAllSnoc(t: Table, rs: seq<Name>, r: Name, whitelist: Option<seq<nat>>)
    ensures AddAll(t, rs + [r], whitelist) == AddName(AddAll(t, rs, whitelist), r.id, r.name, whitelist)
    decreases |rs|
  {
    if rs == [] {
      assert rs + [r] == [r];
    } else {
      assert (rs + [r])[1..] == rs[1..] + [r];
      AddAllSnoc(AddName(t, rs[0].id, rs[0].name, whitelist), rs[1..], r, whitelist);
    }
  }

  lemma KeepsSnoc(rs: seq<Name>, r: Name, whitelist: Option<seq<nat>>, id: nat)
    requires var t := AddAll(map[], rs, whitelist);
      && (id in t <==> Listed(id, whitelist) && exists i :: 0 <= i < |rs| && rs[i].id == id)
      && (id in t ==> Keeps(rs, id, t[id]))
    ensures var t := AddName(AddAll(map[], rs, whitelist), r.id, r.name, whitelist);
      && (id in t <==> Listed(id, whitelist) && exists i :: 0 <= i < |rs + [r]| && (rs + [r])[i].id == id)
      && (id in t ==> Keeps(rs + [r], id, t[id]))
  {
    var all := rs + [r];
    var t := AddAll(map[], rs, whitelist);
    var t' := AddName(t, r.id, r.name, whitelist);
    assert all[|rs|] == r;
    assert forall i :: 0 <= i < |rs| ==> all[i] == rs[i];
    if id in t && t[id] != [] {
      var i :| 0 <= i < |rs| && rs[i] == Name(id, t[id]) &&
        forall j :: 0 <= j < i && rs[j].id == id ==> rs[j].name == [];
      assert all[i] == Name(id, t[id]);
    } else if id in t {
      var i :| 0 <= i < |rs| && rs[i].id == id;
      assert all[i].id == id;
    }
  }

  /** With distinct ids, the whole table comes back. */
  lemma DistinctIdsRoundTrip(rs: seq<Name>, foreign: bool, id: nat)
    requires Storable(rs) && forall i, j :: 0 <= i < j < |rs| ==> rs[i].id != rs[j].id
    ensures var t := Parse(map[], SerializedAll(rs, foreign), foreign, None).table;
      && (id in t <==> exists i :: 0 <= i < |rs| && rs[i].id == id)
      && forall i :: 0 <= i < |rs| && rs[i].id == id ==> id in t && t[id] == rs[i].name
  {
    SerializedParsesBack(map[], rs, foreign, None);
    AddAllKeeps(rs, None, id);
  }

  // ---------------------------------------------------------------------------
  // Reading the table from a log
  // ---------------------------------------------------------------------------

  /** Every record fits a buffer of `size` bytes, and what follows the last one does not
      fill it. */
  ghost predicate Fits(p: seq<Byte>, size: nat)
    decreases |p|
  {
    if RecLen(p) == 0 then |p| < size else RecLen(p) <= size && Fits(p[RecLen(p)..], size)
  }

  lemma IncompleteIsShort(r: seq<Byte>, b: seq<Byte>)
    requires RecLen(r) == 0 && RecLen(r + b) > 0
    ensures |r| < RecLen(r + b)
  {
    if |r| > ID_SIZE {
      var s, u := r[ID_SIZE..], (r + b)[ID_SIZE..];
      assert u == s + b && StrLen(s) == |s|;
      assert forall i :: 0 <= i < |s| ==> u[i] == s[i] != 0;
    }
  }

  /** Parsing a buffer's complete records leaves open whether the rest fits. */
  lemma {:induction false} FitsAfter(t: Table, b: seq<Byte>, tail: seq<Byte>, size: nat, swap: bool,
                                     whitelist: Option<seq<nat>>)
    requires |b| <= size
    ensures var r := Parse(t, b, swap, whitelist).rest; Fits(b + tail, size) <==> Fits(r + tail, size)
    decreases |b|
  {
    var n := RecLen(b);
    if n > 0 {
      RecLenStable(b, tail);
      assert (b + tail)[n..] == b[n..] + tail;
      FitsAfter(Enter(t, b, swap, whitelist), b[n..], tail, size, swap, whitelist);
    }
  }

  /** A buffer full of less than a record does not fit, whatever follows. */
  lemma FullIsStuck(r: seq<Byte>, tail: seq<Byte>, size: nat)
    requires RecLen(r) == 0 && |r| == size
    ensures !Fits(r + tail, size)
  {
    if RecLen(r + tail) > 0 {
      IncompleteIsShort(r, tail);
    }
  }

  lemma FitsOneMore(r: Name, rest: seq<Byte>, foreign: bool, size: nat)
    requires r.id < Power(ID_SIZE) && 0 !in r.name
    ensures Fits(Serialized(r, foreign) + rest, size) <==> |r.name| + 9 <= size && Fits(rest, size)
  {
    var own := Serialized(r, foreign);
    RecordReadBack(r, rest, foreign);
    assert (own + rest)[|own|..] == rest;
  }

  /** A stream of complete records, and bytes of none behind them, fits exactly if each record has a
      name of at least nine bytes less than the buffer, and what is behind does not fill it. */
  lemma {:induction false} SerializedFitsIff(rs: seq<Name>, tail: seq<Byte>, foreign: bool, size: nat)
    requires Storable(rs) && RecLen(tail) == 0
    ensures Fits(SerializedAll(rs, foreign) + tail, size) <==>
              |tail| < size && forall i :: 0 <= i < |rs| ==> |rs[i].name| + 9 <= size
    decreases |rs|
  {
    if rs == [] {
      assert [] + tail == tail;
    } else {
      var own, rest := Serialized(rs[0], foreign), SerializedAll(rs[1..], foreign);
      FitsOneMore(rs[0], rest + tail, foreign, size);
      SerializedFitsIff(rs[1..], tail, foreign, size);
      assert own + rest + tail == own + (rest + tail);
      assert forall i :: 0 < i < |rs| ==> rs[i] == rs[1..][i - 1];
    }
  }

  lemma SerializedFits(rs: seq<Name>, foreign: bool, size: nat)
    requires Storable(rs) && size > 0 && forall i :: 0 <= i < |rs| ==> ID_SIZE + |rs[i].name| + 1 <= size
    ensures Fits(SerializedAll(rs, foreign), size)
  {
    SerializedFitsIff(rs, [], foreign, size);
    assert SerializedAll(rs, foreign) + [] == SerializedAll(rs, foreign);
  }

  /** Reverses the bytes of one id in place. */
  method SwapId(buf: array<Byte>, off: nat)
    requires off + ID_SIZE <= buf.Length
    modifies buf
    ensures buf[off..off + ID_SIZE] == Reversed(old(buf[off..off + ID_SIZE]))
    ensures forall i :: 0 <= i < buf.Length && !(off <= i < off + ID_SIZE) ==> buf[i] == old(buf[i])
  {
    forall i | 0 <= i < ID_SIZE {
      buf[off + i] := buf[off + ID_SIZE - 1 - i];
    }
  }

  /** Enters the record at `off` into the table, swapping its id in place if the log's byte
      order is foreign. */
  method TakeRecord(buf: array<Byte>, off: nat, bufLen: nat, swap: bool, t: Table, whitelist: Option<seq<nat>>,
                    ghost rest: seq<Byte>)
    returns (recLen: nat, table: Table)
    requires off <= bufLen <= buf.Length && rest == buf[off..bufLen] && RecLen(rest) > 0
    modifies buf
    ensures recLen == RecLen(rest) && table == Enter(t, rest, swap, whitelist)
    ensures off + recLen <= bufLen && buf[off + recLen..bufLen] == rest[recLen..]
  {
    recLen := RecLen(buf[off..bufLen]);
    var name := NameOf(buf[off..bufLen]);
    assert rest[..ID_SIZE] == buf[off..off + ID_SIZE];
    ghost var id := rest[..ID_SIZE];
    if swap {
      SwapId(buf, off);
    }
    assert buf[off..off + ID_SIZE] == if swap then Reversed(id) else id;
    assert buf[off + recLen..bufLen] == rest[recLen..] by {
      assert forall k :: off + recLen <= k < bufLen ==> buf[k] == rest[k - off];
    }
    table := AddName(t, Number(buf[off..off + ID_SIZE]), name, whitelist);
  }

  /** What is left to parse still leads to the goal, and whether it begins with a complete record. */
  ghost predicate LeadsTo(t: Table, rest: seq<Byte>, swap: bool, whitelist: Option<seq<nat>>, more: bool,
                          goal: Parsed)
  {
    Parse(t, rest, swap, whitelist) == goal && more == (RecLen(rest) > 0)
  }

  lemma LeadsOn(t: Table, rest: seq<Byte>, swap: bool, whitelist: Option<seq<nat>>, goal: Parsed, n: nat, t': Table,
                left: seq<Byte>, more: bool)
    requires LeadsTo(t, rest, swap, whitelist, true, goal)
    requires n == RecLen(rest) && t' == Enter(t, rest, swap, whitelist) && left == rest[n..] &&
      more == (RecLen(left) > 0)
    ensures LeadsTo(t', left, swap, whitelist, more, goal)
  {
    ParseOne(t, rest, swap, whitelist);
  }

  /** Enters one complete record and looks for the next. */
  method NextRecord(buf: array<Byte>, off: nat, bufLen: nat, swap: bool, t: Table, whitelist: Option<seq<nat>>,
                    ghost goal: Parsed)
    returns (next: nat, table: Table, more: bool)
    requires off <= bufLen <= buf.Length && LeadsTo(t, buf[off..bufLen], swap, whitelist, true, goal)
    modifies buf
    ensures off < next <= bufLen && LeadsTo(table, buf[next..bufLen], swap, whitelist, more, goal)
  {
    ghost var rest := buf[off..bufLen];
    var recLen;
    recLen, table := TakeRecord(buf, off, bufLen, swap, t, whitelist, rest);
    next := off + recLen;
    var left := buf[next..bufLen];
    more := RecLen(left) > 0;
    LeadsOn(t, rest, swap, whitelist, goal, recLen, table, left, more);
  }

  /** Enters the complete records of a buffer into the table and returns how many bytes they
      took. */
  method GetNameRecs(buf: array<Byte>, bufLen: nat, swap: bool, t: Table, whitelist: Option<seq<nat>>)
    returns (processed: nat, table: Table)
    requires bufLen <= buf.Length
    modifies buf
    ensures processed <= bufLen
    ensures Parsed(table, buf[processed..bufLen]) == Parse(t, old(buf[..bufLen]), swap, whitelist)
  {
    ghost var goal := Parse(t, buf[..bufLen], swap, whitelist);
    table, processed := t, 0;
    assert buf[0..bufLen] == buf[..bufLen];
    var more := RecLen(buf[0..bufLen]) > 0;
    while more
      invariant processed <= bufLen && LeadsTo(table, buf[processed..bufLen], swap, whitelist, more, goal)
      decreases more, bufLen - processed
    {
      processed, table, more := NextRecord(buf, processed, bufLen, swap, table, whitelist, goal);
    }
    ParseOne(table, buf[processed..bufLen], swap, whitelist);
  }

  /** Adds the bytes read behind those in the buffer. */
  method Append(buf: array<Byte>, bufLen: nat, bytes: seq<Byte>)
    requires bufLen + |bytes| <= buf.Length
    modifies buf
    ensures buf[..bufLen + |bytes|] == old(buf[..bufLen]) + bytes
  {
    forall i | 0 <= i < |bytes| {
      buf[bufLen + i] := bytes[i];
    }
  }

  /** Moves what is left over to the beginning of the buffer. */
  method MoveDown(buf: array<Byte>, from: nat, to: nat)
    requires from <= to <= buf.Length
    modifies buf
    ensures buf[..to - from] == old(buf[from..to])
  {
    forall i | 0 <= i < to - from {
      buf[i] := buf[from + i];
    }
  }

  /** One more chunk of the stream: parsed together with what was left over before. */
  method TakeChunk(buf: array<Byte>, bufLen: nat, bytes: seq<Byte>, swap: bool, t: Table, whitelist: Option<seq<nat>>)
    returns (left: nat, table: Table)
    requires bufLen + |bytes| <= buf.Length
    modifies buf
    ensures left <= buf.Length
    ensures Parsed(table, buf[..left]) == Parse(t, old(buf[..bufLen]) + bytes, swap, whitelist)
  {
    ghost var all := buf[..bufLen] + bytes;
    Append(buf, bufLen, bytes);
    var filled := bufLen + |bytes|;
    assert buf[..filled] == all;
    var processed;
    processed, table := GetNameRecs(buf, filled, swap, t, whitelist);
    MoveDown(buf, processed, filled);
    left := filled - processed;
  }

  /** The chunk just read extends the part of the stream already parsed. */
  lemma Extend(p: seq<Byte>, given: nat, n: nat)
    requires given + n <= |p|
    ensures p[..given + n] == p[..given] + p[given..given + n]
    ensures p[..given + n] + p[given + n..] == p
  {
  }

  lemma NextChunk(p: seq<Byte>, given: nat, bytes: seq<Byte>, upTo: nat, swap: bool, whitelist: Option<seq<nat>>,
                  t: Table, rest: seq<Byte>)
    requires upTo == given + |bytes| <= |p| && bytes == p[given..upTo]
    requires Parse(map[], p[..given], swap, whitelist) == Parsed(t, rest)
    ensures Parse(map[], p[..upTo], swap, whitelist) == Parse(t, rest + bytes, swap, whitelist)
  {
    Extend(p, given, |bytes|);
    ParseInChunks(map[], p[..given], bytes, swap, whitelist);
  }

  /** The first `given` bytes of the stream are parsed, with these left over; whether the stream fits
      is still a question of what is left over and what follows. */
  ghost predicate ParsedUpTo(p: seq<Byte>, given: nat, swap: bool, whitelist: Option<seq<nat>>, table: Table,
                             rest: seq<Byte>, size: nat)
  {
    && given <= |p| && Parse(map[], p[..given], swap, whitelist) == Parsed(table, rest)
    && |rest| <= size && (Fits(p, size) <==> Fits(rest + p[given..], size))
  }

  lemma ChunkParsed(p: seq<Byte>, given: nat, bytes: seq<Byte>, upTo: nat, swap: bool, whitelist: Option<seq<nat>>,
                    t: Table, rest: seq<Byte>, size: nat, after: Parsed)
    requires ParsedUpTo(p, given, swap, whitelist, t, rest, size) && |rest| + |bytes| <= size
    requires upTo == given + |bytes| <= |p| && bytes == p[given..upTo]
    requires after == Parse(t, rest + bytes, swap, whitelist)
    ensures ParsedUpTo(p, upTo, swap, whitelist, after.table, after.rest, size)
    ensures |after.rest| <= |rest| + |bytes|
  {
    NextChunk(p, given, bytes, upTo, swap, whitelist, t, rest);
    LeavesFitting(p, given, bytes, upTo, swap, whitelist, t, rest, size, after.rest);
  }

  lemma LeavesFitting(p: seq<Byte>, given: nat, bytes: seq<Byte>, upTo: nat, swap: bool, whitelist: Option<seq<nat>>,
                      t: Table, rest: seq<Byte>, size: nat, left: seq<Byte>)
    requires upTo == given + |bytes| <= |p| && bytes == p[given..upTo] && |rest| + |bytes| <= size
    requires left == Parse(t, rest + bytes, swap, whitelist).rest
    ensures |left| <= |rest| + |bytes| && (Fits(rest + p[given..], size) <==> Fits(left + p[upTo..], size))
  {
    var b, tail := rest + bytes, p[upTo..];
    ParseLeaves(t, b, swap, whitelist);
    FitsAfter(t, b, tail, size, swap, whitelist);
    TailOf(p, given, bytes, upTo, rest);
  }

  lemma TailOf(p: seq<Byte>, given: nat, bytes: seq<Byte>, upTo: nat, rest: seq<Byte>)
    requires upTo == given + |bytes| <= |p| && bytes == p[given..upTo]
    ensures rest + p[given..] == rest + bytes + p[upTo..]
  {
  }

  /** With a full buffer left over the stream does not fit. */
  lemma StuckIfFull(p: seq<Byte>, given: nat, swap: bool, whitelist: Option<seq<nat>>, t: Table, rest: seq<Byte>,
                    size: nat)
    requires ParsedUpTo(p, given, swap, whitelist, t, rest, size) && |rest| == size
    ensures !Fits(p, size)
  {
    ParseLeaves(map[], p[..given], swap, whitelist);
    FullIsStuck(rest, p[given..], size);
  }

  /** With less left over at its end it does. */
  lemma FitsAtTheEnd(p: seq<Byte>, swap: bool, whitelist: Option<seq<nat>>, t: Table, rest: seq<Byte>, size: nat)
    requires ParsedUpTo(p, |p|, swap, whitelist, t, rest, size) && |rest| < size
    ensures Fits(p, size) && Parse(map[], p, swap, whitelist) == Parsed(t, rest)
  {
    assert p[..|p|] == p && rest + p[|p|..] == rest;
    ParseLeaves(map[], p, swap, whitelist);
  }

  /** One read of the table: the bytes from `given` up to `upTo`, which is the end of the table
      if the read comes short. */
  method ReadTable<S, T(!new)>(fd: Reader<S, T>, len: nat, ghost p: seq<Byte>)
    returns (bytes: seq<Byte>, short: bool, ghost upTo: nat)
    requires fd.Opened() && fd.Valid() && NAME_MAP_REGION in fd.enc && p == fd.Contents(NAME_MAP_REGION)
    requires fd.given > 0 ==> fd.prevReg == NAME_MAP_REGION
    modifies fd, fd.buf
    ensures fd.Valid() && fd.prevReg == NAME_MAP_REGION && |bytes| <= len
    ensures upTo == old(fd.given) + |bytes| <= |p| && bytes == p[old(fd.given)..upTo]
    ensures if short then fd.given == 0 && upTo == |p| && |bytes| < len else |bytes| == len && fd.given == upTo
  {
    ghost var given := fd.given;
    var ret;
    ret, bytes := fd.DzRead(NAME_MAP_REGION, len);
    short := ret != len;
    upTo := given + |bytes|;
    AnsweredTable(p, given, len, ret, bytes, fd.given);
  }

  lemma AnsweredTable(p: seq<Byte>, from: nat, len: nat, ret: int, bytes: seq<Byte>, given: nat)
    requires Answers(p, from, len, ret, bytes, given)
    ensures from + |bytes| <= |p| && bytes == p[from..from + |bytes|] && |bytes| <= len
    ensures ret != len ==> given == 0 && from + |bytes| == |p| && |bytes| < len
    ensures ret == len ==> |bytes| == len && given == from + |bytes|
  {
  }

  method TakeNextChunk(buf: array<Byte>, bufLen: nat, bytes: seq<Byte>, swap: bool, t: Table,
                       whitelist: Option<seq<nat>>, ghost p: seq<Byte>, ghost given: nat, ghost upTo: nat)
    returns (left: nat, table: Table)
    requires bufLen + |bytes| <= buf.Length
    requires ParsedUpTo(p, given, swap, whitelist, t, buf[..bufLen], buf.Length)
    requires upTo == given + |bytes| <= |p| && bytes == p[given..upTo]
    modifies buf
    ensures left <= bufLen + |bytes| && ParsedUpTo(p, upTo, swap, whitelist, table, buf[..left], buf.Length)
  {
    ghost var rest := buf[..bufLen];
    left, table := TakeChunk(buf, bufLen, bytes, swap, t, whitelist);
    ghost var after := Parsed(table, buf[..left]);
    ChunkParsed(p, given, bytes, upTo, swap, whitelist, t, rest, buf.Length, after);
  }

  /** One read into the buffer, behind what was left over, and the records it completes. */
  method ReadNames<S, T(!new)>(fd: Reader<S, T>, buf: array<Byte>, bufLen: nat, swap: bool, t: Table,
                               whitelist: Option<seq<nat>>, ghost p: seq<Byte>)
    returns (left: nat, table: Table, short: bool, ghost upTo: nat)
    requires fd.Opened() && fd.Valid() && NAME_MAP_REGION in fd.enc && p == fd.Contents(NAME_MAP_REGION)
    requires (fd.given > 0 ==> fd.prevReg == NAME_MAP_REGION) && buf != fd.buf && bufLen < buf.Length
    requires ParsedUpTo(p, fd.given, swap, whitelist, t, buf[..bufLen], buf.Length)
    modifies fd, fd.buf, buf
    ensures fd.Valid() && left <= buf.Length && fd.prevReg == NAME_MAP_REGION
    ensures ParsedUpTo(p, upTo, swap, whitelist, table, buf[..left], buf.Length)
    ensures if short then fd.given == 0 && upTo == |p| && left < buf.Length else fd.given == upTo > old(fd.given)
  {
    ghost var given := fd.given;
    var bytes;
    bytes, short, upTo := ReadTable(fd, buf.Length - bufLen, p);
    left, table := TakeNextChunk(buf, bufLen, bytes, swap, t, whitelist, p, given, upTo);
  }

  lemma HasNameTable<S, T(!new)>(fd: Reader<S, T>)
    requires fd.Opened()
    ensures NAME_MAP_REGION in fd.enc <==> fd.log.header.nameMap.len != 0
  {
    if NAME_MAP_REGION in fd.enc {
      assert fd.Located(NAME_MAP_REGION);
    }
  }

  /** Reads the name table of a log; a log without one has no names. It does not end, asking for no
      bytes for ever with its buffer full, exactly if a record is larger than the buffer or what
      follows the last one fills it. */
  method GetNameHash<S, T(!new)>(fd: Reader<S, T>, swap: bool, whitelist: Option<seq<nat>>, size: nat)
    returns (ends: bool, table: Table, complete: bool)
    requires fd.Opened() && fd.Valid() && fd.given == 0
    modifies fd, fd.buf
    ensures ends <==> (NAME_MAP_REGION in fd.enc ==> Fits(fd.Contents(NAME_MAP_REGION), size))
    ensures fd.Valid() && (ends ==> fd.given == 0)
    ensures ends && NAME_MAP_REGION in fd.enc ==>
      var r := Parse(map[], fd.Contents(NAME_MAP_REGION), swap, whitelist);
      table == r.table && complete == (r.rest == [])
    ensures NAME_MAP_REGION !in fd.enc ==> table == map[] && complete
  {
    HasNameTable(fd);
    if fd.log.header.nameMap.len == 0 {
      return true, map[], true;
    }
    ends, table, complete := RefillNames(fd, swap, whitelist, size);
  }

  /** Reads the whole name table of a log: refills the buffer behind what was left over,
      until a read comes short. The table is that of the whole region, whatever the buffer
      size and the chunks; `complete` is the closing assertion that nothing is left over. */
  method RefillNames<S, T(!new)>(fd: Reader<S, T>, swap: bool, whitelist: Option<seq<nat>>, size: nat)
    returns (ends: bool, table: Table, complete: bool)
    requires fd.Opened() && fd.Valid() && NAME_MAP_REGION in fd.enc && fd.given == 0
    modifies fd, fd.buf
    ensures ends <==> Fits(fd.Contents(NAME_MAP_REGION), size)
    ensures fd.Valid() && (ends ==> fd.given == 0)
    ensures ends ==>
      var r := Parse(map[], fd.Contents(NAME_MAP_REGION), swap, whitelist);
      table == r.table && complete == (r.rest == [])
  {
    var nameRecBuf := new Byte[size](_ => 0);
    ghost var p, upTo := fd.Contents(NAME_MAP_REGION), 0;
    var bufLen: nat := 0;
    table := map[];
    var short := false;
    NothingParsed(p, swap, whitelist, size);
    assert nameRecBuf[..0] == [];
    while !short
      invariant fresh(nameRecBuf) && nameRecBuf.Length == size && nameRecBuf != fd.buf && bufLen <= size
      invariant fd.Valid() && (fd.given > 0 ==> fd.prevReg == NAME_MAP_REGION) && fd.given <= |p|
      invariant if short then fd.given == 0 && upTo == |p| && bufLen < size else fd.given == upTo
      invariant ParsedUpTo(p, upTo, swap, whitelist, table, nameRecBuf[..bufLen], size)
      decreases !short, |p| - fd.given
    {
      if bufLen == size {
        // the read would ask for no bytes, get none and not come short
        StuckIfFull(p, upTo, swap, whitelist, table, nameRecBuf[..bufLen], size);
        return false, table, false;
      }
      bufLen, table, short, upTo := ReadNames(fd, nameRecBuf, bufLen, swap, table, whitelist, p);
    }
    FitsAtTheEnd(p, swap, whitelist, table, nameRecBuf[..bufLen], size);
    ends, complete := true, bufLen == 0;
  }

  lemma NothingParsed(p: seq<Byte>, swap: bool, whitelist: Option<seq<nat>>, size: nat)
    ensures ParsedUpTo(p, 0, swap, whitelist, map[], [], size)
  {
    assert p[..0] == [] && [] + p[0..] == p;
  }
}
