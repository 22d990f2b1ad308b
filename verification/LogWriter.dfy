/** Writing a log: compressed bytes are staged in a fixed buffer, unloaded to the file
    when it is full, and flushed when a region ends. */
module LogWriter {
  import opened Codec
  import opened LogFile

  /** The compressor and the room left in the staging buffer. */
  datatype Fill<S> = Fill(strm: S, room: nat)

  /** Where compressing `input` leaves them: the buffer is renewed whenever more is to be
      compressed without room, and so it may be left full to the last byte. A compressor that makes
      no progress, as none does that keeps its promises, is left alone. */
  function Deflated<S, T>(c: Codec<S, T>, f: Fill<S>, input: seq<Byte>): Fill<S>
    decreases |input|, c.pending(f.strm)
  {
    if input == [] then f
    else
      var room := if f.room == 0 then COMP_BUF_SZ else f.room;
      var r := c.deflate(f.strm, input, room, false);
      if r.consumed > |input| || |r.emitted| > room || (r.consumed == 0 && c.pending(r.state) >= c.pending(f.strm)) then
        Fill(f.strm, room)
      else Deflated(c, Fill(r.state, room - |r.emitted|), input[r.consumed..])
  }

  /** The bytes of each region with more written behind those of one. */
  function Appended(m: map<int, seq<Byte>>, region: int, bytes: seq<Byte>): map<int, seq<Byte>> {
    m[region := (if region in m then m[region] else []) + bytes]
  }

  lemma AppendedNothing(m: map<int, seq<Byte>>, region: int)
    requires region in m
    ensures Appended(m, region, []) == m
  {
    assert m[region] + [] == m[region];
  }

  lemma AppendedTwice(m: map<int, seq<Byte>>, region: int, bytes: seq<Byte>)
    ensures Appended(Appended(m, region, []), region, bytes) == Appended(m, region, bytes)
  {
    var own := if region in m then m[region] else [];
    assert own + [] == own;
  }

  class Writer<S(!new), T> {
    const codec: Codec<S, T>
    const partialFlag: bv64
    const buf: array<Byte>
    var data: seq<Byte>
    var pos: nat
    var size: nat
    var availOut: nat
    var strm: S
    var prevReg: int
    var jobMap: LogMap
    var nameMap: LogMap
    var modMap: seq<LogMap>
    var err: bool
    // the bytes written to each region, the compressed bytes of the finished regions, the
    // file before the current region, and the compressed bytes of the current region
    ghost var written: map<int, seq<Byte>>
    ghost var encoded: map<int, seq<Byte>>
    ghost var before: seq<Byte>
    ghost var out: seq<Byte>

    function MapOf(r: int): LogMap
      requires IsRegion(r) && |modMap| == MAX_MODS
      reads this`jobMap, this`nameMap, this`modMap
    {
      if r == JOB_REGION then jobMap else if r == NAME_MAP_REGION then nameMap else modMap[r]
    }

    /** The staging buffer accounts for all its room; what was unloaded and what is staged
        continue the file with the region's compressed bytes, and its map covers the part
        unloaded. */
    ghost predicate Staging(r: int)
      reads this`size, this`availOut, this`pos, this`data, this`before, this`out, buf
      reads this`jobMap, this`nameMap, this`modMap
    {
      && IsRegion(r) && DeflateOk(codec)
      && buf.Length == COMP_BUF_SZ && size + availOut == COMP_BUF_SZ
      && |modMap| == MAX_MODS && pos == HEADER_SIZE + |data|
      && data + buf[..size] == before + out && |before| <= |data|
      && MapOf(r) == (if |data| == |before| then NO_MAP else LogMap(HEADER_SIZE + |before|, |data| - |before|))
    }

    /** The finished regions lie contiguously in increasing order below `r`, as their maps
        say, and no other region but `r` has a map. */
    ghost predicate Layout(r: int)
      reads this`before, this`encoded, this`jobMap, this`nameMap, this`modMap
    {
      && |modMap| == MAX_MODS
      && before == Below(encoded, r)
      && (forall k :: k in encoded ==> IsRegion(k) && k < r && encoded[k] != [])
      && (forall q :: IsRegion(q) && q != r ==> MapOf(q) == MapFor(encoded, q))
    }

    /** Each finished region encodes what was written to it. */
    ghost predicate Encoded()
      reads this`encoded, this`written
    {
      forall k :: k in encoded ==> k in written && codec.encodes(encoded[k], written[k])
    }

    ghost predicate Valid()
      reads this, buf
    {
      && Layout(prevReg) && Encoded()
      && written.Keys == encoded.Keys + (if prevReg == HEADER_REGION then {} else {prevReg})
      && if prevReg == HEADER_REGION then
           DeflateOk(codec) && buf.Length == availOut == COMP_BUF_SZ && size == 0 && data == [] && pos == HEADER_SIZE &&
             strm == codec.deflateInit
         else Staging(prevReg) && codec.running(strm, false, written[prevReg], out)
    }

    constructor (codec: Codec<S, T>, partialFlag: bv64)
      requires DeflateOk(codec)
      ensures Valid() && fresh(buf) && !err && written == map[] && prevReg == HEADER_REGION
      ensures this.codec == codec && this.partialFlag == partialFlag
    {
      this.codec, this.partialFlag := codec, partialFlag;
      buf := new Byte[COMP_BUF_SZ](_ => 0);
      data, pos, size, availOut := [], HEADER_SIZE, 0, COMP_BUF_SZ;
      strm, prevReg, err := codec.deflateInit, HEADER_REGION, false;
      jobMap, nameMap, modMap := NO_MAP, NO_MAP, seq(MAX_MODS, _ => NO_MAP);
      written, encoded, before, out := map[], map[], [], [];
    }

    method SetMap(r: int, m: LogMap)
      requires IsRegion(r) && |modMap| == MAX_MODS
      modifies this`jobMap, this`nameMap, this`modMap
      ensures |modMap| == MAX_MODS && MapOf(r) == m
      ensures forall q :: IsRegion(q) && q != r ==> MapOf(q) == old(MapOf(q))
    {
      if r == JOB_REGION {
        jobMap := m;
      } else if r == NAME_MAP_REGION {
        nameMap := m;
      } else {
        modMap := modMap[r := m];
      }
    }

    /** Unloads the staging buffer at the end of the file. */
    method DzUnload(r: int)
      requires Staging(r) && size > 0
      modifies this`data, this`pos, this`size, this`availOut, this`jobMap, this`nameMap, this`modMap
      ensures Staging(r) && size == 0
      ensures data == old(data) + buf[..old(size)]
      ensures forall q :: IsRegion(q) && q != r ==> MapOf(q) == old(MapOf(q))
    {
      var m := MapOf(r);
      if m.off == 0 {
        m := m.(off := pos);
      }
      data := data + buf[..size];
      pos := pos + size;
      m := m.(len := m.len + size);
      SetMap(r, m);
      size := 0;
      // the callers renew the room once the buffer is unloaded
      availOut := COMP_BUF_SZ;
    }

    /** Copies what the compressor gave behind the staged bytes. */
    method Stage(r: int, emitted: seq<Byte>)
      requires Staging(r) && |emitted| <= availOut
      modifies this`size, this`availOut, this`out, buf
      ensures Staging(r) && size == old(size) + |emitted| && out == old(out) + emitted
    {
      ghost var staged := buf[..size];
      forall k | 0 <= k < |emitted| {
        buf[size + k] := emitted[k];
      }
      size := size + |emitted|;
      availOut := availOut - |emitted|;
      out := out + emitted;
      assert buf[..size] == staged + emitted;
      assert data + (staged + emitted) == data + staged + emitted;
    }

    /** One finishing call, staged and unloaded. */
    method FlushStep(r: int, ghost finishing: bool, ghost plain: seq<Byte>) returns (status: Status)
      requires Staging(r) && codec.running(strm, finishing, plain, out)
      modifies this`data, this`pos, this`size, this`availOut, this`strm, this`jobMap, this`nameMap, this`modMap,
               this`out, buf
      ensures Staging(r)
      ensures forall q :: IsRegion(q) && q != r ==> MapOf(q) == old(MapOf(q))
      ensures status == BufError <==> old(availOut) == 0
      ensures status == BufError ==> data == old(data) && strm == old(strm) && out == old(out)
      ensures status != BufError ==> size == 0
      ensures status == StreamEnd ==> out != [] && codec.encodes(out, plain)
      ensures status == Ok ==> codec.running(strm, true, plain, out) && codec.pending(strm) < old(codec.pending(strm))
    {
      FinishCall(codec, strm, finishing, plain, out, availOut);
      var step := codec.deflate(strm, [], availOut, true);
      status := step.status;
      if status == BufError {
        return;
      }
      Stage(r, step.emitted);
      strm := step.state;
      if size > 0 {
        DzUnload(r);
      }
    }

    /** Ends the stream of the current region and unloads all of it. With no room left in
        the staging buffer the compressor reports an error at once and nothing changes. */
    method LibzFlush(r: int, ghost plain: seq<Byte>) returns (ok: bool)
      requires Staging(r) && codec.running(strm, false, plain, out)
      modifies this`data, this`pos, this`size, this`availOut, this`strm, this`jobMap, this`nameMap, this`modMap,
               this`out, buf
      ensures Staging(r)
      ensures forall q :: IsRegion(q) && q != r ==> MapOf(q) == old(MapOf(q))
      ensures ok == (old(availOut) > 0)
      ensures !ok ==> data == old(data) && strm == old(strm) && out == old(out)
      ensures ok ==> size == 0 && strm == codec.deflateInit && out != [] && codec.encodes(out, plain)
    {
      var status := FlushStep(r, false, plain);
      if status == BufError {
        return false;
      }
      while status != StreamEnd
        invariant Staging(r) && size == 0 && status != BufError
        invariant forall q :: IsRegion(q) && q != r ==> MapOf(q) == old(MapOf(q))
        invariant status == Ok ==> codec.running(strm, true, plain, out)
        invariant status == StreamEnd ==> out != [] && codec.encodes(out, plain)
        decreases status != StreamEnd, codec.pending(strm)
      {
        status := FlushStep(r, true, plain);
      }
      strm := codec.deflateInit;
      ok := true;
    }

    /** The compressor and the room left now. */
    ghost function Now(): Fill<S>
      reads this`strm, this`availOut
    {
      Fill(strm, availOut)
    }

    /** One compressing call on the rest of the input. */
    method DeflateStep(r: int, input: seq<Byte>, ghost plain: seq<Byte>) returns (consumed: nat)
      requires Staging(r) && input != [] && availOut > 0 && codec.running(strm, false, plain, out)
      modifies this`size, this`availOut, this`strm, this`out, buf
      ensures Staging(r) && consumed <= |input|
      ensures codec.running(strm, false, plain + input[..consumed], out)
      ensures consumed > 0 || codec.pending(strm) < old(codec.pending(strm))
      ensures Deflated(codec, Now(), input[consumed..]) == old(Deflated(codec, Now(), input))
    {
      DeflateCall(codec, strm, plain, out, input, availOut);
      var step := codec.deflate(strm, input, availOut, false);
      Stage(r, step.emitted);
      strm := step.state;
      consumed := step.consumed;
    }

    /** Unloads the staging buffer if no room is left. */
    method MakeRoom(r: int, ghost input: seq<Byte>)
      requires Staging(r) && input != []
      modifies this`data, this`pos, this`size, this`availOut, this`jobMap, this`nameMap, this`modMap
      ensures Staging(r) && availOut > 0 && Deflated(codec, Now(), input) == old(Deflated(codec, Now(), input))
      ensures forall q :: IsRegion(q) && q != r ==> MapOf(q) == old(MapOf(q))
    {
      if availOut == 0 {
        assert size == COMP_BUF_SZ;
        DzUnload(r);
      }
    }

    /** What of the input is compressed, and what the rest leads to. */
    ghost predicate Compressing(plain: seq<Byte>, bytes: seq<Byte>, i: nat, goal: Fill<S>)
      requires i <= |bytes|
      reads this`strm, this`availOut, this`out
    {
      codec.running(strm, false, plain + bytes[..i], out) && Deflated(codec, Now(), bytes[i..]) == goal
    }

    lemma Advanced(plain: seq<Byte>, bytes: seq<Byte>, i: nat, rest: seq<Byte>, n: nat, next: nat, goal: Fill<S>)
      requires i <= next == i + n <= |bytes| && rest == bytes[i..]
      requires codec.running(strm, false, plain + bytes[..i] + rest[..n], out)
      requires Deflated(codec, Now(), rest[n..]) == goal
      ensures Compressing(plain, bytes, next, goal)
    {
      assert plain + bytes[..i] + rest[..n] == plain + bytes[..next] && rest[n..] == bytes[next..];
    }

    method WriteStep(r: int, bytes: seq<Byte>, i: nat, ghost plain: seq<Byte>, ghost goal: Fill<S>) returns (next: nat)
      requires Staging(r) && i < |bytes| && Compressing(plain, bytes, i, goal)
      modifies this`data, this`pos, this`size, this`availOut, this`strm, this`jobMap, this`nameMap, this`modMap,
               this`out, buf
      ensures Staging(r) && i <= next <= |bytes| && Compressing(plain, bytes, next, goal)
      ensures next > i || codec.pending(strm) < old(codec.pending(strm))
      ensures forall q :: IsRegion(q) && q != r ==> MapOf(q) == old(MapOf(q))
    {
      var rest := bytes[i..];
      MakeRoom(r, rest);
      var consumed := DeflateStep(r, rest, plain + bytes[..i]);
      next := i + consumed;
      Advanced(plain, bytes, i, rest, consumed, next, goal);
    }

    /** Compresses all of `bytes` into the region. */
    method LibzWrite(r: int, bytes: seq<Byte>, ghost plain: seq<Byte>)
      requires Staging(r) && codec.running(strm, false, plain, out)
      modifies this`data, this`pos, this`size, this`availOut, this`strm, this`jobMap, this`nameMap, this`modMap,
               this`out, buf
      ensures Staging(r) && codec.running(strm, false, plain + bytes, out)
      ensures Now() == Deflated(codec, old(Now()), bytes)
      ensures forall q :: IsRegion(q) && q != r ==> MapOf(q) == old(MapOf(q))
    {
      var i := 0;
      assert plain + bytes[..0] == plain && bytes[0..] == bytes;
      ghost var goal := Deflated(codec, Now(), bytes);
      while i < |bytes|
        invariant 0 <= i <= |bytes|
        invariant Staging(r) && Compressing(plain, bytes, i, goal)
        invariant forall q :: IsRegion(q) && q != r ==> MapOf(q) == old(MapOf(q))
        decreases |bytes| - i, codec.pending(strm)
      {
        i := WriteStep(r, bytes, i, plain, goal);
      }
      assert bytes[..|bytes|] == bytes;
    }

    /** The flushed region joins the finished ones, below any higher region. */
    ghost method FinishCurrent(next: int)
      requires Layout(prevReg) && Staging(prevReg) && size == 0 && out != [] && next > prevReg
      modifies this`encoded, this`before
      ensures encoded == old(encoded)[prevReg := out] && before == data
      ensures Layout(next) && (IsRegion(next) ==> MapOf(next) == NO_MAP)
    {
      assert IsRegion(next) ==> MapOf(next) == NO_MAP;
      FinishRegion(encoded, prevReg, out, next);
      assert data == data + buf[..size];
      encoded, before := encoded[prevReg := out], data;
    }

    /** Between regions: everything is unloaded and the compressor is reset. */
    ghost predicate Between(next: int)
      reads this, buf
    {
      && Layout(next) && Encoded() && written.Keys == encoded.Keys
      && (IsRegion(next) ==> MapOf(next) == NO_MAP)
      && DeflateOk(codec) && buf.Length == availOut == COMP_BUF_SZ && size == 0
      && before == data && pos == HEADER_SIZE + |data| && strm == codec.deflateInit
    }

    /** Flushes the current region, if any. */
    method FinishRegionBefore(next: int)
      requires Valid() && !err && next > prevReg && next > HEADER_REGION
      modifies this, buf
      ensures prevReg == old(prevReg) && written == old(written)
      ensures err <==> prevReg != HEADER_REGION && old(availOut) == 0
      ensures !err ==> Between(next)
    {
      if prevReg == HEADER_REGION {
        BelowSkips(encoded, prevReg, next);
        return;
      }
      var ok := LibzFlush(prevReg, written[prevReg]);
      if ok {
        assert Layout(prevReg);
        FinishCurrent(next);
      } else {
        err := true;
      }
    }

    method StartRegion(region: int)
      requires Between(region) && IsRegion(region)
      modifies this`out, this`prevReg, this`written
      ensures Valid() && prevReg == region && written == old(written)[region := []]
    {
      out, prevReg := [], region;
      written := written[region := []];
    }

    method WriteCurrent(bytes: seq<Byte>)
      requires Valid() && prevReg != HEADER_REGION
      modifies this`data, this`pos, this`size, this`availOut, this`strm, this`jobMap, this`nameMap, this`modMap,
               this`out, this`written, buf
      ensures Valid() && written == Appended(old(written), prevReg, bytes)
      ensures Now() == Deflated(codec, old(Now()), bytes)
    {
      LibzWrite(prevReg, bytes, written[prevReg]);
      assert Layout(prevReg);
      written := written[prevReg := written[prevReg] + bytes];
    }

    lemma NotYetWritten(region: int)
      requires Valid() && region > prevReg
      ensures region !in written && Appended(written, region, []) == written[region := []]
    {
      var none: seq<Byte> := [];
      assert none + none == none;
    }

    method SwitchTo(region: int)
      requires Valid() && !err && IsRegion(region) && region > prevReg
      modifies this, buf
      ensures err == old(Refuses(region))
      ensures !err ==> Valid() && prevReg == region && written == Appended(old(written), region, [])
      ensures !err ==> Now() == Fill(codec.deflateInit, COMP_BUF_SZ)
    {
      NotYetWritten(region);
      FinishRegionBefore(region);
      if !err {
        StartRegion(region);
      }
    }

    /** The region precedes the current one, or the current one would have to be flushed with the
        staging buffer full to the last byte. */
    predicate Refuses(region: int)
      reads this`prevReg, this`availOut
    {
      region < prevReg || (region > prevReg != HEADER_REGION && availOut == 0)
    }

    /** The compressor and the room that a write to the region starts with. */
    ghost function FillFor(region: int): Fill<S>
      reads this`prevReg, this`strm, this`availOut
    {
      if region == prevReg then Now() else Fill(codec.deflateInit, COMP_BUF_SZ)
    }

    /** Makes a region the current one. */
    method MoveTo(region: int) returns (ok: bool)
      requires Valid() && !err && IsRegion(region)
      modifies this, buf
      ensures err == !ok == old(Refuses(region))
      ensures ok ==> Valid() && prevReg == region && Now() == old(FillFor(region))
      ensures ok ==> written == Appended(old(written), region, [])
    {
      if region < prevReg {
        err := true;
        return false;
      }
      if region != prevReg {
        SwitchTo(region);
      } else {
        AppendedNothing(written, region);
      }
      ok := !err;
    }

    /** Writes to a region: -1 when it precedes the current one, or when the current one
        cannot be flushed because the staging buffer is full to the last byte. */
    method DzWrite(region: int, bytes: seq<Byte>) returns (ret: int)
      requires Valid() && !err && IsRegion(region)
      modifies this, buf
      ensures ret == -1 <==> old(Refuses(region))
      ensures err == (ret == -1)
      ensures !err ==> ret == |bytes| && Valid() && prevReg == region
      ensures !err ==> written == Appended(old(written), region, bytes)
      ensures !err ==> Now() == Deflated(codec, old(FillFor(region)), bytes)
    {
      var ok := MoveTo(region);
      if !ok {
        return -1;
      }
      AppendedTwice(old(written), region, bytes);
      WriteCurrent(bytes);
      ret := |bytes|;
    }

    /** Closes the log: flushes the last region and stores the header. An earlier failure,
        or a staging buffer full to the last byte, leaves no log. */
    method Close() returns (log: Option<Log>)
      requires !err ==> Valid() && prevReg != HEADER_REGION
      modifies this, buf
      ensures log == None <==> old(err) || old(availOut) == 0
      ensures written == old(written)
      ensures log.Some? ==> LaidOut(log.value, encoded) && encoded.Keys == written.Keys
      ensures log.Some? ==> forall r :: r in encoded ==> codec.encodes(encoded[r], written[r])
      ensures log.Some? ==> log.value.header.partialFlag == partialFlag
    {
      if err {
        return None;
      }
      FinishRegionBefore(MAX_MODS);
      if err {
        return None;
      }
      log := Some(Log(Header(partialFlag, nameMap, modMap), data));
      forall m | 0 <= m < MAX_MODS ensures modMap[m] == MapFor(encoded, m) {
        assert MapOf(m) == modMap[m];
      }
      assert MapOf(NAME_MAP_REGION) == nameMap;
    }
  }
}
