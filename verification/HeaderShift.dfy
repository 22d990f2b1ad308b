/** Reading headers of older logs: modules added since then get their slots, and all that
    the header holds of the later modules moves up together. */
module HeaderShift {
  import opened LogFile

  const H5D_MOD := 4
  const PNETCDF_VAR_MOD := 6
  const OLD_MAX_MODS := 16

  /** The flag of module `m` in a word of module flags: its bit `m`. */
  predicate FlagIsSet(flags: bv64, m: nat)
    requires m < MAX_MODS
  {
    (flags >> m) & 1 == 1
  }

  /** What the header holds of one module. */
  datatype Module = Module(log: LogMap, ver: nat, partial: bool)

  const ABSENT := Module(NO_MAP, 0, false)

  /** The flag word with a clear bit inserted at the H5D slot. */
  function InsertH5D(flags: bv64): bv64 {
    (flags & ((1 << 4) - 1)) | (((flags << 1) >> 5) << 5)
  }

  function InsertPnetcdfVar(flags: bv64): bv64 {
    (flags & ((1 << 6) - 1)) | (((flags << 1) >> 7) << 7)
  }

  /** The bit of a module, with its id as a seven-bit shift amount. */
  predicate Bit(flags: bv64, m: bv7)
    requires m < 64
  {
    (flags >> m) & 1 == 1
  }

  lemma Narrow(m: nat)
    requires m < MAX_MODS
    ensures m as bv7 < 64
  {
  }

  lemma NarrowPredecessor(m: nat)
    requires 0 < m < MAX_MODS
    ensures (m - 1) as bv7 == (m as bv7) - 1
  {
    WidenPredecessor(m as bv7);
  }

  lemma WidenPredecessor(b: bv7)
    requires 0 < b < 64
    ensures (b - 1) as nat == b as nat - 1
  {
  }

  lemma ComparesAs(m: nat, slot: nat)
    requires m < MAX_MODS && (slot == H5D_MOD || slot == PNETCDF_VAR_MOD)
    ensures (m < slot <==> m as bv7 < slot as bv7) && (m == slot <==> m as bv7 == slot as bv7)
  {
  }

  lemma BitsFollowH5D(flags: bv64, m: bv7)
    requires m < 64
    ensures Bit(InsertH5D(flags), m) == (if m < 4 then Bit(flags, m) else m > 4 && Bit(flags, m - 1))
  {
  }

  lemma BitsFollowPnetcdfVar(flags: bv64, m: bv7)
    requires m < 64
    ensures Bit(InsertPnetcdfVar(flags), m) == (if m < 6 then Bit(flags, m) else m > 6 && Bit(flags, m - 1))
  {
  }

  /** Every flag above the slot follows its module, for every flag word. */
  lemma FlagsFollow(flags: bv64, m: nat)
    requires m < MAX_MODS
    ensures FlagIsSet(InsertH5D(flags), m) ==
      (if m < H5D_MOD then FlagIsSet(flags, m) else m > H5D_MOD && FlagIsSet(flags, m - 1))
    ensures FlagIsSet(InsertPnetcdfVar(flags), m) ==
      (if m < PNETCDF_VAR_MOD then FlagIsSet(flags, m) else m > PNETCDF_VAR_MOD && FlagIsSet(flags, m - 1))
  {
    Narrow(m);
    ComparesAs(m, H5D_MOD);
    ComparesAs(m, PNETCDF_VAR_MOD);
    BitsFollowH5D(flags, m as bv7);
    BitsFollowPnetcdfVar(flags, m as bv7);
    if m > 0 {
      NarrowPredecessor(m);
    }
  }

  /** One entry for each module, with a slot put in. */
  function MovedUp<T>(from: seq<T>, slot: nat, empty: T): (to: seq<T>)
    requires |from| == MAX_MODS && slot < MAX_MODS
    ensures |to| == MAX_MODS
    ensures forall m {:trigger to[m]} :: 0 <= m < MAX_MODS ==>
      to[m] == if m < slot then from[m] else if m == slot then empty else from[m - 1]
  {
    from[..slot] + [empty] + from[slot..MAX_MODS - 1]
  }

  /** The flags of all modules. */
  function Flags(flags: bv64): (fs: seq<bool>)
    ensures |fs| == MAX_MODS && forall m :: 0 <= m < MAX_MODS ==> fs[m] == FlagIsSet(flags, m)
  {
    seq(MAX_MODS, m requires 0 <= m < MAX_MODS => FlagIsSet(flags, m))
  }

  /** The flag word with a clear bit inserted at a slot. */
  function InsertFlag(flags: bv64, slot: nat): bv64
    requires slot == H5D_MOD || slot == PNETCDF_VAR_MOD
  {
    if slot == H5D_MOD then InsertH5D(flags) else InsertPnetcdfVar(flags)
  }

  lemma FlagsMoveUp(flags: bv64, slot: nat)
    requires slot == H5D_MOD || slot == PNETCDF_VAR_MOD
    ensures Flags(InsertFlag(flags, slot)) == MovedUp(Flags(flags), slot, false)
  {
    forall m | 0 <= m < MAX_MODS ensures Flags(InsertFlag(flags, slot))[m] == MovedUp(Flags(flags), slot, false)[m] {
      FlagMoves(flags, slot, m);
    }
  }

  lemma FlagMoves(flags: bv64, slot: nat, m: nat)
    requires (slot == H5D_MOD || slot == PNETCDF_VAR_MOD) && m < MAX_MODS
    ensures FlagIsSet(InsertFlag(flags, slot), m) ==
      (if m < slot then FlagIsSet(flags, m) else m > slot && FlagIsSet(flags, m - 1))
  {
    FlagsFollow(flags, m);
  }

  /** The modules with these maps, versions and flags. */
  function RowOf(maps: seq<LogMap>, vers: seq<nat>, flags: seq<bool>): (ms: seq<Module>)
    requires |maps| == |vers| == |flags| == MAX_MODS
    ensures |ms| == MAX_MODS
    ensures forall m :: 0 <= m < MAX_MODS ==> ms[m] == Module(maps[m], vers[m], flags[m])
  {
    seq(MAX_MODS, m requires 0 <= m < MAX_MODS => Module(maps[m], vers[m], flags[m]))
  }

  /** Everything of a module moves together. */
  lemma RowMovesUp(maps: seq<LogMap>, vers: seq<nat>, flags: seq<bool>, slot: nat)
    requires |maps| == |vers| == |flags| == MAX_MODS && slot < MAX_MODS
    ensures RowOf(MovedUp(maps, slot, NO_MAP), MovedUp(vers, slot, 0), MovedUp(flags, slot, false)) ==
      MovedUp(RowOf(maps, vers, flags), slot, ABSENT)
  {
  }

  /** The part of an open log's state that the header fills in. */
  class ModuleTable {
    const modMap: array<LogMap>
    const modVer: array<nat>
    var partialFlag: bv64

    ghost predicate Valid()
      reads this
    {
      modMap.Length == modVer.Length == MAX_MODS && modMap as object != modVer
    }

    function At(m: nat): Module
      requires Valid() && m < MAX_MODS
      reads this, modMap, modVer
    {
      Module(modMap[m], modVer[m], FlagIsSet(partialFlag, m))
    }

    /** What the header holds of all modules. */
    ghost function Row(): (ms: seq<Module>)
      requires Valid()
      reads this, modMap, modVer
      ensures |ms| == MAX_MODS
    {
      RowOf(modMap[..], modVer[..], Flags(partialFlag))
    }

    constructor (maps: seq<LogMap>, vers: seq<nat>, flags: bv64)
      requires |maps| == |vers| == MAX_MODS
      ensures Valid() && fresh(modMap) && fresh(modVer)
      ensures forall m :: 0 <= m < MAX_MODS ==> At(m) == Module(maps[m], vers[m], FlagIsSet(flags, m))
    {
      modMap := new LogMap[MAX_MODS](i requires 0 <= i < MAX_MODS => maps[i]);
      modVer := new nat[MAX_MODS](i requires 0 <= i < MAX_MODS => vers[i]);
      partialFlag := flags;
    }

    /** Moves the maps and the versions from a slot on up by one and clears the slot. */
    method MoveUp(slot: nat)
      requires Valid() && slot < MAX_MODS
      modifies modMap, modVer
      ensures modMap[..] == MovedUp(old(modMap[..]), slot, NO_MAP) && modVer[..] == MovedUp(old(modVer[..]), slot, 0)
    {
      forall m | slot < m < MAX_MODS {
        modMap[m] := modMap[m - 1];
      }
      forall m | slot < m < MAX_MODS {
        modVer[m] := modVer[m - 1];
      }
      modMap[slot] := NO_MAP;
      modVer[slot] := 0;
    }

    /** Below the new slot nothing changes, the slot is empty, and everything above it is
        what the module one below it was. */
    method InsertSlot(slot: nat)
      requires Valid() && (slot == H5D_MOD || slot == PNETCDF_VAR_MOD)
      modifies this, modMap, modVer
      ensures Valid() && Row() == MovedUp(old(Row()), slot, ABSENT)
    {
      MoveUp(slot);
      var before := partialFlag;
      partialFlag := if slot == H5D_MOD then InsertH5D(before) else InsertPnetcdfVar(before);
      FlagsMoveUp(before, slot);
      RowMovesUp(old(modMap[..]), old(modVer[..]), Flags(before), slot);
    }

    /** Adjusts a header of format version `maj.min`. */
    method UpConvert(maj: int, min: int)
      requires Valid()
      modifies this, modMap, modVer
      ensures Valid() && Row() == Converted(old(Row()), maj, min)
    {
      ghost var was := Row();
      if maj == 3 && min < 20 {
        InsertSlot(H5D_MOD);
      }
      if maj == 3 && min < 41 {
        InsertSlot(PNETCDF_VAR_MOD);
      }
      ShiftsCompose(was, maj, min);
    }
  }

  /** The slot that a module of today had in a header of version `maj.min`, if any. */
  function OldIndex(maj: int, min: int, m: nat): (k: Option<nat>)
    ensures k.Some? ==> k.value <= m
  {
    if maj != 3 || min >= 41 then Some(m)
    else if m == PNETCDF_VAR_MOD then None
    else
      var k := if m > PNETCDF_VAR_MOD then m - 1 else m;
      if min >= 20 then Some(k)
      else if k == H5D_MOD then None
      else Some(if k > H5D_MOD then k - 1 else k)
  }

  /** In numbers: two modules were added at 4 and 6, the first with minor version 20, the second
      with 41. */
  lemma OldIndexInNumbers(maj: int, min: int, m: nat)
    ensures OldIndex(maj, min, m) ==
      if maj == 3 && min < 20 then
        if m < 4 then Some(m) else if m == 5 then Some(4) else if m > 6 then Some(m - 2) else None
      else if maj == 3 && min < 41 then
        if m < 6 then Some(m) else if m > 6 then Some(m - 1) else None
      else Some(m)
  {
  }

  /** The modules of today, from what a header of version `maj.min` holds. */
  function Converted(ms: seq<Module>, maj: int, min: int): (r: seq<Module>)
    requires |ms| == MAX_MODS
    ensures |r| == MAX_MODS
  {
    seq(MAX_MODS, m requires 0 <= m < MAX_MODS =>
      match OldIndex(maj, min, m) case Some(k) => ms[k] case None => ABSENT)
  }

  /** Both shifts together. */
  lemma ShiftsCompose(ms: seq<Module>, maj: int, min: int)
    requires |ms| == MAX_MODS
    ensures var first := if maj == 3 && min < 20 then MovedUp(ms, H5D_MOD, ABSENT) else ms;
      Converted(ms, maj, min) == if maj == 3 && min < 41 then MovedUp(first, PNETCDF_VAR_MOD, ABSENT) else first
  {
    if maj == 3 && min < 20 {
      TwoInserted(ms, maj, min);
    } else if maj == 3 && min < 41 {
      OneInserted(ms, maj, min);
    }
  }

  lemma TwoInserted(ms: seq<Module>, maj: int, min: int)
    requires |ms| == MAX_MODS && maj == 3 && min < 20
    ensures Converted(ms, maj, min) == MovedUp(MovedUp(ms, H5D_MOD, ABSENT), PNETCDF_VAR_MOD, ABSENT)
  {
    var first := MovedUp(ms, H5D_MOD, ABSENT);
    forall m | 0 <= m < MAX_MODS ensures Converted(ms, maj, min)[m] == MovedUp(first, PNETCDF_VAR_MOD, ABSENT)[m] {
      var k := if m > PNETCDF_VAR_MOD then m - 1 else m;
      assert m != PNETCDF_VAR_MOD ==> MovedUp(first, PNETCDF_VAR_MOD, ABSENT)[m] == first[k];
    }
  }

  lemma OneInserted(ms: seq<Module>, maj: int, min: int)
    requires |ms| == MAX_MODS && maj == 3 && 20 <= min < 41
    ensures Converted(ms, maj, min) == MovedUp(ms, PNETCDF_VAR_MOD, ABSENT)
  {
  }

  /** No module of an older header is lost or doubled: each has one slot today. */
  lemma EveryOldModuleHasOneSlot(maj: int, min: int, k: nat) returns (m: nat)
    requires k < OLD_MAX_MODS
    ensures m < MAX_MODS && OldIndex(maj, min, m) == Some(k)
    ensures forall n: nat :: OldIndex(maj, min, n) == Some(k) ==> n == m
  {
    m := k;
    if maj == 3 && min < 20 && m >= H5D_MOD {
      m := m + 1;
    }
    if maj == 3 && min < 41 && m >= PNETCDF_VAR_MOD {
      m := m + 1;
    }
  }
}
