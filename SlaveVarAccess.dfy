// C/Slave/Src/VarAccess.c: access to the variable table by variable number,
// the reload and save of EEPROM variables through the user's callbacks, the
// partition table lookup, and the start-up pass that builds the table. The
// bodies of these functions are the same in Src/VarAccess.c, whose own
// start-up pass and pointer getter are in MidVarAccess.
module SlaveVarAccess {
  import opened Base
  import opened Protocol
  import opened Bits
  import opened VarStore

  /**
   * `GetEEPROMAddress`: scans the partition table for the first entry whose
   * index is `num - 1`.
   */
  method GetEEPROMAddress(va: VarAccess, num: int) returns (a: uint16)
    requires va.Valid()
    ensures a == Lookup(va.table, num)
  {
    a := EEPROM_ADDRESS_ILLEGAL;
    var k := 0;
    while k < MAX_NUMBER_OF_EEPROM_VARS
      invariant 0 <= k <= MAX_NUMBER_OF_EEPROM_VARS
      invariant Lookup(va.table, num) == LookupFrom(va.table, num, k)
    {
      if num - 1 == va.table[k].idx {
        a := va.table[k].address;
        return;
      }
      k := k + 1;
    }
  }

  /** `ReadValFromVarStruct`: the bit pattern of variable `num`, or `VarNumberInvalid`. */
  method ReadValFromVarStruct(va: VarAccess, num: int) returns (err: SciError, val: Option<uint32>)
    requires va.Valid()
    ensures (err, val) == ValueOf(va.vars, va.vals, num)
  {
    if 0 < num <= |va.vars| {
      return NoError, Some(va.vals[num - 1]);
    }
    return VarNumberInvalid, None;
  }

  /** `WriteValToVarStruct`: stores the low bytes of `v` in variable `num`. */
  method WriteValToVarStruct(va: VarAccess, num: int, v: uint32) returns (err: SciError)
    requires va.Valid()
    modifies va
    ensures va.Valid() && va.table == old(va.table)
    ensures (err, va.vals) == Assigned(va.vars, old(va.vals), num, v)
  {
    if 0 < num <= |va.vars| {
      va.vals := va.vals[num - 1 := Narrow(v, va.vars[num - 1].dtype)];
      return NoError;
    }
    return VarNumberInvalid;
  }

  /**
   * `ReadEEPROMValueIntoVarStruct`: for an EEPROM variable with a read
   * callback, reads its words from the address the table gives it, assembles
   * them and stores the variable's width of the result.
   */
  method ReadEEPROMValueIntoVarStruct(va: VarAccess, num: int) returns (err: SciError)
    requires va.Valid() && ValidNum(va.vars, num)
    modifies va
    ensures va.Valid() && va.table == old(va.table)
    ensures (err, va.vals) == Reload(va.vars, old(va.vals), num - 1, Lookup(va.table, num),
                                     va.ee.mem, va.ee.readFails, va.at, va.hasReadCb)
  {
    var v := va.vars[num - 1];
    if v.vartype == Eeprom && va.hasReadCb {
      var addr := GetEEPROMAddress(va, num);
      if addr == EEPROM_ADDRESS_ILLEGAL {
        return AddressUnknown;
      }
      err := LoadFrom(va, num - 1, addr);
      return;
    }
    return NoError;
  }

  /**
   * The words of EEPROM variable `j` read from `addr` on and assembled; on
   * success its width of the result is stored in the variable.
   */
  method LoadFrom(va: VarAccess, j: nat, addr: uint16) returns (err: SciError)
    requires va.Valid() && j < |va.vars| && va.vars[j].vartype == Eeprom && va.hasReadCb
    requires addr != EEPROM_ADDRESS_ILLEGAL
    modifies va
    ensures va.Valid() && va.table == old(va.table)
    ensures (err, va.vals) == Reload(va.vars, old(va.vals), j, addr, va.ee.mem, va.ee.readFails, va.at, va.hasReadCb)
  {
    var d := va.vars[j].dtype;
    var incs := Incs(d, va.at);
    var ok, acc := ReadWords(va.ee, addr, incs, va.at);
    if !ok {
      return ReadoutFailed;
    }
    var x := Narrow(acc, d);
    FitsAfterSet(va.vars, va.vals, j, x);
    va.vals := va.vals[j := x];
    return NoError;
  }

  /**
   * `WriteEEPROMwithValueFromVarStruct`: for an EEPROM variable with a write
   * callback, splits its value into words and writes them, highest first,
   * at the address the table gives it.
   */
  method WriteEEPROMwithValueFromVarStruct(va: VarAccess, num: int) returns (err: SciError)
    requires va.Valid() && ValidNum(va.vars, num)
    modifies va.ee
    ensures va.ee.readFails == old(va.ee.readFails) && va.ee.writeFails == old(va.ee.writeFails)
    ensures (err, va.ee.mem) == Save(va.vars, va.vals, num - 1, Lookup(va.table, num),
                                     old(va.ee.mem), va.ee.writeFails, va.at, va.hasWriteCb)
  {
    var v := va.vars[num - 1];
    if v.vartype == Eeprom && va.hasWriteCb {
      var addr := GetEEPROMAddress(va, num);
      if addr == EEPROM_ADDRESS_ILLEGAL {
        return AddressUnknown;
      }
      var value := va.vals[num - 1];
      var incs := Incs(v.dtype, va.at);
      var mask := MakeMask(va.at);
      var ok := WriteWords(va.ee, addr, value, incs, va.at, mask);
      if !ok {
        return WriteFailed;
      }
    }
    return NoError;
  }

  /**
   * The body of the start-up loop for EEPROM variable `i` when the table has
   * room: enters it with the next free address, reloads it, and returns the
   * reload's status and the address after its words.
   */
  method EnterEepromVar(va: VarAccess, i: nat, eeIdx: nat, addr: uint16) returns (err: SciError, next: uint16)
    requires va.Valid() && i < |va.vars| && eeIdx < MAX_NUMBER_OF_EEPROM_VARS
    modifies va
    ensures va.Valid() && va.table == old(va.table)[eeIdx := Slot(i, addr)]
    ensures (err, va.vals) == Reload(va.vars, old(va.vals), i, Lookup(va.table, i + 1),
                                     va.ee.mem, va.ee.readFails, va.at, va.hasReadCb)
    ensures next == WordAddress(addr, Incs(va.vars[i].dtype, va.at))
  {
    va.table := va.table[eeIdx := Slot(i, addr)];
    err := ReadEEPROMValueIntoVarStruct(va, i + 1);
    next := WordAddress(addr, Incs(va.vars[i].dtype, va.at));
  }

  /**
   * One round of the start-up loop, for variable `i`, in the state `InitUpTo`
   * describes after the first `i` variables: a non-EEPROM variable is passed
   * over, an EEPROM variable that finds the table full stops the loop, and any
   * other EEPROM variable is entered and reloaded; with `stopOnError` a failed
   * reload stops the loop too. `stop` says the loop returns after this round.
   */
  method InitRound(va: VarAccess, i: nat, eeIdx: nat, addr: uint16, err: SciError, stopOnError: bool,
                   ghost vals0: seq<uint32>, ghost table0: seq<Slot>)
    returns (eeIdx': nat, addr': uint16, err': SciError, stop: bool)
    requires va.Valid() && i < |va.vars| == |vals0| && |table0| == MAX_NUMBER_OF_EEPROM_VARS
    requires InitUpTo(va.vars, vals0, table0, va.ee.mem, va.ee.readFails, va.at, va.hasReadCb, stopOnError, i)
             == InitState(va.table, va.vals, eeIdx, addr, err, false)
    modifies va
    ensures va.Valid()
    ensures InitUpTo(va.vars, vals0, table0, va.ee.mem, va.ee.readFails, va.at, va.hasReadCb, stopOnError, i + 1)
            == InitState(va.table, va.vals, eeIdx', addr', err', stop)
  {
    var v := va.vars[i];
    if v.vartype != Eeprom {
      InitSkips(va.vars, vals0, table0, va.ee.mem, va.ee.readFails, va.at, va.hasReadCb, stopOnError, i);
      return eeIdx, addr, err, false;
    }
    if eeIdx == MAX_NUMBER_OF_EEPROM_VARS {
      return eeIdx, addr, PartitionTableNotSufficient, true;
    }
    ghost var t := va.table[eeIdx := Slot(i, addr)];
    var next;
    err', next := EnterEepromVar(va, i, eeIdx, addr);
    InitEnters(va.vars, vals0, table0, va.ee.mem, va.ee.readFails, va.at, va.hasReadCb, stopOnError, i, t, (err', va.vals));
    eeIdx' := eeIdx + 1;
    if stopOnError && err' != NoError {
      return eeIdx', addr, err', true;
    }
    return eeIdx', next, err', false;
  }

  /**
   * `InitVarstruct`: gives every EEPROM variable, in order, the next table
   * entry and the next free EEPROM address and reloads it; a failed reload
   * does not stop the pass, and the status returned is that of the last
   * reload, or `PartitionTableNotSufficient` when the table is full.
   */
  method InitVarstruct(va: VarAccess) returns (err: SciError)
    requires va.Valid()
    modifies va
    ensures va.Valid()
    ensures var s := InitUpTo(va.vars, old(va.vals), old(va.table), va.ee.mem, va.ee.readFails,
                              va.at, va.hasReadCb, false, |va.vars|);
            err == s.err && va.table == s.table && va.vals == s.vals
  {
    var addr: uint16 := ADDRESS_OFFSET;
    var eeIdx := 0;
    err := NoError;
    var i := 0;
    while i < |va.vars|
      invariant 0 <= i <= |va.vars| && va.Valid()
      invariant InitUpTo(va.vars, old(va.vals), old(va.table), va.ee.mem, va.ee.readFails,
                         va.at, va.hasReadCb, false, i)
             == InitState(va.table, va.vals, eeIdx, addr, err, false)
    {
      var stop;
      eeIdx, addr, err, stop := InitRound(va, i, eeIdx, addr, err, false, old(va.vals), old(va.table));
      if stop {
        InitStopped(va.vars, old(va.vals), old(va.table), va.ee.mem, va.ee.readFails,
                    va.at, va.hasReadCb, false, i + 1, |va.vars|);
        return;
      }
      i := i + 1;
    }
  }

  /**
   * `GetVar` as written: its guard `num > 0 && num` has no upper bound, so a
   * number past the table is accepted and the descriptor is read out of
   * bounds (`None` here).
   */
  function GetVarAsWritten(va: VarAccess, num: int): (r: (SciError, Option<Var>))
    ensures r.0 == NoError <==> num > 0
    ensures r.1.Some? ==> ValidNum(va.vars, num) && r.1.value == va.vars[num - 1]
  {
    if num > 0 then (NoError, if num <= |va.vars| then Some(va.vars[num - 1]) else None)
    else (VarNumberInvalid, None)
  }

  /** The number one past the table passes the guard as written. */
  lemma GetVarAcceptsPastEnd(va: VarAccess)
    ensures GetVarAsWritten(va, |va.vars| + 1).0 == NoError
    ensures !ValidNum(va.vars, |va.vars| + 1)
  {
  }

  /** `GetVar` with the bound the other accessors check: succeeds exactly for a valid number. */
  function GetVar(va: VarAccess, num: int): (r: (SciError, Option<Var>))
    ensures r.0 == NoError <==> ValidNum(va.vars, num)
    ensures r.0 == NoError ==> r.1 == Some(va.vars[num - 1])
    ensures r.0 != NoError ==> r.0 == VarNumberInvalid && r.1 == None
  {
    if 0 < num <= |va.vars| then (NoError, Some(va.vars[num - 1])) else (VarNumberInvalid, None)
  }

  /** The corrected getter agrees with the one as written wherever that one stays in bounds. */
  lemma GetVarAgrees(va: VarAccess, num: int)
    ensures num <= |va.vars| ==> GetVar(va, num) == GetVarAsWritten(va, num)
  {
  }
}
