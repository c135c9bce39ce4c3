// VarAccess.c, the first C generation: the same variable table and EEPROM
// layout as the later ones, with `bool` results instead of error codes. Three
// places in it do not do what the surrounding code evidently means; each is
// modelled as written (`...AsWritten`, with a lemma exhibiting the
// difference) and corrected, and the methods here use the corrected forms.
module OldVarAccess {
  import opened Base
  import opened Protocol
  import opened Bits
  import opened VarStore
  import SlaveVarAccess

  // ---------------------------------------------------------------------------
  // Reading and assigning by number.

  /**
   * `readValFromVarStruct` as written: `b_success` is set only on the valid
   * path, so for an invalid number the result is whatever the stack held
   * (`indeterminate`).
   */
  function ReadValAsWritten(vars: seq<Var>, vals: seq<uint32>, num: int, indeterminate: bool): (r: (bool, Option<uint32>))
    requires |vals| == |vars|
    ensures ValidNum(vars, num) ==> r == (true, Some(vals[num - 1]))
    ensures !ValidNum(vars, num) ==> r == (indeterminate, None)
  {
    if ValidNum(vars, num) then (true, Some(vals[num - 1])) else (indeterminate, None)
  }

  /** An invalid number can be reported as read, with no value behind it. */
  lemma ReadValAsWrittenInvalid(vars: seq<Var>, vals: seq<uint32>)
    requires |vals| == |vars|
    ensures ReadValAsWritten(vars, vals, 0, true).0 && ReadValAsWritten(vars, vals, 0, true).1 == None
  {
  }

  /** `readValFromVarStruct` with `b_success` starting false: succeeds exactly for a valid number. */
  method readValFromVarStruct(va: VarAccess, num: int) returns (ok: bool, val: Option<uint32>)
    requires va.Valid()
    ensures ok == ValidNum(va.vars, num)
    ensures val == ValueOf(va.vars, va.vals, num).1
  {
    ok := false;
    val := None;
    if 0 < num <= |va.vars| {
      val := Some(va.vals[num - 1]);
      ok := true;
    }
  }

  /**
   * `writeValToVarStruct` as written: the RAM image after the call and a
   * result that is indeterminate for an invalid number.
   */
  function WriteValAsWritten(vars: seq<Var>, vals: seq<uint32>, num: int, v: uint32, indeterminate: bool): (r: (bool, seq<uint32>))
    requires |vals| == |vars|
    ensures ValidNum(vars, num) ==> r.0
    ensures !ValidNum(vars, num) ==> r == (indeterminate, vals)
    ensures r.1 == Assigned(vars, vals, num, v).1
  {
    (if ValidNum(vars, num) then true else indeterminate, Assigned(vars, vals, num, v).1)
  }

  /** An invalid number can be reported as written while nothing changes. */
  lemma WriteValAsWrittenInvalid(vars: seq<Var>, vals: seq<uint32>, v: uint32)
    requires |vals| == |vars|
    ensures WriteValAsWritten(vars, vals, 0, v, true) == (true, vals)
  {
  }

  /** `writeValToVarStruct` with `b_success` starting false. */
  method writeValToVarStruct(va: VarAccess, num: int, v: uint32) returns (ok: bool)
    requires va.Valid()
    modifies va
    ensures va.Valid() && va.table == old(va.table)
    ensures ok == ValidNum(va.vars, num)
    ensures va.vals == Assigned(va.vars, old(va.vals), num, v).1
  {
    ok := false;
    if 0 < num <= |va.vars| {
      va.vals := va.vals[num - 1 := Narrow(v, va.vars[num - 1].dtype)];
      ok := true;
    }
  }

  // ---------------------------------------------------------------------------
  // The partition table lookup.

  /**
   * `getEEPROMAdress` as written: the `break` after the unbraced `if` is
   * unconditional, so only entry 0 is ever compared.
   */
  function LookupAsWritten(table: seq<Slot>, num: int): (a: uint16)
    requires |table| == MAX_NUMBER_OF_EEPROM_VARS
    ensures a != EEPROM_ADDRESS_ILLEGAL ==> table[0].idx == num - 1
  {
    if table[0].idx == num - 1 then table[0].address else EEPROM_ADDRESS_ILLEGAL
  }

  /** The loop of `getEEPROMAdress` as written. */
  method getEEPROMAdressAsWritten(va: VarAccess, num: int) returns (a: uint16)
    requires va.Valid()
    ensures a == LookupAsWritten(va.table, num)
  {
    a := EEPROM_ADDRESS_ILLEGAL;
    var k := 0;
    var done := false;
    while k < MAX_NUMBER_OF_EEPROM_VARS && !done
      invariant k == 0 && (done ==> a == LookupAsWritten(va.table, num))
      invariant !done ==> a == EEPROM_ADDRESS_ILLEGAL
      decreases if done then 0 else 1
    {
      if num - 1 == va.table[k].idx {
        a := va.table[k].address;
      }
      done := true; // the `break` that follows the `if` unconditionally
    }
  }

  /** The table the start-up pass builds for two one-byte EEPROM variables. */
  function TwoVarTable(): (t: seq<Slot>)
    ensures |t| == MAX_NUMBER_OF_EEPROM_VARS
  {
    [Slot(0, 0), Slot(1, 1)] + seq(MAX_NUMBER_OF_EEPROM_VARS - 2, _ => SLOT_DEFAULT)
  }

  /** The second EEPROM variable is in the table, but the lookup as written does not find it. */
  lemma LookupAsWrittenMisses()
    ensures Lookup(TwoVarTable(), 2) == 1
    ensures LookupAsWritten(TwoVarTable(), 2) == EEPROM_ADDRESS_ILLEGAL
  {
    var t := TwoVarTable();
    assert t[0] == Slot(0, 0) && t[1] == Slot(1, 1);
    assert LookupFrom(t, 2, 1) == 1;
  }

  /** Where entry 0 decides, the two lookups agree. */
  lemma LookupAsWrittenAgrees(table: seq<Slot>, num: int)
    requires |table| == MAX_NUMBER_OF_EEPROM_VARS && table[0].idx == num - 1
    ensures LookupAsWritten(table, num) == Lookup(table, num)
  {
  }

  // ---------------------------------------------------------------------------
  // The unknown-address guard.

  /**
   * `~(ui16_eepromAddress == EEEPROM_ADDRESS_ILLEGAL)`: the comparison is the
   * `int` 0 or 1, and `~` makes it -1 or -2.
   */
  function GuardAsWritten(addr: uint16): (g: int)
    ensures g == -1 || g == -2
  {
    -(if addr == EEPROM_ADDRESS_ILLEGAL then 1 else 0) - 1
  }

  /** The guard as written never stops the function: it is non-zero for every address. */
  lemma GuardAsWrittenAlwaysPasses(addr: uint16)
    ensures GuardAsWritten(addr) != 0
    ensures GuardAsWritten(EEPROM_ADDRESS_ILLEGAL) != 0
  {
  }

  // ---------------------------------------------------------------------------
  // Reload and save with `bool` results.

  /**
   * `readEEPROMValueIntoVarStruct` as written, for variable `j`: the lookup
   * sees entry 0 only and an unknown address does not stop the reads, which
   * then start at `EEEPROM_ADDRESS_ILLEGAL`.
   */
  function ReloadAsWritten(vars: seq<Var>, vals: seq<uint32>, j: nat, table: seq<Slot>, mem: map<uint16, uint32>,
                           fails: set<uint16>, at: nat, hasCb: bool): (r: (bool, seq<uint32>))
    requires j < |vars| == |vals| && |table| == MAX_NUMBER_OF_EEPROM_VARS && AddressType(at)
    ensures !r.0 ==> r.1 == vals
  {
    var v := vars[j];
    var addr := LookupAsWritten(table, j + 1);
    if v.vartype != Eeprom || !hasCb then (false, vals)
    else if GuardAsWritten(addr) == 0 then (false, vals)
    else if !Clear(fails, addr, Incs(v.dtype, at)) then (false, vals)
    else (true, vals[j := Loaded(mem, addr, v.dtype, at)])
  }

  /**
   * `readEEPROMValueIntoVarStruct` with the lookup of the later generations
   * and `!` for `~`: `true` exactly when an EEPROM variable with a read
   * callback is reloaded.
   */
  function OldReload(vars: seq<Var>, vals: seq<uint32>, j: nat, table: seq<Slot>, mem: map<uint16, uint32>,
                     fails: set<uint16>, at: nat, hasCb: bool): (r: (bool, seq<uint32>))
    requires j < |vars| == |vals| && AddressType(at)
    ensures r.0 ==> vars[j].vartype == Eeprom && hasCb && Lookup(table, j + 1) != EEPROM_ADDRESS_ILLEGAL
  {
    var e := Reload(vars, vals, j, Lookup(table, j + 1), mem, fails, at, hasCb);
    (vars[j].vartype == Eeprom && hasCb && e.0 == NoError, e.1)
  }

  /**
   * Two one-byte EEPROM variables laid out from address 0: as written, the
   * second is reported reloaded, from `EEEPROM_ADDRESS_ILLEGAL` instead of
   * its own address 1.
   */
  lemma ReloadAsWrittenReadsWrongAddress(mem: map<uint16, uint32>)
    requires Word(mem, EEPROM_ADDRESS_ILLEGAL) % 0x100 != Word(mem, 1) % 0x100
    ensures var vars := [Var(Eeprom, U8, false), Var(Eeprom, U8, false)];
            var vals := [0, 0];
            var asWritten := ReloadAsWritten(vars, vals, 1, TwoVarTable(), mem, {}, 1, true);
            var corrected := OldReload(vars, vals, 1, TwoVarTable(), mem, {}, 1, true);
            asWritten.0 && corrected.0 &&
            asWritten.1[1] == Loaded(mem, EEPROM_ADDRESS_ILLEGAL, U8, 1) &&
            corrected.1[1] == Loaded(mem, 1, U8, 1) && asWritten.1 != corrected.1
  {
    LookupAsWrittenMisses();
    LoadedByte(mem, EEPROM_ADDRESS_ILLEGAL);
    LoadedByte(mem, 1);
    var vars := [Var(Eeprom, U8, false), Var(Eeprom, U8, false)];
    var vals := [0, 0];
    assert Incs(U8, 1) == 1;
    assert Clear({}, EEPROM_ADDRESS_ILLEGAL, 1) && Clear({}, 1, 1);
    var asWritten := ReloadAsWritten(vars, vals, 1, TwoVarTable(), mem, {}, 1, true);
    var corrected := OldReload(vars, vals, 1, TwoVarTable(), mem, {}, 1, true);
    assert asWritten == (true, vals[1 := Loaded(mem, EEPROM_ADDRESS_ILLEGAL, U8, 1)]);
    assert corrected == (true, vals[1 := Loaded(mem, 1, U8, 1)]);
    assert asWritten.1[1] != corrected.1[1];
  }

  /** A one-byte variable in byte-wide EEPROM loads the word's low byte. */
  lemma LoadedByte(mem: map<uint16, uint32>, a: uint16)
    ensures Loaded(mem, a, U8, 1) == Word(mem, a) % 0x100
  {
    assert Incs(U8, 1) == 1;
    assert Words(mem, a, 1) == [Word(mem, a)];
    AssembleOne(Word(mem, a), 1);
  }

  /**
   * `writeEEPROMwithValueFromVarStruct` with the corrected lookup and guard:
   * `true` exactly when an EEPROM variable with a write callback is saved.
   */
  function OldSave(vars: seq<Var>, vals: seq<uint32>, j: nat, table: seq<Slot>, mem: map<uint16, uint32>,
                   fails: set<uint16>, at: nat, hasCb: bool): (r: (bool, map<uint16, uint32>))
    requires j < |vars| == |vals| && AddressType(at)
    ensures r.0 ==> vars[j].vartype == Eeprom && hasCb && Lookup(table, j + 1) != EEPROM_ADDRESS_ILLEGAL
  {
    var e := Save(vars, vals, j, Lookup(table, j + 1), mem, fails, at, hasCb);
    (vars[j].vartype == Eeprom && hasCb && e.0 == NoError, e.1)
  }

  /**
   * `writeEEPROMwithValueFromVarStruct` as written, for variable `j`: the same
   * lookup and guard, so the words of a variable the lookup misses are written
   * from `EEEPROM_ADDRESS_ILLEGAL` on.
   */
  function SaveAsWritten(vars: seq<Var>, vals: seq<uint32>, j: nat, table: seq<Slot>, mem: map<uint16, uint32>,
                         fails: set<uint16>, at: nat, hasCb: bool): (r: (bool, map<uint16, uint32>))
    requires j < |vars| == |vals| && |table| == MAX_NUMBER_OF_EEPROM_VARS && AddressType(at)
  {
    var v := vars[j];
    var addr := LookupAsWritten(table, j + 1);
    if v.vartype != Eeprom || !hasCb then (false, mem)
    else if GuardAsWritten(addr) == 0 then (false, mem)
    else
      var ws := Split(vals[j], Incs(v.dtype, at), at);
      var lo := FailedFrom(fails, addr, |ws|);
      (lo == 0, StoreFrom(mem, addr, ws, lo))
  }

  /**
   * Two one-byte EEPROM variables laid out from address 0: as written, saving
   * the second overwrites the cell at `EEEPROM_ADDRESS_ILLEGAL` and leaves
   * its own address 1 alone.
   */
  lemma SaveAsWrittenWritesWrongAddress(mem: map<uint16, uint32>, x: uint8)
    ensures var vars := [Var(Eeprom, U8, false), Var(Eeprom, U8, false)];
            var asWritten := SaveAsWritten(vars, [0, x], 1, TwoVarTable(), mem, {}, 1, true);
            var corrected := OldSave(vars, [0, x], 1, TwoVarTable(), mem, {}, 1, true);
            asWritten.0 && corrected.0 &&
            asWritten.1 == mem[EEPROM_ADDRESS_ILLEGAL := x] && corrected.1 == mem[1 := x]
  {
    LookupAsWrittenMisses();
    var vars := [Var(Eeprom, U8, false), Var(Eeprom, U8, false)];
    assert Incs(U8, 1) == 1;
    assert Shr(x, 0) % Scale(1) == x;
    assert Split(x, 1, 1) == [x];
    assert FailedFrom({}, EEPROM_ADDRESS_ILLEGAL, 1) == 0 && FailedFrom({}, 1, 1) == 0;
    assert StoreFrom(mem, EEPROM_ADDRESS_ILLEGAL, [x], 1) == mem;
    assert StoreFrom(mem, EEPROM_ADDRESS_ILLEGAL, [x], 0) == mem[EEPROM_ADDRESS_ILLEGAL := x];
    assert StoreFrom(mem, 1, [x], 1) == mem;
    assert StoreFrom(mem, 1, [x], 0) == mem[1 := x];
    assert Lookup(TwoVarTable(), 2) == 1;
  }

  /** A successful save followed by a successful reload leaves the variable as it was. */
  lemma OldSaveThenReload(vars: seq<Var>, vals: seq<uint32>, j: nat, table: seq<Slot>, mem: map<uint16, uint32>,
                          wfails: set<uint16>, rfails: set<uint16>, at: nat)
    requires j < |vars| == |vals| && AddressType(at) && Fits(vals[j], vars[j].dtype)
    requires OldSave(vars, vals, j, table, mem, wfails, at, true).0
    requires OldReload(vars, vals, j, table, OldSave(vars, vals, j, table, mem, wfails, at, true).1, rfails, at, true).0
    ensures OldReload(vars, vals, j, table, OldSave(vars, vals, j, table, mem, wfails, at, true).1, rfails, at, true).1 == vals
  {
    SaveThenReload(vars, vals, j, Lookup(table, j + 1), mem, wfails, rfails, at);
  }

  /**
   * `readEEPROMValueIntoVarStruct`, corrected: the same steps as the later
   * generation's reload, whose status it reduces to success or failure.
   */
  method readEEPROMValueIntoVarStruct(va: VarAccess, num: int) returns (ok: bool)
    requires va.Valid() && ValidNum(va.vars, num)
    modifies va
    ensures va.Valid() && va.table == old(va.table)
    ensures (ok, va.vals) == OldReload(va.vars, old(va.vals), num - 1, va.table, va.ee.mem, va.ee.readFails,
                                       va.at, va.hasReadCb)
  {
    var v := va.vars[num - 1];
    var err := SlaveVarAccess.ReadEEPROMValueIntoVarStruct(va, num);
    ok := v.vartype == Eeprom && va.hasReadCb && err == NoError;
  }

  /**
   * `writeEEPROMwithValueFromVarStruct`, corrected: the same steps as the
   * later generation's save, whose status it reduces to success or failure.
   */
  method writeEEPROMwithValueFromVarStruct(va: VarAccess, num: int) returns (ok: bool)
    requires va.Valid() && ValidNum(va.vars, num)
    modifies va.ee
    ensures va.ee.readFails == old(va.ee.readFails) && va.ee.writeFails == old(va.ee.writeFails)
    ensures (ok, va.ee.mem) == OldSave(va.vars, va.vals, num - 1, va.table, old(va.ee.mem), va.ee.writeFails,
                                       va.at, va.hasWriteCb)
  {
    var v := va.vars[num - 1];
    var err := SlaveVarAccess.WriteEEPROMwithValueFromVarStruct(va, num);
    ok := v.vartype == Eeprom && va.hasWriteCb && err == NoError;
  }

  // ---------------------------------------------------------------------------
  // Start-up.

  /**
   * `initVarstruct`: lays out the table and reloads every EEPROM variable,
   * ignoring the reloads' results; `false` exactly when the table is too small.
   * The rounds are those of the later generations' loop, whose reload differs
   * from `readEEPROMValueIntoVarStruct` only in the status it reports.
   */
  method initVarstruct(va: VarAccess) returns (ok: bool)
    requires va.Valid()
    modifies va
    ensures va.Valid()
    ensures var s := InitUpTo(va.vars, old(va.vals), old(va.table), va.ee.mem, va.ee.readFails,
                              va.at, va.hasReadCb, false, |va.vars|);
            ok == !s.stopped && va.table == s.table && va.vals == s.vals
  {
    var addr: uint16 := ADDRESS_OFFSET;
    var eeIdx := 0;
    var err := NoError;
    var i := 0;
    while i < |va.vars|
      invariant 0 <= i <= |va.vars| && va.Valid()
      invariant InitUpTo(va.vars, old(va.vals), old(va.table), va.ee.mem, va.ee.readFails,
                         va.at, va.hasReadCb, false, i)
             == InitState(va.table, va.vals, eeIdx, addr, err, false)
    {
      var stop;
      eeIdx, addr, err, stop := SlaveVarAccess.InitRound(va, i, eeIdx, addr, err, false, old(va.vals), old(va.table));
      if stop {
        InitStopped(va.vars, old(va.vals), old(va.table), va.ee.mem, va.ee.readFails,
                    va.at, va.hasReadCb, false, i + 1, |va.vars|);
        return false;
      }
      i := i + 1;
    }
    return true;
  }

  /** `initVarstruct` fails exactly when there are more EEPROM variables than table entries. */
  lemma InitFailsOnOverflow(vars: seq<Var>, vals0: seq<uint32>, table0: seq<Slot>, mem: map<uint16, uint32>,
                            fails: set<uint16>, at: nat, hasCb: bool)
    requires |vars| == |vals0| < 0x100 && |table0| == MAX_NUMBER_OF_EEPROM_VARS && AddressType(at)
    ensures !InitUpTo(vars, vals0, table0, mem, fails, at, hasCb, false, |vars|).stopped
        <==> EepromCount(vars, |vars|) <= MAX_NUMBER_OF_EEPROM_VARS
  {
    InitOverflow(vars, vals0, table0, mem, fails, at, hasCb, |vars|);
  }
}
