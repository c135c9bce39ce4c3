// SCICommands.c: the oldest `executeCmd`, which answers every request with
// one `RESPONSE` whose `b_valid` flag says whether it is to be sent. It works
// on the variable access of VarAccess.c (OldVarAccess), whose EEPROM reload
// and save report plain success or failure.
module OldCommands {
  import opened Base
  import opened Protocol
  import opened VarStore
  import opened OldVarAccess
  import SlaveTransfer

  /**
   * The parts of the `RESPONSE` this `executeCmd` sets: the valid flag, the
   * echoed number, the value (as a bit pattern) and the echoed kind. Status
   * and process info keep their defaults in this generation.
   */
  datatype Response = Response(valid: bool, num: int16, val: uint32, cmdType: ReqType)

  /** `RESPONSE_DEFAULT`: not valid, number and value 0, no kind. */
  const RESPONSE_DEFAULT: Response := Response(false, 0, 0, ReqNone)

  /**
   * What one request does: the response, the variables and the EEPROM
   * afterwards, and the calls made to action procedures and the command
   * table. `cmdOk` is what the command table entry returns when called.
   */
  datatype Outcome = Outcome(rsp: Response, vals: seq<uint32>, mem: map<uint16, uint32>, calls: seq<SlaveTransfer.Call>)

  /**
   * GETVAR: an EEPROM variable must be reloaded first, and the read must
   * succeed; the answer is then the variable's value.
   */
  function GetVarSpec(vars: seq<Var>, vals: seq<uint32>, table: seq<Slot>, mem: map<uint16, uint32>,
                      rfails: set<uint16>, at: nat, hasReadCb: bool, num: int16): (o: Outcome)
    requires |vals| == |vars| && AddressType(at)
    ensures |o.vals| == |vals| && o.mem == mem && o.calls == []
    ensures o.rsp.valid ==> ValidNum(vars, num) && o.rsp == Response(true, num, o.vals[num - 1], GetVar)
    ensures !o.rsp.valid ==> o.rsp == RESPONSE_DEFAULT
  {
    if !ValidNum(vars, num) then Outcome(RESPONSE_DEFAULT, vals, mem, [])
    else if vars[num - 1].vartype == Eeprom then
      var r := OldReload(vars, vals, num - 1, table, mem, rfails, at, hasReadCb);
      if !r.0 then Outcome(RESPONSE_DEFAULT, r.1, mem, [])
      else Outcome(Response(true, num, r.1[num - 1], GetVar), r.1, mem, [])
    else Outcome(Response(true, num, vals[num - 1], GetVar), vals, mem, [])
  }

  /**
   * SETVAR: the value is assigned after a successful read; an EEPROM
   * variable must then be saved, and a failed save writes the former value
   * back. Success calls the action procedure and answers the value read back.
   */
  function SetVarSpec(vars: seq<Var>, vals: seq<uint32>, table: seq<Slot>, mem: map<uint16, uint32>,
                      wfails: set<uint16>, at: nat, hasWriteCb: bool, num: int16, v: uint32): (o: Outcome)
    requires |vals| == |vars| && AddressType(at)
    ensures |o.vals| == |vals|
    ensures o.rsp.valid ==> ValidNum(vars, num) && o.vals == Assigned(vars, vals, num, v).1 &&
                            o.rsp == Response(true, num, o.vals[num - 1], SetVar)
    ensures !o.rsp.valid ==> o.rsp == RESPONSE_DEFAULT && o.calls == []
  {
    if !ValidNum(vars, num) then Outcome(RESPONSE_DEFAULT, vals, mem, [])
    else
      var j := num - 1;
      var a := Assigned(vars, vals, num, v).1;
      var s := if vars[j].vartype == Eeprom then OldSave(vars, a, j, table, mem, wfails, at, hasWriteCb) else (true, mem);
      if !s.0 then Outcome(RESPONSE_DEFAULT, Assigned(vars, a, num, vals[j]).1, s.1, [])
      else Outcome(Response(true, num, a[j], SetVar), a, s.1,
                   if vars[j].hasAction then [SlaveTransfer.Action(num)] else [])
  }

  /**
   * COMMAND: the table entry is called only for a number from 1 to the table
   * size; the response is valid either way, with value 0 when the entry was
   * called and reported success, and 1 otherwise.
   */
  function CommandSpec(hasTable: bool, cmdCount: nat, cmd: SlaveTransfer.Cmd, cmdOk: bool): (r: (Response, seq<SlaveTransfer.Call>))
    ensures r.0.valid && r.0.num == cmd.num && r.0.cmdType == Command
    ensures r.0.val == 0 <==> hasTable && 0 < cmd.num <= cmdCount && cmdOk
    ensures |r.1| <= 1 && (r.1 != [] <==> hasTable && 0 < cmd.num <= cmdCount)
  {
    var called := hasTable && 0 < cmd.num <= cmdCount;
    (Response(true, cmd.num, if called && cmdOk then 0 else 1, Command),
     if called then [SlaveTransfer.CommandCb(cmd.num, cmd.valArr, cmd.valArrLen)] else [])
  }

  /** The GETVAR branch. */
  method GetVarCase(va: VarAccess, num: int16) returns (rsp: Response)
    requires va.Valid()
    modifies va
    ensures va.Valid() && va.table == old(va.table)
    ensures var o := GetVarSpec(va.vars, old(va.vals), va.table, va.ee.mem, va.ee.readFails, va.at, va.hasReadCb, num);
            rsp == o.rsp && va.vals == o.vals
  {
    rsp := RESPONSE_DEFAULT;
    if !ValidNum(va.vars, num) {
      // The descriptor read before the check is out of bounds here; the read that follows fails.
      var ok, none := readValFromVarStruct(va, num);
      return;
    }
    if va.vars[num - 1].vartype == Eeprom {
      var ok := readEEPROMValueIntoVarStruct(va, num);
      if !ok {
        return;
      }
    }
    var ok, val := readValFromVarStruct(va, num);
    rsp := Response(true, num, val.value, GetVar);
  }

  /** The SETVAR branch; `calls` holds the action procedure call, if any. */
  method SetVarCase(va: VarAccess, num: int16, v: uint32) returns (rsp: Response, calls: seq<SlaveTransfer.Call>)
    requires va.Valid()
    modifies va, va.ee
    ensures va.Valid() && va.table == old(va.table)
    ensures va.ee.readFails == old(va.ee.readFails) && va.ee.writeFails == old(va.ee.writeFails)
    ensures var o := SetVarSpec(va.vars, old(va.vals), va.table, old(va.ee.mem), va.ee.writeFails, va.at,
                                va.hasWriteCb, num, v);
            rsp == o.rsp && va.vals == o.vals && va.ee.mem == o.mem && calls == o.calls
  {
    rsp, calls := RESPONSE_DEFAULT, [];
    var readOk, former := readValFromVarStruct(va, num);
    if !readOk {
      return;
    }
    var writeOk := writeValToVarStruct(va, num, v);
    var saved := SaveOrRestore(va, num, former.value);
    if !saved {
      return;
    }
    if va.vars[num - 1].hasAction {
      calls := [SlaveTransfer.Action(num)];
    }
    var ok, newVal := readValFromVarStruct(va, num);
    rsp := Response(true, num, newVal.value, SetVar);
  }

  /**
   * The EEPROM step of the SETVAR branch: an EEPROM variable is saved, and a
   * failed save writes `former` back; any other variable passes.
   */
  method SaveOrRestore(va: VarAccess, num: int16, former: uint32) returns (saved: bool)
    requires va.Valid() && ValidNum(va.vars, num)
    modifies va, va.ee
    ensures va.Valid() && va.table == old(va.table)
    ensures va.ee.readFails == old(va.ee.readFails) && va.ee.writeFails == old(va.ee.writeFails)
    ensures var s := if va.vars[num - 1].vartype == Eeprom
                     then OldSave(va.vars, old(va.vals), num - 1, va.table, old(va.ee.mem), va.ee.writeFails,
                                  va.at, va.hasWriteCb)
                     else (true, old(va.ee.mem));
            saved == s.0 && va.ee.mem == s.1 &&
            va.vals == (if saved then old(va.vals) else Assigned(va.vars, old(va.vals), num, former).1)
  {
    saved := true;
    if va.vars[num - 1].vartype == Eeprom {
      saved := writeEEPROMwithValueFromVarStruct(va, num);
      if !saved {
        var restored := writeValToVarStruct(va, num, former);
      }
    }
  }

  /**
   * `executeCmd`: dispatches on the request kind; kinds other than GETVAR,
   * SETVAR and COMMAND answer the invalid default response.
   */
  method ExecuteCmd(va: VarAccess, hasTable: bool, cmdCount: nat, cmd: SlaveTransfer.Cmd, cmdOk: bool)
    returns (rsp: Response, calls: seq<SlaveTransfer.Call>)
    requires va.Valid() && |cmd.valArr| == SlaveTransfer.MAX_NUM_COMMAND_VALUES
    modifies va, va.ee
    ensures va.Valid() && va.table == old(va.table)
    ensures va.ee.readFails == old(va.ee.readFails) && va.ee.writeFails == old(va.ee.writeFails)
    ensures cmd.cmdType == GetVar ==>
              var o := GetVarSpec(va.vars, old(va.vals), va.table, va.ee.mem, va.ee.readFails, va.at,
                                  va.hasReadCb, cmd.num);
              rsp == o.rsp && va.vals == o.vals && va.ee.mem == old(va.ee.mem) && calls == []
    ensures cmd.cmdType == SetVar ==>
              var o := SetVarSpec(va.vars, old(va.vals), va.table, old(va.ee.mem), va.ee.writeFails, va.at,
                                  va.hasWriteCb, cmd.num, cmd.valArr[0]);
              rsp == o.rsp && va.vals == o.vals && va.ee.mem == o.mem && calls == o.calls
    ensures cmd.cmdType == Command ==>
              (rsp, calls) == CommandSpec(hasTable, cmdCount, cmd, cmdOk) &&
              va.vals == old(va.vals) && va.ee.mem == old(va.ee.mem)
    ensures cmd.cmdType !in {GetVar, SetVar, Command} ==>
              rsp == RESPONSE_DEFAULT && calls == [] && va.vals == old(va.vals) && va.ee.mem == old(va.ee.mem)
  {
    match cmd.cmdType {
      case GetVar =>
        rsp := GetVarCase(va, cmd.num);
        calls := [];
      case SetVar =>
        rsp, calls := SetVarCase(va, cmd.num, cmd.valArr[0]);
      case Command =>
        var called := hasTable && cmd.num > 0 && cmd.num as int <= cmdCount;
        var ok := false;
        calls := [];
        if called {
          calls := [SlaveTransfer.CommandCb(cmd.num, cmd.valArr, cmd.valArrLen)];
          ok := cmdOk;
        }
        rsp := Response(true, cmd.num, if ok then 0 else 1, Command);
      case _ =>
        rsp, calls := RESPONSE_DEFAULT, [];
    }
  }

  // ---------------------------------------------------------------------------
  // Properties.

  /**
   * The valid flag agrees with the later generation's status: with a read
   * callback, a GETVAR is answered exactly when `executeCmd` of
   * C/Slave/Src/SCISlaveTransfer.c reports no error, with the same value and
   * variables. Without one, an EEPROM variable is never answered here.
   */
  lemma GetVarMatchesLaterGeneration(vars: seq<Var>, vals: seq<uint32>, table: seq<Slot>, mem: map<uint16, uint32>,
                                     rfails: set<uint16>, at: nat, hasReadCb: bool, num: int16)
    requires |vals| == |vars| && AddressType(at)
    ensures var o := GetVarSpec(vars, vals, table, mem, rfails, at, hasReadCb, num);
            var g := SlaveTransfer.GetVarSpec(vars, vals, table, mem, rfails, at, hasReadCb, num);
            (hasReadCb || !ValidNum(vars, num) || vars[num - 1].vartype != Eeprom ==>
               (o.rsp.valid <==> g.0 == NoError) && o.vals == g.1 &&
               (o.rsp.valid ==> Some(o.rsp.val) == g.2)) &&
            (!hasReadCb && ValidNum(vars, num) && vars[num - 1].vartype == Eeprom ==> !o.rsp.valid)
  {
  }

  /** A SETVAR that is not answered leaves every variable as it was. */
  lemma SetVarRollsBack(vars: seq<Var>, vals: seq<uint32>, table: seq<Slot>, mem: map<uint16, uint32>,
                        wfails: set<uint16>, at: nat, hasWriteCb: bool, num: int16, v: uint32)
    requires |vals| == |vars| && AddressType(at)
    requires forall i :: 0 <= i < |vals| ==> Fits(vals[i], vars[i].dtype)
    ensures var o := SetVarSpec(vars, vals, table, mem, wfails, at, hasWriteCb, num, v);
            !o.rsp.valid ==> o.vals == vals
  {
    if ValidNum(vars, num) {
      AssignReadBack(vars, vals, num, v);
    }
  }

  /**
   * A GETVAR after an answered SETVAR of `v` answers `v` cut to the
   * variable's width, reloaded from the EEPROM words the SETVAR saved for an
   * EEPROM variable.
   */
  lemma SetThenGet(vars: seq<Var>, vals: seq<uint32>, table: seq<Slot>, mem: map<uint16, uint32>,
                   wfails: set<uint16>, rfails: set<uint16>, at: nat, num: int16, v: uint32)
    requires |vals| == |vars| && AddressType(at)
    requires SetVarSpec(vars, vals, table, mem, wfails, at, true, num, v).rsp.valid
    ensures var s := SetVarSpec(vars, vals, table, mem, wfails, at, true, num, v);
            var g := GetVarSpec(vars, s.vals, table, s.mem, rfails, at, true, num);
            g.rsp.valid ==> g.rsp.val == Narrow(v, vars[num - 1].dtype) && g.vals == s.vals
  {
    var j := num - 1;
    var a := Assigned(vars, vals, num, v).1;
    assert a[j] == Narrow(v, vars[j].dtype);
    if vars[j].vartype == Eeprom {
      var m := OldSave(vars, a, j, table, mem, wfails, at, true).1;
      if OldReload(vars, a, j, table, m, rfails, at, true).0 {
        OldSaveThenReload(vars, a, j, table, mem, wfails, rfails, at);
      }
    }
  }

  /** SETVAR of an EEPROM variable is never answered when there is no write callback. */
  lemma SetVarNeedsWriteCallback(vars: seq<Var>, vals: seq<uint32>, table: seq<Slot>, mem: map<uint16, uint32>,
                                 wfails: set<uint16>, at: nat, num: int16, v: uint32)
    requires |vals| == |vars| && AddressType(at)
    requires ValidNum(vars, num) && vars[num - 1].vartype == Eeprom
    ensures !SetVarSpec(vars, vals, table, mem, wfails, at, false, num, v).rsp.valid
  {
  }
}
