// C/Slave/Src/SCISlaveTransfer.c: the execution of a parsed request against
// the variable table and the command table, and the response control that
// carries a multi-packet command answer (its saved response, flags and data
// index) from one request to the next. The file is written against the
// `SCI_COMMANDS` types of SCICommands.h and the lower-case variable access API
// of Src/VarAccess.c, whose bodies are modelled in SlaveVarAccess.
module SlaveTransfer {
  import opened Base
  import opened Protocol
  import opened HexCodec
  import opened Text
  import opened Values
  import opened VarStore
  import opened SlaveVarAccess
  import SlaveDataframe

  /** `MAX_NUM_COMMAND_VALUES` (SCICommands.h:25): the size of a command's value array. */
  const MAX_NUM_COMMAND_VALUES: nat := 10

  /**
   * `PROCESS_INFO` as this file reads it: the upstream byte buffer and the value
   * buffer (None for NULL), the data length still to send, the error number, and
   * whether each buffer was allocated by the command and is to be freed.
   */
  datatype ProcessInfo = ProcessInfo(
    upStreamBuf: Option<seq<char>>, dataBuf: Option<seq<uint32>>,
    datLen: uint32, error: uint16, dataBufDynamic: bool, upstreamBufDynamic: bool)

  const PROCESS_INFO_DEFAULT: ProcessInfo := ProcessInfo(None, None, 0, 0, false, false)

  /** `COMMAND`: number, value count, the fixed value array (as bit patterns) and kind. */
  datatype Cmd = Cmd(num: int16, valArrLen: uint8, valArr: seq<uint32>, cmdType: ReqType)

  /** `RESPONSE`: number, value (as a bit pattern), kind, command status and process info. */
  datatype Response = Response(num: int16, val: uint32, cmdType: ReqType, status: Ack, info: ProcessInfo)

  const RESPONSE_DEFAULT: Response := Response(0, 0, ReqNone, Unknown, PROCESS_INFO_DEFAULT)

  /**
   * `RESPONSECONTROL`: the three control bits, the index of the next value or
   * byte to send, and the saved response of the command in progress.
   */
  datatype ResponseControl = ResponseControl(
    firstPacketNotSent: bool, ongoing: bool, upstream: bool, dataIdx: nat, rsp: Response)

  /** `RESPONSECONTROL_DEFAULT`: every bit clear, index 0, the default response. */
  const RESPONSECONTROL_DEFAULT: ResponseControl := ResponseControl(false, false, false, 0, RESPONSE_DEFAULT)

  /** The calls this file makes to code outside it, in the order it makes them. */
  datatype Call =
    | Action(num: int)                                   // a variable's action procedure
    | CommandCb(num: int, vals: seq<uint32>, len: uint8) // an entry of the command table
    | FreeDataBuf                                        // `free` of the value buffer
    | FreeUpstreamBuf                                    // `free` of the upstream buffer

  /** A command's buffers hold the data length it announces. */
  predicate InfoFits(info: ProcessInfo)
  {
    (info.dataBuf.Some? ==> info.datLen <= |info.dataBuf.value|) &&
    (info.upStreamBuf.Some? ==> info.datLen <= |info.upStreamBuf.value|)
  }

  /**
   * The response control's invariant: the data still to send lies inside the
   * saved buffers from the data index on, and a transfer is only marked ongoing
   * or upstream while data remain.
   */
  predicate ControlFits(c: ResponseControl)
  {
    var info := c.rsp.info;
    (info.dataBuf.Some? ==> c.dataIdx + info.datLen <= |info.dataBuf.value|) &&
    (info.upStreamBuf.Some? ==> c.dataIdx + info.datLen <= |info.upStreamBuf.value|) &&
    ((c.ongoing || c.upstream) ==> info.datLen > 0)
  }

  /** The buffers `clearResponseControl` frees before it resets the control. */
  function Freed(c: ResponseControl): (r: seq<Call>)
    ensures FreeDataBuf in r <==> c.rsp.info.dataBufDynamic
    ensures FreeUpstreamBuf in r <==> c.rsp.info.upstreamBufDynamic
  {
    (if c.rsp.info.dataBufDynamic then [FreeDataBuf] else []) +
    (if c.rsp.info.upstreamBufDynamic then [FreeUpstreamBuf] else [])
  }

  // ---------------------------------------------------------------------------
  // What one request does, as functions of the state before it.

  /**
   * GETVAR on variable `num`: the reload of an EEPROM variable, then the read;
   * the status, the variables afterwards and, on success, the value answered.
   */
  function GetVarSpec(vars: seq<Var>, vals: seq<uint32>, table: seq<Slot>, mem: map<uint16, uint32>,
                      fails: set<uint16>, at: nat, hasCb: bool, num: int): (r: (SciError, seq<uint32>, Option<uint32>))
    requires |vals| == |vars| && AddressType(at)
    ensures |r.1| == |vals|
    ensures r.2.Some? <==> r.0 == NoError
    ensures !ValidNum(vars, num) ==> r == (VarNumberInvalid, vals, None)
    ensures r.0 == NoError ==> r.2 == ValueOf(vars, r.1, num).1
    ensures r.0 != NoError ==> r.1 == vals
  {
    if !ValidNum(vars, num) then (VarNumberInvalid, vals, None)
    else
      var l := Reload(vars, vals, num - 1, Lookup(table, num), mem, fails, at, hasCb);
      if l.0 != NoError then (l.0, vals, None) else (NoError, l.1, Some(l.1[num - 1]))
  }

  /**
   * SETVAR of `v` into variable `num`: the assignment, then the save of an
   * EEPROM variable, undone when the save fails; the status, the variables and
   * the EEPROM afterwards and, on success, the value re-read.
   */
  function SetVarSpec(vars: seq<Var>, vals: seq<uint32>, table: seq<Slot>, mem: map<uint16, uint32>,
                      fails: set<uint16>, at: nat, hasCb: bool, num: int, v: uint32)
    : (r: (SciError, seq<uint32>, map<uint16, uint32>, Option<uint32>))
    requires |vals| == |vars| && AddressType(at)
    ensures r.3.Some? <==> r.0 == NoError
    ensures !ValidNum(vars, num) ==> r == (VarNumberInvalid, vals, mem, None)
    ensures r.0 == NoError ==> r.1 == Assigned(vars, vals, num, v).1 && r.3 == ValueOf(vars, r.1, num).1
  {
    if !ValidNum(vars, num) then (VarNumberInvalid, vals, mem, None)
    else
      var j := num - 1;
      var a := Assigned(vars, vals, num, v).1;
      if vars[j].vartype == Eeprom then
        var s := Save(vars, a, j, Lookup(table, num), mem, fails, at, hasCb);
        if s.0 != NoError then (s.0, Assigned(vars, a, num, vals[j]).1, s.1, None)
        else (NoError, a, s.1, Some(a[j]))
      else (NoError, a, mem, Some(a[j]))
  }

  /**
   * COMMAND: a request is new unless a transfer is ongoing for the same number.
   * A new one runs the command table entry, whose status and info `cb` is, and
   * saves the response with fresh control bits; a known number is required. A
   * continuation answers with the saved status and info.
   */
  function CommandSpec(c: ResponseControl, hasTable: bool, cmdCount: nat, cmd: Cmd, rsp: Response,
                       cb: (Ack, ProcessInfo)): (r: (SciError, Response, ResponseControl))
    ensures r.0 == NoError || r.0 == CommandUnknown
    ensures r.0 == CommandUnknown ==> r.1 == rsp && r.2 == c
    ensures r.0 == NoError ==> r.1 == r.2.rsp.(num := rsp.num, val := rsp.val, cmdType := rsp.cmdType)
  {
    var newCmd := !c.ongoing || c.rsp.num != cmd.num;
    if newCmd then
      if hasTable && 0 < cmd.num <= cmdCount then
        var r := rsp.(status := cb.0, info := cb.1);
        (NoError, r, ResponseControl(true, cb.0 == SuccessData && cb.1.datLen > 0,
                                     cb.0 == SuccessUpstream && cb.1.datLen > 0, 0, r))
      else (CommandUnknown, rsp, c)
    else (NoError, rsp.(status := c.rsp.status, info := c.rsp.info), c.(firstPacketNotSent := false))
  }

  /**
   * UPSTREAM: accepted only for the number of the saved response while an
   * upstream transfer is announced; the saved response then takes the
   * request's kind, so that the next packets carry raw bytes.
   */
  function UpstreamSpec(c: ResponseControl, cmd: Cmd, rsp: Response): (r: (SciError, Response, ResponseControl))
    ensures r.0 == NoError <==> c.rsp.num == cmd.num && c.upstream
    ensures r.0 != NoError ==> r.0 == UpstreamNotInitiated && r.1 == rsp && r.2 == c
    ensures r.0 == NoError ==> r.1.info == c.rsp.info && r.2.rsp.cmdType == rsp.cmdType
  {
    if c.rsp.num == cmd.num && c.upstream then
      (NoError, rsp.(status := Success, info := c.rsp.info), c.(rsp := c.rsp.(cmdType := rsp.cmdType)))
    else (UpstreamNotInitiated, rsp, c)
  }

  /**
   * One packet of a multi-packet answer: the text written at the fill
   * position, the size returned, the response control afterwards, and the
   * buffers freed when the last data went out.
   */
  datatype Packet = Packet(text: seq<char>, size: nat, control: ResponseControl, freed: seq<Call>)

  /** The saved response names a buffer kind whose pointer is NULL: nothing is sent and nothing cleared. */
  predicate NullBuffer(c: ResponseControl)
  {
    (c.rsp.cmdType == Upstream && c.rsp.info.upStreamBuf.None?) ||
    (c.rsp.cmdType == Command && c.rsp.info.dataBuf.None?)
  }

  /**
   * What the next packet takes: for a saved UPSTREAM response the next raw
   * bytes, for a saved COMMAND response as many comma-separated hex values as
   * stay below `max` characters, for any other response nothing.
   */
  function Step(c: ResponseControl, max: nat): (f: SlaveDataframe.Fill)
    requires ControlFits(c) && !NullBuffer(c)
    ensures f.size <= |f.text| <= max
    ensures f.datLen <= c.rsp.info.datLen && f.idx == c.dataIdx + (c.rsp.info.datLen - f.datLen)
  {
    var info := c.rsp.info;
    if c.rsp.cmdType == Upstream then SlaveDataframe.UpstreamFill(info.upStreamBuf.value, info.datLen, max, c.dataIdx)
    else if c.rsp.cmdType == Command then SlaveDataframe.CommandFill(info.dataBuf.value, info.datLen, max, c.dataIdx)
    else SlaveDataframe.Fill([], 0, c.dataIdx, info.datLen)
  }

  /** The control after a packet: the data index and the remaining length of `f`. */
  function Advance(c: ResponseControl, f: SlaveDataframe.Fill): (c': ResponseControl)
    requires f.datLen <= c.rsp.info.datLen
    ensures c'.dataIdx == f.idx && c'.rsp.info.datLen == f.datLen
    ensures c' == c.(dataIdx := c'.dataIdx, rsp := c.rsp.(info := c.rsp.info.(datLen := c'.rsp.info.datLen)))
  {
    c.(dataIdx := f.idx, rsp := c.rsp.(info := c.rsp.info.(datLen := f.datLen)))
  }

  /**
   * `fillBufferWithValues`: a missing buffer returns 0 at once; otherwise the
   * packet `Step` describes goes out, and when no data are left the control
   * is cleared and the buffers the command allocated are freed.
   */
  function NextPacket(c: ResponseControl, max: nat): (p: Packet)
    requires ControlFits(c)
    ensures p.size <= |p.text| <= max
    ensures ControlFits(p.control)
  {
    if NullBuffer(c) then Packet([], 0, c, [])
    else
      var f := Step(c, max);
      var c1 := Advance(c, f);
      if f.datLen == 0 then Packet(f.text, f.size, RESPONSECONTROL_DEFAULT, Freed(c1))
      else Packet(f.text, f.size, c1, [])
  }

  // ---------------------------------------------------------------------------
  // The `SCI_COMMANDS` instance.

  /**
   * `SCI_COMMANDS`: the response control, and the command table given as
   * whether it is present and its size `SIZE_OF_CMD_STRUCT`. `calls` records
   * the calls made to the action procedures, the command table and `free`.
   */
  class SciCommands {
    var control: ResponseControl
    const hasCmdTable: bool
    const cmdCount: nat
    var calls: seq<Call>

    ghost predicate Valid()
      reads this
    {
      ControlFits(control)
    }

    /** `SCI_COMMANDS_DEFAULT` with the given command table. */
    constructor (hasTable: bool, count: nat)
      ensures Valid() && control == RESPONSECONTROL_DEFAULT && calls == []
      ensures hasCmdTable == hasTable && cmdCount == count
    {
      control := RESPONSECONTROL_DEFAULT;
      hasCmdTable := hasTable;
      cmdCount := count;
      calls := [];
    }

    /** `clearResponseControl`: frees the saved buffers the command allocated and resets the control. */
    method ClearResponseControl()
      modifies this
      ensures Valid() && control == RESPONSECONTROL_DEFAULT
      ensures calls == old(calls) + Freed(old(control))
    {
      if control.rsp.info.dataBufDynamic {
        calls := calls + [FreeDataBuf];
      }
      if control.rsp.info.upstreamBufDynamic {
        calls := calls + [FreeUpstreamBuf];
      }
      control := RESPONSECONTROL_DEFAULT;
    }

    /**
     * The GETVAR branch of `executeCmd`: a failure leaves the response and the
     * control as they were; success answers with the value and clears the
     * control, since a command in progress is cancelled.
     */
    method GetVarCase(va: VarAccess, cmd: Cmd, rsp: Response) returns (err: SciError, rsp': Response)
      requires Valid() && va.Valid()
      modifies this, va
      ensures Valid() && va.Valid() && va.table == old(va.table)
      ensures var g := GetVarSpec(va.vars, old(va.vals), va.table, va.ee.mem, va.ee.readFails, va.at,
                                  va.hasReadCb, cmd.num);
              err == g.0 && va.vals == g.1 &&
              (g.0 == NoError ==> rsp' == rsp.(val := g.2.value, status := Success) &&
                                  control == RESPONSECONTROL_DEFAULT && calls == old(calls) + Freed(old(control))) &&
              (g.0 != NoError ==> rsp' == rsp && control == old(control) && calls == old(calls))
    {
      rsp' := rsp;
      if !ValidNum(va.vars, cmd.num) {
        var none;
        err, none := ReadValFromVarStruct(va, cmd.num);
        return;
      }
      err := ReloadIfEeprom(va, cmd.num);
      if err != NoError {
        return;
      }
      var val;
      err, val := ReadValFromVarStruct(va, cmd.num);
      rsp' := rsp'.(val := val.value, status := Success);
      ClearResponseControl();
    }

    /** The EEPROM part of the GETVAR branch: an EEPROM variable is reloaded first. */
    method ReloadIfEeprom(va: VarAccess, num: int) returns (err: SciError)
      requires va.Valid() && ValidNum(va.vars, num)
      modifies va
      ensures va.Valid() && va.table == old(va.table)
      ensures (err, va.vals) == Reload(va.vars, old(va.vals), num - 1, Lookup(va.table, num),
                                       va.ee.mem, va.ee.readFails, va.at, va.hasReadCb)
    {
      err := NoError;
      if va.vars[num - 1].vartype == Eeprom {
        err := ReadEEPROMValueIntoVarStruct(va, num);
      }
    }

    /**
     * The SETVAR branch of `executeCmd`: the value is assigned once the former
     * one is read; an EEPROM variable is then saved, and a failed save writes
     * the former value back. Success calls the variable's action procedure,
     * answers with the value read back, and clears the control.
     */
    method SetVarCase(va: VarAccess, cmd: Cmd, rsp: Response) returns (err: SciError, rsp': Response)
      requires Valid() && va.Valid() && |cmd.valArr| == MAX_NUM_COMMAND_VALUES
      modifies this, va, va.ee
      ensures Valid() && va.Valid() && va.table == old(va.table)
      ensures va.ee.readFails == old(va.ee.readFails) && va.ee.writeFails == old(va.ee.writeFails)
      ensures var s := SetVarSpec(va.vars, old(va.vals), va.table, old(va.ee.mem), va.ee.writeFails, va.at,
                                  va.hasWriteCb, cmd.num, cmd.valArr[0]);
              err == s.0 && va.vals == s.1 && va.ee.mem == s.2 &&
              (s.0 == NoError ==> rsp' == rsp.(val := s.3.value, status := Success) &&
                                  control == RESPONSECONTROL_DEFAULT &&
                                  calls == old(calls) + (if va.vars[cmd.num - 1].hasAction then [Action(cmd.num)] else [])
                                                      + Freed(old(control))) &&
              (s.0 != NoError ==> rsp' == rsp && control == old(control) && calls == old(calls))
    {
      rsp' := rsp;
      var former;
      err, former := ReadValFromVarStruct(va, cmd.num);
      if err != NoError {
        return;
      }
      err := StoreValue(va, cmd.num, cmd.valArr[0], former.value);
      if err != NoError {
        return;
      }
      if va.vars[cmd.num - 1].hasAction {
        calls := calls + [Action(cmd.num)];
      }
      var reread, newVal := ReadValFromVarStruct(va, cmd.num);
      rsp' := rsp'.(val := newVal.value, status := Success);
      ClearResponseControl();
    }

    /**
     * The assignment of the SETVAR branch, with the save of an EEPROM variable
     * and the write-back of the `former` value when that save fails.
     */
    method StoreValue(va: VarAccess, num: int, v: uint32, former: uint32) returns (err: SciError)
      requires va.Valid() && ValidNum(va.vars, num) && former == va.vals[num - 1]
      modifies va, va.ee
      ensures va.Valid() && va.table == old(va.table)
      ensures va.ee.readFails == old(va.ee.readFails) && va.ee.writeFails == old(va.ee.writeFails)
      ensures var s := SetVarSpec(va.vars, old(va.vals), va.table, old(va.ee.mem), va.ee.writeFails, va.at,
                                  va.hasWriteCb, num, v);
              err == s.0 && va.vals == s.1 && va.ee.mem == s.2
    {
      err := WriteValToVarStruct(va, num, v);
      if va.vars[num - 1].vartype == Eeprom {
        err := SaveOrRestore(va, num, former);
      }
    }

    /**
     * The EEPROM part of the SETVAR branch: the variable is saved, and when
     * the save fails its former value is written back.
     */
    method SaveOrRestore(va: VarAccess, num: int, former: uint32) returns (err: SciError)
      requires va.Valid() && ValidNum(va.vars, num) && va.vars[num - 1].vartype == Eeprom
      modifies va, va.ee
      ensures va.Valid() && va.table == old(va.table)
      ensures va.ee.readFails == old(va.ee.readFails) && va.ee.writeFails == old(va.ee.writeFails)
      ensures var s := Save(va.vars, old(va.vals), num - 1, Lookup(va.table, num), old(va.ee.mem),
                            va.ee.writeFails, va.at, va.hasWriteCb);
              err == s.0 && va.ee.mem == s.1 &&
              va.vals == (if s.0 == NoError then old(va.vals) else Assigned(va.vars, old(va.vals), num, former).1)
    {
      err := WriteEEPROMwithValueFromVarStruct(va, num);
      if err != NoError {
        var undone := WriteValToVarStruct(va, num, former);
      }
    }

    /**
     * The COMMAND branch of `executeCmd`; `cb` is what the command table entry
     * returns when it is called.
     */
    method CommandCase(cmd: Cmd, rsp: Response, cb: (Ack, ProcessInfo)) returns (err: SciError, rsp': Response)
      requires Valid() && InfoFits(cb.1)
      modifies this
      ensures Valid()
      ensures var r := CommandSpec(old(control), hasCmdTable, cmdCount, cmd, rsp, cb);
              err == r.0 && rsp' == r.1 && control == r.2
      ensures calls == old(calls) + (if old(!control.ongoing || control.rsp.num != cmd.num) && err == NoError
                                     then [CommandCb(cmd.num, cmd.valArr, cmd.valArrLen)] else [])
    {
      var newCmd := !control.ongoing || control.rsp.num != cmd.num;
      if newCmd {
        if hasCmdTable && cmd.num > 0 && cmd.num <= cmdCount {
          calls := calls + [CommandCb(cmd.num, cmd.valArr, cmd.valArrLen)];
        } else {
          return CommandUnknown, rsp;
        }
        rsp' := rsp.(status := cb.0, info := cb.1);
        control := control.(firstPacketNotSent := true, dataIdx := 0);
        control := control.(ongoing := rsp'.status == SuccessData && rsp'.info.datLen > 0,
                            upstream := rsp'.status == SuccessUpstream && rsp'.info.datLen > 0);
        control := control.(rsp := rsp');
      } else {
        rsp' := rsp.(status := control.rsp.status, info := control.rsp.info);
        control := control.(firstPacketNotSent := false);
      }
      err := NoError;
    }

    /** The UPSTREAM branch of `executeCmd`. */
    method UpstreamCase(cmd: Cmd, rsp: Response) returns (err: SciError, rsp': Response)
      requires Valid()
      modifies this
      ensures Valid() && calls == old(calls)
      ensures var r := UpstreamSpec(old(control), cmd, rsp);
              err == r.0 && rsp' == r.1 && control == r.2
    {
      if control.rsp.num == cmd.num && control.upstream {
        rsp' := rsp.(status := Success, info := control.rsp.info);
        control := control.(rsp := control.rsp.(cmdType := rsp'.cmdType));
        return NoError, rsp';
      }
      return UpstreamNotInitiated, rsp;
    }

    /**
     * `executeCmd`: dispatches on the request kind; any other kind changes
     * nothing, so an ongoing transfer survives it.
     */
    method ExecuteCmd(va: VarAccess, cmd: Cmd, rsp: Response, cb: (Ack, ProcessInfo)) returns (err: SciError, rsp': Response)
      requires Valid() && va.Valid() && |cmd.valArr| == MAX_NUM_COMMAND_VALUES && InfoFits(cb.1)
      modifies this, va, va.ee
      ensures Valid() && va.Valid() && va.table == old(va.table)
      ensures va.ee.readFails == old(va.ee.readFails) && va.ee.writeFails == old(va.ee.writeFails)
      ensures cmd.cmdType == GetVar ==>
                var g := GetVarSpec(va.vars, old(va.vals), va.table, va.ee.mem, va.ee.readFails, va.at,
                                    va.hasReadCb, cmd.num);
                err == g.0 && va.vals == g.1 && va.ee.mem == old(va.ee.mem) &&
                (g.0 == NoError ==> rsp' == rsp.(val := g.2.value, status := Success) &&
                                    control == RESPONSECONTROL_DEFAULT) &&
                (g.0 != NoError ==> rsp' == rsp && control == old(control) && calls == old(calls))
      ensures cmd.cmdType == SetVar ==>
                var s := SetVarSpec(va.vars, old(va.vals), va.table, old(va.ee.mem), va.ee.writeFails, va.at,
                                    va.hasWriteCb, cmd.num, cmd.valArr[0]);
                err == s.0 && va.vals == s.1 && va.ee.mem == s.2 &&
                (s.0 == NoError ==> rsp' == rsp.(val := s.3.value, status := Success) &&
                                    control == RESPONSECONTROL_DEFAULT) &&
                (s.0 != NoError ==> rsp' == rsp && control == old(control) && calls == old(calls))
      ensures cmd.cmdType == Command ==>
                var r := CommandSpec(old(control), hasCmdTable, cmdCount, cmd, rsp, cb);
                err == r.0 && rsp' == r.1 && control == r.2 && va.vals == old(va.vals) && va.ee.mem == old(va.ee.mem)
      ensures cmd.cmdType == Upstream ==>
                var r := UpstreamSpec(old(control), cmd, rsp);
                err == r.0 && rsp' == r.1 && control == r.2 && va.vals == old(va.vals) && va.ee.mem == old(va.ee.mem)
      ensures cmd.cmdType in {ReqNone, Downstream} ==>
                err == NoError && rsp' == rsp && control == old(control) && calls == old(calls) &&
                va.vals == old(va.vals) && va.ee.mem == old(va.ee.mem)
    {
      match cmd.cmdType {
        case GetVar =>
          err, rsp' := GetVarCase(va, cmd, rsp);
        case SetVar =>
          err, rsp' := SetVarCase(va, cmd, rsp);
        case Command =>
          err, rsp' := CommandCase(cmd, rsp, cb);
        case Upstream =>
          err, rsp' := UpstreamCase(cmd, rsp);
        case _ =>
          err, rsp' := NoError, rsp;
      }
    }

    /**
     * `fillBufferWithValues`: writes the next packet of the saved response at
     * `buf[at..]`, at most `max` characters, and returns its size.
     */
    method FillBufferWithValues(buf: array<char>, at: nat, max: nat) returns (size: nat)
      requires Valid() && max < 0x100 && at + max <= buf.Length
      modifies this, buf
      ensures Valid()
      ensures var p := NextPacket(old(control), max);
              size == p.size && control == p.control && calls == old(calls) + p.freed &&
              buf[..] == Overlay(old(buf[..]), at, p.text)
    {
      if control.rsp.cmdType == Upstream && control.rsp.info.upStreamBuf == None {
        SlaveDataframe.OverlayNothing(buf[..], at);
        return 0;
      }
      if control.rsp.cmdType == Command && control.rsp.info.dataBuf == None {
        SlaveDataframe.OverlayNothing(buf[..], at);
        return 0;
      }
      size := SendStep(buf, at, max);
      if control.rsp.info.datLen == 0 {
        ClearResponseControl();
      }
    }

    /** The copy or the packing loop of `fillBufferWithValues`, with the index and length it advances. */
    method SendStep(buf: array<char>, at: nat, max: nat) returns (size: nat)
      requires Valid() && !NullBuffer(control) && max < 0x100 && at + max <= buf.Length
      modifies this, buf
      ensures var f := Step(old(control), max);
              size == f.size && control == Advance(old(control), f) && calls == old(calls) &&
              buf[..] == Overlay(old(buf[..]), at, f.text)
    {
      var info := control.rsp.info;
      var k;
      if control.rsp.cmdType == Upstream {
        size := SlaveDataframe.FillUpstream(buf, at, max, control.dataIdx, info.upStreamBuf.value, info.datLen);
        k := size;
      } else if control.rsp.cmdType == Command {
        size, k := SlaveDataframe.PackFrom(buf, at, max, control.dataIdx, info.dataBuf.value, info.datLen);
      } else {
        size, k := 0, 0;
        SlaveDataframe.OverlayNothing(buf[..], at);
      }
      control := control.(rsp := control.rsp.(info := info.(datLen := info.datLen - k)),
                          dataIdx := control.dataIdx + k);
    }
  }

  // ---------------------------------------------------------------------------
  // Properties.

  /** A SETVAR whose EEPROM save fails leaves every variable as it was. */
  lemma SetVarRollsBack(vars: seq<Var>, vals: seq<uint32>, table: seq<Slot>, mem: map<uint16, uint32>,
                        fails: set<uint16>, at: nat, hasCb: bool, num: int, v: uint32)
    requires |vals| == |vars| && AddressType(at)
    requires forall i :: 0 <= i < |vals| ==> Fits(vals[i], vars[i].dtype)
    ensures SetVarSpec(vars, vals, table, mem, fails, at, hasCb, num, v).0 != NoError ==>
            SetVarSpec(vars, vals, table, mem, fails, at, hasCb, num, v).1 == vals
  {
    if ValidNum(vars, num) {
      AssignReadBack(vars, vals, num, v);
    }
  }

  /**
   * A GETVAR after a successful SETVAR of `v` answers `v` cut to the
   * variable's width: from RAM, or, for an EEPROM variable, reloaded from the
   * words the SETVAR saved (unless that reload fails).
   */
  lemma SetThenGet(vars: seq<Var>, vals: seq<uint32>, table: seq<Slot>, mem: map<uint16, uint32>,
                   wfails: set<uint16>, rfails: set<uint16>, at: nat, hasReadCb: bool, num: int, v: uint32)
    requires |vals| == |vars| && AddressType(at)
    requires SetVarSpec(vars, vals, table, mem, wfails, at, true, num, v).0 == NoError
    ensures var s := SetVarSpec(vars, vals, table, mem, wfails, at, true, num, v);
            var g := GetVarSpec(vars, s.1, table, s.2, rfails, at, hasReadCb, num);
            g.0 == NoError ==> g.2 == Some(Narrow(v, vars[num - 1].dtype))
  {
    var j := num - 1;
    var a := Assigned(vars, vals, num, v).1;
    var addr := Lookup(table, num);
    var s := SetVarSpec(vars, vals, table, mem, wfails, at, true, num, v);
    assert a[j] == Narrow(v, vars[j].dtype);
    if hasReadCb && vars[j].vartype == Eeprom {
      assert s.2 == Save(vars, a, j, addr, mem, wfails, at, true).1;
      if Reload(vars, a, j, addr, s.2, rfails, at, true).0 == NoError {
        SaveThenReload(vars, a, j, addr, mem, wfails, rfails, at);
      }
    }
  }

  /**
   * Once a new command has started a value transfer, asking again with the
   * same number continues it: the saved status and info are answered, the
   * command table is not called again, and only the first-packet bit drops.
   */
  lemma CommandContinues(c: ResponseControl, hasTable: bool, cmdCount: nat, cmd: Cmd, rsp: Response,
                         cb: (Ack, ProcessInfo), rsp2: Response, cb2: (Ack, ProcessInfo))
    requires CommandSpec(c, hasTable, cmdCount, cmd, rsp, cb).0 == NoError
    requires !c.ongoing || c.rsp.num != cmd.num
    requires cb.0 == SuccessData && cb.1.datLen > 0 && rsp.num == cmd.num
    ensures var first := CommandSpec(c, hasTable, cmdCount, cmd, rsp, cb);
            var next := CommandSpec(first.2, hasTable, cmdCount, cmd, rsp2, cb2);
            next.0 == NoError && next.1.status == SuccessData && next.1.info == cb.1 &&
            next.2 == first.2.(firstPacketNotSent := false)
  {
  }

  /**
   * An UPSTREAM request is refused unless the command with that number has
   * announced an upstream transfer: after any other status it fails.
   */
  lemma UpstreamNeedsAnnouncement(c: ResponseControl, hasTable: bool, cmdCount: nat, cmd: Cmd, rsp: Response,
                                  cb: (Ack, ProcessInfo), up: Cmd, rsp2: Response)
    requires !c.ongoing || c.rsp.num != cmd.num
    requires CommandSpec(c, hasTable, cmdCount, cmd, rsp, cb).0 == NoError
    ensures var first := CommandSpec(c, hasTable, cmdCount, cmd, rsp, cb);
            UpstreamSpec(first.2, up, rsp2).0 == NoError <==>
              cb.0 == SuccessUpstream && cb.1.datLen > 0 && up.num == rsp.num
  {
  }

  /**
   * With room for one value and its ',' (nine characters), every packet of a
   * value transfer takes at least one value, so the transfer ends after at
   * most as many packets as it has values.
   */
  lemma FillProgress(c: ResponseControl, max: nat)
    requires ControlFits(c) && c.rsp.cmdType == Command && c.rsp.info.dataBuf.Some? && c.rsp.info.datLen > 0
    requires max > 8
    ensures var p := NextPacket(c, max);
            p.control.rsp.info.datLen < c.rsp.info.datLen
  {
    var info := c.rsp.info;
    var vals := info.dataBuf.value;
    var x := vals[c.dataIdx];
    SlaveDataframe.FillFitsPacket(vals, info.datLen, max, c.dataIdx);
    HexTextAtMostEight(x);
    assert HexTexts([x]) == [HexText(x)];
    assert JoinHex([x]) == HexText(x);
    assert vals[c.dataIdx..c.dataIdx + 1] == [x];
  }

  /** The last packet of a transfer clears the control and frees the buffers the command allocated. */
  lemma FillEndsTransfer(c: ResponseControl, max: nat)
    requires ControlFits(c) && (c.rsp.cmdType == Command ==> c.rsp.info.dataBuf.Some?)
    requires c.rsp.cmdType == Upstream ==> c.rsp.info.upStreamBuf.Some?
    ensures var p := NextPacket(c, max);
            p.control.rsp.info.datLen == 0 <==> p.control == RESPONSECONTROL_DEFAULT
  {
  }
}
