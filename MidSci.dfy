// Src/SCI.c: the request parser and response builder of the middle device
// generation. Requests are `<number><identifier>[v1,v2,...]` and answers
// `<hex number><identifier><body>`; the answer to a COMMAND or UPSTREAM
// request draws its data from the response control of `executeCmd`'s
// `SCI_COMMANDS` instance (SlaveTransfer), through `fillBufferWithValues`.
module MidSci {
  import opened Base
  import opened Protocol
  import opened HexCodec
  import opened Text
  import opened Values
  import SlaveDataframe
  import opened SlaveTransfer

  // ---------------------------------------------------------------------------
  // `commandParser`

  /**
   * What `commandParser` returns and leaves in `*pCmd` for the `|msg|` received
   * bytes, starting from the command `cmd` the caller passes. The scan for the
   * identifier gives up at the first byte that is not one, so an identifier is
   * only found at offset 0 and the number text before it is always empty. The
   * value scan is the corrected one, which stops after `MAX_NUM_COMMAND_VALUES`
   * values. A value that fails to convert leaves the values before it stored and
   * its own entry overwritten.
   */
  function ParseCommand(msg: seq<char>, cmd: Cmd): (r: (SciError, Cmd))
    requires |cmd.valArr| == MAX_NUM_COMMAND_VALUES
    ensures |r.1.valArr| == MAX_NUM_COMMAND_VALUES
    ensures r.0 == CommandIdentifierNotFound <==> |msg| > 0 && TypeOfId(msg[0]).None?
    ensures r.0 == CommandIdentifierNotFound ==> r.1 == cmd
  {
    if |msg| > 0 && TypeOfId(msg[0]).None? then (CommandIdentifierNotFound, cmd)
    else
      var t := if |msg| > 0 then TypeOfId(msg[0]).value else cmd.cmdType;
      var number := StrToHexSpec(CString(msg[..0] + [NUL]));
      if !number.valid then (VariableNumberConversionFailed, cmd.(cmdType := t))
      else
        var c := cmd.(cmdType := t, num := ToInt16(number.value));
        if |msg| <= 1 then (NoError, c)
        else
          match FieldValues(Take(Split(msg[1..], ','), MAX_NUM_COMMAND_VALUES))
          case None =>
            var fs := Take(Split(msg[1..], ','), MAX_NUM_COMMAND_VALUES);
            (CommandValueConversionFailed, c.(valArr := Stored(c.valArr, Converted(fs))))
          case Some(vs) => (NoError, c.(valArr := Stored(c.valArr, vs), valArrLen := |vs|))
  }

  /**
   * `commandParser` (Src/SCI.c:163-283): the identifier scan, the number
   * conversion of the bytes before it, and the comma-separated values after it.
   */
  method CommandParser(msg: seq<char>, cmd: Cmd) returns (err: SciError, cmd': Cmd)
    requires |msg| < 0x100 && |cmd.valArr| == MAX_NUM_COMMAND_VALUES
    ensures (err, cmd') == ParseCommand(msg, cmd)
  {
    // The scan of lines 170-200 leaves in its first round: at an identifier
    // with `break`, at any other byte with the error. So it looks at offset 0 only.
    cmd' := cmd;
    var i := 0;
    if i < |msg| {
      if msg[i] == '?' {
        cmd' := cmd'.(cmdType := GetVar);
      } else if msg[i] == '!' {
        cmd' := cmd'.(cmdType := SetVar);
      } else if msg[i] == ':' {
        cmd' := cmd'.(cmdType := Command);
      } else if msg[i] == '>' {
        cmd' := cmd'.(cmdType := Upstream);
      } else if msg[i] == '<' {
        cmd' := cmd'.(cmdType := Downstream);
      } else {
        return CommandIdentifierNotFound, cmd;
      }
    }
    var valid, value := StrToHex(msg[..i] + [NUL]);
    if !valid {
      return VariableNumberConversionFailed, cmd';
    }
    cmd' := cmd'.(num := ToInt16(value));
    if |msg| > i + 1 {
      var fields := ScanFields(msg, i, |msg|, MAX_NUM_COMMAND_VALUES);
      assert msg[i + 1..|msg|] == msg[1..];
      var ok, vs := ConvertFields(fields);
      if !ok {
        return CommandValueConversionFailed, cmd'.(valArr := Stored(cmd'.valArr, vs));
      }
      cmd' := cmd'.(valArr := Stored(cmd'.valArr, vs), valArrLen := |vs|);
    }
    err := NoError;
  }

  /**
   * The value scan as written: it runs while `ui8_numOfVals <= MAX_NUM_COMMAND_VALUES`,
   * so it converts up to eleven fields, the eleventh into `valArr[10]`.
   */
  function ValuesAsWritten(msg: seq<char>): (r: Option<seq<uint32>>)
    requires |msg| > 1
    ensures r.Some? ==> |r.value| <= MAX_NUM_COMMAND_VALUES + 1
  {
    FieldValues(Take(Split(msg[1..], ','), MAX_NUM_COMMAND_VALUES + 1))
  }

  /**
   * With eleven values after the identifier, the scan as written converts all
   * eleven, the last of which it stores at index 10 of the 10-entry `valArr`;
   * the corrected scan stores the first ten and reports ten.
   */
  lemma ElevenValuesOverrun(vs: seq<uint32>, cmd: Cmd)
    requires |vs| == MAX_NUM_COMMAND_VALUES + 1 && |cmd.valArr| == MAX_NUM_COMMAND_VALUES
    ensures var msg := "?" + JoinHex(vs);
            ValuesAsWritten(msg) == Some(vs) && |vs| - 1 == |cmd.valArr| &&
            ParseCommand(msg, cmd) == (NoError, cmd.(cmdType := GetVar, num := 0, valArr := vs[..10], valArrLen := 10))
  {
    var msg := "?" + JoinHex(vs);
    assert msg[1..] == JoinHex(vs);
    var ts := HexTexts(vs);
    forall k | 0 <= k < |ts|
      ensures ',' !in ts[k]
    {
      DigitsFree(vs[k]);
    }
    SplitJoin(ts, ',');
    FieldValuesOfTexts(vs);
    assert Take(ts, 11) == ts;
    assert Take(ts, 10) == HexTexts(vs[..10]);
    FieldValuesOfTexts(vs[..10]);
    JoinHexNonEmpty(vs);
    assert msg[..0] + [NUL] == [NUL];
    StrToHexShortStrings(CString([NUL]));
    assert Stored(cmd.valArr, vs[..10]) == vs[..10];
  }

  // ---------------------------------------------------------------------------
  // Properties of the parser.

  /**
   * Only a request whose first byte is an identifier (or an empty one) gets
   * past the identifier scan, and every request that does carries number 0:
   * the number text before an identifier at offset 0 is empty.
   */
  lemma ParsedNumberIsZero(msg: seq<char>, cmd: Cmd)
    requires |cmd.valArr| == MAX_NUM_COMMAND_VALUES
    ensures var r := ParseCommand(msg, cmd);
            r.0 != CommandIdentifierNotFound ==>
              r.0 != VariableNumberConversionFailed && r.1.num == 0 &&
              (|msg| > 0 ==> r.1.cmdType == TypeOfId(msg[0]).value)
  {
    assert msg[..0] + [NUL] == [NUL];
    StrToHexShortStrings(CString([NUL]));
  }

  /**
   * A request whose values fail to convert keeps what the conversion stored up
   * to the failing value: the values before it, what `strToHex` left for it,
   * and the caller's entries after it.
   */
  lemma FailedValuesStored(msg: seq<char>, cmd: Cmd)
    requires |cmd.valArr| == MAX_NUM_COMMAND_VALUES
    ensures var r := ParseCommand(msg, cmd);
            r.0 == CommandValueConversionFailed ==>
              |msg| > 1 &&
              var fs := Take(Split(msg[1..], ','), MAX_NUM_COMMAND_VALUES);
              var n := |Converted(fs)|;
              1 <= n <= MAX_NUM_COMMAND_VALUES && FieldValue(fs[n - 1]).None? &&
              FieldValues(fs[..n - 1]) == Some(r.1.valArr[..n - 1]) &&
              r.1.valArr[n - 1] == WrittenValue(fs[n - 1]) && r.1.valArr[n..] == cmd.valArr[n..]
  {
    var r := ParseCommand(msg, cmd);
    if r.0 == CommandValueConversionFailed {
      var fs := Take(Split(msg[1..], ','), MAX_NUM_COMMAND_VALUES);
      FailedConversionStore(cmd.valArr, fs);
    }
  }

  /** A request "3?" is refused: its first byte is not an identifier. */
  lemma NumberedPollRefused(cmd: Cmd)
    requires |cmd.valArr| == MAX_NUM_COMMAND_VALUES
    ensures ParseCommand("3?", cmd) == (CommandIdentifierNotFound, cmd)
  {
  }

  /**
   * Up to ten values written after an identifier as the builder writes them
   * are read back in order, stored from `valArr[0]` on and counted.
   */
  lemma ValuesReadBack(t: ReqType, vs: seq<uint32>, cmd: Cmd)
    requires t != ReqNone && 1 <= |vs| <= MAX_NUM_COMMAND_VALUES && |cmd.valArr| == MAX_NUM_COMMAND_VALUES
    ensures var r := ParseCommand([IdChar(t)] + JoinHex(vs), cmd);
            r == (NoError, cmd.(cmdType := t, num := 0, valArr := Stored(cmd.valArr, vs), valArrLen := |vs|))
  {
    var msg := [IdChar(t)] + JoinHex(vs);
    IdCharRoundTrip(t);
    assert msg[1..] == JoinHex(vs);
    var ts := HexTexts(vs);
    forall k | 0 <= k < |ts|
      ensures ',' !in ts[k]
    {
      DigitsFree(vs[k]);
    }
    SplitJoin(ts, ',');
    FieldValuesOfTexts(vs);
    assert msg[..0] + [NUL] == [NUL];
    StrToHexShortStrings(CString([NUL]));
    JoinHexNonEmpty(vs);
  }

  // ---------------------------------------------------------------------------
  // `responseBuilder`

  /** The number's digits and the identifier every answer starts with (lines 290-300). */
  function Prefix(rsp: Response): (p: seq<char>)
    ensures 2 <= |p| <= 5
  {
    HexTextAtMostEight(ToUint16(rsp.num));
    HexTextLength(ToUint16(rsp.num), 4);
    HexText(ToUint16(rsp.num)) + [IdChar(rsp.cmdType)]
  }

  /**
   * The COMMAND header after the prefix, from the response control's bits:
   * the designator and, for DAT and UPS, ";" and the data length on the first
   * packet only, then the ';' before data that follows it (lines 330-359).
   */
  function CommandLead(rsp: Response, first: bool, ongoing: bool): (h: seq<char>)
    ensures |h| <= 13
  {
    var head :=
      if !first then []
      else if rsp.status == SuccessData || rsp.status == SuccessUpstream then
        HexTextAtMostEight(rsp.info.datLen);
        Designator(rsp.status) + ";" + HexText(rsp.info.datLen)
      else Designator(rsp.status);
    head + (if first && ongoing then ";" else "")
  }

  /**
   * One builder call: the characters written from offset 0, the size
   * returned, and the response control and freed buffers after it.
   */
  datatype Built = Built(written: seq<char>, size: nat, control: ResponseControl, freed: seq<Call>)

  /** Every answer but a COMMAND or UPSTREAM one: its complete text. */
  function PlainText(rsp: Response): (w: seq<char>)
    ensures |Prefix(rsp)| <= |w| <= 17 && w[..|Prefix(rsp)|] == Prefix(rsp)
  {
    var p := Prefix(rsp);
    if SlaveDataframe.AckOk(rsp.status) then
      if rsp.cmdType == GetVar then
        HexTextAtMostEight(rsp.val);
        p + "ACK;" + HexText(rsp.val)
      else if rsp.cmdType == SetVar then p + "ACK"
      else p
    else if rsp.info.error == 0 then p + "NAK"
    else
      HexTextLength(rsp.info.error, 4);
      p + "ERR;" + HexText(rsp.info.error)
  }

  /**
   * `responseBuilder` for `rsp` with the response control `c` and a transmit
   * packet of `txLen` bytes: a COMMAND answer is followed by the next values
   * while a transfer is ongoing, and an UPSTREAM answer by the next bytes,
   * each up to the end of the packet.
   */
  function Build(rsp: Response, c: ResponseControl, txLen: nat): (b: Built)
    requires ControlFits(c) && 18 <= txLen
    ensures b.size <= |b.written| <= txLen && ControlFits(b.control)
    ensures |Prefix(rsp)| <= |b.written| && b.written[..|Prefix(rsp)|] == Prefix(rsp)
  {
    if SlaveDataframe.AckOk(rsp.status) && rsp.cmdType == Command then
      var h := Prefix(rsp) + CommandLead(rsp, c.firstPacketNotSent, c.ongoing);
      if c.ongoing then DataBehind(h, c, txLen) else Built(h, |h|, c, [])
    else if SlaveDataframe.AckOk(rsp.status) && rsp.cmdType == Upstream then
      DataBehind(Prefix(rsp), c, txLen)
    else
      var w := PlainText(rsp);
      Built(w, |w|, c, [])
  }

  /** The header `h` followed by the next packet of the transfer, up to the end of the packet. */
  function DataBehind(h: seq<char>, c: ResponseControl, txLen: nat): (b: Built)
    requires ControlFits(c) && |h| <= txLen
    ensures b.size <= |b.written| <= txLen && ControlFits(b.control)
    ensures |h| <= |b.written| && b.written[..|h|] == h
  {
    var p := NextPacket(c, txLen - |h|);
    Built(h + p.text, |h| + p.size, p.control, p.freed)
  }

  /**
   * `responseBuilder` (Src/SCI.c:286-399): writes the answer for `rsp` at the
   * start of the transmit buffer and returns its size; `sc` is the
   * `SCI_COMMANDS` instance whose response control the data come from.
   */
  method ResponseBuilder(buf: array<char>, sc: SciCommands, rsp: Response) returns (size: nat)
    requires sc.Valid() && 18 <= buf.Length < 0x100
    modifies buf, sc
    ensures sc.Valid()
    ensures var b := Build(rsp, old(sc.control), buf.Length);
            buf[..] == Overlay(old(buf[..]), 0, b.written) && size == b.size &&
            sc.control == b.control && sc.calls == old(sc.calls) + b.freed
  {
    ghost var b0 := buf[..];
    var n := PrefixOut(buf, rsp);
    if SlaveDataframe.AckOk(rsp.status) && rsp.cmdType == Command {
      size := CommandBody(buf, b0, n, sc, rsp);
    } else if SlaveDataframe.AckOk(rsp.status) && rsp.cmdType == Upstream {
      size := DataOut(buf, b0, Prefix(rsp), n, sc);
    } else {
      size := PlainBody(buf, b0, n, rsp);
    }
  }

  /** Lines 290-300: the number's digits and the identifier. */
  method PrefixOut(buf: array<char>, rsp: Response) returns (n: nat)
    requires 18 <= buf.Length
    modifies buf
    ensures n == |Prefix(rsp)| && buf[..] == Overlay(old(buf[..]), 0, Prefix(rsp))
  {
    ghost var b0 := buf[..];
    ghost var d := HexText(ToUint16(rsp.num));
    OverlayEmpty(b0);
    var m := EmitHex(buf, b0, [], 0, ToUint16(rsp.num));
    assert [] + d == d;
    Emit(buf, b0, d, m, [IdChar(rsp.cmdType)]);
    n := m + 1;
  }

  /** The GETVAR, SETVAR, default and refusal branches (lines 303-326, 369-396). */
  method PlainBody(buf: array<char>, ghost b0: seq<char>, at: nat, rsp: Response) returns (size: nat)
    requires !(SlaveDataframe.AckOk(rsp.status) && (rsp.cmdType == Command || rsp.cmdType == Upstream))
    requires 18 <= buf.Length == |b0| && at == |Prefix(rsp)| && buf[..] == Overlay(b0, 0, Prefix(rsp))
    modifies buf
    ensures size == |PlainText(rsp)| && buf[..] == Overlay(b0, 0, PlainText(rsp))
  {
    ghost var p := Prefix(rsp);
    size := at;
    if SlaveDataframe.AckOk(rsp.status) {
      if rsp.cmdType == GetVar {
        Emit(buf, b0, p, size, "ACK;");
        var m := EmitHex(buf, b0, p + "ACK;", size + 4, rsp.val);
        size := size + 4 + m;
      } else if rsp.cmdType == SetVar {
        Emit(buf, b0, p, size, "ACK");
        size := size + 3;
      }
    } else if rsp.info.error == 0 {
      Emit(buf, b0, p, size, "NAK");
      size := size + 3;
    } else {
      Emit(buf, b0, p, size, "ERR;");
      HexTextLength(rsp.info.error, 4);
      var m := EmitHex(buf, b0, p + "ERR;", size + 4, rsp.info.error);
      size := size + 4 + m;
    }
  }

  /** The COMMAND branch (lines 328-363), after the prefix. */
  method CommandBody(buf: array<char>, ghost b0: seq<char>, at: nat, sc: SciCommands, rsp: Response)
    returns (size: nat)
    requires SlaveDataframe.AckOk(rsp.status) && rsp.cmdType == Command && sc.Valid()
    requires 18 <= buf.Length == |b0| < 0x100 && at == |Prefix(rsp)| && buf[..] == Overlay(b0, 0, Prefix(rsp))
    modifies buf, sc
    ensures sc.Valid()
    ensures var b := Build(rsp, old(sc.control), buf.Length);
            buf[..] == Overlay(b0, 0, b.written) && size == b.size &&
            sc.control == b.control && sc.calls == old(sc.calls) + b.freed
  {
    ghost var h := Prefix(rsp) + CommandLead(rsp, sc.control.firstPacketNotSent, sc.control.ongoing);
    size := LeadOut(buf, b0, at, rsp, sc.control.firstPacketNotSent, sc.control.ongoing);
    if sc.control.ongoing {
      size := DataOut(buf, b0, h, size, sc);
    } else {
      assert h + [] == h;
    }
  }

  /** Lines 330-359: the designator, the data length and the ';' before the data. */
  method LeadOut(buf: array<char>, ghost b0: seq<char>, at: nat, rsp: Response, first: bool, ongoing: bool)
    returns (size: nat)
    requires 18 <= buf.Length == |b0| && at == |Prefix(rsp)| && buf[..] == Overlay(b0, 0, Prefix(rsp))
    modifies buf
    ensures size == |Prefix(rsp) + CommandLead(rsp, first, ongoing)|
    ensures buf[..] == Overlay(b0, 0, Prefix(rsp) + CommandLead(rsp, first, ongoing))
  {
    ghost var p := Prefix(rsp);
    ghost var lead: seq<char> := [];
    size := at;
    if first {
      var d := Designator(rsp.status);
      Emit(buf, b0, p, size, d);
      lead := d;
      size := size + 3;
      if rsp.status == SuccessData || rsp.status == SuccessUpstream {
        Emit(buf, b0, p + lead, size, ";");
        assert p + lead + ";" == p + (lead + ";");
        lead := lead + ";";
        var m := EmitHex(buf, b0, p + lead, size + 1, rsp.info.datLen);
        assert p + lead + HexText(rsp.info.datLen) == p + (lead + HexText(rsp.info.datLen));
        lead := lead + HexText(rsp.info.datLen);
        size := size + 1 + m;
      }
    }
    if ongoing && first {
      Emit(buf, b0, p + lead, size, ";");
      assert p + lead + ";" == p + (lead + ";");
      lead := lead + ";";
      size := size + 1;
    }
    assert p + lead == p + CommandLead(rsp, first, ongoing);
  }

  /** Lines 360 and 366: the next packet of the transfer behind the text `h` written so far. */
  method DataOut(buf: array<char>, ghost b0: seq<char>, ghost h: seq<char>, at: nat, sc: SciCommands)
    returns (size: nat)
    requires sc.Valid() && buf.Length == |b0| < 0x100 && at == |h| <= buf.Length && buf[..] == Overlay(b0, 0, h)
    modifies buf, sc
    ensures sc.Valid()
    ensures var b := DataBehind(h, old(sc.control), buf.Length);
            buf[..] == Overlay(b0, 0, b.written) && size == b.size &&
            sc.control == b.control && sc.calls == old(sc.calls) + b.freed
  {
    ghost var p := NextPacket(sc.control, buf.Length - at);
    var n := sc.FillBufferWithValues(buf, at, buf.Length - at);
    OverlayAppend(b0, h, p.text);
    size := at + n;
  }

  // ---------------------------------------------------------------------------
  // Properties of the builder.

  /** A successful GETVAR is answered with the prefix, "ACK;" and the value's digits, which read back as the value. */
  lemma PollAnswer(rsp: Response, c: ResponseControl, txLen: nat)
    requires ControlFits(c) && 18 <= txLen
    requires rsp.cmdType == GetVar && SlaveDataframe.AckOk(rsp.status)
    ensures var b := Build(rsp, c, txLen);
            b.written == Prefix(rsp) + "ACK;" + HexText(rsp.val) && b.size == |b.written| && b.control == c &&
            StrToHexSpec(b.written[|Prefix(rsp)| + 4..]) == HexParse(true, rsp.val)
  {
    var w := Prefix(rsp) + "ACK;" + HexText(rsp.val);
    assert w[|Prefix(rsp)| + 4..] == HexText(rsp.val);
    HexRoundTrip(rsp.val);
  }

  /**
   * A refused request is answered with "NAK" when no error number was set and
   * with "ERR;" and the error's digits otherwise; the size covers exactly that
   * text and the response control is untouched.
   */
  lemma BuildRefusal(rsp: Response, c: ResponseControl, txLen: nat)
    requires ControlFits(c) && 18 <= txLen && !SlaveDataframe.AckOk(rsp.status)
    ensures var b := Build(rsp, c, txLen);
            b.size == |b.written| && b.control == c && b.freed == [] &&
            (rsp.info.error == 0 ==> b.written == Prefix(rsp) + "NAK") &&
            (rsp.info.error != 0 ==> b.written == Prefix(rsp) + "ERR;" + HexText(rsp.info.error) &&
                                     StrToHexSpec(b.written[|Prefix(rsp)| + 4..]) == HexParse(true, rsp.info.error))
  {
    if rsp.info.error != 0 {
      var w := Prefix(rsp) + "ERR;" + HexText(rsp.info.error);
      assert w[|Prefix(rsp)| + 4..] == HexText(rsp.info.error);
      HexRoundTrip(rsp.info.error);
    }
  }

  /**
   * Every answer starts with the number's digits and the identifier of its
   * kind, which the parser maps back to that kind.
   */
  lemma BuildEchoesKind(rsp: Response, c: ResponseControl, txLen: nat)
    requires ControlFits(c) && 18 <= txLen
    ensures var b := Build(rsp, c, txLen);
            var d := HexText(ToUint16(rsp.num));
            b.written[..|d| + 1] == d + [IdChar(rsp.cmdType)] &&
            StrToHexSpec(d) == HexParse(true, ToUint16(rsp.num)) &&
            (rsp.cmdType != ReqNone ==> TypeOfId(b.written[|d|]) == Some(rsp.cmdType))
  {
    HexRoundTrip(ToUint16(rsp.num));
    IdCharRoundTrip(rsp.cmdType);
  }

  /**
   * The first packet of a value transfer carries the designator "DAT", ';',
   * the data length and ';' before the values; later packets carry the
   * values right after the identifier.
   */
  lemma CommandPackets(rsp: Response, c: ResponseControl, txLen: nat)
    requires ControlFits(c) && 18 <= txLen && rsp.cmdType == Command && rsp.status == SuccessData && c.ongoing
    ensures c.firstPacketNotSent ==>
              Build(rsp, c, txLen) == DataBehind(Prefix(rsp) + "DAT;" + HexText(rsp.info.datLen) + ";", c, txLen)
    ensures !c.firstPacketNotSent ==> Build(rsp, c, txLen) == DataBehind(Prefix(rsp), c, txLen)
  {
    assert Designator(SuccessData) == "DAT";
    if c.firstPacketNotSent {
      assert CommandLead(rsp, true, true) == "DAT;" + HexText(rsp.info.datLen) + ";";
      assert Prefix(rsp) + CommandLead(rsp, true, true) == Prefix(rsp) + "DAT;" + HexText(rsp.info.datLen) + ";";
    } else {
      assert CommandLead(rsp, false, true) == [];
      assert Prefix(rsp) + [] == Prefix(rsp);
    }
  }

}
