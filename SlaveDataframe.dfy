// The request parser, response builder and value packer of the newest device
// generation (C/Slave/Src/SCISlaveDataframe.c). A request arrives as the bytes
// between STX and ETX, `<hex number><identifier>[v1,v2,...]`; the response is
// written into the 128-byte transmit buffer as `<hex number><identifier><body>`.
module SlaveDataframe {
  import opened Base
  import opened Protocol
  import opened HexCodec
  import opened Text
  import opened Values

  /** `MAX_NUM_REQUEST_VALUES` (C/config/SCIconfig.h:46). */
  const MAX_NUM_REQUEST_VALUES: nat := 10
  /** `TX_PACKET_LENGTH` (C/config/SCIconfig.h:28). */
  const TX_PACKET_LENGTH: nat := 128

  /**
   * `tsREQUEST`: the number, the kind, and the values the parser stored through
   * `uValArr` with their count.
   */
  datatype Request = Request(num: int16, reqType: ReqType, vals: seq<uint32>, valArrLen: uint8)

  /**
   * `tsREQUEST_DEFAULTS` with no value storage: the source's defaults leave
   * `uValArr` NULL, so the parser's first stored value would be written through
   * NULL; the model's `vals` is a sequence that grows to hold the values instead.
   */
  const REQUEST_DEFAULTS: Request := Request(0, ReqNone, [], 0)

  /** The offset of the first request identifier in `s`, or `|s|` when there is none. */
  function FindId(s: seq<char>): (i: nat)
    ensures i <= |s| && (i < |s| ==> TypeOfId(s[i]).Some?)
    ensures forall k :: 0 <= k < i ==> TypeOfId(s[k]).None?
  {
    if s == [] then 0
    else if TypeOfId(s[0]).Some? then 0
    else 1 + FindId(s[1..])
  }

  lemma {:induction false} FindIdIs(s: seq<char>, i: nat)
    requires i <= |s| && (i < |s| ==> TypeOfId(s[i]).Some?)
    requires forall k :: 0 <= k < i ==> TypeOfId(s[k]).None?
    ensures FindId(s) == i
  {
    if i > 0 {
      assert TypeOfId(s[0]).None?;
      forall k | 0 <= k < i - 1
        ensures TypeOfId(s[1..][k]).None?
      {
        assert s[1..][k] == s[k + 1];
      }
      FindIdIs(s[1..], i - 1);
    }
  }

  /**
   * What `SCISlaveRequestParser` returns and leaves in `*psReq` for the `|msg|`
   * received bytes, starting from the request `req` the caller passes. Fields not
   * reached before an error keep their former contents; a value that fails to
   * convert leaves the values before it stored and its own entry overwritten.
   */
  function ParseRequest(msg: seq<char>, req: Request): (r: (SciError, Request))
  {
    var i := FindId(msg);
    var t := if i < |msg| then TypeOfId(msg[i]).value else req.reqType;
    if t == ReqNone then (RequestIdentifierNotFound, req)
    else
      var number := StrToHexSpec(CString(msg[..i] + [NUL]));
      if !number.valid then (VariableNumberConversionFailed, req.(reqType := t))
      else
        var req' := req.(reqType := t, num := ToInt16(number.value));
        if |msg| <= i + 1 then (NoError, req')
        else WithValues(msg[i + 1..], req')
  }

  /**
   * The value list `rest` after the identifier converted and stored into `req`;
   * `vals` stands for the storage behind `uValArr` and grows to hold the values.
   */
  function WithValues(rest: seq<char>, req: Request): (r: (SciError, Request))
  {
    var fs := Take(Split(rest, ','), MAX_NUM_REQUEST_VALUES + 1);
    match FieldValues(fs)
    case None => (RequestValueConversionFailed, req.(vals := Stored(req.vals, Converted(fs))))
    case Some(vs) => (NoError, req.(vals := Stored(req.vals, vs), valArrLen := |vs|))
  }

  /** The value scan and conversion of lines 111-155, after the identifier at offset `i`. */
  method StoreValues(msg: seq<char>, i: nat, req: Request) returns (err: SciError, req': Request)
    requires i + 1 < |msg| < 0x100
    ensures (err, req') == WithValues(msg[i + 1..], req)
  {
    var fields := ScanFields(msg, i, |msg|, MAX_NUM_REQUEST_VALUES + 1);
    assert msg[i + 1..|msg|] == msg[i + 1..];
    var ok, vs := ConvertFields(fields);
    if !ok {
      return RequestValueConversionFailed, req.(vals := Stored(req.vals, vs));
    }
    return NoError, req.(vals := Stored(req.vals, vs), valArrLen := |vs|);
  }

  /** `SCISlaveRequestParser` (C/Slave/Src/SCISlaveDataframe.c:41-159). */
  method RequestParser(msg: seq<char>, req: Request) returns (err: SciError, req': Request)
    requires |msg| < 0x100
    ensures (err, req') == ParseRequest(msg, req)
  {
    req' := req;
    var i := 0;
    while i < |msg|
      invariant i <= |msg| && req' == req
      invariant forall k :: 0 <= k < i ==> TypeOfId(msg[k]).None?
    {
      if msg[i] == '?' {
        req' := req'.(reqType := GetVar);
        break;
      } else if msg[i] == '!' {
        req' := req'.(reqType := SetVar);
        break;
      } else if msg[i] == ':' {
        req' := req'.(reqType := Command);
        break;
      } else if msg[i] == '>' {
        req' := req'.(reqType := Upstream);
        break;
      } else if msg[i] == '<' {
        req' := req'.(reqType := Downstream);
        break;
      }
      i := i + 1;
    }
    FindIdIs(msg, i);
    if req'.reqType == ReqNone {
      err := RequestIdentifierNotFound;
      return;
    }
    var valid, value := StrToHex(msg[..i] + [NUL]);
    if !valid {
      err := VariableNumberConversionFailed;
      return;
    }
    req' := req'.(num := ToInt16(value));
    if |msg| > i + 1 {
      err, req' := StoreValues(msg, i, req');
      return;
    }
    err := NoError;
  }

  /** No digit is an identifier. */
  lemma DigitsHoldNoId(t: seq<char>)
    requires AllHex(t)
    ensures forall k :: 0 <= k < |t| ==> TypeOfId(t[k]).None?
  {
    forall k | 0 <= k < |t|
      ensures TypeOfId(t[k]).None?
    {
      assert IsHexDigit(t[k]);
    }
  }

  /**
   * A request written as the host writes it, the digits of `n`, the identifier of
   * `t` and at most eleven comma-separated values, is parsed into exactly that
   * number (as the `int16_t` its low 16 bits make), kind and value list.
   */
  lemma ParseRequestRoundTrip(n: uint32, t: ReqType, vs: seq<uint32>, req: Request)
    requires t != ReqNone && |vs| <= MAX_NUM_REQUEST_VALUES + 1
    requires |HexText(n) + [IdChar(t)] + JoinHex(vs)| < 0x100
    ensures vs != [] ==>
      ParseRequest(HexText(n) + [IdChar(t)] + JoinHex(vs), req) ==
      (NoError, req.(reqType := t, num := ToInt16(n), vals := Stored(req.vals, vs), valArrLen := |vs|))
    ensures vs == [] ==>
      ParseRequest(HexText(n) + [IdChar(t)], req) == (NoError, req.(reqType := t, num := ToInt16(n)))
  {
    var d := HexText(n);
    HexTextAllHex(n);
    DigitsHoldNoId(d);
    IdCharRoundTrip(t);
    var msg := d + [IdChar(t)] + JoinHex(vs);
    assert msg[|d|] == IdChar(t);
    forall k | 0 <= k < |d|
      ensures TypeOfId(msg[k]).None?
    {
      assert msg[k] == d[k];
    }
    FindIdIs(msg, |d|);
    assert msg[..|d|] == d;
    DigitsFree(n);
    CStringOfField(d);
    HexRoundTrip(n);
    if vs != [] {
      assert msg[|d| + 1..] == JoinHex(vs);
      assert |HexText(vs[0])| >= 1;
      assert HexTexts(vs)[0] == HexText(vs[0]);
      JoinHexReadBack(vs);
      var fs := Split(JoinHex(vs), ',');
      assert Take(fs, MAX_NUM_REQUEST_VALUES + 1) == fs;
      assert FieldValues(Take(Split(msg[|d| + 1..], ','), MAX_NUM_REQUEST_VALUES + 1)) == Some(vs);
    } else {
      assert JoinHex(vs) == [];
      assert msg == d + [IdChar(t)];
    }
  }

  /** `3?`, the request of C/Test/UnitTests.c:32, is a GETVAR of variable 3 without values. */
  lemma ParsePollThree()
    ensures ParseRequest("3?", REQUEST_DEFAULTS) == (NoError, REQUEST_DEFAULTS.(reqType := GetVar, num := 3))
  {
    ParseRequestRoundTrip(3, GetVar, [], REQUEST_DEFAULTS);
    assert HexText(3) == "3";
    assert HexText(3) + [IdChar(GetVar)] == "3?";
  }

  /**
   * "3!5" from the defaults is a SETVAR of variable 3 with the value 5 stored
   * in the model's own value storage, where the source writes it through NULL.
   */
  lemma SetFromDefaults()
    ensures ParseRequest("3!5", REQUEST_DEFAULTS) ==
      (NoError, REQUEST_DEFAULTS.(reqType := SetVar, num := 3, vals := [5], valArrLen := 1))
  {
    ParseRequestRoundTrip(3, SetVar, [5], REQUEST_DEFAULTS);
    assert HexText(3) == "3" && HexText(5) == "5";
    assert JoinHex([5]) == "5";
    assert HexText(3) + [IdChar(SetVar)] + JoinHex([5]) == "3!5";
  }

  /** Without an identifier the default request is refused and left as it was. */
  lemma ParseWithoutId(msg: seq<char>)
    requires forall k :: 0 <= k < |msg| ==> TypeOfId(msg[k]).None?
    ensures ParseRequest(msg, REQUEST_DEFAULTS) == (RequestIdentifierNotFound, REQUEST_DEFAULTS)
  {
    FindIdIs(msg, |msg|);
  }

  /**
   * Number text that is not all upper-case hex digits (at most 8 of them) is refused
   * with the kind already taken over.
   */
  lemma ParseBadNumber(d: seq<char>, c: char, rest: seq<char>, req: Request)
    requires TypeOfId(c).Some? && |d| <= 8 && !AllHex(d) && NUL !in d
    requires forall k :: 0 <= k < |d| ==> TypeOfId(d[k]).None?
    ensures ParseRequest(d + [c] + rest, req) == (VariableNumberConversionFailed, req.(reqType := TypeOfId(c).value))
  {
    var msg := d + [c] + rest;
    assert msg[|d|] == c;
    forall k | 0 <= k < |d|
      ensures TypeOfId(msg[k]).None?
    {
      assert msg[k] == d[k];
    }
    FindIdIs(msg, |d|);
    assert msg[..|d|] == d;
    CStringOfField(d);
    StrToHexShortStrings(d);
  }

  /**
   * `tsRESPONSE` as the builder reads it: number, kind, acknowledge, the transfer
   * data's upstream byte buffer and value array (None for NULL), the remaining data
   * length and the error number.
   */
  datatype Response = Response(
    num: int16, reqType: ReqType, ack: Ack,
    upStreamBuf: Option<seq<char>>, respVals: Option<seq<uint32>>,
    datLen: uint32, error: uint16)

  /** The number and identifier every response starts with (lines 166-176). */
  function Prefix(rsp: Response): (p: seq<char>)
    ensures 2 <= |p| <= 5
  {
    HexTextAtMostEight(ToUint16(rsp.num));
    HexTextLength(ToUint16(rsp.num), 4);
    HexText(ToUint16(rsp.num)) + [IdChar(rsp.reqType)]
  }

  /** The acknowledges the builder answers with a designator of their own. */
  predicate AckOk(a: Ack)
  {
    !(a == Error || a == Unknown)
  }

  /**
   * What a packet-filling call does: `text` is written at the fill position,
   * `size` of its characters count (a withdrawn ',' may follow them), and the data
   * index and the remaining data length become `idx` and `datLen`.
   */
  datatype Fill = Fill(text: seq<char>, size: nat, idx: nat, datLen: nat)

  /** The memory `_SCIFillBufferWithValues` reads from for the response `rsp` at index `idx`. */
  predicate FillReads(rsp: Response, max: nat, idx: nat)
  {
    (rsp.reqType == Upstream && rsp.upStreamBuf.Some? ==> idx + Min(rsp.datLen, max) <= |rsp.upStreamBuf.value|) &&
    (rsp.reqType == Command && rsp.respVals.Some? ==> idx + rsp.datLen <= |rsp.respVals.value|)
  }

  /**
   * `_SCIFillBufferWithValues` with the data index advanced per value, as its
   * comments and `fillBufferWithValues` of C/Slave/Src/SCISlaveTransfer.c do.
   */
  function FillSpec(rsp: Response, max: nat, idx: nat): (f: Fill)
    requires FillReads(rsp, max, idx)
    ensures f.size <= |f.text| <= max
    ensures f.datLen <= rsp.datLen && f.idx == idx + (rsp.datLen - f.datLen)
  {
    if rsp.reqType == Upstream && rsp.upStreamBuf.Some? then UpstreamFill(rsp.upStreamBuf.value, rsp.datLen, max, idx)
    else if rsp.reqType == Command && rsp.respVals.Some? then CommandFill(rsp.respVals.value, rsp.datLen, max, idx)
    else Fill([], 0, idx, rsp.datLen)
  }

  /** Upstream bytes are copied raw: the next `min(datLen, max)` of them. */
  function UpstreamFill(bytes: seq<char>, datLen: nat, max: nat, idx: nat): (f: Fill)
    requires idx + Min(datLen, max) <= |bytes|
    ensures f.size == |f.text| == Min(datLen, max) && f.idx == idx + f.size && f.datLen == datLen - f.size
  {
    var m := Min(datLen, max);
    Fill(bytes[idx..idx + m], m, idx + m, datLen - m)
  }

  /** Command values are packed from `vals[idx]` on, as many as stay below `max` characters. */
  function CommandFill(vals: seq<uint32>, datLen: nat, max: nat, idx: nat): (f: Fill)
    requires idx + datLen <= |vals|
    ensures f.size <= |f.text| <= max
    ensures f.datLen <= datLen && f.idx == idx + (datLen - f.datLen)
  {
    var src := vals[idx..idx + datLen];
    var k := PackCount(src, datLen, max, 0);
    Fill(JoinHex(src[..k]) + Comma(k > 0), |JoinHex(src[..k])|, idx + k, datLen - k)
  }

  /**
   * `_SCIFillBufferWithValues` (C/Slave/Src/SCISlaveDataframe.c:282-374), corrected to
   * advance the data index per value: raw upstream bytes, or as many comma-separated
   * values as stay below `max` characters.
   */
  method FillBufferWithValues(buf: array<char>, at: nat, max: nat, idx: nat, rsp: Response)
    returns (size: nat, idx': nat, datLen': uint32)
    requires max < 0x100 && at + max <= buf.Length && FillReads(rsp, max, idx)
    modifies buf
    ensures var f := FillSpec(rsp, max, idx);
      at + |f.text| <= buf.Length &&
      buf[..] == Overlay(old(buf[..]), at, f.text) && size == f.size && idx' == f.idx && datLen' == f.datLen
  {
    if rsp.reqType == Upstream && rsp.upStreamBuf.Some? {
      size := FillUpstream(buf, at, max, idx, rsp.upStreamBuf.value, rsp.datLen);
      idx', datLen' := idx + size, rsp.datLen - size;
    } else if rsp.reqType == Command && rsp.respVals.Some? {
      var k;
      size, k := PackFrom(buf, at, max, idx, rsp.respVals.value, rsp.datLen);
      idx', datLen' := idx + k, rsp.datLen - k;
    } else {
      size, idx', datLen' := 0, idx, rsp.datLen;
      OverlayNothing(buf[..], at);
    }
  }

  lemma OverlayNothing(b: seq<char>, at: nat)
    requires at <= |b|
    ensures Overlay(b, at, []) == b
  {
  }

  /** The upstream branch of lines 286-299: `memcpy` of the next bytes. */
  method FillUpstream(buf: array<char>, at: nat, max: nat, idx: nat, bytes: seq<char>, datLen: nat) returns (m: nat)
    requires at + max <= buf.Length && idx + Min(datLen, max) <= |bytes|
    modifies buf
    ensures var f := UpstreamFill(bytes, datLen, max, idx);
      m == f.size && buf[..] == Overlay(old(buf[..]), at, f.text)
  {
    m := if datLen < max then datLen else max;
    ghost var b := buf[..];
    var t := bytes[idx..idx + m];
    WriteText(buf, at, t);
    PackedOverlay(b, buf[..], at, t, m);
    assert UpstreamFill(bytes, datLen, max, idx).text == t;
  }

  /**
   * The packing loop of lines 325-370 with the index advanced per value: the values
   * from `vals[idx]` on, `datLen` of them left.
   */
  method PackFrom(buf: array<char>, at: nat, max: nat, idx: nat, vals: seq<uint32>, datLen: nat)
    returns (size: nat, k: nat)
    requires max < 0x100 && at + max <= buf.Length && idx + datLen <= |vals|
    modifies buf
    ensures var f := CommandFill(vals, datLen, max, idx);
      k == f.idx - idx && size == f.size && buf[..] == Overlay(old(buf[..]), at, f.text)
  {
    size, k := Pack(buf, at, vals[idx..idx + datLen], datLen, max);
  }

  /**
   * The values the packing loop of lines 325-370 reads as written. Round one reads
   * `puRespVals[*pui32DataIdx]`, the entry at the caller's index. `*pui32DataIdx++`
   * (line 349) then moves the local pointer instead of the index, so from round two
   * on line 338 indexes `puRespVals` with the words that follow `ui32DataIdx` in
   * `tsRESPONSECONTROL` (C/Slave/Inc/SCISlaveTransfer.h:93-94), the start of `sRsp`.
   * The model does not track those words: what the later rounds read is `later`.
   */
  function ReadAsWritten(vals: seq<uint32>, idx: nat, datLen: nat, later: seq<uint32>): (src: seq<uint32>)
    requires datLen > 0 ==> idx < |vals| && |later| >= datLen - 1
    ensures |src| == datLen
    ensures datLen > 0 ==> src[0] == vals[idx] && src[1..] == later[..datLen - 1]
  {
    if datLen == 0 then [] else [vals[idx]] + later[..datLen - 1]
  }

  /**
   * The packing loop of lines 325-370 as written: it packs what `ReadAsWritten` reads,
   * and the caller's index comes back unchanged, so the next packet starts again at
   * the same entry.
   */
  method PackAsWritten(buf: array<char>, at: nat, max: nat, idx: nat, vals: seq<uint32>, datLen: nat,
                       later: seq<uint32>)
    returns (size: nat, idx': nat, k: nat)
    requires max < 0x100 && at + max <= buf.Length && (datLen > 0 ==> idx < |vals| && |later| >= datLen - 1)
    modifies buf
    ensures var src := ReadAsWritten(vals, idx, datLen, later);
      k == PackCount(src, datLen, max, 0) && size == |JoinHex(src[..k])| && size + |Comma(k > 0)| <= max &&
      idx' == idx && buf[..] == Overlay(old(buf[..]), at, JoinHex(src[..k]) + Comma(k > 0))
  {
    size, k := Pack(buf, at, ReadAsWritten(vals, idx, datLen, later), datLen, max);
    idx' := idx;
  }

  /**
   * As written, the values 1 and 2 go out as "1," followed by whatever the untracked
   * second read finds, which is the intended "1,2" only if that word happens to be 2;
   * the corrected packet is "1,2" and moves the index past both values.
   */
  lemma PackAsWrittenSecondValue(later: seq<uint32>)
    requires |later| >= 1
    ensures var src := ReadAsWritten([1, 2], 0, 2, later);
      PackCount(src, 2, 128, 0) == 2 && JoinHex(src[..2]) == "1," + HexText(later[0]) &&
      (JoinHex(src[..2]) == JoinHex([1, 2]) <==> later[0] == 2)
  {
    var src := ReadAsWritten([1, 2], 0, 2, later);
    var x := later[0];
    assert src == [1, x] && src[..2] == src;
    assert HexText(1) == "1" && HexText(2) == "2";
    assert JoinHex(src[..1]) == "1" by {
      assert src[..1] == [1] && HexTexts([1]) == ["1"];
    }
    assert JoinHex(src[..2]) == "1," + HexText(x) by {
      JoinHexSnoc(src, 1);
    }
    HexTextAtMostEight(x);
    assert JoinHex([1, 2]) == "1,2" by {
      var two: seq<uint32> := [1, 2];
      assert two[..1] == [1] && two[..2] == two && HexTexts([1]) == ["1"];
      JoinHexSnoc(two, 1);
    }
    if JoinHex(src[..2]) == JoinHex([1, 2]) {
      var t := "1," + HexText(x);
      assert t[2..] == HexText(x);
      assert HexText(x) == "2";
      HexTextAllHex(x);
      HexTextAllHex(2);
    }
  }

  /** Corrected, the values 1 and 2 go out as "1,2" and the index moves past both. */
  lemma FillPairCorrected()
    ensures var f := CommandFill([1, 2], 2, 128, 0);
      f.idx == 2 && f.datLen == 0 && f.text[..f.size] == "1,2"
  {
    var two: seq<uint32> := [1, 2];
    assert two[0..2] == two && two[..2] == two;
    assert HexText(1) == "1" && HexText(2) == "2";
    assert JoinHex(two[..1]) == "1" by {
      assert two[..1] == [1] && HexTexts([1]) == ["1"];
    }
    assert JoinHex(two) == "1,2" by {
      JoinHexSnoc(two, 1);
    }
    assert PackCount(two, 2, 128, 0) == 2;
    FillCarriesNextValues(two, 2, 128, 0);
  }

  /**
   * Corrected, the values a packet carries are read back from it in order as the next
   * ones from the index, and the index moves past them.
   */
  lemma FillCarriesNextValues(vals: seq<uint32>, datLen: nat, max: nat, idx: nat)
    requires idx + datLen <= |vals|
    ensures var f := CommandFill(vals, datLen, max, idx);
      var k := f.idx - idx;
      f.text[..f.size] == JoinHex(vals[idx..idx + k]) &&
      (k > 0 ==> FieldValues(Split(f.text[..f.size], ',')) == Some(vals[idx..idx + k]))
  {
    var f := CommandFill(vals, datLen, max, idx);
    CommandFillText(vals, datLen, max, idx);
    if f.idx > idx {
      JoinHexReadBack(vals[idx..f.idx]);
    }
  }

  lemma CommandFillText(vals: seq<uint32>, datLen: nat, max: nat, idx: nat)
    requires idx + datLen <= |vals|
    ensures var f := CommandFill(vals, datLen, max, idx);
      f.text[..f.size] == JoinHex(vals[idx..f.idx])
  {
    var src := vals[idx..idx + datLen];
    var k := PackCount(src, datLen, max, 0);
    var t := JoinHex(src[..k]);
    assert CommandFill(vals, datLen, max, idx) == Fill(t + Comma(k > 0), |t|, idx + k, datLen - k);
    assert (t + Comma(k > 0))[..|t|] == t;
    assert src[..k] == vals[idx..idx + k];
  }

  /** The values of a packet stay below `max` characters and only stop early for lack of room. */
  lemma FillFitsPacket(vals: seq<uint32>, datLen: nat, max: nat, idx: nat)
    requires idx + datLen <= |vals|
    ensures var f := CommandFill(vals, datLen, max, idx);
      (max > 0 ==> f.size < max) &&
      (f.datLen > 0 ==> |JoinHex(vals[idx..f.idx + 1])| >= max)
  {
    var src := vals[idx..idx + datLen];
    var k := PackCount(src, datLen, max, 0);
    if k < datLen {
      assert src[..k + 1] == vals[idx..idx + k + 1];
    }
    if k == 0 {
      assert src[..0] == [];
      assert HexTexts([]) == [];
    }
  }

  /** An upstream packet is the next `min(datLen, max)` bytes of the upstream buffer. */
  lemma FillUpstreamBytes(rsp: Response, max: nat, idx: nat)
    requires rsp.reqType == Upstream && rsp.upStreamBuf.Some? && FillReads(rsp, max, idx)
    ensures var f := FillSpec(rsp, max, idx);
      f.size == |f.text| == Min(rsp.datLen, max) && f.text == rsp.upStreamBuf.value[idx..f.idx]
  {
  }

  /** The output of one builder call: the characters written from offset 0, the returned size, the new index and data length. */
  datatype Built = Built(written: seq<char>, size: nat, idx: nat, datLen: nat)

  /** The memory the builder reads: the first response value for GETVAR and what the fill reads. */
  predicate BuildReads(rsp: Response, first: bool, ongoing: bool, idx: nat)
  {
    (AckOk(rsp.ack) && rsp.reqType == GetVar ==> rsp.respVals.Some? && |rsp.respVals.value| >= 1) &&
    (AckOk(rsp.ack) && rsp.reqType == Command && ongoing ==> FillReads(rsp, TX_PACKET_LENGTH, idx)) &&
    (AckOk(rsp.ack) && rsp.reqType == Upstream ==> FillReads(rsp, TX_PACKET_LENGTH, idx))
  }

  /**
   * The complete text of every response but a COMMAND or UPSTREAM answer: the prefix
   * and, for GETVAR, "ACK;" and the value's digits, for SETVAR "ACK", for a refusal
   * "NAK" or "ERR;" and the error number's digits.
   */
  function PlainText(rsp: Response): (w: seq<char>)
    requires AckOk(rsp.ack) && rsp.reqType == GetVar ==> rsp.respVals.Some? && |rsp.respVals.value| >= 1
    ensures |w| <= 17
  {
    var p := Prefix(rsp);
    if AckOk(rsp.ack) then
      if rsp.reqType == GetVar then
        HexTextAtMostEight(rsp.respVals.value[0]);
        p + "ACK;" + HexText(rsp.respVals.value[0])
      else if rsp.reqType == SetVar then p + "ACK"
      else p
    else if rsp.error == 0 then p + "NAK"
    else
      HexTextLength(rsp.error, 4);
      p + "ERR;" + HexText(rsp.error)
  }

  /** The COMMAND header after the prefix: the designator and data length, on the first packet only (lines 206-226). */
  function CommandHead(rsp: Response, first: bool): (h: seq<char>)
    ensures |h| <= 12
  {
    if !first then []
    else if rsp.ack == SuccessData || rsp.ack == SuccessUpstream then
      HexTextAtMostEight(rsp.datLen);
      Designator(rsp.ack) + ";" + HexText(rsp.datLen)
    else Designator(rsp.ack)
  }

  /** The header and, when data follows the first packet's header, its ';' (lines 229-233). */
  function CommandLead(rsp: Response, first: bool, ongoing: bool): (h: seq<char>)
    ensures |h| <= 13
  {
    CommandHead(rsp, first) + (if first && ongoing then ";" else "")
  }

  /** `SCISlaveResponseBuilder` (C/Slave/Src/SCISlaveDataframe.c:162-279), with the corrected fill. */
  function Build(rsp: Response, first: bool, ongoing: bool, idx: nat): (b: Built)
    requires BuildReads(rsp, first, ongoing, idx)
  {
    if AckOk(rsp.ack) && rsp.reqType == Command then
      var h := Prefix(rsp) + CommandLead(rsp, first, ongoing);
      if ongoing then
        var f := FillSpec(rsp, TX_PACKET_LENGTH - |h|, idx);
        Built(h + f.text, |h| + f.size, f.idx, f.datLen)
      else Built(h, |h|, idx, rsp.datLen)
    else if AckOk(rsp.ack) && rsp.reqType == Upstream then
      var f := FillSpec(rsp, TX_PACKET_LENGTH, idx);
      Built(Over(Prefix(rsp), f.text), f.size, f.idx, f.datLen)
    else
      var w := PlainText(rsp);
      Built(w, |w|, idx, rsp.datLen)
  }

  /**
   * `SCISlaveResponseBuilder`: writes the response for `rsp` at the start of the
   * transmit buffer and returns its size, the new data index and the response with
   * its remaining data length.
   */
  method ResponseBuilder(buf: array<char>, first: bool, ongoing: bool, idx: nat, rsp: Response)
    returns (size: nat, idx': nat, rsp': Response)
    requires buf.Length == TX_PACKET_LENGTH && BuildReads(rsp, first, ongoing, idx)
    modifies buf
    ensures var b := Build(rsp, first, ongoing, idx);
      |b.written| <= TX_PACKET_LENGTH &&
      buf[..] == Overlay(old(buf[..]), 0, b.written) && size == b.size && idx' == b.idx &&
      rsp' == rsp.(datLen := b.datLen)
  {
    ghost var b0 := buf[..];
    var n := PrefixOut(buf, rsp);
    if AckOk(rsp.ack) && rsp.reqType == Command {
      size, idx', rsp' := CommandBody(buf, b0, n, first, ongoing, idx, rsp);
    } else if AckOk(rsp.ack) && rsp.reqType == Upstream {
      size, idx', rsp' := UpstreamBody(buf, b0, idx, rsp);
    } else {
      size := PlainBody(buf, b0, n, rsp);
      idx', rsp' := idx, rsp;
    }
  }

  /** Lines 165-176: the number's digits and the identifier. */
  method PrefixOut(buf: array<char>, rsp: Response) returns (n: nat)
    requires buf.Length == TX_PACKET_LENGTH
    modifies buf
    ensures n == |Prefix(rsp)| && buf[..] == Overlay(old(buf[..]), 0, Prefix(rsp))
  {
    ghost var b0 := buf[..];
    ghost var d := HexText(ToUint16(rsp.num));
    OverlayEmpty(b0);
    var m := EmitHex(buf, b0, [], 0, ToUint16(rsp.num));
    assert [] + d == d;
    Emit(buf, b0, d, m, [IdChar(rsp.reqType)]);
    n := m + 1;
    assert Prefix(rsp) == d + [IdChar(rsp.reqType)];
  }

  /** The GETVAR, SETVAR, default and refusal branches (lines 182-202, 248-276). */
  method PlainBody(buf: array<char>, ghost b0: seq<char>, at: nat, rsp: Response) returns (size: nat)
    requires !(AckOk(rsp.ack) && (rsp.reqType == Command || rsp.reqType == Upstream))
    requires AckOk(rsp.ack) && rsp.reqType == GetVar ==> rsp.respVals.Some? && |rsp.respVals.value| >= 1
    requires buf.Length == TX_PACKET_LENGTH == |b0| && at == |Prefix(rsp)| && buf[..] == Overlay(b0, 0, Prefix(rsp))
    modifies buf
    ensures size == |PlainText(rsp)| && buf[..] == Overlay(b0, 0, PlainText(rsp))
  {
    ghost var p := Prefix(rsp);
    size := at;
    if AckOk(rsp.ack) {
      if rsp.reqType == GetVar {
        Emit(buf, b0, p, size, "ACK;");
        var m := EmitHex(buf, b0, p + "ACK;", size + 4, rsp.respVals.value[0]);
        size := size + 4 + m;
      } else if rsp.reqType == SetVar {
        Emit(buf, b0, p, size, "ACK");
        size := size + 3;
      }
    } else if rsp.error == 0 {
      Emit(buf, b0, p, size, "NAK");
      size := size + 3;
    } else {
      Emit(buf, b0, p, size, "ERR;");
      HexTextLength(rsp.error, 4);
      var m := EmitHex(buf, b0, p + "ERR;", size + 4, rsp.error);
      size := size + 4 + m;
    }
  }

  /** The COMMAND branch of the builder (lines 204-239), after the prefix. */
  method CommandBody(buf: array<char>, ghost b0: seq<char>, at: nat, first: bool, ongoing: bool, idx: nat, rsp: Response)
    returns (size: nat, idx': nat, rsp': Response)
    requires rsp.reqType == Command && AckOk(rsp.ack) && BuildReads(rsp, first, ongoing, idx)
    requires buf.Length == TX_PACKET_LENGTH == |b0| && at == |Prefix(rsp)| && buf[..] == Overlay(b0, 0, Prefix(rsp))
    modifies buf
    ensures var b := Build(rsp, first, ongoing, idx);
      |b.written| <= TX_PACKET_LENGTH &&
      buf[..] == Overlay(b0, 0, b.written) && size == b.size && idx' == b.idx && rsp' == rsp.(datLen := b.datLen)
  {
    ghost var h := Prefix(rsp) + CommandLead(rsp, first, ongoing);
    size := LeadOut(buf, b0, at, first, ongoing, rsp);
    idx', rsp' := idx, rsp;
    if ongoing {
      ghost var f := FillSpec(rsp, TX_PACKET_LENGTH - size, idx);
      assert Build(rsp, first, ongoing, idx) == Built(h + f.text, |h| + f.size, f.idx, f.datLen);
      size, idx', rsp' := DataOut(buf, b0, h, size, idx, rsp);
    } else {
      assert Build(rsp, first, ongoing, idx) == Built(h, |h|, idx, rsp.datLen);
    }
  }

  /** Line 234: the values after the COMMAND header `h`, up to the end of the packet. */
  method DataOut(buf: array<char>, ghost b0: seq<char>, ghost h: seq<char>, at: nat, idx: nat, rsp: Response)
    returns (size: nat, idx': nat, rsp': Response)
    requires buf.Length == TX_PACKET_LENGTH == |b0| && at == |h| <= TX_PACKET_LENGTH && buf[..] == Overlay(b0, 0, h)
    requires FillReads(rsp, TX_PACKET_LENGTH - at, idx)
    modifies buf
    ensures var f := FillSpec(rsp, TX_PACKET_LENGTH - at, idx);
      buf[..] == Overlay(b0, 0, h + f.text) && size == at + f.size && idx' == f.idx && rsp' == rsp.(datLen := f.datLen)
  {
    ghost var f := FillSpec(rsp, TX_PACKET_LENGTH - at, idx);
    var n, datLen';
    n, idx', datLen' := FillBufferWithValues(buf, at, TX_PACKET_LENGTH - at, idx, rsp);
    OverlayAppend(b0, h, f.text);
    size := at + n;
    rsp' := rsp.(datLen := datLen');
  }

  /** Lines 206-233: the designator, the data length and the ';' before the data. */
  method LeadOut(buf: array<char>, ghost b0: seq<char>, at: nat, first: bool, ongoing: bool, rsp: Response)
    returns (size: nat)
    requires buf.Length == TX_PACKET_LENGTH == |b0| && at == |Prefix(rsp)| && buf[..] == Overlay(b0, 0, Prefix(rsp))
    modifies buf
    ensures size == |Prefix(rsp) + CommandLead(rsp, first, ongoing)|
    ensures buf[..] == Overlay(b0, 0, Prefix(rsp) + CommandLead(rsp, first, ongoing))
  {
    ghost var p := Prefix(rsp);
    ghost var lead: seq<char> := [];
    size := at;
    if first {
      var d := Designator(rsp.ack);
      Emit(buf, b0, p, size, d);
      lead := d;
      size := size + 3;
      if rsp.ack == SuccessData || rsp.ack == SuccessUpstream {
        Emit(buf, b0, p + lead, size, ";");
        assert p + lead + ";" == p + (lead + ";");
        lead := lead + ";";
        var m := EmitHex(buf, b0, p + lead, size + 1, rsp.datLen);
        assert p + lead + HexText(rsp.datLen) == p + (lead + HexText(rsp.datLen));
        lead := lead + HexText(rsp.datLen);
        size := size + 1 + m;
      }
      assert lead == CommandHead(rsp, first);
      if ongoing {
        Emit(buf, b0, p + lead, size, ";");
        assert p + lead + ";" == p + (lead + ";");
        lead := lead + ";";
        size := size + 1;
      }
    } else {
      assert p + lead == p;
    }
    assert lead == CommandLead(rsp, first, ongoing);
  }

  /** The UPSTREAM branch (lines 241-246): the raw bytes from the start of the buffer. */
  method UpstreamBody(buf: array<char>, ghost b0: seq<char>, idx: nat, rsp: Response)
    returns (size: nat, idx': nat, rsp': Response)
    requires rsp.reqType == Upstream && AckOk(rsp.ack) && FillReads(rsp, TX_PACKET_LENGTH, idx)
    requires buf.Length == TX_PACKET_LENGTH == |b0| && buf[..] == Overlay(b0, 0, Prefix(rsp))
    modifies buf
    ensures var f := FillSpec(rsp, TX_PACKET_LENGTH, idx);
      buf[..] == Overlay(b0, 0, Over(Prefix(rsp), f.text)) && size == f.size && idx' == f.idx &&
      rsp' == rsp.(datLen := f.datLen)
  {
    var f := FillSpec(rsp, TX_PACKET_LENGTH, idx);
    var datLen';
    size, idx', datLen' := FillBufferWithValues(buf, 0, TX_PACKET_LENGTH, idx, rsp);
    rsp' := rsp.(datLen := datLen');
    OverlayTwice(b0, Prefix(rsp), f.text);
  }

  /** A successful GETVAR is answered with the prefix, "ACK;" and the first value's digits. */
  lemma PollAnswer(rsp: Response, first: bool, ongoing: bool, idx: nat)
    requires rsp.reqType == GetVar && AckOk(rsp.ack) && rsp.respVals.Some? && |rsp.respVals.value| >= 1
    ensures Build(rsp, first, ongoing, idx) ==
      var w := HexText(ToUint16(rsp.num)) + "?" + "ACK;" + HexText(rsp.respVals.value[0]);
      Built(w, |w|, idx, rsp.datLen)
  {
    assert Prefix(rsp) == HexText(ToUint16(rsp.num)) + "?";
  }

  /** The answer of C/Test/UnitTests.c:33 to a poll of the 8-bit variable 3 holding 0xF5. */
  lemma PollAnswerU8()
    ensures Build(Response(3, GetVar, Success, None, Some([0xF5]), 0, 0), false, false, 0).written == "3?ACK;F5"
  {
    PollAnswer(Response(3, GetVar, Success, None, Some([0xF5]), 0, 0), false, false, 0);
    assert HexText(3) == "3";
    assert HexText(0xF) == "F";
    assert HexText(0xF5) == "F5";
    assert "3" + "?" + "ACK;" + "F5" == "3?ACK;F5";
  }

  /** The answer of C/Test/UnitTests.c:54 to a poll of the 16-bit variable 4 holding 0x86E6. */
  lemma PollAnswerU16()
    ensures Build(Response(4, GetVar, Success, None, Some([0x86E6]), 0, 0), false, false, 0).written == "4?ACK;86E6"
  {
    PollAnswer(Response(4, GetVar, Success, None, Some([0x86E6]), 0, 0), false, false, 0);
    assert HexText(4) == "4";
    assert HexText(0x8) == "8";
    assert HexText(0x86) == "86";
    assert HexText(0x86E) == "86E";
    assert HexText(0x86E6) == "86E6";
    assert "4" + "?" == "4?";
    assert "4?" + "ACK;" == "4?ACK;";
    assert "4?ACK;" + "86E6" == "4?ACK;86E6";
  }

  /** The answer of C/Test/UnitTests.c:75 to a poll of the 32-bit variable 5 holding 0xFACB3B03. */
  lemma PollAnswerI32()
    ensures Build(Response(5, GetVar, Success, None, Some([0xFACB3B03]), 0, 0), false, false, 0).written == "5?ACK;FACB3B03"
  {
    PollAnswer(Response(5, GetVar, Success, None, Some([0xFACB3B03]), 0, 0), false, false, 0);
    PollTextI32();
  }

  lemma PollTextI32()
    ensures HexText(ToUint16(5)) + "?" + "ACK;" + HexText(0xFACB3B03) == "5?ACK;FACB3B03"
  {
    PollHeadFive();
    FacbText();
    assert "5?ACK;" + "FACB3B03" == "5?ACK;FACB3B03";
  }

  lemma PollHeadFive()
    ensures HexText(ToUint16(5)) + "?" + "ACK;" == "5?ACK;"
  {
    assert HexText(5) == "5";
  }

  /**
   * Every response but an upstream packet starts with the number's digits and the
   * request's identifier, and reads back as that number and kind.
   */
  lemma BuildEchoesRequest(rsp: Response, first: bool, ongoing: bool, idx: nat)
    requires BuildReads(rsp, first, ongoing, idx) && !(AckOk(rsp.ack) && rsp.reqType == Upstream)
    ensures var b := Build(rsp, first, ongoing, idx);
      var d := HexText(ToUint16(rsp.num));
      b.written[..|d| + 1] == d + [IdChar(rsp.reqType)] &&
      StrToHexSpec(d) == HexParse(true, ToUint16(rsp.num)) && ToInt16(ToUint16(rsp.num)) == rsp.num &&
      (rsp.reqType != ReqNone ==> TypeOfId(b.written[|d|]) == Some(rsp.reqType))
  {
    HexRoundTrip(ToUint16(rsp.num));
    IdCharRoundTrip(rsp.reqType);
    Int16Bits(rsp.num);
  }

  /**
   * A refused request is answered with "NAK" when no error number was set and with
   * "ERR;" and the error's digits otherwise; the size covers exactly that text.
   */
  lemma BuildRefusal(rsp: Response, first: bool, ongoing: bool, idx: nat)
    requires !AckOk(rsp.ack)
    ensures var b := Build(rsp, first, ongoing, idx);
      b.size == |b.written| && b.idx == idx && b.datLen == rsp.datLen &&
      (rsp.error == 0 ==> b.written == Prefix(rsp) + "NAK") &&
      (rsp.error != 0 ==> b.written == Prefix(rsp) + "ERR;" + HexText(rsp.error)) &&
      (rsp.error != 0 ==> StrToHexSpec(b.written[|Prefix(rsp)| + 4..]) == HexParse(true, rsp.error))
  {
    if rsp.error != 0 {
      var w := Prefix(rsp) + "ERR;" + HexText(rsp.error);
      assert w[|Prefix(rsp)| + 4..] == HexText(rsp.error);
      HexRoundTrip(rsp.error);
    }
  }

  /**
   * The size the builder returns never exceeds what it wrote, and only a ',' the
   * packer withdrew or the tail of an overwritten prefix lies beyond it.
   */
  lemma BuildSize(rsp: Response, first: bool, ongoing: bool, idx: nat)
    requires BuildReads(rsp, first, ongoing, idx)
    ensures var b := Build(rsp, first, ongoing, idx);
      b.size <= |b.written| <= TX_PACKET_LENGTH &&
      (!(AckOk(rsp.ack) && (rsp.reqType == Command || rsp.reqType == Upstream)) ==> b.size == |b.written|)
  {
    if AckOk(rsp.ack) && rsp.reqType == Command && ongoing {
      var h2 := Prefix(rsp) + CommandHead(rsp, first) + (if first then ";" else "");
      var max := TX_PACKET_LENGTH - |h2|;
      if rsp.respVals.Some? {
        FillFitsPacket(rsp.respVals.value, rsp.datLen, max, idx);
      }
    }
  }
}
