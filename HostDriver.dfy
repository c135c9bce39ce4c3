// The host driver of Python/SCI.py in its hexadecimal number format: the reply
// decoder `_decode`, the request encoder `_encode`, the framing sender `_send`
// and the `command` exchange that gathers a multi-frame answer. Python byte
// arrays are `ByteArray` objects whose contents the methods reassign; the
// serial port is a log of written frames and a queue of frames to be read.
module HostDriver {
  import opened Base
  import opened Protocol
  import opened Text
  import opened HexCodec
  import opened Values

  const STX_BYTE: uint8 := 2
  const ETX_BYTE: uint8 := 3

  // ---------------------------------------------------------------------------
  // Bytes and text.

  /** `bytes.decode()` of ASCII bytes: one character per byte. */
  function Chars(bs: seq<uint8>): (s: seq<char>)
    ensures |s| == |bs| && forall i :: 0 <= i < |bs| ==> s[i] as int == bs[i]
  {
    seq(|bs|, i requires 0 <= i < |bs| => bs[i] as char)
  }

  predicate IsAscii(s: seq<char>)
  {
    forall c :: c in s ==> c as int < 0x80
  }

  /** `bytearray(s, 'ASCII')` of text that is ASCII. */
  function Ascii(s: seq<char>): (bs: seq<uint8>)
    requires IsAscii(s)
    ensures Chars(bs) == s
  {
    seq(|s|, i requires 0 <= i < |s| => assert s[i] in s; AsciiByte(s[i]))
  }

  function AsciiByte(c: char): (b: uint8)
    requires c as int < 0x80
    ensures b == c as int
  {
    c as int
  }

  /** A packet between STX and ETX. */
  function Frame(bs: seq<uint8>): (f: seq<uint8>)
  {
    [STX_BYTE] + bs + [ETX_BYTE]
  }

  lemma {:induction false} JoinAscii(fs: seq<seq<char>>, sep: char)
    requires sep as int < 0x80 && forall k :: 0 <= k < |fs| ==> IsAscii(fs[k])
    ensures IsAscii(Join(fs, sep))
    decreases |fs|
  {
    if |fs| > 1 {
      JoinAscii(fs[1..], sep);
    }
  }

  lemma HexAscii(s: seq<char>)
    requires AllHex(s)
    ensures IsAscii(s) && forall c :: c in s ==> IsHexDigit(c)
  {
  }

  /** Hex digits hold no identifier character, no field separator and no value separator. */
  lemma HexFree(s: seq<char>, t: ReqType)
    requires AllHex(s)
    ensures IdChar(t) !in s && ';' !in s && ',' !in s
  {
    HexAscii(s);
  }

  // ---------------------------------------------------------------------------
  // Python's `int(s, 16)` and `bytearray.fromhex(s)`.

  predicate IsPyDigit(c: char)
  {
    IsHexDigit(c) || 'a' <= c <= 'f'
  }

  predicate AllPyDigits(s: seq<char>)
  {
    forall i :: 0 <= i < |s| ==> IsPyDigit(s[i])
  }

  /** The value of a digit of either case. */
  function PyDigit(c: char): (d: nat)
    requires IsPyDigit(c)
    ensures d < 16 && (IsHexDigit(c) ==> d == DigitValue(c))
  {
    if 'a' <= c <= 'f' then c as int - 'a' as int + 10 else DigitValue(c)
  }

  /** The positional value of a digit string, most significant digit first. */
  function PyDigitsValue(s: seq<char>): (v: nat)
    requires AllPyDigits(s)
  {
    if s == [] then 0 else PyDigitsValue(s[..|s| - 1]) * 16 + PyDigit(s[|s| - 1])
  }

  /**
   * `int(s, 16)`: an optional sign and at least one digit of either case; None
   * where Python raises ValueError.
   */
  function ParseInt(s: seq<char>): (r: Option<int>)
  {
    var signed := |s| > 0 && (s[0] == '+' || s[0] == '-');
    var digits := if signed then s[1..] else s;
    if digits != [] && AllPyDigits(digits) then
      var v: int := if signed && s[0] == '-' then -(PyDigitsValue(digits) as int) else PyDigitsValue(digits);
      Some(v)
    else None
  }

  /** The list comprehension `[int(x, 16) for x in fs]`: all values, or None at the first failure. */
  function ParseAll(fs: seq<seq<char>>): (r: Option<seq<int>>)
    ensures r.Some? <==> forall k :: 0 <= k < |fs| ==> ParseInt(fs[k]).Some?
    ensures r.Some? ==> |r.value| == |fs| && forall k :: 0 <= k < |fs| ==> r.value[k] == ParseInt(fs[k]).value
  {
    if fs == [] then Some([])
    else
      var head, tail := ParseInt(fs[0]), ParseAll(fs[1..]);
      assert forall k :: 1 <= k < |fs| ==> fs[k] == fs[1..][k - 1];
      if head.None? || tail.None? then None else Some([head.value] + tail.value)
  }

  /** `bytearray.fromhex(s)` without whitespace: two digits per byte, None where Python raises. */
  function FromHex(s: seq<char>): (r: Option<seq<uint8>>)
    ensures r.Some? ==> 2 * |r.value| == |s|
    decreases |s|
  {
    if s == [] then Some([])
    else if |s| < 2 || !IsPyDigit(s[0]) || !IsPyDigit(s[1]) then None
    else
      match FromHex(s[2..])
      case None => None
      case Some(rest) => Some([PyDigit(s[0]) * 16 + PyDigit(s[1])] + rest)
  }

  /** Upper-case digits read by `int(_, 16)` have the value the device's digit scan gives them. */
  lemma {:induction false} PyDigitsUpper(s: seq<char>)
    requires AllHex(s)
    ensures AllPyDigits(s) && PyDigitsValue(s) == HexValue(s)
    decreases |s|
  {
    if s != [] {
      PyDigitsUpper(s[..|s| - 1]);
    }
  }

  /** `int(_, 16)` reads every digit text of the device back as its value. */
  lemma ParseHexText(v: nat)
    ensures ParseInt(HexText(v)) == Some(v)
  {
    HexTextAllHex(v);
    ParseHexDigits(HexText(v));
  }

  /** `int(_, 16)` reads upper-case digits as the device does, and refuses the empty text. */
  lemma ParseHexDigits(s: seq<char>)
    requires AllHex(s)
    ensures ParseInt(s) == if s == [] then None else Some(HexValue(s))
  {
    PyDigitsUpper(s);
    if s != [] {
      assert IsHexDigit(s[0]);
    }
  }

  /** `int(_, 16)` reads a packed value list back field by field. */
  lemma ParseAllTexts(vs: seq<uint32>)
    ensures ParseAll(HexTexts(vs)) == Some(vs)
  {
    forall k | 0 <= k < |vs|
      ensures ParseInt(HexTexts(vs)[k]) == Some(vs[k] as int)
    {
      ParseHexText(vs[k]);
    }
    var r := ParseAll(HexTexts(vs)).value;
    assert r == vs;
  }

  // ---------------------------------------------------------------------------
  // `struct.pack` and `bytes.hex().upper()`.

  function Pow256(w: nat): (r: nat)
    ensures r >= 1
  {
    if w == 0 then 1 else 256 * Pow256(w - 1)
  }

  /** The values `struct.pack` accepts for a format (F32 items are their binary32 bit patterns). */
  predicate InRange(t: DType, v: int)
  {
    match t
    case U8 => 0 <= v < TWO_8
    case I8 => -0x80 <= v < 0x80
    case U16 => 0 <= v < TWO_16
    case I16 => -0x8000 <= v < 0x8000
    case U32 => 0 <= v < TWO_32
    case I32 => -0x8000_0000 <= v < 0x8000_0000
    case F32 => 0 <= v < TWO_32
  }

  /** The unsigned word packed for `v`: two's complement at the format's width. */
  function Unsigned(t: DType, v: int): (u: nat)
    requires InRange(t, v)
    ensures u < Pow256(ByteLength(t))
    ensures 0 <= v ==> u == v
  {
    if v < 0 then v + Pow256(ByteLength(t)) else v
  }

  /** The `w` big-endian bytes of `u` (the low `w` bytes when `u` is wider). */
  function BigEndian(u: nat, w: nat): (bs: seq<uint8>)
    ensures |bs| == w
  {
    if w == 0 then [] else BigEndian(u / 256, w - 1) + [u % 256]
  }

  /** `struct.pack('>' + fmt, v)`, None where it raises `struct.error`. */
  function Pack(t: DType, v: int): (r: Option<seq<uint8>>)
  {
    if InRange(t, v) then Some(BigEndian(Unsigned(t, v), ByteLength(t))) else None
  }

  /** `bs.hex().upper()`: two upper-case digits per byte, high nibble first. */
  function HexOf(bs: seq<uint8>): (s: seq<char>)
    ensures |s| == 2 * |bs| && AllHex(s) && IsAscii(s)
  {
    if bs == [] then []
    else
      NibbleDigit(bs[0] / 16);
      NibbleDigit(bs[0] % 16);
      [HEX_NIBBLES[bs[0] / 16], HEX_NIBBLES[bs[0] % 16]] + HexOf(bs[1..])
  }

  /** `s.lstrip('0')`. */
  function StripZeros(s: seq<char>): (r: seq<char>)
    ensures |r| <= |s|
    ensures r != [] ==> r[0] != '0'
  {
    if s != [] && s[0] == '0' then StripZeros(s[1..]) else s
  }

  /** One packed field of `_encode`: the hex text of the bytes without leading zeros. */
  function Field(bs: seq<uint8>): (s: seq<char>)
  {
    StripZeros(HexOf(bs))
  }

  lemma {:induction false} HexOfSnoc(a: seq<uint8>, b: uint8)
    ensures HexOf(a + [b]) == HexOf(a) + [HEX_NIBBLES[b / 16], HEX_NIBBLES[b % 16]]
    decreases |a|
  {
    if a != [] {
      assert (a + [b])[1..] == a[1..] + [b];
      HexOfSnoc(a[1..], b);
    } else {
      assert a + [b] == [b];
    }
  }

  /** The hex text of the big-endian bytes of `u` reads back as `u`. */
  lemma {:induction false} BigEndianValue(u: nat, w: nat)
    requires u < Pow256(w)
    ensures HexValue(HexOf(BigEndian(u, w))) == u
    decreases w
  {
    if w > 0 {
      var a := BigEndian(u / 256, w - 1);
      var b: uint8 := u % 256;
      BigEndianValue(u / 256, w - 1);
      HexOfSnoc(a, b);
      NibbleDigit(b / 16);
      NibbleDigit(b % 16);
      HexValueSnoc(HexOf(a), HEX_NIBBLES[b / 16]);
      HexValueSnoc(HexOf(a) + [HEX_NIBBLES[b / 16]], HEX_NIBBLES[b % 16]);
      assert HexOf(a) + [HEX_NIBBLES[b / 16], HEX_NIBBLES[b % 16]]
          == HexOf(a) + [HEX_NIBBLES[b / 16]] + [HEX_NIBBLES[b % 16]];
      assert u == (u / 256) * 256 + (b / 16) * 16 + b % 16;
    }
  }

  /** A nonzero leading digit gives the string a nonzero value. */
  lemma LeadingDigitCounts(d: nat, w: nat)
    requires d >= 1 && w >= 1
    ensures d * w >= 1
  {
  }

  /** Leading zeros carry no value, and only a zero value strips to nothing. */
  lemma {:induction false} StripZerosValue(s: seq<char>)
    requires AllHex(s)
    ensures AllHex(StripZeros(s)) && HexValue(StripZeros(s)) == HexValue(s)
    ensures StripZeros(s) == [] <==> HexValue(s) == 0
    decreases |s|
  {
    if s != [] {
      var c, t := s[0], s[1..];
      AllHexSuffix(s, 1);
      assert [c] + t == s;
      HexValuePrepend(c, t);
      if c == '0' {
        assert StripZeros(s) == StripZeros(t);
        StripZerosValue(t);
        assert HexValue(s) == 0 * Pow16(|t|) + HexValue(t);
      } else {
        assert StripZeros(s) == s;
        LeadingDigitCounts(DigitValue(c), Pow16(|t|));
      }
    }
  }

  /**
   * A packed field reads back as the unsigned word packed: the device's
   * `strToHex` reads every field, the empty field of zero included, and Python's
   * `int(_, 16)` reads every field but that empty one.
   */
  lemma FieldReadBack(t: DType, v: int)
    requires InRange(t, v)
    ensures Pack(t, v).Some?
    ensures AllHex(Field(Pack(t, v).value)) && |Field(Pack(t, v).value)| <= 8
    ensures StrToHexSpec(Field(Pack(t, v).value)) == HexParse(true, Unsigned(t, v))
    ensures FieldValue(Field(Pack(t, v).value)) == Some(Unsigned(t, v))
    ensures Field(Pack(t, v).value) == [] <==> Unsigned(t, v) == 0
    ensures ParseInt(Field(Pack(t, v).value)) == (if Unsigned(t, v) == 0 then None else Some(Unsigned(t, v)))
  {
    var w := ByteLength(t);
    var u := Unsigned(t, v);
    var h := HexOf(BigEndian(u, w));
    var f := StripZeros(h);
    BigEndianValue(u, w);
    StripZerosValue(h);
    StrToHexShortStrings(f);
    ParseHexDigits(f);
    HexFree(f, ReqNone);
    HexAscii(f);
    assert NUL !in f;
    CStringOfField(f);
    StrToHexBound(f);
  }

  // ---------------------------------------------------------------------------
  // `_encode` in the HEX number format.

  datatype Cmd = Cmd(number: int, commandId: Option<ReqType>, dataArray: Option<seq<int>>,
                             dataFormat: Option<seq<DType>>)

  datatype EncodeError =
    | PackFailed        // struct.error: a number or value outside its format's range
    | ArrayNotIterable  // zip() over a missing value list
    | NoCommandId       // AttributeError: no command identifier

  /**
   * `zip(formats, values)` packed field by field: the pairs up to the shorter
   * list, the surplus of the longer one dropped.
   */
  function ValueFields(fmts: seq<DType>, vals: seq<int>): (r: Option<seq<seq<char>>>)
    ensures r.Some? <==> forall k :: 0 <= k < Min(|fmts|, |vals|) ==> InRange(fmts[k], vals[k])
    ensures r.Some? ==> (|r.value| == Min(|fmts|, |vals|) &&
              forall k :: 0 <= k < |r.value| ==> Pack(fmts[k], vals[k]).Some? && r.value[k] == Field(Pack(fmts[k], vals[k]).value))
    decreases |fmts|
  {
    if fmts == [] || vals == [] then Some([])
    else if !InRange(fmts[0], vals[0]) then None
    else
      match ValueFields(fmts[1..], vals[1..])
      case None => None
      case Some(rest) => Some([Field(Pack(fmts[0], vals[0]).value)] + rest)
  }

  /** The number packed as `'>L'`. */
  function NumberField(n: uint32): (s: seq<char>)
  {
    Field(Pack(U32, n).value)
  }

  /** The text `_encode` builds: number, identifier, and the packed values joined by ','. */
  function PacketText(cmd: Cmd): (r: Result<seq<char>, EncodeError>)
  {
    if !InRange(U32, cmd.number) then Err(PackFailed)
    else
      var num := NumberField(cmd.number);
      if cmd.commandId.Some? && cmd.dataFormat.Some? then
        if cmd.dataArray.None? then Err(ArrayNotIterable)
        else
          match ValueFields(cmd.dataFormat.value, cmd.dataArray.value)
          case None => Err(PackFailed)
          case Some(fs) => Ok(num + [IdChar(cmd.commandId.value)] + Join(fs, ','))
      else if cmd.commandId.None? then Err(NoCommandId)
      else Ok(num + [IdChar(cmd.commandId.value)])
  }

  /** The error cases of `_encode`, and the text of an encoded packet is ASCII. */
  lemma PacketTextAscii(cmd: Cmd)
    ensures PacketText(cmd).Ok? <==>
              InRange(U32, cmd.number) && cmd.commandId.Some? &&
              (cmd.dataFormat.Some? ==> (cmd.dataArray.Some? &&
                 forall k :: 0 <= k < Min(|cmd.dataFormat.value|, |cmd.dataArray.value|) ==>
                   InRange(cmd.dataFormat.value[k], cmd.dataArray.value[k])))
    ensures PacketText(cmd).Ok? ==> IsAscii(PacketText(cmd).value)
  {
    if PacketText(cmd).Ok? {
      FieldReadBack(U32, cmd.number);
      HexAscii(NumberField(cmd.number));
      if cmd.dataFormat.Some? {
        var fs := ValueFields(cmd.dataFormat.value, cmd.dataArray.value).value;
        forall k | 0 <= k < |fs|
          ensures IsAscii(fs[k])
        {
          FieldReadBack(cmd.dataFormat.value[k], cmd.dataArray.value[k]);
          HexAscii(fs[k]);
        }
        JoinAscii(fs, ',');
      }
    }
  }

  /** `_encode`: the packet as ASCII bytes. */
  function Encode(cmd: Cmd): (r: Result<seq<uint8>, EncodeError>)
    ensures r.Ok? <==> PacketText(cmd).Ok?
    ensures r.Ok? ==> Chars(r.value) == PacketText(cmd).value
  {
    PacketTextAscii(cmd);
    match PacketText(cmd)
    case Err(e) => Err(e)
    case Ok(p) => Ok(Ascii(p))
  }

  /**
   * What a device reads from an encoded packet: the text before the identifier is
   * the number, and the text after it splits at ',' into one field per packed
   * pair, each converted by `strToHex` to the unsigned word packed for it.
   */
  lemma EncodeReadBack(cmd: Cmd)
    requires PacketText(cmd).Ok? && cmd.dataFormat.Some?
    ensures var p := PacketText(cmd).value;
            var fmts := cmd.dataFormat.value;
            var vals := cmd.dataArray.value;
            var n := Min(|fmts|, |vals|);
            var parts := Split(p, IdChar(cmd.commandId.value));
            |parts| == 2 && FieldValue(parts[0]) == Some(cmd.number) &&
            (n >= 1 ==> var fields := Split(parts[1], ',');
                        |fields| == n &&
                        forall k :: 0 <= k < n ==> (InRange(fmts[k], vals[k]) &&
                          FieldValue(fields[k]) == Some(Unsigned(fmts[k], vals[k]))))
  {
    PacketLayout(cmd);
    var kind := cmd.commandId.value;
    var c := IdChar(kind);
    var num := NumberField(cmd.number);
    var fs := ValueFields(cmd.dataFormat.value, cmd.dataArray.value).value;
    var p := PacketText(cmd).value;
    FieldReadBack(U32, cmd.number);
    HexFree(num, kind);
    PackedFieldsReadBack(cmd.dataFormat.value, cmd.dataArray.value, kind);
    JoinAvoids(fs, ',', c);
    var joined := Join(fs, ',');
    SplitPair(num, c, joined);
    if |fs| >= 1 {
      SplitJoin(fs, ',');
    }
  }

  /** An encoded packet with a format list: the number field, the identifier, the value fields joined by ','. */
  lemma PacketLayout(cmd: Cmd)
    requires PacketText(cmd).Ok? && cmd.dataFormat.Some?
    ensures cmd.commandId.Some? && cmd.dataArray.Some? && ValueFields(cmd.dataFormat.value, cmd.dataArray.value).Some?
    ensures PacketText(cmd).value ==
              NumberField(cmd.number) + [IdChar(cmd.commandId.value)] +
              Join(ValueFields(cmd.dataFormat.value, cmd.dataArray.value).value, ',')
  {
  }

  /** Every packed value field is digits only and reads back as the value's unsigned word. */
  lemma PackedFieldsReadBack(fmts: seq<DType>, vals: seq<int>, kind: ReqType)
    requires ValueFields(fmts, vals).Some?
    ensures var fs := ValueFields(fmts, vals).value;
            forall k :: 0 <= k < |fs| ==>
              IdChar(kind) !in fs[k] && ',' !in fs[k] && InRange(fmts[k], vals[k]) &&
              FieldValue(fs[k]) == Some(Unsigned(fmts[k], vals[k]))
  {
    var fs := ValueFields(fmts, vals).value;
    forall k | 0 <= k < |fs|
      ensures IdChar(kind) !in fs[k] && ',' !in fs[k] && InRange(fmts[k], vals[k]) &&
              FieldValue(fs[k]) == Some(Unsigned(fmts[k], vals[k]))
    {
      FieldReadBack(fmts[k], vals[k]);
      HexFree(fs[k], kind);
    }
  }

  // ---------------------------------------------------------------------------
  // `_decode` in the HEX number format.

  datatype Response = Response(number: int, designator: Option<seq<char>>, dataLength: int,
                               dataArray: Option<seq<int>>, upstreamData: Option<seq<uint8>>)

  datatype DecodeError =
    | EmptyMessage        // IndexError on `msg[0]`
    | StxEtxError         // the first byte is not STX or the last is not ETX
    | WrongMessageFormat  // the number before the identifier does not convert
    | NoDataSection       // IndexError: the identifier does not occur
    | ValueConversion     // ValueError from `int(_, 16)` or `bytearray.fromhex`

  /** A framed message: STX first and ETX last. */
  predicate Framed(msg: seq<uint8>)
  {
    |msg| > 0 && msg[0] == STX_BYTE && msg[|msg| - 1] == ETX_BYTE
  }

  /** The decoding of the text between STX and ETX against the expected identifier. */
  function DecodeText(text: seq<char>, kind: ReqType): (r: Result<Response, DecodeError>)
  {
    var splitted := Split(text, IdChar(kind));
    match ParseInt(splitted[0])
    case None => Err(WrongMessageFormat)
    case Some(number) =>
      if |splitted| < 2 then Err(NoDataSection)
      else
        var msgDat := Split(splitted[1], ';');
        var upstream := if kind == Upstream then FromHex(msgDat[0]) else None;
        if kind == Upstream && upstream.None? then Err(ValueConversion)
        else
          var values := if |msgDat| > 2 then ParseAll(Split(msgDat[2], ',')) else None;
          if |msgDat| > 2 && values.None? then Err(ValueConversion)
          else
            var length := if |msgDat| > 1 then ParseInt(msgDat[1]) else Some(0);
            if length.None? then Err(ValueConversion)
            else Ok(Response(number, if kind == Upstream then None else Some(msgDat[0]), length.value, values, upstream))
  }

  /** `_decode` of a received message. */
  function DecodeFrame(msg: seq<uint8>, kind: ReqType): (r: Result<Response, DecodeError>)
  {
    if |msg| == 0 then Err(EmptyMessage)
    else if !Framed(msg) then Err(StxEtxError)
    else DecodeText(Chars(msg[1..|msg| - 1]), kind)
  }

  /** Decoding refuses exactly the empty and the unframed messages before reading any text. */
  lemma DecodeChecksFrame(msg: seq<uint8>, kind: ReqType)
    ensures DecodeFrame(msg, kind) == Err(EmptyMessage) <==> |msg| == 0
    ensures DecodeFrame(msg, kind) == Err(StxEtxError) <==> |msg| > 0 && !Framed(msg)
    ensures Framed(msg) ==> |msg| >= 2 && Frame(msg[1..|msg| - 1]) == msg
  {
  }

  /** The fields after the identifier in a device reply: designator, then a number, then packed values. */
  function ReplyFields(head: seq<char>, length: Option<uint32>, values: seq<uint32>): (fs: seq<seq<char>>)
  {
    [head] + (if length.None? then [] else [HexText(length.value)] + (if values == [] then [] else [JoinHex(values)]))
  }

  /** A reply as the device formats it: its number's digits, the identifier, the fields joined by ';'. */
  function ReplyText(num: uint32, kind: ReqType, fields: seq<seq<char>>): (s: seq<char>)
  {
    HexText(num) + [IdChar(kind)] + Join(fields, ';')
  }

  /** A reply text whose fields hold neither the identifier nor ';' splits back into number and fields. */
  lemma ReplySplits(num: uint32, kind: ReqType, fields: seq<seq<char>>)
    requires |fields| >= 1 && forall k :: 0 <= k < |fields| ==> IdChar(kind) !in fields[k] && ';' !in fields[k]
    ensures var parts := Split(ReplyText(num, kind, fields), IdChar(kind));
            |parts| == 2 && ParseInt(parts[0]) == Some(num as int) && Split(parts[1], ';') == fields
  {
    var c := IdChar(kind);
    var d := HexText(num);
    var s := ReplyText(num, kind, fields);
    HexTextAllHex(num);
    HexFree(d, kind);
    JoinAvoids(fields, ';', c);
    assert s[..|d|] == d && s[|d|] == c && s[|d| + 1..] == Join(fields, ';');
    SplitAt(s, |d|, c);
    SplitWhole(Join(fields, ';'), c);
    SplitJoin(fields, ';');
    ParseHexText(num);
  }

  /** Every field after the designator is digits, and ',' between packed values. */
  lemma ReplyFieldsFree(head: seq<char>, length: Option<uint32>, values: seq<uint32>, kind: ReqType)
    requires IdChar(kind) !in head && ';' !in head
    ensures var fs := ReplyFields(head, length, values);
            forall k :: 0 <= k < |fs| ==> IdChar(kind) !in fs[k] && ';' !in fs[k]
  {
    if length.Some? {
      HexTextAllHex(length.value);
      HexFree(HexText(length.value), kind);
      if values != [] {
        var ts := HexTexts(values);
        forall k | 0 <= k < |ts|
          ensures IdChar(kind) !in ts[k] && ';' !in ts[k]
        {
          HexTextAllHex(values[k]);
          HexFree(ts[k], kind);
        }
        JoinAvoids(ts, ',', IdChar(kind));
        JoinAvoids(ts, ',', ';');
      }
    }
  }

  /** A device reply text with an ASCII designator is ASCII. */
  lemma ReplyAscii(num: uint32, kind: ReqType, head: seq<char>, length: Option<uint32>, values: seq<uint32>)
    requires IsAscii(head)
    ensures IsAscii(ReplyText(num, kind, ReplyFields(head, length, values)))
  {
    var fs := ReplyFields(head, length, values);
    if length.Some? {
      HexTextAllHex(length.value);
      HexAscii(HexText(length.value));
      if values != [] {
        var ts := HexTexts(values);
        forall k | 0 <= k < |ts|
          ensures IsAscii(ts[k])
        {
          HexTextAllHex(values[k]);
          HexAscii(ts[k]);
        }
        JoinAscii(ts, ',');
      }
    }
    HexTextAllHex(num);
    HexAscii(HexText(num));
    JoinAscii(fs, ';');
  }

  /** A device reply on the wire: its text between STX and ETX. */
  function Reply(num: uint32, kind: ReqType, head: seq<char>, length: Option<uint32>, values: seq<uint32>): (msg: seq<uint8>)
    requires IsAscii(head)
    ensures Framed(msg) && Chars(msg[1..|msg| - 1]) == ReplyText(num, kind, ReplyFields(head, length, values))
  {
    ReplyAscii(num, kind, head, length, values);
    var bs := Ascii(ReplyText(num, kind, ReplyFields(head, length, values)));
    assert Frame(bs)[1..|bs| + 1] == bs;
    Frame(bs)
  }

  /**
   * `_decode` inverts the device's reply formatting for every identifier but
   * UPSTREAM: the number, the designator verbatim, the second field as the data
   * length (0 when absent) and the third as the value list (None when absent).
   */
  lemma DecodeReply(num: uint32, kind: ReqType, head: seq<char>, length: Option<uint32>, values: seq<uint32>)
    requires kind != Upstream && (length.None? ==> values == [])
    requires IdChar(kind) !in head && ';' !in head && IsAscii(head)
    ensures DecodeFrame(Reply(num, kind, head, length, values), kind) ==
              Ok(Response(num, Some(head), if length.Some? then length.value else 0,
                          if values == [] then None else Some(values), None))
  {
    var text := ReplyText(num, kind, ReplyFields(head, length, values));
    assert DecodeFrame(Reply(num, kind, head, length, values), kind) == DecodeText(text, kind);
    DecodeReplyText(num, kind, head, length, values);
  }

  /** The text-level half of `DecodeReply`: the reply text between the frame bytes decodes back. */
  lemma DecodeReplyText(num: uint32, kind: ReqType, head: seq<char>, length: Option<uint32>, values: seq<uint32>)
    requires kind != Upstream && (length.None? ==> values == [])
    requires IdChar(kind) !in head && ';' !in head
    ensures DecodeText(ReplyText(num, kind, ReplyFields(head, length, values)), kind) ==
              Ok(Response(num, Some(head), if length.Some? then length.value else 0,
                          if values == [] then None else Some(values), None))
  {
    var fs := ReplyFields(head, length, values);
    ReplyFieldsFree(head, length, values, kind);
    ReplySplits(num, kind, fs);
    if length.Some? {
      ParseHexText(length.value);
      if values != [] {
        var ts := HexTexts(values);
        forall k | 0 <= k < |ts|
          ensures ',' !in ts[k]
        {
          DigitsFree(values[k]);
        }
        SplitJoin(ts, ',');
        ParseAllTexts(values);
      }
    }
  }

  /**
   * For UPSTREAM the first field is hex bytes, not a designator: `_decode` turns
   * it back into the bytes and sets no designator.
   */
  lemma DecodeUpstreamReply(num: uint32, bytes: seq<uint8>, length: Option<uint32>)
    ensures DecodeFrame(Reply(num, Upstream, HexOf(bytes), length, []), Upstream) ==
              Ok(Response(num, None, if length.Some? then length.value else 0, None, Some(bytes)))
  {
    var head := HexOf(bytes);
    HexFree(head, Upstream);
    var fs := ReplyFields(head, length, []);
    ReplyFieldsFree(head, length, [], Upstream);
    var text := ReplyText(num, Upstream, fs);
    assert DecodeFrame(Reply(num, Upstream, head, length, []), Upstream) == DecodeText(text, Upstream);
    ReplySplits(num, Upstream, fs);
    FromHexOf(bytes);
    if length.Some? {
      ParseHexText(length.value);
    }
  }

  /** `bytearray.fromhex` inverts `hex()`. */
  lemma {:induction false} FromHexOf(bs: seq<uint8>)
    ensures FromHex(HexOf(bs)) == Some(bs)
    decreases |bs|
  {
    if bs != [] {
      var b, t := bs[0], bs[1..];
      var hi, lo := HEX_NIBBLES[b / 16], HEX_NIBBLES[b % 16];
      NibbleDigit(b / 16);
      NibbleDigit(b % 16);
      var s := HexOf(bs);
      assert s == [hi, lo] + HexOf(t);
      assert s[0] == hi && s[1] == lo && s[2..] == HexOf(t);
      FromHexOf(t);
      assert PyDigit(hi) * 16 + PyDigit(lo) == b;
      assert [b] + t == bs;
    }
  }

  /** A positive GETVAR answer with one value: its number, `?ACK;` and the value's digits. */
  lemma AckText(num: uint32, v: uint32)
    ensures ReplyText(num, GetVar, ReplyFields("ACK", Some(v), [])) == HexText(num) + "?ACK;" + HexText(v)
  {
    var fs := ReplyFields("ACK", Some(v), []);
    assert fs == ["ACK", HexText(v)];
    assert Join(fs, ';') == "ACK" + [';'] + HexText(v);
  }

  /** A framed positive GETVAR answer with one value decodes with that value as the data length. */
  lemma DecodeAck(msg: seq<uint8>, num: uint32, v: uint32)
    requires Framed(msg) && Chars(msg[1..|msg| - 1]) == ReplyText(num, GetVar, ReplyFields("ACK", Some(v), []))
    ensures DecodeFrame(msg, GetVar) == Ok(Response(num, Some("ACK"), v, None, None))
  {
    DecodeReplyText(num, GetVar, "ACK", Some(v), []);
  }

  /**
   * The slave's answer `3?ACK;F5` to a poll of the 8-bit variable 3: `_decode` reads the
   * value as the data length, since a GETVAR reply carries it in the second field.
   */
  lemma DecodeByteReply(msg: seq<uint8>)
    requires Framed(msg) && Chars(msg[1..|msg| - 1]) == "3?ACK;F5"
    ensures DecodeFrame(msg, GetVar) == Ok(Response(3, Some("ACK"), 0xF5, None, None))
  {
    ByteReplyText();
    DecodeAck(msg, 3, 0xF5);
  }

  lemma ByteReplyText()
    ensures ReplyText(3, GetVar, ReplyFields("ACK", Some(0xF5), [])) == "3?ACK;F5"
  {
    calc {
      ReplyText(3, GetVar, ReplyFields("ACK", Some(0xF5), []));
      { AckText(3, 0xF5); }
      HexText(3) + "?ACK;" + HexText(0xF5);
      { assert HexText(3) == "3"; assert HexText(0xF5) == "F5"; }
      "3" + "?ACK;" + "F5";
      "3?ACK;" + "F5";
      "3?ACK;F5";
    }
  }

  /**
   * The slave's answer `4?ACK;86E6` to a poll of the 16-bit variable 4: `_decode` reads the
   * value as the data length, since a GETVAR reply carries it in the second field.
   */
  lemma DecodeHalfWordReply(msg: seq<uint8>)
    requires Framed(msg) && Chars(msg[1..|msg| - 1]) == "4?ACK;86E6"
    ensures DecodeFrame(msg, GetVar) == Ok(Response(4, Some("ACK"), 0x86E6, None, None))
  {
    HalfWordReplyText();
    DecodeAck(msg, 4, 0x86E6);
  }

  lemma HalfWordReplyText()
    ensures ReplyText(4, GetVar, ReplyFields("ACK", Some(0x86E6), [])) == "4?ACK;86E6"
  {
    calc {
      ReplyText(4, GetVar, ReplyFields("ACK", Some(0x86E6), []));
      { AckText(4, 0x86E6); }
      HexText(4) + "?ACK;" + HexText(0x86E6);
      { assert HexText(4) == "4"; assert HexText(0x86) == "86"; assert HexText(0x86E6) == "86E6"; }
      "4" + "?ACK;" + "86E6";
      "4?ACK;" + "86E6";
      "4?ACK;86E6";
    }
  }

  /**
   * The slave's answer `5?ACK;FACB3B03` to a poll of the 32-bit variable 5: `_decode` reads the
   * value as the data length, since a GETVAR reply carries it in the second field.
   */
  lemma DecodeWordReply(msg: seq<uint8>)
    requires Framed(msg) && Chars(msg[1..|msg| - 1]) == "5?ACK;FACB3B03"
    ensures DecodeFrame(msg, GetVar) == Ok(Response(5, Some("ACK"), 0xFACB3B03, None, None))
  {
    WordReplyText();
    DecodeAck(msg, 5, 0xFACB3B03);
  }

  lemma WordReplyText()
    ensures ReplyText(5, GetVar, ReplyFields("ACK", Some(0xFACB3B03), [])) == "5?ACK;FACB3B03"
  {
    calc {
      ReplyText(5, GetVar, ReplyFields("ACK", Some(0xFACB3B03), []));
      { AckText(5, 0xFACB3B03); }
      HexText(5) + "?ACK;" + HexText(0xFACB3B03);
      { assert HexText(5) == "5"; FacbText(); }
      "5" + "?ACK;" + "FACB3B03";
      "5?ACK;" + "FACB3B03";
      "5?ACK;FACB3B03";
    }
  }

  // ---------------------------------------------------------------------------
  // `_send` and `command`.

  datatype SendError =
    | PacketTooBig(size: nat, max: int)  // the exception the size check means to raise
    | SizeMessageTypeError              // TypeError raised while formatting that exception

  /** The size check of `_send` as written: its message calls `len()` on the integer limit. */
  function SendCheckAsWritten(size: nat, max: int): (r: Option<SendError>)
  {
    if size > max then Some(SizeMessageTypeError) else None
  }

  /** The size check as intended: refuse exactly the packets longer than the limit, naming both sizes. */
  function SendCheck(size: nat, max: int): (r: Option<SendError>)
    ensures r.Some? <==> size > max
    ensures r.Some? ==> r.value.PacketTooBig? && r.value.size == size && r.value.max == max
  {
    if size > max then Some(PacketTooBig(size, max)) else None
  }

  /** Every oversized packet raises the formatting TypeError instead of the size exception. */
  lemma OversizeRaisesTypeError(size: nat, max: int)
    ensures SendCheckAsWritten(size, max).Some? <==> size > max
    ensures size > max ==> SendCheckAsWritten(size, max) == Some(SizeMessageTypeError) != SendCheck(size, max)
  {
  }

  datatype CommandError =
    | EncodeFailed(encode: EncodeError)
    | SendFailed(send: SendError)
    | DecodeFailed(decode: DecodeError)
    | DeviceError(code: int)  // "Command error" for an ERR reply
    | UnknownCommand          // a NAK reply
    | ErrorValueMissing       // TypeError or IndexError on `rsp.dataArray[0]`
    | NoValues                // AttributeError on `rsp.dataArray.copy()` without values

  /** The error number `command` reports for an ERR reply as written: the first data value. */
  function ErrorNumberAsWritten(rsp: Response): (r: Result<int, CommandError>)
  {
    if rsp.dataArray.None? || rsp.dataArray.value == [] then Err(ErrorValueMissing) else Ok(rsp.dataArray.value[0])
  }

  /** The error number as intended: the field the device writes it to, read as the data length. */
  function ErrorNumber(rsp: Response): (r: int)
  {
    rsp.dataLength
  }

  /** The device's ERR reply carries its error number in the second field, so the first data value is missing. */
  lemma ErrReplyLosesNumber(num: uint32, e: uint32)
    ensures var rsp := DecodeFrame(Reply(num, SetVar, "ERR", Some(e), []), SetVar);
            rsp.Ok? && ErrorNumberAsWritten(rsp.value) == Err(ErrorValueMissing) && ErrorNumber(rsp.value) == e
  {
    DecodeReply(num, SetVar, "ERR", Some(e), []);
  }

  /** A `command` request: SETVAR with the given values and formats. */
  function SetVarCommand(number: int, paramList: Option<seq<int>>, typeList: Option<seq<DType>>): (cmd: Cmd)
  {
    Cmd(number, Some(SetVar), paramList, typeList)
  }

  /** The packet encodes and fits the size limit, so it is sent. */
  predicate Fits(cmd: Cmd, max: int)
  {
    Encode(cmd).Ok? && |Encode(cmd).value| <= max
  }

  /** The outcome of `command` and the number of request frames it writes. */
  datatype Run = Run(result: Result<seq<int>, CommandError>, rounds: nat)

  /** What one decoded reply does to the exchange. */
  datatype Step = Stop | Fail(error: CommandError) | Append(values: seq<int>, expected: int)

  /** What one round of the loop leaves: the command's outcome, or the values so far and the count wanted. */
  datatype Turn = Done(result: Result<seq<int>, CommandError>) | More(data: seq<int>, expected: int)

  function Handle(rsp: Response, expected: int): (s: Step)
  {
    if rsp.designator == Some("ACK") || rsp.designator == Some("UPS") then Stop
    else if rsp.designator == Some("ERR") then Fail(DeviceError(ErrorNumber(rsp)))
    else if rsp.designator == Some("NAK") then Fail(UnknownCommand)
    else
      var expected' := if rsp.designator == Some("DAT") then rsp.dataLength else expected;
      if rsp.dataArray.None? then Fail(NoValues) else Append(rsp.dataArray.value, expected')
  }

  /**
   * What one round reads and decodes: the next reply frame, or no bytes at all
   * once the device has nothing more to say, which `_decode` refuses.
   */
  function Receive(replies: seq<seq<uint8>>): (r: Result<Response, CommandError>)
    ensures replies == [] ==> r == Err(DecodeFailed(EmptyMessage))
    ensures r.Ok? ==> replies != [] && DecodeFrame(replies[0], SetVar) == Ok(r.value)
  {
    var reply := if replies == [] then [] else replies[0];
    match DecodeFrame(reply, SetVar)
    case Err(e) => Err(DecodeFailed(e))
    case Ok(rsp) => Ok(rsp)
  }

  /**
   * The exchange loop from a state with values `data` gathered and `expected`
   * wanted, reading `replies` one per request.
   */
  function Rounds(replies: seq<seq<uint8>>, data: seq<int>, expected: int): (r: Run)
    decreases |replies|
  {
    if |data| >= expected then Run(Ok(data), 0)
    else
      match Receive(replies)
      case Err(e) => Run(Err(e), 1)
      case Ok(rsp) =>
        match Handle(rsp, expected)
        case Stop => Run(Ok(data), 1)
        case Fail(e) => Run(Err(e), 1)
        case Append(vs, expected') =>
          var later := Rounds(replies[1..], data + vs, expected');
          Run(later.result, later.rounds + 1)
  }

  /** A round that does not append ends the exchange: a read that fails to decode, or a designator that stops. */
  lemma RoundsEnd(replies: seq<seq<uint8>>, data: seq<int>, expected: int)
    requires |data| < expected
    ensures Receive(replies).Err? ==> Rounds(replies, data, expected) == Run(Err(Receive(replies).error), 1)
    ensures Receive(replies).Ok? && Handle(Receive(replies).value, expected).Stop? ==>
              Rounds(replies, data, expected) == Run(Ok(data), 1)
    ensures Receive(replies).Ok? && Handle(Receive(replies).value, expected).Fail? ==>
              Rounds(replies, data, expected) == Run(Err(Handle(Receive(replies).value, expected).error), 1)
  {
  }

  /** A round that appends values leaves the rest of the exchange to the remaining replies. */
  lemma RoundsAppend(replies: seq<seq<uint8>>, data: seq<int>, expected: int, vs: seq<int>, expected': int)
    requires |data| < expected && Receive(replies).Ok?
    requires Handle(Receive(replies).value, expected) == Append(vs, expected')
    ensures var later := Rounds(replies[1..], data + vs, expected');
            Rounds(replies, data, expected) == Run(later.result, later.rounds + 1)
  {
  }

  /** Once the values gathered reach the count wanted, the exchange ends without another round. */
  lemma RoundsGathered(replies: seq<seq<uint8>>, data: seq<int>, expected: int)
    requires |data| >= expected
    ensures Rounds(replies, data, expected) == Run(Ok(data), 0)
  {
  }

  /**
   * The bookkeeping of one round of `command`'s loop over the replies `start`,
   * `rounds` of which are consumed: the round that ends the exchange is its
   * last, and one that appends leaves the rest of the exchange to the replies
   * after it.
   */
  lemma RoundStep(start: seq<seq<uint8>>, rounds: nat, replies: seq<seq<uint8>>, data: seq<int>, expected: int,
                  t: Turn, run: Run)
    requires rounds <= |start| && replies == start[rounds..]
    requires Rounds(replies, data, expected).result == run.result
    requires rounds + Rounds(replies, data, expected).rounds == run.rounds
    requires t.Done? ==> Rounds(replies, data, expected) == Run(t.result, 1)
    requires t.More? ==> (replies != [] &&
               Rounds(replies, data, expected).result == Rounds(replies[1..], t.data, t.expected).result &&
               Rounds(replies, data, expected).rounds == Rounds(replies[1..], t.data, t.expected).rounds + 1)
    ensures t.Done? ==> (t.result == run.result && run.rounds == rounds + 1 &&
              (if replies == [] then [] else replies[1..]) == start[Min(run.rounds, |start|)..])
    ensures t.More? ==> (rounds + 1 <= |start| && replies[1..] == start[rounds + 1..] &&
              Rounds(replies[1..], t.data, t.expected).result == run.result &&
              rounds + 1 + Rounds(replies[1..], t.data, t.expected).rounds == run.rounds)
  {
    ReadOneMore(start, rounds);
  }

  /** `command`: encode once per round, refuse an oversized packet, then the exchange loop. */
  function CommandSpec(max: int, cmd: Cmd, replies: seq<seq<uint8>>): (r: Run)
  {
    if Encode(cmd).Err? then Run(Err(EncodeFailed(Encode(cmd).error)), 0)
    else if !Fits(cmd, max) then Run(Err(SendFailed(SendCheck(|Encode(cmd).value|, max).value)), 0)
    else Rounds(replies, [], 1)
  }

  /** A packet that fits starts the exchange loop with nothing gathered and one value wanted; any other writes nothing. */
  lemma CommandSpecStart(max: int, cmd: Cmd, replies: seq<seq<uint8>>)
    ensures Fits(cmd, max) ==> CommandSpec(max, cmd, replies) == Rounds(replies, [], 1)
    ensures !Fits(cmd, max) ==> CommandSpec(max, cmd, replies).rounds == 0
  {
  }

  /** `n` copies of `x`. */
  function Repeat<T>(x: T, n: nat): (r: seq<T>)
    ensures |r| == n && forall k :: 0 <= k < n ==> r[k] == x
  {
    if n == 0 then [] else Repeat(x, n - 1) + [x]
  }

  /** The frames `command` writes in `n` rounds: the same framed packet each time. */
  function Sent(cmd: Cmd, n: nat): (r: seq<seq<uint8>>)
  {
    if Encode(cmd).Ok? then Repeat(Frame(Encode(cmd).value), n) else []
  }

  /** One more round writes one more copy of the framed packet. */
  lemma SentOneMore(cmd: Cmd, n: nat)
    requires Encode(cmd).Ok?
    ensures Sent(cmd, n + 1) == Sent(cmd, n) + [Frame(Encode(cmd).value)]
  {
  }

  /** Reading one more frame after `n` leaves the replies from `n + 1` on, or none. */
  lemma ReadOneMore(replies: seq<seq<uint8>>, n: nat)
    requires n <= |replies|
    ensures (if replies[n..] == [] then [] else replies[n..][1..]) == replies[Min(n + 1, |replies|)..]
  {
    if n < |replies| {
      assert replies[n..][1..] == replies[n + 1..];
    }
  }

  /** The device's DAT reply carrying `part` of a `total`-value answer. */
  function DatReply(num: uint32, part: seq<uint32>, total: uint32): (msg: seq<uint8>)
  {
    Reply(num, SetVar, "DAT", Some(total), part)
  }

  function DatReplies(num: uint32, parts: seq<seq<uint32>>, total: uint32): (r: seq<seq<uint8>>)
    ensures |r| == |parts| && forall k :: 0 <= k < |parts| ==> r[k] == DatReply(num, parts[k], total)
  {
    if parts == [] then [] else [DatReply(num, parts[0], total)] + DatReplies(num, parts[1..], total)
  }

  predicate NonEmptyParts(parts: seq<seq<uint32>>)
  {
    forall k :: 0 <= k < |parts| ==> |parts[k]| >= 1
  }

  /**
   * A multi-frame answer: DAT replies whose value lists, one after the other, make
   * up the announced total yield exactly those values, one request per reply.
   */
  lemma CommandCollectsDat(max: int, cmd: Cmd, num: uint32, parts: seq<seq<uint32>>)
    requires Fits(cmd, max) && |parts| >= 1 && NonEmptyParts(parts) && |Concat(parts)| < TWO_32
    ensures CommandSpec(max, cmd, DatReplies(num, parts, |Concat(parts)|)) == Run(Ok(Concat(parts)), |parts|)
  {
    RoundsCollectDat(num, [], parts, |Concat(parts)|, 1);
    assert [] + Concat(parts) == Concat(parts);
  }

  lemma {:induction false} RoundsCollectDat(num: uint32, done: seq<int>, rest: seq<seq<uint32>>, total: uint32,
                                             expected: int)
    requires |rest| >= 1 && NonEmptyParts(rest) && |done| + |Concat(rest)| == total
    requires (done == [] && expected == 1) || expected == total
    ensures Rounds(DatReplies(num, rest, total), done, expected) == Run(Ok(done + Concat(rest)), |rest|)
    decreases |rest|
  {
    var part, tail := rest[0], rest[1..];
    var more, got := DatReplies(num, tail, total), Concat(tail);
    assert Concat(rest) == part + got;
    var later := Rounds(more, done + part, total);
    if |tail| > 0 {
      assert NonEmptyParts(tail) by {
        forall k | 0 <= k < |tail| ensures |tail[k]| >= 1 { assert tail[k] == rest[k + 1]; }
      }
      RoundsCollectDat(num, done + part, tail, total, total);
      AppendAssoc(done, part, got);
    } else {
      assert more == [] && got == [];
      assert done + part == done + (part + got);
    }
    assert later == Run(Ok(done + Concat(rest)), |tail|);
    calc {
      Rounds(DatReplies(num, rest, total), done, expected);
      { assert DatReplies(num, rest, total) == [DatReply(num, part, total)] + more; }
      Rounds([DatReply(num, part, total)] + more, done, expected);
      { DatRound(num, done, part, more, total, expected); }
      Run(later.result, later.rounds + 1);
    }
  }

  /** One DAT reply with values still missing: its values are appended and the data length becomes the target. */
  lemma DatRound(num: uint32, done: seq<int>, part: seq<uint32>, more: seq<seq<uint8>>, total: uint32, expected: int)
    requires |part| >= 1 && |done| + |part| <= total
    requires (done == [] && expected == 1) || expected == total
    ensures var later := Rounds(more, done + part, total);
            Rounds([DatReply(num, part, total)] + more, done, expected) == Run(later.result, later.rounds + 1)
  {
    var replies := [DatReply(num, part, total)] + more;
    DecodeReply(num, SetVar, "DAT", Some(total), part);
    assert replies[0] == DatReply(num, part, total) && replies[1..] == more;
    var rsp := Response(num, Some("DAT"), total as int, Some(part), None);
    assert Receive(replies) == Ok(rsp);
    HandleCases(rsp, expected);
    RoundsAppend(replies, done, expected, part, total);
  }

  /**
   * What `command` does with each designator: ACK and UPS end the exchange, ERR
   * and NAK raise, DAT appends its values and makes its data length the target.
   */
  lemma HandleCases(rsp: Response, expected: int)
    ensures rsp.designator == Some("ACK") || rsp.designator == Some("UPS") ==> Handle(rsp, expected) == Stop
    ensures rsp.designator == Some("ERR") ==> Handle(rsp, expected) == Fail(DeviceError(rsp.dataLength))
    ensures rsp.designator == Some("NAK") ==> Handle(rsp, expected) == Fail(UnknownCommand)
    ensures rsp.designator == Some("DAT") && rsp.dataArray.Some? ==>
              Handle(rsp, expected) == Append(rsp.dataArray.value, rsp.dataLength)
  {
    if rsp.designator.Some? {
      var d := rsp.designator.value;
      if d == "ERR" || d == "NAK" {
        assert d[0] != 'A' && d[0] != 'U';
      } else if d == "DAT" {
        assert d[0] == 'D';
      }
    }
  }

  /** An ACK reply ends the exchange at once with no values. */
  lemma CommandAcknowledged(max: int, cmd: Cmd, num: uint32, more: seq<seq<uint8>>)
    requires Fits(cmd, max)
    ensures CommandSpec(max, cmd, [Reply(num, SetVar, "ACK", None, [])] + more) == Run(Ok([]), 1)
  {
    var ack := Reply(num, SetVar, "ACK", None, []);
    DecodeReply(num, SetVar, "ACK", None, []);
    assert ([ack] + more)[0] == ack;
    HandleCases(Receive([ack] + more).value, 1);
  }

  /** An ERR reply ends the exchange with the device's error number. */
  lemma CommandDeviceError(max: int, cmd: Cmd, num: uint32, e: uint32, more: seq<seq<uint8>>)
    requires Fits(cmd, max)
    ensures CommandSpec(max, cmd, [Reply(num, SetVar, "ERR", Some(e), [])] + more) == Run(Err(DeviceError(e)), 1)
  {
    var err := Reply(num, SetVar, "ERR", Some(e), []);
    DecodeReply(num, SetVar, "ERR", Some(e), []);
    assert ([err] + more)[0] == err;
    HandleCases(Receive([err] + more).value, 1);
  }

  /** A NAK reply ends the exchange as an unknown command. */
  lemma CommandRefused(max: int, cmd: Cmd, num: uint32, more: seq<seq<uint8>>)
    requires Fits(cmd, max)
    ensures CommandSpec(max, cmd, [Reply(num, SetVar, "NAK", None, [])] + more) == Run(Err(UnknownCommand), 1)
  {
    var nak := Reply(num, SetVar, "NAK", None, []);
    DecodeReply(num, SetVar, "NAK", None, []);
    assert ([nak] + more)[0] == nak;
    HandleCases(Receive([nak] + more).value, 1);
  }

  /** A Python `bytearray` owned by the caller. */
  class ByteArray {
    var data: seq<uint8>

    constructor(data: seq<uint8>)
      ensures this.data == data
    {
      this.data := data;
    }
  }

  /** The `SCI` driver object with its serial port. */
  class Driver {
    const maxPacketSize: int
    /** The frames written to the port, in order. */
    var written: seq<seq<uint8>>
    /** What successive `read_until(b'\x03')` calls return. */
    var pending: seq<seq<uint8>>

    constructor(maxPacketSize: int, replies: seq<seq<uint8>>)
      ensures this.maxPacketSize == maxPacketSize && written == [] && pending == replies
    {
      this.maxPacketSize := maxPacketSize;
      written := [];
      pending := replies;
    }

    /** `_decode`: check the frame, strip STX and ETX from the caller's array, parse the text. */
    method Decode(msg: ByteArray, kind: ReqType) returns (r: Result<Response, DecodeError>)
      modifies msg
      ensures r == DecodeFrame(old(msg.data), kind)
      ensures msg.data == if Framed(old(msg.data)) then old(msg.data)[1..|old(msg.data)| - 1] else old(msg.data)
    {
      if |msg.data| == 0 {
        return Err(EmptyMessage);
      }
      if msg.data[0] != STX_BYTE || msg.data[|msg.data| - 1] != ETX_BYTE {
        return Err(StxEtxError);
      }
      ghost var m := msg.data;
      msg.data := msg.data[1..];
      msg.data := msg.data[..|msg.data| - 1];
      assert msg.data == m[1..|m| - 1];
      r := DecodeText(Chars(msg.data), kind);
    }

    /** `_send`: refuse an oversized packet, else frame it in place and write it. */
    method Send(packet: ByteArray) returns (e: Option<SendError>)
      modifies this`written, packet
      ensures e == SendCheck(|old(packet.data)|, maxPacketSize)
      ensures e.None? ==> packet.data == Frame(old(packet.data)) && written == old(written) + [packet.data]
      ensures e.Some? ==> packet.data == old(packet.data) && written == old(written)
    {
      if |packet.data| > maxPacketSize {
        return Some(PacketTooBig(|packet.data|, maxPacketSize));
      }
      packet.data := [STX_BYTE] + packet.data;
      packet.data := packet.data + [ETX_BYTE];
      written := written + [packet.data];
      e := None;
    }

    /** `read_until(b'\x03')`: the next frame, or nothing once the device has no more to say. */
    method ReadUntilEtx() returns (bs: seq<uint8>)
      modifies this`pending
      ensures old(pending) == [] ==> bs == [] && pending == []
      ensures old(pending) != [] ==> bs == old(pending)[0] && pending == old(pending)[1..]
    {
      if pending == [] {
        return [];
      }
      bs := pending[0];
      pending := pending[1..];
    }

    /**
     * One pass of `command`'s loop up to the reply: encode the request, send it,
     * read one frame and decode it as a SETVAR reply.
     */
    method Exchange(cmd: Cmd) returns (r: Result<Response, CommandError>)
      modifies this`written, this`pending
      ensures !Fits(cmd, maxPacketSize) ==>
                written == old(written) && pending == old(pending) &&
                r == if Encode(cmd).Err? then Err(EncodeFailed(Encode(cmd).error))
                     else Err(SendFailed(SendCheck(|Encode(cmd).value|, maxPacketSize).value))
      ensures Fits(cmd, maxPacketSize) ==>
                written == old(written) + [Frame(Encode(cmd).value)] &&
                pending == (if old(pending) == [] then [] else old(pending)[1..]) &&
                r == Receive(old(pending))
    {
      var encoded := Encode(cmd);
      if encoded.Err? {
        return Err(EncodeFailed(encoded.error));
      }
      var packet := new ByteArray(encoded.value);
      var sendError := Send(packet);
      if sendError.Some? {
        return Err(SendFailed(sendError.value));
      }
      var response := ReadUntilEtx();
      var msg := new ByteArray(response);
      var decoded := Decode(msg, SetVar);
      if decoded.Err? {
        return Err(DecodeFailed(decoded.error));
      }
      r := Ok(decoded.value);
    }

    /**
     * `command`: send the same SETVAR request until the values gathered reach the
     * expected count (1 until a DAT reply announces the total); an ACK or UPS
     * reply ends the exchange, ERR and NAK replies raise.
     */
    method Command(number: int, paramList: Option<seq<int>>, typeList: Option<seq<DType>>)
      returns (r: Result<seq<int>, CommandError>)
      modifies this`written, this`pending
      ensures var cmd := SetVarCommand(number, paramList, typeList);
              var run := CommandSpec(maxPacketSize, cmd, old(pending));
              r == run.result && written == old(written) + Sent(cmd, run.rounds) &&
              pending == old(pending)[Min(run.rounds, |old(pending)|)..]
    {
      var cmd := SetVarCommand(number, paramList, typeList);
      r := Transact(cmd);
    }

    /** The loop of `command` for the request `cmd`. */
    method Transact(cmd: Cmd) returns (r: Result<seq<int>, CommandError>)
      modifies this`written, this`pending
      ensures var run := CommandSpec(maxPacketSize, cmd, old(pending));
              r == run.result && written == old(written) + Sent(cmd, run.rounds) &&
              pending == old(pending)[Min(run.rounds, |old(pending)|)..]
    {
      ghost var run := CommandSpec(maxPacketSize, cmd, pending);
      CommandSpecStart(maxPacketSize, cmd, pending);
      // The loop test `len(data) < expectedDatalen` holds at first (0 < 1), so the
      // first round always runs; an encoding or size failure can only end it.
      var t := Round(cmd, [], 1);
      if !Fits(cmd, maxPacketSize) {
        return t.result;
      }
      SentOneMore(cmd, 0);
      RoundStep(old(pending), 0, old(pending), [], 1, t, run);
      if t.Done? {
        return t.result;
      }
      ghost var rounds := 1;
      var data, expected := t.data, t.expected;
      while |data| < expected
        invariant rounds <= |old(pending)| && pending == old(pending)[rounds..]
        invariant written == old(written) + Sent(cmd, rounds)
        invariant Rounds(pending, data, expected).result == run.result &&
                  rounds + Rounds(pending, data, expected).rounds == run.rounds
        decreases |pending|
      {
        ghost var replies := pending;
        t := Round(cmd, data, expected);
        SentOneMore(cmd, rounds);
        RoundStep(old(pending), rounds, replies, data, expected, t, run);
        if t.Done? {
          return t.result;
        }
        rounds := rounds + 1;
        data, expected := t.data, t.expected;
      }
      RoundsGathered(pending, data, expected);
      r := Ok(data);
    }

    /**
     * One pass of `command`'s loop: exchange one frame, then stop on ACK or UPS,
     * raise on ERR, NAK or a reply without values, or gather the reply's values.
     */
    method Round(cmd: Cmd, data: seq<int>, expected: int) returns (t: Turn)
      requires |data| < expected
      modifies this`written, this`pending
      ensures !Fits(cmd, maxPacketSize) ==>
                written == old(written) && pending == old(pending) &&
                t == Done(CommandSpec(maxPacketSize, cmd, old(pending)).result)
      ensures Fits(cmd, maxPacketSize) ==>
                written == old(written) + [Frame(Encode(cmd).value)] &&
                pending == (if old(pending) == [] then [] else old(pending)[1..])
      ensures Fits(cmd, maxPacketSize) && t.Done? ==> Rounds(old(pending), data, expected) == Run(t.result, 1)
      ensures Fits(cmd, maxPacketSize) && t.More? ==>
                old(pending) != [] &&
                Rounds(old(pending), data, expected).result == Rounds(pending, t.data, t.expected).result &&
                Rounds(old(pending), data, expected).rounds == Rounds(pending, t.data, t.expected).rounds + 1
    {
      ghost var replies := pending;
      RoundsEnd(replies, data, expected);
      var reply := Exchange(cmd);
      if reply.Err? {
        return Done(Err(reply.error));
      }
      match Handle(reply.value, expected)
      case Stop =>
        t := Done(Ok(data));
      case Fail(e) =>
        t := Done(Err(e));
      case Append(vs, expected') =>
        RoundsAppend(replies, data, expected, vs, expected');
        t := More(data + vs, expected');
    }
  }
}
