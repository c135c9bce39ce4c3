// SCI.c: the request parser and response builder of the oldest device
// generation. It knows three request kinds, reads the variable number as a
// signed decimal with `atoi`, and keeps the comma-separated values as the
// texts `atof` converts (the float values themselves are not modelled).
module OldSci {
  import opened Base
  import opened Protocol
  import opened Text

  /** `MAX_NUM_COMMAND_VALUES` (SCICommands.h:25): the length of the command's value array. */
  const MAX_NUM_COMMAND_VALUES: nat := 10

  /** The request kind of an identifier this generation accepts (`GETVAR_IDENTIFIER` and the two others, SCI.h:39-41). */
  function OldTypeOfId(c: char): (r: Option<ReqType>)
    ensures r.Some? ==> r.value in {GetVar, SetVar, Command}
  {
    if c == '?' then Some(GetVar)
    else if c == '!' then Some(SetVar)
    else if c == ':' then Some(Command)
    else None
  }

  /** The offset of the first identifier in `msg`, or `|msg|` when there is none. */
  function FirstId(msg: seq<char>): (i: nat)
    ensures i <= |msg|
    ensures forall k :: 0 <= k < i ==> OldTypeOfId(msg[k]).None?
    ensures i < |msg| ==> OldTypeOfId(msg[i]).Some?
  {
    if msg == [] then 0
    else if OldTypeOfId(msg[0]).Some? then 0
    else 1 + FirstId(msg[1..])
  }

  // ---------------------------------------------------------------------------
  // Decimal text: `atoi` and the digits `ftoa` writes for a whole number.

  predicate IsDigit(c: char)
  {
    '0' as int <= c as int <= '9' as int
  }

  /** The characters C's `isspace` accepts: space, and tab through carriage return. */
  predicate IsSpace(c: char)
  {
    c == ' ' || 9 <= c as int <= 13
  }

  /** The digits at the front of `s`. */
  function LeadingDigits(s: seq<char>): (d: seq<char>)
    ensures |d| <= |s| && d == s[..|d|]
    ensures forall k :: 0 <= k < |d| ==> IsDigit(d[k])
    ensures |d| < |s| ==> !IsDigit(s[|d|])
  {
    if s != [] && IsDigit(s[0]) then [s[0]] + LeadingDigits(s[1..]) else []
  }

  /** The value of a digit string, most significant digit first. */
  function DecValue(d: seq<char>): (v: nat)
    requires forall k :: 0 <= k < |d| ==> IsDigit(d[k])
  {
    if d == [] then 0
    else
      assert IsDigit(d[|d| - 1]);
      DecValue(d[..|d| - 1]) * 10 + (d[|d| - 1] as int - '0' as int)
  }

  /**
   * C's `atoi`: leading white space, an optional sign, and the decimal digits
   * that follow; conversion stops at the first other character (a NUL
   * included), and a text without digits gives 0.
   */
  function Atoi(s: seq<char>): (r: int)
    ensures (s == [] || (!IsSpace(s[0]) && s[0] != '-' && s[0] != '+' && !IsDigit(s[0]))) ==> r == 0
  {
    if s != [] && IsSpace(s[0]) then Atoi(s[1..])
    else if s != [] && s[0] == '-' then 0 - DecValue(LeadingDigits(s[1..]))
    else if s != [] && s[0] == '+' then DecValue(LeadingDigits(s[1..]))
    else DecValue(LeadingDigits(s))
  }

  /** The decimal digits of `n` without leading zeros, "0" for zero. */
  function DecText(n: nat): (s: seq<char>)
    ensures |s| >= 1 && forall k :: 0 <= k < |s| ==> IsDigit(s[k])
  {
    if n < 10 then ['0' + n as char] else DecText(n / 10) + ['0' + (n % 10) as char]
  }

  /**
   * What `ftoa` (Helpers.c:27-133) writes for a whole number `n`: a '-' for a
   * negative one, then the digits of its magnitude, and no fraction.
   */
  function IntText(n: int): (s: seq<char>)
    ensures |s| >= 1 && forall k :: 0 <= k < |s| ==> IsDigit(s[k]) || s[k] == '-'
  {
    if n < 0 then ['-'] + DecText(-n) else DecText(n)
  }

  /** The digits of `n` read back give `n`. */
  lemma {:induction false} DecValueOfText(n: nat)
    ensures DecValue(DecText(n)) == n
    decreases n
  {
    if n >= 10 {
      var d := DecText(n);
      DecValueOfText(n / 10);
      assert d[..|d| - 1] == DecText(n / 10);
    }
  }

  /** A digit string is its own leading digits. */
  lemma {:induction false} LeadingDigitsAll(d: seq<char>)
    requires forall k :: 0 <= k < |d| ==> IsDigit(d[k])
    ensures LeadingDigits(d) == d
    decreases |d|
  {
    if d != [] {
      LeadingDigitsAll(d[1..]);
    }
  }

  /** `atoi` reads back the text `ftoa` writes for a whole number. */
  lemma AtoiOfIntText(n: int)
    ensures Atoi(IntText(n)) == n
  {
    var m := if n < 0 then -n else n;
    LeadingDigitsAll(DecText(m));
    DecValueOfText(m);
    if n < 0 {
      assert IntText(n)[1..] == DecText(m);
    }
  }

  /** An `int16_t` assigned the value it already holds keeps it. */
  lemma ToInt16Keeps(n: int16)
    ensures ToInt16(n) == n
  {
    if n < 0 {
      assert n % TWO_16 == n + TWO_16;
    }
  }

  // ---------------------------------------------------------------------------
  // `commandParser`

  /**
   * The parsed `COMMAND`: number, value count, the field texts `atof`
   * converts into `f_valArr`, and kind.
   */
  datatype OldCmd = OldCmd(num: int16, valArrLen: nat, fields: seq<seq<char>>, cmdType: ReqType)

  /** `COMMAND_DEFAULT` (SCICommands.h:56). */
  const COMMAND_DEFAULT: OldCmd := OldCmd(0, 0, [], ReqNone)

  /**
   * What `commandParser` returns for the `|msg|` received bytes: the first
   * identifier gives the kind, the bytes before it the number (through `atoi`,
   * truncated to 16 bits), and the bytes after it, if any, up to eleven fields
   * split at ','.
   */
  function ParseOld(msg: seq<char>): (r: OldCmd)
  {
    var i := FirstId(msg);
    if i == |msg| then COMMAND_DEFAULT
    else
      var c := OldCmd(ToInt16(Atoi(msg[..i])), 0, [], OldTypeOfId(msg[i]).value);
      if |msg| > i + 1 then
        var fs := Take(Split(msg[i + 1..], ','), MAX_NUM_COMMAND_VALUES + 1);
        c.(valArrLen := |fs|, fields := fs)
      else c
  }

  /** `commandParser` (SCI.c:157-255). */
  method CommandParser(msg: seq<char>) returns (cmd: OldCmd)
    requires |msg| < 0x100
    ensures cmd == ParseOld(msg)
  {
    var i := 0;
    cmd := COMMAND_DEFAULT;
    while i < |msg|
      invariant 0 <= i <= |msg| && cmd == COMMAND_DEFAULT
      invariant forall k :: 0 <= k < i ==> OldTypeOfId(msg[k]).None?
    {
      if msg[i] == '?' {
        cmd := cmd.(cmdType := GetVar);
        break;
      } else if msg[i] == '!' {
        cmd := cmd.(cmdType := SetVar);
        break;
      } else if msg[i] == ':' {
        cmd := cmd.(cmdType := Command);
        break;
      }
      i := i + 1;
    }
    if cmd.cmdType == ReqNone {
      assert i == |msg| == FirstId(msg);
      return;
    }
    assert i == FirstId(msg);
    cmd := cmd.(num := ToInt16(Atoi(msg[..i])));
    if |msg| > i + 1 {
      var fields := ScanFields(msg, i, |msg|, MAX_NUM_COMMAND_VALUES + 1);
      assert msg[i + 1..|msg|] == msg[i + 1..];
      cmd := cmd.(valArrLen := |fields|, fields := fields);
    }
  }

  // ---------------------------------------------------------------------------
  // Properties of the parser.

  /** Without any of the three identifiers the default command comes back, and only then is the kind NONE. */
  lemma ParseOldRefusal(msg: seq<char>)
    ensures ParseOld(msg).cmdType == ReqNone <==> forall k :: 0 <= k < |msg| ==> OldTypeOfId(msg[k]).None?
    ensures ParseOld(msg).cmdType == ReqNone ==> ParseOld(msg) == COMMAND_DEFAULT
  {
  }

  /**
   * A request written as the number's decimal text, an identifier and
   * separator-free fields is read back as that number, kind and fields.
   */
  lemma ParseOldRoundTrip(n: int16, t: ReqType, fs: seq<seq<char>>)
    requires t in {GetVar, SetVar, Command}
    requires 1 <= |fs| <= MAX_NUM_COMMAND_VALUES + 1 && |Join(fs, ',')| > 0
    requires forall k :: 0 <= k < |fs| ==> ',' !in fs[k]
    ensures ParseOld(IntText(n) + [ResponseId(t)] + Join(fs, ',')) == OldCmd(n, |fs|, fs, t)
  {
    var text := IntText(n);
    forall k | 0 <= k < |text|
      ensures OldTypeOfId(text[k]).None?
    {
    }
    IdAfter(text, ResponseId(t), Join(fs, ','));
    AtoiOfIntText(n);
    ToInt16Keeps(n);
    SplitJoin(fs, ',');
  }

  /** In `a + [c] + b` with no identifier in `a` and `c` one, the first identifier is `c`, with `a` before it and `b` after it. */
  lemma IdAfter(a: seq<char>, c: char, b: seq<char>)
    requires forall k :: 0 <= k < |a| ==> OldTypeOfId(a[k]).None?
    requires OldTypeOfId(c).Some?
    ensures var msg := a + [c] + b;
            FirstId(msg) == |a| && msg[..|a|] == a && msg[|a|] == c && msg[|a| + 1..] == b
  {
    var msg := a + [c] + b;
    assert forall k :: 0 <= k < |a| ==> msg[k] == a[k];
    assert msg[|a|] == c;
    assert msg[..|a|] == a;
    assert msg[|a| + 1..] == b;
  }


  /**
   * Eleven or more fields are counted as eleven, one more than `f_valArr`
   * holds: the value loop runs while `ui8_numOfVals <= MAX_NUM_COMMAND_VALUES`.
   */
  lemma ElevenFieldsCounted(t: ReqType, fs: seq<seq<char>>)
    requires t in {GetVar, SetVar, Command} && |fs| > MAX_NUM_COMMAND_VALUES
    requires forall k :: 0 <= k < |fs| ==> ',' !in fs[k]
    ensures ParseOld([ResponseId(t)] + Join(fs, ',')).valArrLen == MAX_NUM_COMMAND_VALUES + 1
  {
    var msg := [ResponseId(t)] + Join(fs, ',');
    assert FirstId(msg) == 0;
    assert msg[1..] == Join(fs, ',');
    SplitJoin(fs, ',');
  }

  // ---------------------------------------------------------------------------
  // `responseBuilder`

  /** `cmdIdArr` of `responseBuilder` (SCI.c:261). */
  const OLD_ID_CHARS: seq<char> := ['?', '!', ':']

  /**
   * The identifier `responseBuilder` writes as written: `cmdIdArr[e_cmdType]`
   * with the enum values of SCICommands.h:34-39, `None` where the index is
   * past the 3-entry array.
   */
  function ResponseIdAsWritten(t: ReqType): (r: Option<char>)
    ensures r.Some? <==> ReqTypeCode(t) < 3
  {
    if ReqTypeCode(t) < 3 then Some(OLD_ID_CHARS[ReqTypeCode(t)]) else None
  }

  /**
   * The lookup as written tags a GETVAR answer with the SETVAR identifier and a
   * SETVAR answer with the COMMAND identifier, and has no entry for COMMAND.
   */
  lemma ResponseIdShifted()
    ensures OldTypeOfId(ResponseIdAsWritten(GetVar).value) == Some(SetVar)
    ensures OldTypeOfId(ResponseIdAsWritten(SetVar).value) == Some(Command)
    ensures ResponseIdAsWritten(Command) == None
  {
  }

  /** The corrected lookup: the identifier of each of the three kinds, the one the parser reads as that kind. */
  function ResponseId(t: ReqType): (c: char)
    requires t in {GetVar, SetVar, Command}
    ensures OldTypeOfId(c) == Some(t)
  {
    OLD_ID_CHARS[ReqTypeCode(t) - 1]
  }

  /** Every accepted identifier is the corrected lookup's entry for its kind. */
  lemma ResponseIdInverse(c: char)
    requires OldTypeOfId(c).Some?
    ensures ResponseId(OldTypeOfId(c).value) == c
  {
  }

  /**
   * `responseBuilder` (SCI.c:258-275) with the corrected lookup: the number as
   * `ftoa` writes a whole number, the identifier, and the value text `ftoa`
   * wrote for `f_val`, which is given here. Returns the size written.
   */
  method ResponseBuilder(buf: array<char>, num: int16, t: ReqType, valText: seq<char>) returns (size: nat)
    requires t in {GetVar, SetVar, Command}
    requires |IntText(num)| + 1 + |valText| <= buf.Length
    modifies buf
    ensures size == |IntText(num)| + 1 + |valText|
    ensures buf[..] == Overlay(old(buf[..]), 0, IntText(num) + [ResponseId(t)] + valText)
  {
    ghost var b0 := buf[..];
    var numText := IntText(num);
    OverlayEmpty(b0);
    assert [] + numText == numText;
    Emit(buf, b0, [], 0, numText);
    Emit(buf, b0, numText, |numText|, [ResponseId(t)]);
    Emit(buf, b0, numText + [ResponseId(t)], |numText| + 1, valText);
    size := |numText| + 1 + |valText|;
  }

  /**
   * An answer the builder writes with value fields has the request's shape:
   * the parser reads back its number, its kind and its fields.
   */
  lemma AnswerReadsBack(num: int16, t: ReqType, fs: seq<seq<char>>)
    requires t in {GetVar, SetVar, Command}
    requires 1 <= |fs| <= MAX_NUM_COMMAND_VALUES + 1 && |Join(fs, ',')| > 0
    requires forall k :: 0 <= k < |fs| ==> ',' !in fs[k]
    ensures var p := ParseOld(IntText(num) + [ResponseId(t)] + Join(fs, ','));
            p.num == num && p.cmdType == t && p.fields == fs
  {
    ParseOldRoundTrip(num, t, fs);
  }
}
