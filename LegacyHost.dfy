// The legacy host driver of Python/SerialProtocol.py: `_decode_message`, which
// cuts the echoed number and the value out of a reply by splitting it at the
// operator, STX and ETX, and the payload formatting of `_sendmessage`,
// `command`, `setvalue` and `getvalue`. The reply's bytes are read as
// characters; the serial port is a log of writes and a queue of replies.
module LegacyHost {
  import opened Base
  import opened Text
  import OldSci

  const STX: char := 2 as char
  const ETX: char := 3 as char
  const EXCLAM: char := '!'
  const QUESTION: char := '?'
  const COLON: char := ':'

  // ---------------------------------------------------------------------------
  // Locating a character.

  /** The index of the first `c` in `s`, or `|s|` when there is none. */
  function Find(s: seq<char>, c: char): (i: nat)
    ensures i <= |s| && c !in s[..i]
    ensures i < |s| <==> c in s
    ensures i < |s| ==> s[i] == c
    decreases |s|
  {
    if s == [] then 0
    else if s[0] == c then 0
    else
      var j := Find(s[1..], c);
      assert s[..j + 1] == [s[0]] + s[1..][..j];
      1 + j
  }

  /** The text in front of the first `c`, all of `s` if there is none. */
  function Before(s: seq<char>, c: char): (r: seq<char>)
    ensures c !in r && r <= s
  {
    s[..Find(s, c)]
  }

  /** The text behind the first `c`. */
  function After(s: seq<char>, c: char): (r: seq<char>)
    requires c in s
    ensures s == Before(s, c) + [c] + r
  {
    s[Find(s, c) + 1..]
  }

  /** `s.split(c)[0]` is the text in front of the first `c`. */
  lemma SplitHead(s: seq<char>, c: char)
    ensures Split(s, c)[0] == Before(s, c)
    ensures |Split(s, c)| >= 2 <==> c in s
  {
    if c in s {
      SplitAt(s, Find(s, c), c);
    } else {
      SplitWhole(s, c);
    }
  }

  /** `s.split(c)[1]` is the text between the first and the second `c`. */
  lemma SplitSecond(s: seq<char>, c: char)
    requires c in s
    ensures |Split(s, c)| >= 2 && Split(s, c)[1] == Before(After(s, c), c)
  {
    SplitAt(s, Find(s, c), c);
    SplitHead(After(s, c), c);
  }

  // ---------------------------------------------------------------------------
  // `_decode_message`.

  /** The `IndexError` a missing field raises: no operator at all, or no STX in front of it. */
  datatype DecodeError = NoOperator | NoStx

  /** The echoed number and the value text of a reply. */
  datatype Reply = Reply(number: seq<char>, value: seq<char>)

  /**
   * `_decode_message` (Python/SerialProtocol.py:31-39): the number lies between
   * the first STX and the next STX or the first operator; the value lies
   * between the first operator and the next ETX or operator.
   */
  function DecodeMessage(message: seq<char>, operator: char): (r: Result<Reply, DecodeError>)
    ensures r == Err(NoOperator) <==> operator !in message
    ensures r == Err(NoStx) <==> operator in message && STX !in Before(message, operator)
    ensures r.Ok? ==> r.value.number == Before(After(Before(message, operator), STX), STX)
    ensures r.Ok? ==> r.value.value == Before(Before(After(message, operator), operator), ETX)
  {
    SplitHead(message, operator);
    var responsesplit1 := Split(message, operator);
    if |responsesplit1| < 2 then Err(NoOperator)
    else
      SplitSecond(message, operator);
      var resp0, resp1 := responsesplit1[0], responsesplit1[1];
      SplitHead(resp0, STX);
      SplitHead(resp1, ETX);
      var responsesplit2 := Split(resp0, STX);
      var responsesplit3 := Split(resp1, ETX);
      if |responsesplit2| < 2 then Err(NoStx)
      else
        SplitSecond(resp0, STX);
        Ok(Reply(responsesplit2[1], responsesplit3[0]))
  }

  /** The reply a device sends: the number and the value between STX, the operator and ETX. */
  function ReplyFrame(number: seq<char>, operator: char, value: seq<char>): seq<char>
  {
    [STX] + number + [operator] + value + [ETX]
  }

  /** `_decode_message` takes a well-formed reply apart into its number and its value. */
  lemma DecodeReply(number: seq<char>, operator: char, value: seq<char>)
    requires operator != STX && operator != ETX
    requires STX !in number && operator !in number && operator !in value && ETX !in value
    ensures DecodeMessage(ReplyFrame(number, operator, value), operator) == Ok(Reply(number, value))
  {
    var m := ReplyFrame(number, operator, value);
    var q := 1 + |number|;
    assert m[q] == operator;
    assert m[..q] == [STX] + number;
    assert operator !in m[..q];
    assert Find(m, operator) == q by {
      FindIs(m, operator, q);
    }
    var resp0 := [STX] + number;
    assert Before(m, operator) == resp0;
    assert Find(resp0, STX) == 0;
    assert After(resp0, STX) == number;
    assert Before(number, STX) == number by {
      FindIs(number, STX, |number|);
    }
    assert After(m, operator) == value + [ETX];
    assert Before(value + [ETX], operator) == value + [ETX] by {
      FindIs(value + [ETX], operator, |value| + 1);
    }
    assert Before(value + [ETX], ETX) == value by {
      FindIs(value + [ETX], ETX, |value|);
    }
  }

  /** The first occurrence is determined by what lies in front of it. */
  lemma FindIs(s: seq<char>, c: char, q: nat)
    requires q <= |s| && c !in s[..q] && (q < |s| ==> s[q] == c)
    ensures Find(s, c) == q
  {
  }

  /** A reply without the operator raises `IndexError` before the STX is looked for. */
  lemma DecodeWithoutOperator(message: seq<char>, operator: char)
    requires operator !in message
    ensures DecodeMessage(message, operator) == Err(NoOperator)
  {
  }

  /**
   * A reply whose value is followed by a second operator loses what follows it:
   * the value stops at the second operator, not at ETX.
   */
  lemma DecodeStopsAtSecondOperator(number: seq<char>, operator: char, value: seq<char>, more: seq<char>)
    requires operator != STX && operator != ETX
    requires STX !in number && operator !in number && operator !in value && ETX !in value
    ensures DecodeMessage(ReplyFrame(number, operator, value + [operator] + more), operator) == Ok(Reply(number, value))
  {
    var m := ReplyFrame(number, operator, value + [operator] + more);
    var q := 1 + |number|;
    assert m[q] == operator && m[..q] == [STX] + number;
    assert Find(m, operator) == q by {
      FindIs(m, operator, q);
    }
    var resp0 := [STX] + number;
    assert Before(m, operator) == resp0;
    assert Find(resp0, STX) == 0;
    assert After(resp0, STX) == number;
    assert Before(number, STX) == number by {
      FindIs(number, STX, |number|);
    }
    var tail := value + [operator] + more + [ETX];
    assert After(m, operator) == tail;
    assert tail[..|value|] == value;
    assert Before(tail, operator) == value by {
      FindIs(tail, operator, |value|);
    }
    assert Before(value, ETX) == value by {
      FindIs(value, ETX, |value|);
    }
  }

  // ---------------------------------------------------------------------------
  // Payloads.

  /** A parameter of `_sendmessage`: a whole number or an operator character. */
  datatype Param = Int(n: int) | Op(c: char)

  /** `"{}".format(p)`: a whole number's decimal text, or the operator itself. */
  function Format(p: Param): (s: seq<char>)
    ensures |s| >= 1
  {
    match p
    case Int(n) => OldSci.IntText(n)
    case Op(c) => [c]
  }

  /** The formatted parameters one after the other, with no separator. */
  function FormatAll(ps: seq<Param>): (s: seq<char>)
    ensures |s| >= |ps|
  {
    if ps == [] then [] else Format(ps[0]) + FormatAll(ps[1..])
  }

  /** One, two or three parameters formatted one after the other. */
  lemma FormatFew(a: Param, b: Param, c: Param)
    ensures FormatAll([a]) == Format(a)
    ensures FormatAll([a, b]) == Format(a) + Format(b)
    ensures FormatAll([a, b, c]) == Format(a) + Format(b) + Format(c)
  {
    assert FormatAll([c]) == Format(c) by {
      assert [c][1..] == [];
    }
    assert FormatAll([b]) == Format(b) by {
      assert [b][1..] == [];
    }
    assert FormatAll([a]) == Format(a) by {
      assert [a][1..] == [];
    }
    assert FormatAll([b, c]) == Format(b) + Format(c) by {
      assert [b, c][1..] == [c];
    }
    assert FormatAll([a, b]) == Format(a) + Format(b) by {
      assert [a, b][1..] == [b];
    }
    assert FormatAll([a, b, c]) == Format(a) + (Format(b) + Format(c)) by {
      assert [a, b, c][1..] == [b, c];
    }
  }

  /** The parameters `command` hands over: the number, ':' and every parameter of the list. */
  function CommandParams(number: int, paramList: seq<int>): (ps: seq<Param>)
    ensures |ps| == 2 + |paramList| && ps[..2] == [Int(number), Op(COLON)]
    ensures forall k :: 0 <= k < |paramList| ==> ps[2 + k] == Int(paramList[k])
  {
    [Int(number), Op(COLON)] + seq(|paramList|, k requires 0 <= k < |paramList| => Int(paramList[k]))
  }

  /**
   * `command` formats only the number, ':' and the first parameter of the list:
   * `_sendmessage` uses at most three parameters.
   */
  lemma CommandPayload(number: int, paramList: seq<int>)
    ensures var ps := CommandParams(number, paramList);
            FormatAll(ps[..Min(3, |ps|)]) ==
              OldSci.IntText(number) + [COLON] + (if paramList == [] then [] else OldSci.IntText(paramList[0]))
  {
    var ps := CommandParams(number, paramList);
    if paramList == [] {
      assert ps[..Min(3, |ps|)] == [Int(number), Op(COLON)];
      FormatFew(Int(number), Op(COLON), Op(COLON));
    } else {
      assert ps[..Min(3, |ps|)] == [Int(number), Op(COLON), Int(paramList[0])];
      FormatFew(Int(number), Op(COLON), Int(paramList[0]));
    }
  }

  /** `getvalue` formats the number and '?'. */
  lemma GetValuePayload(number: int)
    ensures FormatAll([Int(number), Op(QUESTION)]) == OldSci.IntText(number) + [QUESTION]
  {
    FormatFew(Int(number), Op(QUESTION), Op(QUESTION));
  }

  /** `setvalue` formats the number, '!' and the value. */
  lemma SetValuePayload(number: int, value: int)
    ensures FormatAll([Int(number), Op(EXCLAM), Int(value)]) == OldSci.IntText(number) + [EXCLAM] + OldSci.IntText(value)
  {
    FormatFew(Int(number), Op(EXCLAM), Int(value));
  }

  /** The `IndexError` of `_sendmessage` with no parameters, or of `_decode_message`. */
  datatype LegacyError = NoParameters | DecodeFailed(error: DecodeError)

  /** The `SerialProtocol` object and its serial port. */
  class SerialProtocol {
    /** The byte strings handed to `device.write`, in order. */
    var written: seq<seq<char>>
    /** What successive `read_until(b'\x03')` calls return. */
    var pending: seq<seq<char>>

    constructor(replies: seq<seq<char>>)
      ensures written == [] && pending == replies
    {
      written := [];
      pending := replies;
    }

    /**
     * `_sendmessage`: the first one, two or three parameters formatted and
     * concatenated, written between a separate STX and ETX write. No parameter
     * at all raises `IndexError` before anything is written.
     */
    method SendMessage(parameters: seq<Param>) returns (ok: bool)
      modifies this`written
      ensures ok <==> |parameters| >= 1
      ensures ok ==> written == old(written) + [[STX], FormatAll(parameters[..Min(3, |parameters|)]), [ETX]]
      ensures !ok ==> written == old(written)
    {
      if |parameters| == 0 {
        return false;
      }
      var data: seq<char>;
      if |parameters| == 1 {
        data := Format(parameters[0]);
      } else if |parameters| == 2 {
        data := Format(parameters[0]) + Format(parameters[1]);
      } else {
        data := Format(parameters[0]) + Format(parameters[1]) + Format(parameters[2]);
      }
      ghost var used := parameters[..Min(3, |parameters|)];
      FormatFew(parameters[0], used[|used| / 2], used[|used| - 1]);
      assert used == if |used| == 1 then [used[0]] else if |used| == 2 then [used[0], used[1]] else [used[0], used[1], used[2]];
      written := written + [[STX]];
      written := written + [data];
      written := written + [[ETX]];
      ok := true;
    }

    /** `read_until(b'\x03')`: the next reply, or nothing once the device is silent. */
    method ReadUntilEtx() returns (bs: seq<char>)
      modifies this`pending
      ensures old(pending) == [] ==> bs == [] && pending == []
      ensures old(pending) != [] ==> bs == old(pending)[0] && pending == old(pending)[1..]
    {
      if pending == [] {
        return [];
      }
      bs := pending[0];
      pending := pending[1..];
    }

    /**
     * One exchange of `command`, `setvalue` and `getvalue`: send the parameters,
     * read one reply and take its value text apart at `operator`.
     */
    method Exchange(parameters: seq<Param>, operator: char) returns (r: Result<seq<char>, LegacyError>)
      requires |parameters| >= 1
      modifies this`written, this`pending
      ensures written == old(written) + [[STX], FormatAll(parameters[..Min(3, |parameters|)]), [ETX]]
      ensures pending == if old(pending) == [] then [] else old(pending)[1..]
      ensures var reply := if old(pending) == [] then [] else old(pending)[0];
              r == match DecodeMessage(reply, operator)
                   case Ok(rsp) => Ok(rsp.value)
                   case Err(e) => Err(DecodeFailed(e))
    {
      var sent := SendMessage(parameters);
      var response := ReadUntilEtx();
      var decoded := DecodeMessage(response, operator);
      match decoded
      case Ok(rsp) =>
        r := Ok(rsp.value);
      case Err(e) =>
        r := Err(DecodeFailed(e));
    }

    /**
     * `command`: the number, ':' and the parameters go out, of which only the
     * first parameter reaches the wire; the reply's value text comes back.
     */
    method Command(number: int, paramList: seq<int>) returns (r: Result<seq<char>, LegacyError>)
      modifies this`written, this`pending
      ensures written == old(written) +
                [[STX], OldSci.IntText(number) + [COLON] + (if paramList == [] then [] else OldSci.IntText(paramList[0])), [ETX]]
      ensures pending == if old(pending) == [] then [] else old(pending)[1..]
      ensures var reply := if old(pending) == [] then [] else old(pending)[0];
              r == match DecodeMessage(reply, COLON)
                   case Ok(rsp) => Ok(rsp.value)
                   case Err(e) => Err(DecodeFailed(e))
    {
      var params := CommandParams(number, paramList);
      CommandPayload(number, paramList);
      r := Exchange(params, COLON);
    }

    /** `setvalue`: the number, '!' and the value go out; the reply's value text comes back. */
    method SetValue(number: int, value: int) returns (r: Result<seq<char>, LegacyError>)
      modifies this`written, this`pending
      ensures written == old(written) + [[STX], OldSci.IntText(number) + [EXCLAM] + OldSci.IntText(value), [ETX]]
      ensures pending == if old(pending) == [] then [] else old(pending)[1..]
      ensures var reply := if old(pending) == [] then [] else old(pending)[0];
              r == match DecodeMessage(reply, EXCLAM)
                   case Ok(rsp) => Ok(rsp.value)
                   case Err(e) => Err(DecodeFailed(e))
    {
      var params := [Int(number), Op(EXCLAM), Int(value)];
      SetValuePayload(number, value);
      assert params[..Min(3, |params|)] == params;
      r := Exchange(params, EXCLAM);
    }

    /** `getvalue`: the number and '?' go out; the reply's value text comes back. */
    method GetValue(number: int) returns (r: Result<seq<char>, LegacyError>)
      modifies this`written, this`pending
      ensures written == old(written) + [[STX], OldSci.IntText(number) + [QUESTION], [ETX]]
      ensures pending == if old(pending) == [] then [] else old(pending)[1..]
      ensures var reply := if old(pending) == [] then [] else old(pending)[0];
              r == match DecodeMessage(reply, QUESTION)
                   case Ok(rsp) => Ok(rsp.value)
                   case Err(e) => Err(DecodeFailed(e))
    {
      var params := [Int(number), Op(QUESTION)];
      GetValuePayload(number);
      assert params[..Min(3, |params|)] == params;
      r := Exchange(params, QUESTION);
    }
  }

  /**
   * A `getvalue` against a device answering `<number>?<value>` between STX and
   * ETX returns the value text.
   */
  lemma GetValueAnswered(number: seq<char>, value: seq<char>)
    requires STX !in number && QUESTION !in number && QUESTION !in value && ETX !in value
    ensures DecodeMessage(ReplyFrame(number, QUESTION, value), QUESTION) == Ok(Reply(number, value))
  {
    DecodeReply(number, QUESTION, value);
  }
}
