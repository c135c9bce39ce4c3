// The nibble text codec of Helpers.c (`strToHex`, `hexToStr`): upper-case
// hexadecimal digits, most significant first, no leading zeros.
module HexCodec {
  import opened Base

  const NUL: char := '\0'

  /** The digit table `hexNibbleConv`. */
  const HEX_NIBBLES: seq<char> := "0123456789ABCDEF"

  predicate IsHexDigit(c: char)
  {
    ('0' <= c <= '9') || ('A' <= c <= 'F')
  }

  predicate AllHex(s: seq<char>)
  {
    forall i :: 0 <= i < |s| ==> IsHexDigit(s[i])
  }

  function DigitValue(c: char): (d: nat)
    requires IsHexDigit(c)
    ensures d < 16 && HEX_NIBBLES[d] == c
  {
    if c <= '9' then c as int - '0' as int else c as int - 'A' as int + 10
  }

  function Pow16(k: nat): (r: nat)
    ensures r >= 1
  {
    if k == 0 then 1 else 16 * Pow16(k - 1)
  }

  /** Reference reading of a digit string: the positional value, most significant digit first. */
  function HexValue(s: seq<char>): (v: nat)
    requires AllHex(s)
    ensures v < Pow16(|s|)
  {
    if s == [] then 0 else HexValue(s[..|s| - 1]) * 16 + DigitValue(s[|s| - 1])
  }

  /** Nibble `k` of `v`, that is `(v >> 4k) & 0xF`. */
  function Nibble(v: nat, k: nat): (d: nat)
    ensures d < 16
  {
    if k == 0 then v % 16 else Nibble(v / 16, k - 1)
  }

  /** The text `hexToStr` writes for `v`: the digits of `v` without leading zeros, "0" for zero. */
  function HexText(v: nat): (s: seq<char>)
    ensures |s| >= 1
    decreases v
  {
    if v < 16 then [HEX_NIBBLES[v]] else HexText(v / 16) + [HEX_NIBBLES[v % 16]]
  }

  /** Outcome of `strToHex`: the returned validity flag and the value left in `*pui32_val`. */
  datatype HexParse = HexParse(valid: bool, value: nat)

  /**
   * The digit loop of `strToHex` after it has consumed the last `c` characters of `s`
   * from the right: a character outside '0'-'9', 'A'-'F' stops the scan with the
   * flag cleared and keeps the value gathered so far.
   */
  function Scanned(s: seq<char>, c: nat): (r: HexParse)
    requires c <= |s|
    ensures r.value < Pow16(c)
  {
    if c == 0 then HexParse(true, 0)
    else
      var p := Scanned(s, c - 1);
      if !p.valid then p
      else
        var ch := s[|s| - c];
        if IsHexDigit(ch) then
          DigitWeight(p.value, DigitValue(ch), Pow16(c - 1));
          HexParse(true, p.value + DigitValue(ch) * Pow16(c - 1))
        else HexParse(false, p.value)
  }

  /**
   * `strToHex` on the characters before the terminating NUL. The character count is
   * kept in an `int8_t`, so it is the 8-bit two's-complement wrap of the length.
   */
  function StrToHexSpec(s: seq<char>): (r: HexParse)
  {
    var count := ToInt8(|s|);
    if count > 8 then HexParse(false, 0)
    else if count <= 0 then HexParse(true, 0)
    else Scanned(s, count)
  }

  /** The characters of a NUL-terminated buffer before its first NUL. */
  function CString(buf: seq<char>): (s: seq<char>)
    ensures |s| <= |buf| && s == buf[..|s|]
    ensures NUL !in s
    ensures |s| < |buf| ==> buf[|s|] == NUL
  {
    if buf == [] || buf[0] == NUL then [] else [buf[0]] + CString(buf[1..])
  }

  lemma Pow16Eight()
    ensures Pow16(8) == TWO_32
  {
  }

  lemma ShiftNibble(d: nat, p: nat, h: nat)
    ensures (d * p + h) * 16 == d * (p * 16) + h * 16
  {
  }

  /** Prepending a digit adds it at the weight of the remaining digits. */
  lemma {:induction false} HexValuePrepend(c: char, t: seq<char>)
    requires IsHexDigit(c) && AllHex(t)
    ensures AllHex([c] + t) && HexValue([c] + t) == DigitValue(c) * Pow16(|t|) + HexValue(t)
    decreases |t|
  {
    if t == [] {
      HexValueSnoc([], c);
      assert [] + [c] == [c] + t;
    } else {
      var u := t[..|t| - 1];
      var last := t[|t| - 1];
      assert u + [last] == t;
      assert ([c] + u) + [last] == [c] + t;
      HexValuePrepend(c, u);
      HexValueSnoc([c] + u, last);
      HexValueSnoc(u, last);
      ShiftNibble(DigitValue(c), Pow16(|u|), HexValue(u));
      assert Pow16(|t|) == Pow16(|u|) * 16;
    }
  }

  lemma AllHexSuffix(s: seq<char>, k: nat)
    requires k <= |s| && AllHex(s)
    ensures AllHex(s[k..])
  {
    var u := s[k..];
    forall i | 0 <= i < |u|
      ensures IsHexDigit(u[i])
    {
      assert u[i] == s[k + i];
    }
  }

  /** On an all-digit string the scan never stops and gathers the value of the scanned suffix. */
  lemma {:induction false} ScannedAllHex(s: seq<char>, c: nat)
    requires c <= |s| && AllHex(s)
    ensures AllHex(s[|s| - c..]) && Scanned(s, c) == HexParse(true, HexValue(s[|s| - c..]))
  {
    AllHexSuffix(s, |s| - c);
    if c > 0 {
      ScannedAllHex(s, c - 1);
      var t := s[|s| - c + 1..];
      var ch := s[|s| - c];
      assert IsHexDigit(ch) && |t| == c - 1;
      assert s[|s| - c..] == [ch] + t;
      HexValuePrepend(ch, t);
      ScannedStep(s, c - 1);
    }
  }

  /** The scan stops with the flag cleared as soon as a non-digit has been reached. */
  lemma {:induction false} ScannedInvalid(s: seq<char>, c: nat, bad: nat)
    requires c <= |s| && |s| - c <= bad < |s| && !IsHexDigit(s[bad])
    ensures !Scanned(s, c).valid
  {
    if bad == |s| - c {
      if c > 0 && Scanned(s, c - 1).valid {
        assert s[|s| - c] == s[bad];
      }
    } else {
      ScannedInvalid(s, c - 1, bad);
    }
  }

  /**
   * For 1 to 8 characters, `strToHex` accepts exactly the strings of upper-case hex
   * digits and then yields their positional value.
   */
  lemma StrToHexShortStrings(s: seq<char>)
    requires |s| <= 8
    ensures StrToHexSpec(s).valid <==> AllHex(s)
    ensures AllHex(s) ==> StrToHexSpec(s).value == HexValue(s)
  {
    if AllHex(s) {
      ScannedAllHex(s, |s|);
      assert s[|s| - |s|..] == s;
    } else {
      var bad :| 0 <= bad < |s| && !IsHexDigit(s[bad]);
      ScannedInvalid(s, |s|, bad);
    }
  }

  /**
   * The empty string reads as valid zero; more than 8 characters (below the 8-bit
   * wrap of the counter) are refused with value 0.
   */
  lemma StrToHexEmptyAndLong(s: seq<char>)
    ensures s == [] ==> StrToHexSpec(s) == HexParse(true, 0)
    ensures 8 < |s| < 0x80 ==> StrToHexSpec(s) == HexParse(false, 0)
  {
  }

  /** The text of a value of two or more digits is the text of its upper nibbles and its low digit. */
  lemma HexTextSnoc(v: nat)
    requires v >= 16
    ensures HexText(v) == HexText(v / 16) + [HEX_NIBBLES[v % 16]]
  {
  }

  /** Each entry of the digit table is a digit worth its index. */
  lemma NibbleDigit(n: nat)
    requires n < 16
    ensures IsHexDigit(HEX_NIBBLES[n]) && DigitValue(HEX_NIBBLES[n]) == n
  {
  }

  /** Appending a digit shifts the value one nibble up. */
  lemma HexValueSnoc(q: seq<char>, d: char)
    requires AllHex(q) && IsHexDigit(d)
    ensures AllHex(q + [d]) && HexValue(q + [d]) == HexValue(q) * 16 + DigitValue(d)
  {
    assert (q + [d])[..|q|] == q;
  }

  /** The text written for `v` is all digits and reads back as `v`. */
  lemma {:induction false} HexTextAllHex(v: nat)
    ensures AllHex(HexText(v)) && HexValue(HexText(v)) == v
    decreases v
  {
    if v < 16 {
      NibbleDigit(v);
      HexValueSnoc([], HEX_NIBBLES[v]);
      assert [] + [HEX_NIBBLES[v]] == HexText(v);
    } else {
      HexTextAllHex(v / 16);
      NibbleDigit(v % 16);
      HexTextSnoc(v);
      HexValueSnoc(HexText(v / 16), HEX_NIBBLES[v % 16]);
      DivMod16(v);
    }
  }

  /** Euclidean division by 16, stated once for the nonlinear steps. */
  lemma DivMod16(v: nat)
    ensures v == (v / 16) * 16 + v % 16 && v % 16 < 16
  {
  }

  /** Dividing by 16 moves bounds by one nibble. */
  lemma Div16Bounds(v: nat, p: nat)
    ensures v < 16 * p ==> v / 16 < p
    ensures v >= 16 * p ==> v / 16 >= p
  {
    DivMod16(v);
  }

  /** A digit added at weight `p` above a value below `p` stays below `16 * p`. */
  lemma DigitWeight(a: nat, d: nat, p: nat)
    requires a < p && d < 16
    ensures a + d * p < 16 * p
  {
    assert d * p <= 15 * p;
  }

  lemma {:induction false} HexTextLength(v: nat, k: nat)
    requires 1 <= k && v < Pow16(k)
    ensures |HexText(v)| <= k
    decreases v
  {
    if v >= 16 {
      HexTextLength(v / 16, k - 1);
    }
  }

  /** Whatever `strToHex` leaves in its 32-bit output fits in 32 bits. */
  lemma StrToHexBound(s: seq<char>)
    ensures StrToHexSpec(s).value < TWO_32
  {
    var count := ToInt8(|s|);
    if 0 < count <= 8 {
      Pow16Mono(count, 8);
      Pow16Eight();
    }
  }

  /** A 32-bit value never needs more than eight digits. */
  lemma HexTextAtMostEight(v: uint32)
    ensures |HexText(v)| <= 8
  {
    Pow16Eight();
    HexTextLength(v, 8);
  }

  /**
   * Round trip of the codec: the text written for any 32-bit value is read back
   * as valid and as that same value.
   */
  lemma HexRoundTrip(v: uint32)
    ensures StrToHexSpec(HexText(v)) == HexParse(true, v)
  {
    Pow16Eight();
    HexTextLength(v, 8);
    HexTextAllHex(v);
    StrToHexShortStrings(HexText(v));
  }

  /** The text has no leading zero unless it is the single digit of zero. */
  lemma {:induction false} HexTextNoLeadingZero(v: nat)
    ensures (HexText(v)[0] == '0') <==> v == 0
    decreases v
  {
    if v >= 16 {
      HexTextNoLeadingZero(v / 16);
    }
  }

  /** A nonzero nibble bounds `v` from below by its weight. */
  lemma {:induction false} NibbleLowerBound(v: nat, j: nat)
    requires Nibble(v, j) != 0
    ensures v >= Pow16(j)
  {
    if j > 0 {
      NibbleLowerBound(v / 16, j - 1);
    }
  }

  /** If every nibble from `m` up to `n` is zero, `v` is below the weight of nibble `m`. */
  lemma {:induction false} HighNibblesZero(v: nat, m: nat, n: nat)
    requires m <= n && v < Pow16(n)
    requires forall k :: m <= k < n ==> Nibble(v, k) == 0
    ensures v < Pow16(m)
    decreases n
  {
    if n > 0 {
      forall k | (if m == 0 then 0 else m - 1) <= k < n - 1
        ensures Nibble(v / 16, k) == 0
      {
        assert Nibble(v, k + 1) == Nibble(v / 16, k);
      }
      if m == 0 {
        assert Nibble(v, 0) == 0;
        HighNibblesZero(v / 16, 0, n - 1);
      } else {
        HighNibblesZero(v / 16, m - 1, n - 1);
      }
    }
  }

  /** With `len` significant nibbles, the text is those nibbles' digits, highest first. */
  lemma {:induction false} HexTextDigits(v: nat, len: nat)
    requires 1 <= len && v < Pow16(len) && (len == 1 || v >= Pow16(len - 1))
    ensures |HexText(v)| == len
    ensures forall m :: 0 <= m < len ==> HexText(v)[m] == HEX_NIBBLES[Nibble(v, len - 1 - m)]
    decreases len
  {
    if len > 1 {
      DigitsShift(v, len);
      HexTextSnoc(v);
      HexTextDigits(v / 16, len - 1);
      forall m | 0 <= m < len
        ensures HexText(v)[m] == HEX_NIBBLES[Nibble(v, len - 1 - m)]
      {
        if m < len - 1 {
          NibbleShift(v, len - 2 - m);
        }
      }
    }
  }

  /** The bounds of `HexTextDigits` carry over from `v` with `len` nibbles to `v / 16` with one fewer. */
  lemma DigitsShift(v: nat, len: nat)
    requires 1 < len && v < Pow16(len) && v >= Pow16(len - 1)
    ensures v >= 16 && v / 16 < Pow16(len - 1)
    ensures len - 1 == 1 || v / 16 >= Pow16(len - 2)
  {
    assert Pow16(len) == 16 * Pow16(len - 1);
    Div16Bounds(v, Pow16(len - 1));
    if len > 2 {
      assert Pow16(len - 1) == 16 * Pow16(len - 2);
      Div16Bounds(v, Pow16(len - 2));
    }
    Pow16Mono(1, len - 1);
  }

  lemma NibbleShift(v: nat, k: nat)
    ensures Nibble(v, k + 1) == Nibble(v / 16, k)
  {
  }

  /**
   * `strToHex` (Helpers.c:136-184). `buf` is the caller's NUL-terminated buffer; the
   * result is the returned flag and the value left in `*pui32_val`.
   */
  method StrToHex(buf: seq<char>) returns (valid: bool, val: nat)
    requires NUL in buf
    ensures HexParse(valid, val) == StrToHexSpec(CString(buf))
    ensures val < TWO_32
  {
    ghost var s := CString(buf);
    val := 0;
    valid := true;
    var len, i := CountChars(buf);
    if i > 8 {
      valid := false;
      assert StrToHexSpec(s) == HexParse(false, 0);
    } else if i > 0 {
      ToInt8Below(len);
      valid, val := ScanDigits(buf, len, i);
      Pow16Mono(i, 8);
      assert StrToHexSpec(s) == Scanned(s, i);
    } else {
      assert StrToHexSpec(s) == HexParse(true, 0);
    }
    Pow16Eight();
  }

  /** The counting loop of `strToHex` (lines 146-147): the length before the NUL, and its `int8_t` count. */
  method CountChars(buf: seq<char>) returns (len: nat, i: int8)
    requires NUL in buf
    ensures len == |CString(buf)| && i == ToInt8(len)
  {
    ghost var s := CString(buf);
    len := 0;
    i := 0;
    while buf[len] != NUL
      invariant len <= |s| && buf[..len] == s[..len]
      invariant i == ToInt8(len)
      decreases |s| - len
    {
      ToInt8Succ(len);
      i := ToInt8(i + 1);
      len := len + 1;
    }
  }

  /**
   * The digit loop of `strToHex` (lines 168-181): from the least significant
   * character back over `count` characters, OR-ing each digit in at its nibble.
   */
  method ScanDigits(buf: seq<char>, len: nat, count: int8) returns (valid: bool, val: nat)
    requires NUL in buf && len == |CString(buf)| && 0 < count <= 8 && count <= len
    ensures HexParse(valid, val) == Scanned(CString(buf), count)
  {
    ghost var s := CString(buf);
    valid := true;
    val := 0;
    var i := count;
    var j := count;
    var pos: int := len - 1;
    ghost var done: nat := 0;
    while i > 0
      invariant 0 <= i <= j && j == count
      invariant pos == len - 1 - (j - i)
      invariant HexParse(valid, val) == Scanned(s, j - i)
      invariant valid
    {
      var c := buf[pos];
      ghost var k := j - i;
      ScannedStep(s, k);
      assert c == s[|s| - (k + 1)];
      var weight := Pow16(j - i);
      if '0' <= c <= '9' {
        var digit: nat := c as int - '0' as int;
        assert digit == DigitValue(c);
        val := val + digit * weight;
      } else if 'A' <= c <= 'F' {
        var digit: nat := c as int - 'A' as int + 10;
        assert digit == DigitValue(c);
        val := val + digit * weight;
      } else {
        valid := false;
        done := j - i + 1;
        break;
      }
      i := i - 1;
      pos := pos - 1;
    }
    if valid {
      done := j;
    }
    ScannedStops(s, done, j);
  }

  lemma ToInt8Succ(k: nat)
    ensures ToInt8(ToInt8(k) + 1) == ToInt8(k + 1)
  {
  }

  lemma ToInt8Below(k: nat)
    requires ToInt8(k) > 0
    ensures ToInt8(k) <= k
  {
  }

  /** One step of the right-to-left scan, unfolded. */
  lemma ScannedStep(s: seq<char>, c: nat)
    requires c < |s| && Scanned(s, c).valid
    ensures IsHexDigit(s[|s| - c - 1]) ==>
      Scanned(s, c + 1) == HexParse(true, Scanned(s, c).value + DigitValue(s[|s| - c - 1]) * Pow16(c))
    ensures !IsHexDigit(s[|s| - c - 1]) ==> Scanned(s, c + 1) == HexParse(false, Scanned(s, c).value)
  {
  }

  lemma {:induction false} Pow16Mono(a: nat, b: nat)
    requires a <= b
    ensures Pow16(a) <= Pow16(b)
    decreases b
  {
    if a < b {
      Pow16Mono(a, b - 1);
    }
  }

  /** Once the scan has stopped, scanning further characters changes nothing. */
  lemma {:induction false} ScannedStops(s: seq<char>, c: nat, d: nat)
    requires c <= d <= |s|
    requires !Scanned(s, c).valid || c == d
    ensures Scanned(s, d) == Scanned(s, c)
    decreases d
  {
    if c < d {
      ScannedStops(s, c, d - 1);
    }
  }

  /**
   * `hexToStr` (Helpers.c:187-219): writes the digits of `v` at `buf[at..]` and
   * returns how many it wrote.
   */
  method HexToStr(buf: array<char>, at: nat, v: uint32) returns (n: nat)
    requires at + |HexText(v)| <= buf.Length
    modifies buf
    ensures n == |HexText(v)| && 1 <= n <= 8
    ensures buf[..] == old(buf[..at]) + HexText(v) + old(buf[at + n..])
  {
    var top := TopNibble(v);
    if top < 0 {
      buf[at] := '0';
      n := 1;
      assert buf[..] == old(buf[..at]) + HexText(v) + old(buf[at + n..]);
      return;
    }
    WriteDigits(buf, at, v, top, HexText(v));
    n := top + 1;
  }

  /**
   * The first loop of `hexToStr` (lines 196-203): the highest nonzero nibble of `v`,
   * -1 when `v` is zero, and what that says about the text of `v`.
   */
  method TopNibble(v: uint32) returns (top: int)
    ensures -1 <= top <= 7
    ensures top < 0 ==> v == 0
    ensures top >= 0 ==> |HexText(v)| == top + 1
    ensures top >= 0 ==> forall m :: 0 <= m <= top ==> HexText(v)[m] == HEX_NIBBLES[Nibble(v, top - m)]
  {
    Pow16Eight();
    top := 7;
    while top >= 0 && Nibble(v, top) == 0
      invariant -1 <= top <= 7
      invariant forall k :: top < k < 8 ==> Nibble(v, k) == 0
    {
      top := top - 1;
    }
    if top < 0 {
      HighNibblesZero(v, 0, 8);
    } else {
      HighNibblesZero(v, top + 1, 8);
      NibbleLowerBound(v, top);
      HexTextDigits(v, top + 1);
    }
  }

  /** The second loop of `hexToStr` (lines 205-216): nibble `top` down to nibble 0, one digit each. */
  method WriteDigits(buf: array<char>, at: nat, v: nat, top: nat, ghost t: seq<char>)
    requires |t| == top + 1 && at + top + 1 <= buf.Length
    requires forall m :: 0 <= m <= top ==> t[m] == HEX_NIBBLES[Nibble(v, top - m)]
    modifies buf
    ensures buf[..] == old(buf[..at]) + t + old(buf[at + top + 1..])
  {
    var j: int := top;
    while j >= 0
      invariant -1 <= j <= top
      invariant forall m :: 0 <= m < buf.Length ==>
                  buf[m] == if at <= m < at + top - j then t[m - at] else old(buf[m])
    {
      buf[at + top - j] := HEX_NIBBLES[Nibble(v, j)];
      j := j - 1;
    }
    var want := old(buf[..at]) + t + old(buf[at + top + 1..]);
    assert |want| == buf.Length;
    forall m | 0 <= m < buf.Length
      ensures buf[m] == want[m]
    {
      if m < at {
        assert want[m] == old(buf[..at])[m];
      } else if m < at + top + 1 {
        assert want[m] == t[m - at];
      } else {
        assert want[m] == old(buf[at + top + 1..])[m - at - top - 1];
      }
    }
  }

  /** The digits of the 32-bit test value 0xFACB3B03. */
  lemma FacbText()
    ensures HexText(0xFACB3B03) == "FACB3B03"
  {
    assert HexText(0xF) == "F";
    assert HexText(0xFA) == "FA";
    assert HexText(0xFAC) == "FAC";
    assert HexText(0xFACB) == "FACB";
    assert HexText(0xFACB3) == "FACB3";
    assert HexText(0xFACB3B) == "FACB3B";
    assert HexText(0xFACB3B0) == "FACB3B0";
  }
}
