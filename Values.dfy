// Comma-separated hexadecimal value lists as the device writes them into a
// response packet and reads them out of a request: the greedy packer shared by
// C/Slave/Src/SCISlaveDataframe.c and C/Slave/Src/SCISlaveTransfer.c, and the
// per-field conversion of the request parsers.
module Values {
  import opened Base
  import opened HexCodec
  import opened Text

  /** The digit texts of `vs`, one per value. */
  function HexTexts(vs: seq<uint32>): (ts: seq<seq<char>>)
    ensures |ts| == |vs| && forall k {:trigger ts[k]} :: 0 <= k < |vs| ==> ts[k] == HexText(vs[k])
  {
    if vs == [] then [] else [HexText(vs[0])] + HexTexts(vs[1..])
  }

  /** The text a packer writes for `vs`: their digits joined by ','. */
  function JoinHex(vs: seq<uint32>): seq<char>
  {
    Join(HexTexts(vs), ',')
  }

  /**
   * One value field of a request, as the parsers convert it: `strToHex` on the
   * field's bytes copied into a NUL-terminated string.
   */
  function FieldValue(f: seq<char>): (r: Option<uint32>)
    ensures r.Some? <==> StrToHexSpec(CString(f + [NUL])).valid
    ensures r.Some? ==> r.value == StrToHexSpec(CString(f + [NUL])).value
  {
    var p := StrToHexSpec(CString(f + [NUL]));
    StrToHexBound(CString(f + [NUL]));
    if p.valid then Some(p.value) else None
  }

  /** All fields converted, or None as soon as one of them fails. */
  function FieldValues(fs: seq<seq<char>>): (r: Option<seq<uint32>>)
    ensures r.Some? ==> |r.value| == |fs|
  {
    if fs == [] then Some([])
    else
      match FieldValue(fs[0])
      case None => None
      case Some(v) =>
        match FieldValues(fs[1..])
        case None => None
        case Some(rest) => Some([v] + rest)
  }

  /** A field without NUL reads as the field itself. */
  lemma {:induction false} CStringOfField(f: seq<char>)
    requires NUL !in f
    ensures CString(f + [NUL]) == f
  {
    if f != [] {
      assert (f + [NUL])[1..] == f[1..] + [NUL];
      CStringOfField(f[1..]);
    }
  }

  /** Digit text holds neither the separator nor a NUL. */
  lemma DigitsFree(v: uint32)
    ensures ',' !in HexText(v) && NUL !in HexText(v)
  {
    var t := HexText(v);
    HexTextAllHex(v);
    forall m | 0 <= m < |t|
      ensures t[m] != ',' && t[m] != NUL
    {
      assert IsHexDigit(t[m]);
    }
  }

  /** Splitting a packed list at ',' and converting each field gives the values back. */
  lemma {:induction false} JoinHexReadBack(vs: seq<uint32>)
    requires |vs| >= 1
    ensures FieldValues(Split(JoinHex(vs), ',')) == Some(vs)
  {
    var ts := HexTexts(vs);
    forall k | 0 <= k < |ts|
      ensures ',' !in ts[k]
    {
      DigitsFree(vs[k]);
    }
    SplitJoin(ts, ',');
    FieldValuesOfTexts(vs);
  }

  lemma {:induction false} FieldValuesOfTexts(vs: seq<uint32>)
    ensures FieldValues(HexTexts(vs)) == Some(vs)
    decreases |vs|
  {
    if vs != [] {
      var t := HexText(vs[0]);
      DigitsFree(vs[0]);
      CStringOfField(t);
      HexRoundTrip(vs[0]);
      assert FieldValue(t) == Some(vs[0]);
      FieldValuesOfTexts(vs[1..]);
      assert HexTexts(vs)[1..] == HexTexts(vs[1..]);
      assert vs == [vs[0]] + vs[1..];
    }
  }

  /** A packed list of at least one value is not empty. */
  lemma JoinHexNonEmpty(vs: seq<uint32>)
    requires |vs| >= 1
    ensures |JoinHex(vs)| >= |HexText(vs[0])| >= 1
  {
    assert HexTexts(vs)[0] == HexText(vs[0]);
  }

  /** Every further value lengthens the packed text. */
  lemma {:induction false} JoinHexGrows(vs: seq<uint32>, k: nat)
    requires k < |vs|
    ensures |JoinHex(vs[..k])| < |JoinHex(vs[..k + 1])|
  {
    if k == 0 {
      assert HexTexts(vs[..1]) == [HexText(vs[0])];
    } else {
      JoinHexSnoc(vs, k);
    }
  }

  /** The packed text of `k + 1` values is that of `k` values, a ',' and the next digits. */
  lemma JoinHexSnoc(vs: seq<uint32>, k: nat)
    requires 1 <= k < |vs|
    ensures JoinHex(vs[..k + 1]) == JoinHex(vs[..k]) + [','] + HexText(vs[k])
  {
    assert HexTexts(vs[..k + 1]) == HexTexts(vs[..k]) + [HexText(vs[k])];
    JoinSnoc(HexTexts(vs[..k]), HexText(vs[k]), ',');
  }

  /**
   * The packing loop of `_SCIFillBufferWithValues` and `fillBufferWithValues`
   * (C/Slave/Src/SCISlaveDataframe.c:325-370, C/Slave/Src/SCISlaveTransfer.c:240-285):
   * `src[s]` is the value read in round `s` and `datLen` the count still to send.
   * Each value is first converted into a scratch buffer, copied only while the packet
   * stays below `max` characters, and followed by a ',' that is withdrawn (the size
   * drops by one, the byte stays) when the loop ends. Returns the characters kept
   * and the number `k` of values taken.
   */
  method PackValues(buf: array<char>, at: nat, src: seq<uint32>, datLen: nat, max: nat)
    returns (size: nat, k: nat)
    requires datLen <= |src| && at + max <= buf.Length && max < 0x100
    modifies buf
    ensures k <= datLen && size == |JoinHex(src[..k])|
    ensures max > 0 ==> size < max
    ensures max == 0 ==> k == 0 && size == 0
    ensures k < datLen ==> |JoinHex(src[..k + 1])| >= max
    ensures buf[..] == old(buf[..at]) + JoinHex(src[..k]) + Comma(k > 0) + old(buf[at + size + |Comma(k > 0)|..])
  {
    var commaSet := false;
    var left := datLen;
    var scratch := new char[20];
    ghost var b0 := buf[..];
    size, k := 0, 0;
    while left > 0
      invariant k + left == datLen && commaSet == (k > 0)
      invariant size == |JoinHex(src[..k])| + |Comma(commaSet)| <= max
      invariant buf[..] == b0[..at] + JoinHex(src[..k]) + Comma(commaSet) + b0[at + size..]
    {
      var fits, size' := PackRound(buf, at, size, src, k, max, scratch, b0);
      if !fits {
        break;
      }
      size := size';
      left := left - 1;
      k := k + 1;
      commaSet := true;
    }
    // Both exits (all values packed, or the next one does not fit) drop the trailing comma.
    if commaSet {
      size := size - 1;
    }
  }

  /**
   * One round of the packing loop past the `datLen == 0` test: the value is converted
   * into the scratch buffer and, if it still fits below `max`, copied after the text
   * packed so far and followed by a ','. The guard of line 352 (and 267) always holds
   * there, since `size + len < max` was just tested.
   */
  method PackRound(buf: array<char>, at: nat, size: nat, src: seq<uint32>, k: nat, max: nat,
                   scratch: array<char>, ghost b0: seq<char>)
    returns (fits: bool, size': nat)
    requires k < |src| && at + max <= buf.Length == |b0| && scratch.Length == 20 && scratch != buf
    requires size == |JoinHex(src[..k])| + |Comma(k > 0)| <= max
    requires buf[..] == b0[..at] + JoinHex(src[..k]) + Comma(k > 0) + b0[at + size..]
    modifies buf, scratch
    ensures fits <==> |JoinHex(src[..k + 1])| < max
    ensures fits ==> size' == |JoinHex(src[..k + 1])| + |Comma(true)| <= max
    ensures fits ==> buf[..] == b0[..at] + JoinHex(src[..k + 1]) + Comma(true) + b0[at + size'..]
    ensures !fits ==> size' == size && buf[..] == old(buf[..])
  {
    HexTextAtMostEight(src[k]);
    var len := HexToStr(scratch, 0, src[k]);
    var t := scratch[..len];
    assert t == HexText(src[k]);
    assert buf[..] == old(buf[..]);
    NextPacked(src, k);
    size' := size;
    fits := size + len < max;
    if fits {
      AppendValue(buf, at, size, t, b0, JoinHex(src[..k]), Comma(k > 0));
      size' := size + len + 1;
      assert Comma(true) == [','];
    }
  }

  /** The separator a packer leaves behind the last value, if it has written one. */
  function Comma(present: bool): (s: seq<char>)
    ensures |s| == if present then 1 else 0
  {
    if present then [','] else []
  }

  /** The text of one more value: a ',' before it unless it is the first. */
  lemma NextPacked(src: seq<uint32>, k: nat)
    requires k < |src|
    ensures JoinHex(src[..k + 1]) == JoinHex(src[..k]) + Comma(k > 0) + HexText(src[k])
  {
    if k > 0 {
      JoinHexSnoc(src, k);
    } else {
      assert HexTexts(src[..1]) == [HexText(src[0])];
    }
  }

  /**
   * The copy of one converted value into the packet (lines 344-356 and 259-271)
   * followed by its ','; the guard of line 352 (and 267) always holds there, since
   * `size + len < max` was just tested. `b0` is the buffer before packing began and
   * `p` the text packed so far.
   */
  method AppendValue(buf: array<char>, at: nat, size: nat, t: seq<char>, ghost b0: seq<char>, ghost p: seq<char>, ghost c: seq<char>)
    requires at + size + |t| < buf.Length == |b0| && size == |p| + |c|
    requires buf[..] == b0[..at] + p + c + b0[at + size..]
    modifies buf
    ensures buf[..] == b0[..at] + (p + c + t) + [','] + b0[at + size + |t| + 1..]
  {
    ghost var m := buf[..];
    WriteText(buf, at + size, t + [',']);
    AppendSplice(b0, m, buf[..], at, p, c, t);
  }

  /** Writing `t` and a comma after the packed prefix `p + c` of `b0`. */
  lemma AppendSplice(b0: seq<char>, m: seq<char>, w: seq<char>, at: nat, p: seq<char>, c: seq<char>, t: seq<char>)
    requires at + |p| + |c| + |t| < |b0|
    requires m == b0[..at] + p + c + b0[at + |p| + |c|..]
    requires w == m[..at + |p| + |c|] + (t + [',']) + m[at + |p| + |c| + |t| + 1..]
    ensures w == b0[..at] + (p + c + t) + [','] + b0[at + |p| + |c| + |t| + 1..]
  {
    var e := at + |p| + |c|;
    assert m[..e] == b0[..at] + p + c;
    assert m[e + |t| + 1..] == b0[e + |t| + 1..];
  }

  /**
   * The number of values the packer takes from `src` when `n` are left and the packet
   * part may hold fewer than `max` characters: values are taken while their text fits.
   */
  function PackCount(src: seq<uint32>, n: nat, max: nat, k: nat): (r: nat)
    requires k <= n <= |src| && (k > 0 ==> |JoinHex(src[..k])| < max)
    ensures k <= r <= n
    ensures r > 0 ==> |JoinHex(src[..r])| < max
    ensures r < n ==> |JoinHex(src[..r + 1])| >= max
    decreases n - k
  {
    if k < n && |JoinHex(src[..k + 1])| < max then PackCount(src, n, max, k + 1) else k
  }

  /** Any count with the packing loop's stopping property is `PackCount`. */
  lemma PackCountIs(src: seq<uint32>, n: nat, max: nat, k: nat)
    requires n <= |src| && k <= n
    requires (k > 0 ==> |JoinHex(src[..k])| < max) && (k < n ==> |JoinHex(src[..k + 1])| >= max)
    ensures PackCount(src, n, max, 0) == k
  {
    PackCountUnique(src, n, max, PackCount(src, n, max, 0), k);
  }

  /**
   * The packing loop stated against `PackCount`: the first `PackCount` values are
   * written at `at` with their trailing ',', and the size counts their digits and
   * inner separators.
   */
  method Pack(buf: array<char>, at: nat, src: seq<uint32>, datLen: nat, max: nat)
    returns (size: nat, k: nat)
    requires datLen <= |src| && at + max <= buf.Length && max < 0x100
    modifies buf
    ensures k == PackCount(src, datLen, max, 0) && size == |JoinHex(src[..k])| && size + |Comma(k > 0)| <= max
    ensures buf[..] == Overlay(old(buf[..]), at, JoinHex(src[..k]) + Comma(k > 0))
  {
    ghost var b := buf[..];
    size, k := PackValues(buf, at, src, datLen, max);
    Packed(b, buf[..], at, src, datLen, max, size, k);
  }

  /** What the packing loop guarantees, restated against `PackCount` and `Overlay`. */
  lemma Packed(b: seq<char>, b': seq<char>, at: nat, src: seq<uint32>, datLen: nat, max: nat, size: nat, k: nat)
    requires datLen <= |src| && at + max <= |b| && k <= datLen && size == |JoinHex(src[..k])|
    requires max > 0 ==> size < max
    requires max == 0 ==> k == 0 && size == 0
    requires k < datLen ==> |JoinHex(src[..k + 1])| >= max
    requires at + size + |Comma(k > 0)| <= |b|
    requires b' == b[..at] + JoinHex(src[..k]) + Comma(k > 0) + b[at + size + |Comma(k > 0)|..]
    ensures k == PackCount(src, datLen, max, 0) && size + |Comma(k > 0)| <= max
    ensures b' == Overlay(b, at, JoinHex(src[..k]) + Comma(k > 0))
  {
    PackCountIs(src, datLen, max, k);
    var c := Comma(k > 0);
    assert k > 0 ==> max > 0 && |c| == 1;
    PackedOverlay(b, b', at, JoinHex(src[..k]) + c, size + |c|);
  }

  lemma PackedOverlay(b: seq<char>, b': seq<char>, at: nat, t: seq<char>, n: nat)
    requires n == |t| && at + n <= |b| && b' == b[..at] + t + b[at + n..]
    ensures b' == Overlay(b, at, t)
  {
  }

  /**
   * `hexToStrDword`/`hexToStrWord` through the builders' write pointer: with `w`
   * already written, the digits of `v` go right behind it.
   */
  method EmitHex(buf: array<char>, ghost b0: seq<char>, ghost w: seq<char>, at: nat, v: uint32) returns (n: nat)
    requires at == |w| && |b0| == buf.Length && at + 8 <= buf.Length && buf[..] == Overlay(b0, 0, w)
    modifies buf
    ensures n == |HexText(v)| && 1 <= n <= 8
    ensures buf[..] == Overlay(b0, 0, w + HexText(v))
  {
    HexTextAtMostEight(v);
    n := HexToStr(buf, at, v);
    OverlayAppend(b0, w, HexText(v));
  }

  /** The outcome of converting `a + b` field by field. */
  lemma {:induction false} FieldValuesAppend(a: seq<seq<char>>, b: seq<seq<char>>)
    ensures FieldValues(a + b) ==
      if FieldValues(a).Some? && FieldValues(b).Some? then Some(FieldValues(a).value + FieldValues(b).value)
      else None
    decreases |a|
  {
    if a != [] {
      assert (a + b)[0] == a[0] && (a + b)[1..] == a[1..] + b;
      FieldValuesAppend(a[1..], b);
      match FieldValue(a[0])
      case None =>
      case Some(v) =>
        if FieldValues(a[1..]).Some? && FieldValues(b).Some? {
          var a1, b1 := FieldValues(a[1..]).value, FieldValues(b).value;
          assert [v] + (a1 + b1) == ([v] + a1) + b1;
        }
    } else {
      assert a + b == b;
      if FieldValues(b).Some? {
        assert [] + FieldValues(b).value == FieldValues(b).value;
      }
    }
  }

  /**
   * The value array `arr` after `vs` has been written into it from entry 0 on:
   * the entries past them keep their contents.
   */
  function Stored(arr: seq<uint32>, vs: seq<uint32>): (r: seq<uint32>)
    ensures |vs| <= |r| && r[..|vs|] == vs
    ensures |vs| <= |arr| ==> |r| == |arr| && r[|vs|..] == arr[|vs|..]
    ensures |vs| >= |arr| ==> r == vs
  {
    if |vs| >= |arr| then vs else vs + arr[|vs|..]
  }

  /** What `strToHex` leaves in its output for a field, whether or not it accepts it. */
  function WrittenValue(f: seq<char>): (v: uint32)
    ensures v == StrToHexSpec(CString(f + [NUL])).value
    ensures FieldValue(f).Some? ==> v == FieldValue(f).value
  {
    StrToHexBound(CString(f + [NUL]));
    StrToHexSpec(CString(f + [NUL])).value
  }

  /**
   * What the conversion loops of the request parsers leave in the first entries of
   * the value array: `strToHex` writes each field's value straight into its entry,
   * so the entries hold the fields converted before the first failure and then,
   * for the field that fails, what `strToHex` had left in its output when it gave up.
   */
  function Converted(fs: seq<seq<char>>): (vs: seq<uint32>)
    ensures |vs| <= |fs|
    ensures FieldValues(fs).Some? ==> vs == FieldValues(fs).value
    ensures FieldValues(fs).None? ==> |vs| >= 1 && FieldValue(fs[|vs| - 1]).None?
  {
    if fs == [] then []
    else
      match FieldValue(fs[0])
      case None => [WrittenValue(fs[0])]
      case Some(v) => [v] + Converted(fs[1..])
  }

  /** Every entry the conversion loop reaches holds what `strToHex` wrote for its field. */
  lemma {:induction false} ConvertedEntries(fs: seq<seq<char>>)
    ensures forall k :: 0 <= k < |Converted(fs)| ==> Converted(fs)[k] == WrittenValue(fs[k])
  {
    if fs != [] && FieldValue(fs[0]).Some? {
      ConvertedEntries(fs[1..]);
      var rest := Converted(fs[1..]);
      assert Converted(fs) == [WrittenValue(fs[0])] + rest;
      forall k | 1 <= k < |Converted(fs)|
        ensures Converted(fs)[k] == WrittenValue(fs[k])
      {
        assert Converted(fs)[k] == rest[k - 1] && fs[1..][k - 1] == fs[k];
      }
    }
  }

  /** Before the field that fails, the conversion holds exactly the values of the fields that convert. */
  lemma {:induction false} ConvertedBeforeFailure(fs: seq<seq<char>>)
    requires FieldValues(fs).None?
    ensures var n := |Converted(fs)|; n >= 1 && FieldValues(fs[..n - 1]) == Some(Converted(fs)[..n - 1])
  {
    if FieldValue(fs[0]).Some? {
      var v := FieldValue(fs[0]).value;
      assert FieldValues(fs[1..]).None?;
      ConvertedBeforeFailure(fs[1..]);
      var rest := Converted(fs[1..]);
      var n := |rest| + 1;
      assert Converted(fs) == [v] + rest;
      assert fs[..n - 1][0] == fs[0] && fs[..n - 1][1..] == fs[1..][..n - 2];
      assert Converted(fs)[..n - 1] == [v] + rest[..n - 2];
    } else {
      assert fs[..0] == [];
    }
  }

  /**
   * A value array after a conversion that fails: the fields before the failing
   * one stored with their values, the failing field's entry holding what
   * `strToHex` left in it, and every later entry untouched.
   */
  lemma FailedConversionStore(arr: seq<uint32>, fs: seq<seq<char>>)
    requires FieldValues(fs).None? && |fs| <= |arr|
    ensures var r := Stored(arr, Converted(fs)); var n := |Converted(fs)|;
            1 <= n <= |fs| && FieldValue(fs[n - 1]).None? &&
            |r| == |arr| && FieldValues(fs[..n - 1]) == Some(r[..n - 1]) &&
            r[n - 1] == WrittenValue(fs[n - 1]) && r[n..] == arr[n..]
  {
    var vs := Converted(fs);
    ConvertedBeforeFailure(fs);
    ConvertedEntries(fs);
    var r := Stored(arr, vs);
    assert r[..|vs| - 1] == vs[..|vs| - 1];
  }

  /** The conversion from field `m` on: its value and the rest, or only what it left when it fails. */
  lemma ConvertedStep(fs: seq<seq<char>>, m: nat)
    requires m < |fs|
    ensures FieldValue(fs[m]).Some? ==> Converted(fs[m..]) == [WrittenValue(fs[m])] + Converted(fs[m + 1..])
    ensures FieldValue(fs[m]).None? ==> Converted(fs[m..]) == [WrittenValue(fs[m])]
  {
    assert fs[m..][0] == fs[m] && fs[m..][1..] == fs[m + 1..];
  }

  /** Converting the first `m + 1` fields: the first `m` and then field `m`. */
  lemma FieldValuesStep(fs: seq<seq<char>>, m: nat)
    requires m < |fs|
    ensures FieldValues(fs[..m + 1]) ==
      if FieldValues(fs[..m]).Some? && FieldValue(fs[m]).Some? then Some(FieldValues(fs[..m]).value + [WrittenValue(fs[m])])
      else None
  {
    assert fs[..m + 1] == fs[..m] + [fs[m]];
    FieldValuesSnoc(fs[..m], fs[m]);
  }

  /** A failing field fails the whole list. */
  lemma FieldValuesFailsAt(fs: seq<seq<char>>, m: nat)
    requires m < |fs| && FieldValue(fs[m]).None?
    ensures FieldValues(fs).None?
  {
    FieldValuesStep(fs, m);
    assert fs == fs[..m + 1] + fs[m + 1..];
    FieldValuesAppend(fs[..m + 1], fs[m + 1..]);
  }

  /** A round of the conversion loop whose field converts. */
  lemma ConvertRoundGoes(fs: seq<seq<char>>, m: nat, vals: seq<uint32>, v: uint32)
    requires m < |fs| && FieldValues(fs[..m]) == Some(vals) && Converted(fs) == vals + Converted(fs[m..])
    requires FieldValue(fs[m]).Some? && v == WrittenValue(fs[m])
    ensures FieldValues(fs[..m + 1]) == Some(vals + [v])
    ensures Converted(fs) == (vals + [v]) + Converted(fs[m + 1..])
  {
    ConvertedStep(fs, m);
    FieldValuesStep(fs, m);
  }

  /** A round of the conversion loop whose field fails: its written value is the last entry. */
  lemma ConvertRoundFails(fs: seq<seq<char>>, m: nat, vals: seq<uint32>, v: uint32)
    requires m < |fs| && Converted(fs) == vals + Converted(fs[m..])
    requires FieldValue(fs[m]).None? && v == WrittenValue(fs[m])
    ensures FieldValues(fs).None?
    ensures Converted(fs) == vals + [v]
  {
    ConvertedStep(fs, m);
    FieldValuesFailsAt(fs, m);
  }

  /** The `strToHex` call of one field, copied into a NUL-terminated string. */
  method ConvertField(f: seq<char>) returns (valid: bool, v: uint32)
    ensures valid <==> FieldValue(f).Some?
    ensures v == WrittenValue(f)
  {
    var val;
    valid, val := StrToHex(f + [NUL]);
    v := val;
  }

  /**
   * The per-field `strToHex` calls of the request parsers (C/Slave/Src/SCISlaveDataframe.c:133-142,
   * Src/SCI.c:257-266): each field is copied into a NUL-terminated string and
   * converted into its entry; the first failure ends the conversion.
   */
  method ConvertFields(fields: seq<seq<char>>) returns (ok: bool, vals: seq<uint32>)
    ensures ok <==> FieldValues(fields).Some?
    ensures vals == Converted(fields)
  {
    vals := [];
    var m := 0;
    assert fields[..0] == [] && fields[0..] == fields;
    while m < |fields|
      invariant m <= |fields| && FieldValues(fields[..m]) == Some(vals)
      invariant Converted(fields) == vals + Converted(fields[m..])
    {
      var valid, v := ConvertField(fields[m]);
      if !valid {
        ConvertRoundFails(fields, m, vals, v);
        vals := vals + [v];
        ok := false;
        return;
      }
      ConvertRoundGoes(fields, m, vals, v);
      vals := vals + [v];
      m := m + 1;
    }
    assert fields[..m] == fields && fields[m..] == [];
    ok := true;
  }

  /** Converting one more field: a failure fails the list, a value extends the values so far. */
  lemma FieldValuesSnoc(pre: seq<seq<char>>, x: seq<char>)
    ensures FieldValues(pre + [x]) ==
      if FieldValues(pre).Some? && FieldValue(x).Some? then Some(FieldValues(pre).value + [FieldValue(x).value])
      else None
  {
    FieldValuesAppend(pre, [x]);
    assert [x][0] == x && [x][1..] == [];
    match FieldValue(x)
    case None =>
      assert FieldValues([x]) == None;
    case Some(v) =>
      assert FieldValues([]) == Some([]) && [v] + [] == [v];
      assert FieldValues([x]) == Some([v]);
  }

  /** The count the packer takes is determined: the longest prefix whose text is shorter than `max`. */
  lemma PackCountUnique(src: seq<uint32>, datLen: nat, max: nat, k1: nat, k2: nat)
    requires datLen <= |src|
    requires k1 <= datLen && (k1 > 0 ==> |JoinHex(src[..k1])| < max) && (k1 < datLen ==> |JoinHex(src[..k1 + 1])| >= max)
    requires k2 <= datLen && (k2 > 0 ==> |JoinHex(src[..k2])| < max) && (k2 < datLen ==> |JoinHex(src[..k2 + 1])| >= max)
    ensures k1 == k2
  {
    if k1 < k2 {
      JoinHexMono(src, k1 + 1, k2);
    } else if k2 < k1 {
      JoinHexMono(src, k2 + 1, k1);
    }
  }

  lemma {:induction false} JoinHexMono(src: seq<uint32>, a: nat, b: nat)
    requires a <= b <= |src|
    ensures |JoinHex(src[..a])| <= |JoinHex(src[..b])|
    decreases b - a
  {
    if a < b {
      JoinHexGrows(src, a);
      JoinHexMono(src, a + 1, b);
    }
  }
}
