// Character-sequence helpers shared by the device parsers and builders and the
// host drivers: splitting at a separator, joining with one, copying text into a
// transmit buffer, and the comma scan every C request parser runs over the
// bytes that follow the request identifier.
module Text {
  import opened Base

  /**
   * The fields of `s` between occurrences of `sep`. There is always at least one
   * field; adjacent separators give empty fields. This is Python's `str.split(sep)`
   * and `bytes.split(sep)` with an explicit separator.
   */
  function Split(s: seq<char>, sep: char): (r: seq<seq<char>>)
    ensures |r| >= 1
    decreases |s|
  {
    if |s| == 0 then [[]]
    else
      var rest := Split(s[1..], sep);
      if s[0] == sep then [[]] + rest
      else [[s[0]] + rest[0]] + rest[1..]
  }

  /** The fields of `fs` with one `sep` between neighbours (Python's `sep.join(fs)`). */
  function Join(fs: seq<seq<char>>, sep: char): (s: seq<char>)
  {
    if |fs| == 0 then []
    else if |fs| == 1 then fs[0]
    else fs[0] + [sep] + Join(fs[1..], sep)
  }

  /** No field of a split holds the separator. */
  lemma {:induction false} SplitFieldsFree(s: seq<char>, sep: char)
    ensures forall k :: 0 <= k < |Split(s, sep)| ==> sep !in Split(s, sep)[k]
    decreases |s|
  {
    if |s| > 0 {
      SplitFieldsFree(s[1..], sep);
    }
  }

  /** Joining the fields of a split gives the text back. */
  lemma {:induction false} JoinSplit(s: seq<char>, sep: char)
    ensures Join(Split(s, sep), sep) == s
    decreases |s|
  {
    if |s| > 0 {
      var rest := Split(s[1..], sep);
      JoinSplit(s[1..], sep);
      if s[0] == sep {
        assert Join([[]] + rest, sep) == [] + [sep] + Join(rest, sep);
      } else if |rest| == 1 {
        assert Split(s, sep) == [[s[0]] + rest[0]];
      } else {
        assert Join(rest, sep) == rest[0] + [sep] + Join(rest[1..], sep);
        assert Split(s, sep)[1..] == rest[1..];
      }
    }
  }

  /** Splitting a join of separator-free fields gives the fields back. */
  lemma {:induction false} SplitJoin(fs: seq<seq<char>>, sep: char)
    requires |fs| >= 1
    requires forall k :: 0 <= k < |fs| ==> sep !in fs[k]
    ensures Split(Join(fs, sep), sep) == fs
    decreases |fs|
  {
    if |fs| == 1 {
      SplitWhole(fs[0], sep);
    } else {
      SplitJoin(fs[1..], sep);
      var s := Join(fs, sep);
      assert s == fs[0] + [sep] + Join(fs[1..], sep);
      assert s[..|fs[0]|] == fs[0];
      assert s[|fs[0]| + 1..] == Join(fs[1..], sep);
      SplitAt(s, |fs[0]|, sep);
    }
  }

  /** Text without the separator is a single field. */
  lemma {:induction false} SplitWhole(s: seq<char>, sep: char)
    requires sep !in s
    ensures Split(s, sep) == [s]
    decreases |s|
  {
    if |s| > 0 {
      SplitWhole(s[1..], sep);
      assert [s[0]] + s[1..] == s;
    }
  }

  /** Two separator-free texts joined by one separator split back into the two. */
  lemma SplitPair(a: seq<char>, sep: char, b: seq<char>)
    requires sep !in a && sep !in b
    ensures Split(a + [sep] + b, sep) == [a, b]
  {
    var s := a + [sep] + b;
    assert s[..|a|] == a && s[|a| + 1..] == b;
    SplitAt(s, |a|, sep);
    SplitWhole(b, sep);
  }

  /** The first separator, at `q`, ends the first field. */
  lemma {:induction false} SplitAt(s: seq<char>, q: nat, sep: char)
    requires q < |s| && s[q] == sep && sep !in s[..q]
    ensures Split(s, sep) == [s[..q]] + Split(s[q + 1..], sep)
    decreases q
  {
    if q > 0 {
      assert s[1..][..q - 1] == s[1..q];
      assert s[1..][q..] == s[q + 1..];
      SplitAt(s[1..], q - 1, sep);
      assert [s[0]] + s[1..q] == s[..q];
    }
  }

  /** Appending a field to a join appends the separator and the field. */
  lemma {:induction false} JoinSnoc(fs: seq<seq<char>>, f: seq<char>, sep: char)
    requires |fs| >= 1
    ensures Join(fs + [f], sep) == Join(fs, sep) + [sep] + f
    decreases |fs|
  {
    if |fs| == 1 {
      assert fs + [f] == [fs[0], f];
    } else {
      assert (fs + [f])[1..] == fs[1..] + [f];
      JoinSnoc(fs[1..], f, sep);
    }
  }

  /** A character that is neither the separator nor in any field is not in the join. */
  lemma {:induction false} JoinAvoids(fs: seq<seq<char>>, sep: char, c: char)
    requires c != sep && forall k :: 0 <= k < |fs| ==> c !in fs[k]
    ensures c !in Join(fs, sep)
    decreases |fs|
  {
    if |fs| > 1 {
      JoinAvoids(fs[1..], sep, c);
    }
  }

  /** The first `n` fields, or all of them when there are fewer. */
  function Take(fs: seq<seq<char>>, n: nat): (r: seq<seq<char>>)
    ensures |r| == Min(n, |fs|) && r == fs[..|r|]
  {
    if |fs| <= n then fs else fs[..n]
  }

  /** The buffer `b` with `s` written over it from offset `at` on. */
  function Overlay(b: seq<char>, at: nat, s: seq<char>): (r: seq<char>)
    requires at + |s| <= |b|
    ensures |r| == |b|
  {
    b[..at] + s + b[at + |s|..]
  }

  /** Writing `w` and then `s` right behind it is writing `w + s`. */
  lemma OverlayAppend(b: seq<char>, w: seq<char>, s: seq<char>)
    requires |w| + |s| <= |b|
    ensures Overlay(Overlay(b, 0, w), |w|, s) == Overlay(b, 0, w + s)
  {
    var b1 := Overlay(b, 0, w);
    assert b1[..|w|] == w;
    assert b1[|w| + |s|..] == b[|w| + |s|..];
  }

  /** What is left of `p` after `t` is written over its start. */
  function Over(p: seq<char>, t: seq<char>): (r: seq<char>)
    ensures |r| == if |t| >= |p| then |t| else |p|
  {
    if |t| >= |p| then t else t + p[|t|..]
  }

  /** Writing `p` and then `t` at the same offset leaves `Over(p, t)` there. */
  lemma OverlayTwice(b: seq<char>, p: seq<char>, t: seq<char>)
    requires |p| <= |b| && |t| <= |b|
    ensures Overlay(Overlay(b, 0, p), 0, t) == Overlay(b, 0, Over(p, t))
  {
    var b1 := Overlay(b, 0, p);
    if |t| < |p| {
      assert b1[|t|..] == p[|t|..] + b[|p|..];
    } else {
      assert b1[|t|..] == b[|t|..];
    }
  }

  /** Writing nothing leaves the buffer as it is. */
  lemma OverlayEmpty(b: seq<char>)
    ensures Overlay(b, 0, []) == b
  {
    assert b[..0] + [] + b[0..] == b;
  }

  /** `memcpy` of text into a transmit buffer at offset `at`. */
  method WriteText(buf: array<char>, at: nat, s: seq<char>)
    requires at + |s| <= buf.Length
    modifies buf
    ensures buf[..] == old(buf[..at]) + s + old(buf[at + |s|..])
  {
    var k := 0;
    while k < |s|
      invariant 0 <= k <= |s|
      invariant buf[..] == old(buf[..at]) + s[..k] + old(buf[at + k..])
    {
      buf[at + k] := s[k];
      k := k + 1;
    }
    assert s[..k] == s;
  }

  /**
   * The builders' pointer writes: with `w` already written at the start of the
   * buffer, `s` goes right behind it.
   */
  method Emit(buf: array<char>, ghost b0: seq<char>, ghost w: seq<char>, at: nat, s: seq<char>)
    requires at == |w| && |b0| == buf.Length && at + |s| <= buf.Length && buf[..] == Overlay(b0, 0, w)
    modifies buf
    ensures buf[..] == Overlay(b0, 0, w + s)
  {
    WriteText(buf, at, s);
    OverlayAppend(b0, w, s);
  }

  /**
   * The value scan shared by the C request parsers (C/Slave/Src/SCISlaveDataframe.c:111-156,
   * Src/SCI.c:235-280, SCI.c:212-252), run over `buf[i + 1..size]`, the bytes after
   * the identifier at `i`: each round collects the bytes up to the next ',' or the
   * end, and the scan stops at the end or after `maxCount` rounds. The C loops test
   * `numOfVals <= MAX`, so they pass MAX + 1 here.
   */
  method ScanFields(buf: seq<char>, i: nat, size: nat, maxCount: nat) returns (fields: seq<seq<char>>)
    requires i + 1 < size <= |buf| && size < 0x100 && 1 <= maxCount
    ensures fields == Take(Split(buf[i + 1..size], ','), maxCount)
  {
    ghost var rest := buf[i + 1..size];
    var valStrLen := size - i;
    var j := 1;
    var numOfVals := 0;
    fields := [];
    while numOfVals < maxCount
      invariant 1 <= j <= valStrLen
      invariant numOfVals == |fields| <= maxCount
      invariant Split(rest, ',') == fields + Split(rest[j - 1..], ',')
      decreases maxCount - numOfVals
    {
      numOfVals := numOfVals + 1;
      var atEnd;
      fields, j, atEnd := NextField(buf, i, size, rest, fields, j);
      if atEnd {
        return;
      }
    }
    TakeAll(fields, Split(rest[j - 1..], ','), maxCount);
  }

  /**
   * One round of the value scan: the bytes from offset `j` past the identifier up to
   * the next ',' or the end become the next field; `atEnd` when the end was reached,
   * otherwise `next` is the offset after the ','.
   */
  method NextField(buf: seq<char>, i: nat, size: nat, ghost rest: seq<char>, fields: seq<seq<char>>, j: nat)
    returns (fields': seq<seq<char>>, next: nat, atEnd: bool)
    requires i + 1 < size <= |buf| && rest == buf[i + 1..size] && 1 <= j <= size - i
    requires Split(rest, ',') == fields + Split(rest[j - 1..], ',')
    ensures |fields'| == |fields| + 1
    ensures atEnd ==> Split(rest, ',') == fields'
    ensures !atEnd ==> 1 <= next <= size - i && Split(rest, ',') == fields' + Split(rest[next - 1..], ',')
  {
    var end, valueLen := FieldEnd(buf, i, j, size - i);
    var field := buf[i + end - valueLen..i + end];
    RoundFields(buf, i, size, rest, fields, j, end);
    fields' := fields + [field];
    atEnd := end == size - i;
    next := if atEnd then end else end + 1;
  }

  /** The split after one round of the scan, whose field runs from offset `j` to `end`. */
  lemma RoundFields(buf: seq<char>, i: nat, size: nat, rest: seq<char>, fields: seq<seq<char>>, j: nat, end: nat)
    requires i + 1 < size <= |buf| && rest == buf[i + 1..size] && 1 <= j <= end <= size - i
    requires Split(rest, ',') == fields + Split(rest[j - 1..], ',')
    requires forall k :: i + j <= k < i + end ==> buf[k] != ','
    requires end < size - i ==> buf[i + end] == ','
    ensures end == size - i ==> Split(rest, ',') == fields + [buf[i + j..i + end]]
    ensures end < size - i ==> Split(rest, ',') == (fields + [buf[i + j..i + end]]) + Split(rest[end..], ',')
  {
    RoundSlices(buf, i, size, rest, j, end);
    ScanRound(rest, fields, j - 1, end - 1, ',');
  }

  /** The first `n` fields of `fs + more` are `fs` when there are `n` of them. */
  lemma TakeAll(fs: seq<seq<char>>, more: seq<seq<char>>, n: nat)
    requires |fs| == n
    ensures Take(fs + more, n) == fs
  {
    assert (fs + more)[..n] == fs;
  }

  /** What one round of `ScanFields` found in `buf`, restated on the scanned text `buf[i + 1..size]`. */
  lemma RoundSlices(buf: seq<char>, i: nat, size: nat, rest: seq<char>, j0: nat, j: nat)
    requires i + 1 < size <= |buf| && rest == buf[i + 1..size] && 1 <= j0 <= j <= size - i
    requires forall k :: i + j0 <= k < i + j ==> buf[k] != ','
    requires j < size - i ==> buf[i + j] == ','
    ensures buf[i + j0..i + j] == rest[j0 - 1..j - 1]
    ensures forall k :: j0 - 1 <= k < j - 1 ==> rest[k] != ','
    ensures j < size - i ==> rest[j - 1] == ','
  {
    forall k | j0 - 1 <= k < j - 1
      ensures rest[k] != ','
    {
      assert rest[k] == buf[i + 1 + k];
    }
  }

  /**
   * One round of `ScanFields` on the scanned text: the field from `p` to the separator
   * at `q` (or to the end) is the next field of the split.
   */
  lemma ScanRound(rest: seq<char>, fields: seq<seq<char>>, p: nat, q: nat, sep: char)
    requires p <= q <= |rest|
    requires forall k :: p <= k < q ==> rest[k] != sep
    requires q < |rest| ==> rest[q] == sep
    requires Split(rest, sep) == fields + Split(rest[p..], sep)
    ensures q == |rest| ==> Split(rest, sep) == fields + [rest[p..q]]
    ensures q < |rest| ==> Split(rest, sep) == (fields + [rest[p..q]]) + Split(rest[q + 1..], sep)
  {
    FieldStep(rest, p, q, sep);
  }

  /** The inner scan of one round: from offset `j` past the identifier to the next ',' or the end. */
  method FieldEnd(buf: seq<char>, i: nat, j: nat, valStrLen: nat) returns (end: nat, valueLen: nat)
    requires 1 <= j <= valStrLen && i + valStrLen <= |buf|
    ensures j <= end <= valStrLen && valueLen == end - j
    ensures forall k :: i + j <= k < i + end ==> buf[k] != ','
    ensures end < valStrLen ==> buf[i + end] == ','
  {
    end := j;
    valueLen := 0;
    while end < valStrLen && buf[i + end] != ','
      invariant j <= end <= valStrLen && valueLen == end - j
      invariant forall k :: i + j <= k < i + end ==> buf[k] != ','
    {
      end := end + 1;
      valueLen := valueLen + 1;
    }
  }

  /** One round of the scan: the field from `p` runs to the separator at `q` or to the end. */
  lemma FieldStep(rest: seq<char>, p: nat, q: nat, sep: char)
    requires p <= q <= |rest|
    requires forall k :: p <= k < q ==> rest[k] != sep
    requires q < |rest| ==> rest[q] == sep
    ensures q == |rest| ==> Split(rest[p..], sep) == [rest[p..q]]
    ensures q < |rest| ==> Split(rest[p..], sep) == [rest[p..q]] + Split(rest[q + 1..], sep)
  {
    assert rest[p..][..q - p] == rest[p..q];
    if q == |rest| {
      assert rest[p..] == rest[p..q];
      SplitWhole(rest[p..q], sep);
    } else {
      assert rest[p..][q - p + 1..] == rest[q + 1..];
      SplitAt(rest[p..], q - p, sep);
    }
  }
}
