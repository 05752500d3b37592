/**
 * The string helpers the handshake code calls on header text: Python's
 * `str.strip`, `str.lower`, `in` on strings, `str.split(delim, maxsplit)`,
 * `', '.join`, `str.isdigit`, `int(...)` and `str(...)` on numbers. Text is a
 * sequence of characters; only the ASCII letters change case, and the
 * whitespace `strip` removes is the ASCII whitespace.
 */
module Strings {

  /** The characters `str.strip()` removes: space, tab, line feed, vertical tab, form feed, return. */
  predicate IsSpace(c: char) {
    c == ' ' || ('\t' <= c <= '\r')
  }

  /** A string with no whitespace at either end. */
  predicate Stripped(s: string) {
    |s| == 0 || (!IsSpace(s[0]) && !IsSpace(s[|s| - 1]))
  }

  function StripLeft(s: string): (r: string)
    ensures |r| <= |s| && r == s[|s| - |r|..]
    ensures |r| == 0 || !IsSpace(r[0])
  {
    if |s| > 0 && IsSpace(s[0]) then StripLeft(s[1..]) else s
  }

  function StripRight(s: string): (r: string)
    ensures |r| <= |s| && r == s[..|r|]
    ensures |r| == 0 || !IsSpace(r[|r| - 1])
  {
    if |s| > 0 && IsSpace(s[|s| - 1]) then StripRight(s[..|s| - 1]) else s
  }

  /** `s.strip()`. */
  function Strip(s: string): (r: string)
    ensures Stripped(r)
  {
    StripRight(StripLeft(s))
  }

  /** Stripping cuts whitespace off the ends and nothing else: a stripped string is its own strip. */
  lemma StripIdempotent(s: string)
    requires Stripped(s)
    ensures Strip(s) == s
  {
  }

  /** `s.lower()` on ASCII letters. */
  function Lower(s: string): (r: string)
    ensures |r| == |s|
    ensures forall i :: 0 <= i < |s| ==> r[i] == (if 'A' <= s[i] <= 'Z' then (s[i] as int + 32) as char else s[i])
  {
    seq(|s|, i requires 0 <= i < |s| => if 'A' <= s[i] <= 'Z' then (s[i] as int + 32) as char else s[i])
  }

  predicate IsPrefix(p: string, s: string) {
    |p| <= |s| && s[..|p|] == p
  }

  /** `sub in s`. */
  predicate Contains(s: string, sub: string)
    decreases |s|
  {
    IsPrefix(sub, s) || (|s| > 0 && Contains(s[1..], sub))
  }

  /** sub occurs in s starting at offset i. */
  predicate OccursAt(s: string, sub: string, i: int) {
    0 <= i <= |s| - |sub| && s[i..i + |sub|] == sub
  }

  /** `sub in s` holds exactly when sub occurs at some offset of s. */
  lemma {:induction false} ContainsAt(s: string, sub: string)
    ensures Contains(s, sub) <==> exists i :: OccursAt(s, sub, i)
    decreases |s|
  {
    if IsPrefix(sub, s) {
      assert OccursAt(s, sub, 0);
    } else if |s| > 0 {
      ContainsAt(s[1..], sub);
      if Contains(s[1..], sub) {
        var i :| OccursAt(s[1..], sub, i);
        assert s[1..][i..i + |sub|] == s[i + 1..i + 1 + |sub|];
        assert OccursAt(s, sub, i + 1);
      }
      if exists i :: OccursAt(s, sub, i) {
        var i :| OccursAt(s, sub, i);
        if i > 0 {
          assert s[1..][i - 1..i - 1 + |sub|] == s[i..i + |sub|];
          assert OccursAt(s[1..], sub, i - 1);
        }
      }
    }
  }

  /** The index of the first d in s. */
  function FirstIndex(s: string, d: char): (i: nat)
    requires d in s
    ensures i < |s| && s[i] == d && d !in s[..i]
  {
    if s[0] == d then 0 else FirstIndex(s[1..], d) + 1
  }

  /** `s.split(d, maxsplit)`: a negative maxsplit splits at every d. */
  function Split(s: string, d: char, maxsplit: int): (r: seq<string>)
    ensures |r| >= 1
    decreases |s|
  {
    if maxsplit == 0 || d !in s then [s]
    else
      var i := FirstIndex(s, d);
      [s[..i]] + Split(s[i + 1..], d, if maxsplit < 0 then maxsplit else maxsplit - 1)
  }

  /** `sep.join(parts)`. */
  function Join(parts: seq<string>, sep: string): string {
    if |parts| == 0 then ""
    else if |parts| == 1 then parts[0]
    else parts[0] + sep + Join(parts[1..], sep)
  }

  /** `split_stripped`: no parts for an empty value, otherwise the stripped pieces. */
  function SplitStripped(value: string, d: char, maxsplit: int): (r: seq<string>)
    ensures value == "" ==> r == []
    ensures value != "" ==> |r| == |Split(value, d, maxsplit)|
    ensures forall i :: 0 <= i < |r| ==> r[i] == Strip(Split(value, d, maxsplit)[i])
  {
    if value == "" then []
    else
      var parts := Split(value, d, maxsplit);
      seq(|parts|, i requires 0 <= i < |parts| => Strip(parts[i]))
  }

  /** Splitting the join of parts without the delimiter gives the parts back. */
  lemma {:induction false} SplitJoin(parts: seq<string>, d: char)
    requires |parts| >= 1
    requires forall i :: 0 <= i < |parts| ==> d !in parts[i]
    ensures Split(Join(parts, [d]), d, -1) == parts
    decreases |parts|
  {
    if |parts| > 1 {
      var rest := Join(parts[1..], [d]);
      var s := parts[0] + [d] + rest;
      assert s[|parts[0]|] == d;
      assert d in s;
      FirstIndexAfter(parts[0], d, rest);
      assert s[..|parts[0]|] == parts[0];
      assert s[|parts[0]| + 1..] == rest;
      SplitJoin(parts[1..], d);
    }
  }

  /** The first d of p + [d] + rest, when p has none, is right after p. */
  lemma FirstIndexAfter(p: string, d: char, rest: string)
    requires d !in p
    ensures d in p + [d] + rest && FirstIndex(p + [d] + rest, d) == |p|
  {
    var s := p + [d] + rest;
    assert s[|p|] == d;
  }

  /** Splitting once at d cuts at its first d. */
  lemma SplitOnce(s: string, d: char)
    requires d in s
    ensures Split(s, d, 1) == [s[..FirstIndex(s, d)], s[FirstIndex(s, d) + 1..]]
  {
  }

  /** `split_stripped` with one cut: the stripped text before and after the first d. */
  lemma SplitStrippedOnce(s: string, d: char)
    requires d in s
    ensures var i := FirstIndex(s, d);
      SplitStripped(s, d, 1) == [Strip(s[..i]), Strip(s[i + 1..])]
  {
    SplitOnce(s, d);
    var r := SplitStripped(s, d, 1);
    assert |r| == 2;
  }

  /** Parts that are all non-empty and stripped join into a stripped string. */
  lemma {:induction false} JoinStripped(parts: seq<string>, sep: string)
    requires forall i :: 0 <= i < |parts| ==> parts[i] != "" && Stripped(parts[i])
    ensures Stripped(Join(parts, sep))
    ensures |parts| > 0 ==> Join(parts, sep) != ""
    decreases |parts|
  {
    if |parts| > 1 {
      JoinStripped(parts[1..], sep);
      var rest := Join(parts[1..], sep);
      var s := parts[0] + sep + rest;
      assert s[0] == parts[0][0];
      assert s[|s| - 1] == rest[|rest| - 1];
    }
  }

  /** A character in none of the parts nor the separator is not in their join. */
  lemma {:induction false} JoinExcludes(parts: seq<string>, sep: string, c: char)
    requires c !in sep
    requires forall i :: 0 <= i < |parts| ==> c !in parts[i]
    ensures c !in Join(parts, sep)
    decreases |parts|
  {
    if |parts| > 1 {
      JoinExcludes(parts[1..], sep, c);
    }
  }

  /** Joining one more part adds the separator and that part at the end. */
  lemma {:induction false} JoinSnoc(parts: seq<string>, sep: string, p: string)
    requires |parts| > 0
    ensures Join(parts + [p], sep) == Join(parts, sep) + sep + p
    decreases |parts|
  {
    var all := parts + [p];
    if |parts| > 1 {
      assert all[1..] == parts[1..] + [p];
      JoinSnoc(parts[1..], sep, p);
    }
  }

  /** Splitting once at d a string whose first part has no d. */
  lemma SplitOnceAt(p: string, d: char, rest: string)
    requires d !in p
    ensures Split(p + [d] + rest, d, 1) == [p, rest]
  {
    var s := p + [d] + rest;
    FirstIndexAfter(p, d, rest);
    assert s[..|p|] == p;
    assert s[|p| + 1..] == rest;
  }

  /** The first d of pre + x, when pre has none, is the first d of x, shifted. */
  lemma {:induction false} FirstIndexShift(pre: string, x: string, d: char)
    requires d !in pre && d in x
    ensures d in pre + x && FirstIndex(pre + x, d) == |pre| + FirstIndex(x, d)
    decreases |pre|
  {
    var s := pre + x;
    assert s[|pre| + FirstIndex(x, d)] == d;
    if |pre| > 0 {
      assert s[1..] == pre[1..] + x;
      FirstIndexShift(pre[1..], x, d);
    }
  }

  /** Text without the delimiter in front of a string joins the first piece of its split. */
  lemma SplitPrefix(pre: string, x: string, d: char)
    requires d !in pre
    ensures Split(pre + x, d, -1) == [pre + Split(x, d, -1)[0]] + Split(x, d, -1)[1..]
  {
    if d in x {
      SplitPrefixCut(pre, x, d);
    } else {
      assert d !in pre + x;
    }
  }

  lemma SplitPrefixCut(pre: string, x: string, d: char)
    requires d !in pre && d in x
    ensures Split(pre + x, d, -1) == [pre + Split(x, d, -1)[0]] + Split(x, d, -1)[1..]
  {
    var s := pre + x;
    FirstIndexShift(pre, x, d);
    var j := FirstIndex(x, d);
    assert s[..|pre| + j] == pre + x[..j];
    assert s[|pre| + j + 1..] == x[j + 1..];
  }

  /** A stripped string with one space in front strips back to itself. */
  lemma StripPadded(p: string)
    requires Stripped(p)
    ensures Strip([' '] + p) == p
  {
    var s := [' '] + p;
    assert s[1..] == p;
    assert StripLeft(s) == StripLeft(p) == p;
    assert StripRight(p) == p;
  }

  /** Pieces after the first keep the space that follows each delimiter. */
  function Padded(parts: seq<string>): (r: seq<string>)
    ensures |r| == |parts|
  {
    seq(|parts|, i requires 0 <= i < |parts| => if i == 0 then parts[0] else [' '] + parts[i])
  }

  /** Splitting at d the parts joined by d and a space gives them back, the space still in front. */
  lemma {:induction false} SplitJoinPadded(parts: seq<string>, d: char)
    requires |parts| >= 1 && d != ' '
    requires forall i :: 0 <= i < |parts| ==> d !in parts[i]
    ensures Split(Join(parts, [d, ' ']), d, -1) == Padded(parts)
    decreases |parts|
  {
    if |parts| > 1 {
      var rest := Join(parts[1..], [d, ' ']);
      assert Join(parts, [d, ' ']) == parts[0] + [d] + ([' '] + rest);
      FirstIndexAfter(parts[0], d, [' '] + rest);
      var s := parts[0] + [d] + ([' '] + rest);
      assert s[..|parts[0]|] == parts[0];
      assert s[|parts[0]| + 1..] == [' '] + rest;
      SplitJoinPadded(parts[1..], d);
      SplitPrefix([' '], rest, d);
      assert Split(s, d, -1) == [parts[0]] + Split([' '] + rest, d, -1);
      PaddedCons(parts);
    } else {
      assert Join(parts, [d, ' ']) == parts[0];
    }
  }

  lemma PaddedCons(parts: seq<string>)
    requires |parts| > 1
    ensures Padded(parts) == [parts[0]] + ([[' '] + Padded(parts[1..])[0]] + Padded(parts[1..])[1..])
  {
    var p, q := Padded(parts), Padded(parts[1..]);
    var r := [parts[0]] + ([[' '] + q[0]] + q[1..]);
    assert |r| == |p|;
    forall i | 0 <= i < |p|
      ensures p[i] == r[i]
    {
      if i >= 2 {
        assert r[i] == q[i - 1];
      }
    }
  }

  /**
   * `split_stripped` undoes a join by d and a space of non-empty stripped
   * parts without d.
   */
  lemma SplitStrippedJoin(parts: seq<string>, d: char)
    requires d != ' '
    requires forall i :: 0 <= i < |parts| ==> parts[i] != "" && Stripped(parts[i]) && d !in parts[i]
    ensures SplitStripped(Join(parts, [d, ' ']), d, -1) == parts
  {
    if |parts| > 0 {
      SplitJoinPadded(parts, d);
      SplitStrippedPadded(Join(parts, [d, ' ']), parts, d);
    }
  }

  lemma SplitStrippedPadded(value: string, parts: seq<string>, d: char)
    requires |parts| > 0 && parts[0] != ""
    requires forall i :: 0 <= i < |parts| ==> Stripped(parts[i])
    requires Split(value, d, -1) == Padded(parts)
    ensures SplitStripped(value, d, -1) == parts
  {
    assert value != "" by {
      assert Split(value, d, -1)[0] == parts[0];
    }
    var r := SplitStripped(value, d, -1);
    forall i | 0 <= i < |parts|
      ensures r[i] == parts[i]
    {
      StripOfPadded(parts, i);
    }
  }

  lemma StripOfPadded(parts: seq<string>, i: int)
    requires 0 <= i < |parts| && Stripped(parts[i])
    ensures Strip(Padded(parts)[i]) == parts[i]
  {
    if i == 0 {
      StripIdempotent(parts[0]);
    } else {
      StripPadded(parts[i]);
    }
  }

  // ---------------------------------------------------------------- numbers

  predicate IsDigit(c: char) {
    '0' <= c <= '9'
  }

  /** `s.isdigit()` on ASCII: non-empty and digits only. */
  predicate IsDigits(s: string) {
    |s| > 0 && forall i :: 0 <= i < |s| ==> IsDigit(s[i])
  }

  /** `int(s)` for a string of digits. */
  function ParseNat(s: string): nat
    requires forall i :: 0 <= i < |s| ==> IsDigit(s[i])
  {
    if |s| == 0 then 0
    else
      var c := s[|s| - 1];
      assert IsDigit(c);
      10 * ParseNat(s[..|s| - 1]) + (c as int - '0' as int)
  }

  /** `str(n)` for a natural number. */
  function NatToString(n: nat): (r: string)
    ensures IsDigits(r)
  {
    if n < 10 then [('0' as int + n) as char]
    else NatToString(n / 10) + [('0' as int + n % 10) as char]
  }

  /** `str(i)` for any integer: a minus sign before the digits of a negative one. */
  function IntToString(i: int): string {
    if i < 0 then "-" + NatToString(-i) else NatToString(i)
  }

  /** Reading back the digits of n gives n. */
  lemma {:induction false} ParseNatToString(n: nat)
    ensures ParseNat(NatToString(n)) == n
  {
    if n >= 10 {
      var s := NatToString(n);
      assert s[..|s| - 1] == NatToString(n / 10);
      ParseNatToString(n / 10);
    }
  }
}
