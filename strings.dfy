/** The few Python string builtins the package relies on: `str(int)`,
    `int(str)`, `str.split(sep)` and `str.replace(target, replacement)`, for the
    single-character separators the package uses. */
module Strings {

  predicate IsDigit(c: char) {
    '0' <= c <= '9'
  }

  predicate AllDigits(s: string) {
    forall i :: 0 <= i < |s| ==> IsDigit(s[i])
  }

  function DigitChar(n: nat): (c: char)
    requires n < 10
    ensures IsDigit(c)
  {
    (n + '0' as int) as char
  }

  function DigitValue(c: char): (n: nat)
    requires IsDigit(c)
    ensures n < 10 && DigitChar(n) == c
  {
    c as int - '0' as int
  }

  /** `str(n)` for a non-negative integer: its decimal digits, without
      leading zeros. */
  function NatToString(n: nat): (s: string)
    ensures |s| > 0 && AllDigits(s)
    ensures s[0] == '0' ==> n == 0 && |s| == 1
    decreases n
  {
    if n < 10 then [DigitChar(n)] else NatToString(n / 10) + [DigitChar(n % 10)]
  }

  /** `int(s)` for a string of ASCII digits. The empty string, on which
      Python's `int` raises, gives 0 here; every caller passes a POS_NUM
      match, which is never empty. */
  function DecimalValue(s: string): (n: nat)
    requires AllDigits(s)
    ensures n == 0 <==> forall i :: 0 <= i < |s| ==> s[i] == '0'
    decreases |s|
  {
    if s == [] then 0 else DecimalValue(s[..|s| - 1]) * 10 + DigitValue(s[|s| - 1])
  }

  /** `int(str(n)) == n`. */
  lemma {:induction false} DecimalValueOfNatToString(n: nat)
    ensures DecimalValue(NatToString(n)) == n
    decreases n
  {
    if n >= 10 {
      var s := NatToString(n);
      assert s[..|s| - 1] == NatToString(n / 10);
      DecimalValueOfNatToString(n / 10);
    }
  }

  /** A digit string whose first digit is not zero denotes a positive number. */
  lemma {:induction false} DecimalValuePositive(s: string)
    requires |s| > 0 && AllDigits(s) && s[0] != '0'
    ensures DecimalValue(s) > 0
    decreases |s|
  {
    if |s| > 1 {
      DecimalValuePositive(s[..|s| - 1]);
    }
  }

  /** `str(int(s)) == s` for a digit string without a leading zero. */
  lemma {:induction false} NatToStringOfDecimalValue(s: string)
    requires |s| > 0 && AllDigits(s)
    requires s[0] == '0' ==> |s| == 1
    ensures NatToString(DecimalValue(s)) == s
    decreases |s|
  {
    if |s| > 1 {
      var p := s[..|s| - 1];
      DecimalValuePositive(p);
      NatToStringOfDecimalValue(p);
      var n := DecimalValue(s);
      assert n / 10 == DecimalValue(p) && n % 10 == DigitValue(s[|s| - 1]);
      assert s == p + [s[|s| - 1]];
    }
  }

  /** `sep.join(parts)`. */
  function Join(parts: seq<string>, sep: char): string
    requires |parts| > 0
    decreases |parts|
  {
    if |parts| == 1 then parts[0] else parts[0] + [sep] + Join(parts[1..], sep)
  }

  /** `s.split(sep)`: the maximal pieces of `s` between occurrences of `sep`,
      so `"".split(",") == [""]` and every piece is free of `sep`. */
  function Split(s: string, sep: char): (parts: seq<string>)
    ensures |parts| > 0
    ensures forall i :: 0 <= i < |parts| ==> sep !in parts[i]
    decreases |s|
  {
    if s == [] then [[]]
    else
      var rest := Split(s[1..], sep);
      if s[0] == sep then [[]] + rest
      else [[s[0]] + rest[0]] + rest[1..]
  }

  /** Joining the pieces of a split gives back the text. */
  lemma {:induction false} JoinSplit(s: string, sep: char)
    ensures Join(Split(s, sep), sep) == s
    decreases |s|
  {
    if s != [] {
      JoinSplit(s[1..], sep);
      var rest := Split(s[1..], sep);
      if s[0] == sep {
        assert Join([[]] + rest, sep) == [sep] + Join(rest, sep);
      } else {
        assert Join([[s[0]] + rest[0]] + rest[1..], sep) == [s[0]] + Join(rest, sep);
      }
    }
  }

  /** Splitting a join gives back the pieces, when no piece holds the separator. */
  lemma {:induction false} SplitJoin(parts: seq<string>, sep: char)
    requires |parts| > 0
    requires forall i :: 0 <= i < |parts| ==> sep !in parts[i]
    ensures Split(Join(parts, sep), sep) == parts
    decreases |parts|
  {
    if |parts| == 1 {
      SplitFree(parts[0], [], sep);
      assert Split([], sep) == [[]];
      assert parts[0] + [] == parts[0];
      assert parts == [parts[0]];
    } else {
      SplitJoin(parts[1..], sep);
      SplitCons(parts[0], Join(parts[1..], sep), parts[1..], sep);
      assert [parts[0]] + parts[1..] == parts;
    }
  }

  /** One more separator-free piece in front of a text that splits into `rest`. */
  lemma SplitCons(p: string, j: string, rest: seq<string>, sep: char)
    requires sep !in p && Split(j, sep) == rest
    ensures Split(p + [sep] + j, sep) == [p] + rest
  {
    var tail := [sep] + j;
    SplitAtSeparator(j, sep);
    var pieces := Split(tail, sep);
    assert pieces == [[]] + rest;
    assert pieces[0] == [] && pieces[1..] == rest;
    SplitFree(p, tail, sep);
    assert p + [sep] + j == p + tail;
    assert p + pieces[0] == p;
    assert Split(p + tail, sep) == [p] + rest;
  }

  /** A leading separator splits off an empty piece. */
  lemma SplitAtSeparator(rest: string, sep: char)
    ensures Split([sep] + rest, sep) == [[]] + Split(rest, sep)
  {
    assert ([sep] + rest)[1..] == rest;
  }

  /** A separator-free prefix joins the first piece of what follows. */
  lemma {:induction false} SplitFree(p: string, s: string, sep: char)
    requires sep !in p
    ensures Split(p + s, sep) == [p + Split(s, sep)[0]] + Split(s, sep)[1..]
    decreases |p|
  {
    var pieces := Split(s, sep);
    if p == [] {
      assert p + s == s && p + pieces[0] == pieces[0];
      assert [pieces[0]] + pieces[1..] == pieces;
    } else {
      var q := p[1..];
      assert p == [p[0]] + q;
      assert sep !in q by {
        assert forall k :: 0 <= k < |q| ==> q[k] == p[k + 1];
      }
      SplitFree(q, s, sep);
      var whole := p + s;
      assert whole[0] == p[0] && whole[1..] == q + s;
      var rest := Split(q + s, sep);
      assert rest == [q + pieces[0]] + pieces[1..];
      assert Split(whole, sep) == [[p[0]] + rest[0]] + rest[1..];
      assert rest[0] == q + pieces[0] && rest[1..] == pieces[1..];
      assert [p[0]] + (q + pieces[0]) == p + pieces[0];
    }
  }

  /** `s.replace(target, replacement)` for a one-character `target`. */
  function Replace(s: string, target: char, replacement: string): (r: string)
    ensures target !in replacement ==> target !in r
    decreases |s|
  {
    if s == [] then []
    else (if s[0] == target then replacement else [s[0]]) + Replace(s[1..], target, replacement)
  }

  /** Replacing works piece by piece. */
  lemma {:induction false} ReplaceAppend(a: string, b: string, target: char, replacement: string)
    ensures Replace(a + b, target, replacement) == Replace(a, target, replacement) + Replace(b, target, replacement)
    decreases |a|
  {
    if a != [] {
      assert (a + b)[1..] == a[1..] + b;
      ReplaceAppend(a[1..], b, target, replacement);
    } else {
      assert a + b == b;
    }
  }

  /** Replacing a character by itself changes nothing. */
  lemma {:induction false} ReplaceSame(s: string, c: char)
    ensures Replace(s, c, [c]) == s
    decreases |s|
  {
    if s != [] {
      ReplaceSame(s[1..], c);
      assert s == [s[0]] + s[1..];
    }
  }

  /** Text without `target` is not changed by the replacement. */
  lemma {:induction false} ReplaceAbsent(s: string, target: char, replacement: string)
    requires target !in s
    ensures Replace(s, target, replacement) == s
    decreases |s|
  {
    if s != [] {
      ReplaceAbsent(s[1..], target, replacement);
      assert s == [s[0]] + s[1..];
    }
  }
}
