/**
  The handful of Python string operations the derush sheet relies on:
  decimal rendering with `format(i, '02d')`, `int(s)` on a decimal field,
  `str.split(sep)` and `str.endswith(suffix)`.
 */
module Text {
  import opened Base

  predicate IsDigit(c: char) {
    '0' <= c <= '9'
  }

  function DigitValue(c: char): (d: nat)
    requires IsDigit(c)
    ensures d < 10
  {
    (c as int) - ('0' as int)
  }

  function DigitChar(d: nat): (c: char)
    requires d < 10
    ensures IsDigit(c) && DigitValue(c) == d
  {
    (('0' as int) + d) as char
  }

  /** A non-empty run of ASCII decimal digits. */
  predicate IsNumeral(s: string) {
    |s| > 0 && forall i :: 0 <= i < |s| ==> IsDigit(s[i])
  }

  /** The value of a run of decimal digits (leading zeros allowed). */
  function ParseDigits(s: string): nat
    requires forall i :: 0 <= i < |s| ==> IsDigit(s[i])
  {
    if |s| == 0 then 0 else 10 * ParseDigits(s[..|s| - 1]) + DigitValue(s[|s| - 1])
  }

  /** Shortest decimal rendering of `n`, as `str(n)` gives it. */
  function Digits(n: nat): (s: string)
    ensures IsNumeral(s)
    ensures ParseDigits(s) == n
    ensures |s| == 1 <==> n < 10
    ensures s[0] == '0' ==> n == 0
  {
    if n < 10 then [DigitChar(n)]
    else
      var prefix := Digits(n / 10);
      var s := prefix + [DigitChar(n % 10)];
      assert s[..|s| - 1] == prefix;
      s
  }

  /**
    Python's `int(s)` on the inputs a timecode field can hold: an optional
    sign followed by one or more decimal digits. `None` stands for the
    `ValueError` Python raises on anything else.
   */
  function ParseInt(s: string): (r: Option<int>)
    ensures r.Some? ==> |s| >= 1
  {
    if |s| >= 1 && (s[0] == '+' || s[0] == '-') then
      if IsNumeral(s[1..]) then
        var magnitude: int := ParseDigits(s[1..]);
        Some(if s[0] == '-' then -magnitude else magnitude)
      else None
    else if IsNumeral(s) then Some(ParseDigits(s))
    else None
  }

  /**
    Python's `format(i, '02d')`: at least two characters, zero-padded after
    the sign, so a negative number is its sign followed by its digits.
   */
  function Pad2(i: int): (s: string)
    ensures |s| >= 2
    ensures forall k :: 0 <= k < |s| ==> IsDigit(s[k]) || (k == 0 && s[k] == '-')
    ensures s[0] == '-' <==> i < 0
    ensures s[0] == '0' <==> 0 <= i < 10
    ensures i < 0 ==> s[1] != '0'
  {
    if i < 0 then "-" + Digits(-i)
    else if i < 10 then "0" + Digits(i)
    else Digits(i)
  }

  /** The strings `ParseInt` accepts: decimal digits, optionally after one sign. */
  predicate IsIntLiteral(s: string) {
    IsNumeral(s) || (|s| >= 2 && (s[0] == '+' || s[0] == '-') && IsNumeral(s[1..]))
  }

  /**
    `int` accepts exactly the integer literals and reads their digits in
    base ten, negated after a '-'; every other field raises.
   */
  lemma ParseIntAccepts(s: string)
    ensures ParseInt(s).Some? <==> IsIntLiteral(s)
    ensures IsNumeral(s) ==> ParseInt(s) == Some(ParseDigits(s))
    ensures |s| >= 2 && s[0] == '+' && IsNumeral(s[1..]) ==> ParseInt(s) == Some(ParseDigits(s[1..]))
    ensures |s| >= 2 && s[0] == '-' && IsNumeral(s[1..]) ==> ParseInt(s) == Some(-(ParseDigits(s[1..]) as int))
  {
  }

  /** `int` reads a padded field back as the number it was padded from. */
  lemma ParsePad2(i: int)
    ensures ParseInt(Pad2(i)) == Some(i)
  {
    var s := Pad2(i);
    if i < 0 {
      assert s[1..] == Digits(-i);
    } else if i < 10 {
      assert s[..1] == "0";
      assert ParseDigits(s[..1]) == 0;
      assert ParseDigits(s) == i;
    } else {
      assert Digits(i) == Digits(i / 10) + [DigitChar(i % 10)];
    }
  }

  /** A padded number is exactly two digits iff it lies in [0, 100). */
  lemma Pad2Width(i: int)
    ensures 0 <= i < 100 <==> |Pad2(i)| == 2 && IsNumeral(Pad2(i))
  {
    if 10 <= i {
      assert Digits(i) == Digits(i / 10) + [DigitChar(i % 10)];
    }
  }

  /** A padded non-negative field is a numeral whose digits read back as the number. */
  lemma Pad2Natural(i: int)
    requires i >= 0
    ensures IsNumeral(Pad2(i)) && ParseDigits(Pad2(i)) == i
  {
    ParsePad2(i);
  }

  /** The two-digit field `[hi, lo]` padded as `Pad2` pads its value. */
  lemma Pad2TwoDigits(hi: char, lo: char)
    requires IsDigit(hi) && IsDigit(lo)
    ensures ParseDigits([hi, lo]) == 10 * DigitValue(hi) + DigitValue(lo)
    ensures Pad2(ParseDigits([hi, lo])) == [hi, lo]
  {
    var v := 10 * DigitValue(hi) + DigitValue(lo);
    assert [hi, lo][..1] == [hi];
    assert [hi][..0] == [];
    assert ParseDigits([hi]) == DigitValue(hi);
    assert ParseDigits([hi, lo]) == 10 * ParseDigits([hi]) + DigitValue(lo);
    assert DigitChar(DigitValue(lo)) == lo;
    assert DigitChar(DigitValue(hi)) == hi;
    if DigitValue(hi) != 0 {
      assert v / 10 == DigitValue(hi) && v % 10 == DigitValue(lo);
      assert Digits(v) == Digits(DigitValue(hi)) + [lo];
    }
  }

  /** The padded form of a number given by two digits is those two digits. */
  lemma Pad2Of(i: int, hi: char, lo: char)
    requires IsDigit(hi) && IsDigit(lo) && i == 10 * DigitValue(hi) + DigitValue(lo)
    ensures Pad2(i) == [hi, lo]
  {
    Pad2TwoDigits(hi, lo);
  }

  /** Joins `parts` with `sep` between consecutive parts (`sep.join(parts)`). */
  function Join(parts: seq<string>, sep: char): string
    requires |parts| >= 1
  {
    if |parts| == 1 then parts[0] else parts[0] + [sep] + Join(parts[1..], sep)
  }

  /** Three parts joined by `sep`, written out. */
  lemma JoinThree(a: string, b: string, c: string, sep: char)
    ensures Join([a, b, c], sep) == a + [sep] + b + [sep] + c
  {
    var parts := [a, b, c];
    assert Join(parts[2..], sep) == c;
    assert Join(parts[1..], sep) == b + [sep] + c;
  }

  /** Four parts joined by `sep`, written out. */
  lemma JoinFour(a: string, b: string, c: string, d: string, sep: char)
    ensures Join([a, b, c, d], sep) == a + [sep] + b + [sep] + c + [sep] + d
  {
    var parts := [a, b, c, d];
    assert parts[1..] == [b, c, d];
    JoinThree(b, c, d, sep);
  }

  /**
    Python's `s.split(sep)` for a one-character separator: every maximal
    separator-free run, empty runs included, so `""` splits into `[""]`.
   */
  function Split(s: string, sep: char): (parts: seq<string>)
    ensures |parts| >= 1
    ensures forall k :: 0 <= k < |parts| ==> sep !in parts[k]
    ensures Join(parts, sep) == s
  {
    if |s| == 0 then [""]
    else
      var rest := Split(s[1..], sep);
      if s[0] == sep then
        assert Join([""] + rest, sep) == [sep] + s[1..];
        [""] + rest
      else
        var parts := [[s[0]] + rest[0]] + rest[1..];
        assert parts[1..] == rest[1..];
        parts
  }

  /** A separator-free string splits into itself. */
  lemma {:induction false} SplitNoSeparator(a: string, sep: char)
    requires sep !in a
    ensures Split(a, sep) == [a]
  {
    if |a| > 0 {
      SplitNoSeparator(a[1..], sep);
      assert [a[0]] + a[1..] == a;
    }
  }

  /** Splitting stops at the first separator. */
  lemma {:induction false} SplitAtFirstSeparator(a: string, b: string, sep: char)
    requires sep !in a
    ensures Split(a + [sep] + b, sep) == [a] + Split(b, sep)
  {
    var s := a + [sep] + b;
    if |a| == 0 {
      assert s[1..] == b;
    } else {
      assert s[1..] == a[1..] + [sep] + b;
      SplitAtFirstSeparator(a[1..], b, sep);
      assert [a[0]] + a[1..] == a;
    }
  }

  /** Splitting undoes joining separator-free parts. */
  lemma {:induction false} SplitJoin(parts: seq<string>, sep: char)
    requires |parts| >= 1
    requires forall k :: 0 <= k < |parts| ==> sep !in parts[k]
    ensures Split(Join(parts, sep), sep) == parts
  {
    if |parts| == 1 {
      SplitNoSeparator(parts[0], sep);
    } else {
      SplitJoin(parts[1..], sep);
      SplitAtFirstSeparator(parts[0], Join(parts[1..], sep), sep);
      assert [parts[0]] + parts[1..] == parts;
    }
  }

  /** Python's `s.endswith(suffix)`, case-sensitive. */
  predicate EndsWith(s: string, suffix: string) {
    |suffix| <= |s| && s[|s| - |suffix|..] == suffix
  }
}
