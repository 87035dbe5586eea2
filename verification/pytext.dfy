/**
 * The pieces of Python's string handling that the analysis scripts rely on:
 * decimal formatting (`f"{n}"`, `f"{n:02d}"`), `int(str)`, `str.split(sep)`,
 * `str.replace(pat, '')` and the code-point order of `<` on strings.
 * Only ASCII digits are modelled as digits.
 */
module PyText {
  import opened Wrappers

  predicate IsDigit(c: char) {
    '0' <= c <= '9'
  }

  predicate AllDigits(s: string) {
    forall i :: 0 <= i < |s| ==> IsDigit(s[i])
  }

  function DigitValue(c: char): (d: nat)
    requires IsDigit(c)
    ensures d < 10
  {
    c as int - '0' as int
  }

  function DigitChar(d: nat): (c: char)
    requires d < 10
    ensures IsDigit(c) && DigitValue(c) == d
  {
    ('0' as int + d) as char
  }

  /** The value of a run of decimal digits, most significant first; leading zeros allowed. */
  function DigitsValue(s: string): nat
    requires AllDigits(s)
    decreases |s|
  {
    if s == [] then 0 else 10 * DigitsValue(s[..|s| - 1]) + DigitValue(s[|s| - 1])
  }

  /** `str(n)` for a non-negative integer: the shortest decimal spelling of `n`. */
  function NatToDecimal(n: nat): (s: string)
    ensures |s| > 0 && AllDigits(s)
    ensures DigitsValue(s) == n
    ensures |s| == 1 || s[0] != '0'
    ensures |s| == 1 <==> n < 10
    decreases n
  {
    if n < 10 then [DigitChar(n)]
    else
      var prefix := NatToDecimal(n / 10);
      var s := prefix + [DigitChar(n % 10)];
      assert s[..|s| - 1] == prefix;
      s
  }

  /** `f"{i}"` for any integer: a minus sign in front of a negative number. */
  function IntToDecimal(i: int): (s: string)
    ensures |s| > 0
  {
    if i < 0 then "-" + NatToDecimal(-i) else NatToDecimal(i)
  }

  /** `f"{n:02d}"` for a non-negative integer: at least two digits, padded with zeros. */
  function ZeroPad2(n: nat): (s: string)
    ensures |s| >= 2 && AllDigits(s) && DigitsValue(s) == n
    ensures |s| == if n < 10 then 2 else |NatToDecimal(n)|
  {
    var d := NatToDecimal(n);
    if n < 10 then
      var s := "0" + d;
      assert s[..|s| - 1] == "0";
      s
    else d
  }

  /**
   * The characters Python's `int()` skips around a number: ASCII tab, line feed,
   * vertical tab, form feed, carriage return and space, plus the non-ASCII
   * characters `str.isspace` accepts. The ASCII separators U+001C..U+001F are not
   * among them, although `str.isspace` accepts those too.
   */
  predicate IsSpace(c: char) {
    (9 <= c as int <= 13) || c as int == 32 || c as int == 0x85 || c as int == 0xA0
    || c as int == 0x1680 || (0x2000 <= c as int <= 0x200A) || c as int == 0x2028
    || c as int == 0x2029 || c as int == 0x202F || c as int == 0x205F || c as int == 0x3000
  }

  function TrimLeft(s: string): (r: string)
    ensures r == [] || !IsSpace(r[0])
    ensures |r| <= |s| && r == s[|s| - |r|..]
    decreases |s|
  {
    if s != [] && IsSpace(s[0]) then TrimLeft(s[1..]) else s
  }

  function TrimRight(s: string): (r: string)
    ensures r == [] || !IsSpace(r[|r| - 1])
    ensures |r| <= |s| && r == s[..|r|]
    decreases |s|
  {
    if s != [] && IsSpace(s[|s| - 1]) then TrimRight(s[..|s| - 1]) else s
  }

  /** Python's digit grammar for `int()` in base 10: digits, single underscores only between digits. */
  predicate IsIntBody(b: string) {
    && |b| > 0
    && IsDigit(b[0])
    && IsDigit(b[|b| - 1])
    && (forall i :: 0 <= i < |b| ==> IsDigit(b[i]) || b[i] == '_')
    && (forall i :: 0 <= i < |b| - 1 ==> b[i] == '_' ==> b[i + 1] != '_')
  }

  function RemoveUnderscores(b: string): (r: string)
    ensures (forall i :: 0 <= i < |b| ==> IsDigit(b[i]) || b[i] == '_') ==> AllDigits(r)
    ensures AllDigits(b) ==> r == b
  {
    if b == [] then []
    else if b[0] == '_' then RemoveUnderscores(b[1..])
    else [b[0]] + RemoveUnderscores(b[1..])
  }

  /** The number after the surrounding whitespace is gone: an optional sign, then the digits. */
  function ParseSigned(t: string): Option<int>
  {
    if t == [] then None
    else
      var body := if t[0] == '-' || t[0] == '+' then t[1..] else t;
      if !IsIntBody(body) then None
      else
        var v: int := DigitsValue(RemoveUnderscores(body));
        Some(if t[0] == '-' then -v else v)
  }

  /**
   * `int(s)` for a string: surrounding whitespace, an optional sign, then base-10
   * digits with optional single underscores. `None` is the `ValueError` case.
   */
  function ParsePyInt(s: string): Option<int>
  {
    ParseSigned(TrimRight(TrimLeft(s)))
  }

  /** A run of digits is read by `int()` as its decimal value. */
  lemma ParseDigits(s: string)
    requires |s| > 0 && AllDigits(s)
    ensures ParsePyInt(s) == Some(DigitsValue(s))
  {
    assert IsDigit(s[0]) && IsDigit(s[|s| - 1]);
    TrimmedUnchanged(s);
    assert IsIntBody(s);
  }

  lemma TrimmedUnchanged(s: string)
    requires |s| > 0 && !IsSpace(s[0]) && !IsSpace(s[|s| - 1])
    ensures TrimRight(TrimLeft(s)) == s
  {
    assert TrimLeft(s) == s;
  }

  /** A space before and a line end after a run of digits are skipped. */
  lemma SurroundingSpace(d: string)
    requires |d| > 0 && AllDigits(d)
    ensures ParsePyInt(" " + d + "\n") == Some(DigitsValue(d))
  {
    var t := d + "\n";
    var s := " " + t;
    assert s == " " + d + "\n";
    assert IsDigit(d[0]) && IsDigit(d[|d| - 1]);
    TrimLeftStep(s, t);
    TrimRightStep(t, d);
    TrimmedUnchanged(d);
    ParseDigits(d);
  }

  lemma TrimLeftStep(s: string, t: string)
    requires |s| > 0 && IsSpace(s[0]) && s[1..] == t && |t| > 0 && !IsSpace(t[0])
    ensures TrimLeft(s) == t
  {
  }

  lemma TrimRightStep(t: string, d: string)
    requires |t| > 0 && IsSpace(t[|t| - 1]) && t[..|t| - 1] == d && |d| > 0 && !IsSpace(d[|d| - 1])
    ensures TrimRight(t) == d
  {
  }

  /** A file separator (U+001C) before a number is not skipped: `int()` rejects it. */
  lemma ExampleFileSeparator()
    ensures ParsePyInt([0x1C as char] + "5") == None
  {
    var u := [0x1C as char] + "5";
    assert u[0] == 0x1C as char;
    LeadingNonDigit(u);
  }

  /** Text that starts with neither whitespace, a sign nor a digit is not a number. */
  lemma LeadingNonDigit(s: string)
    requires |s| > 0 && !IsSpace(s[0])
    requires !IsDigit(s[0]) && s[0] != '-' && s[0] != '+'
    ensures ParsePyInt(s) == None
  {
    assert TrimLeft(s) == s;
    var t := TrimRight(s);
    if t != [] {
      assert t[0] == s[0];
    }
  }

  /** A minus sign followed by a run of digits is read by `int()` as the negated value. */
  lemma ParseNegated(d: string)
    requires |d| > 0 && AllDigits(d)
    ensures ParsePyInt("-" + d) == Some(-(DigitsValue(d) as int))
  {
    var s := "-" + d;
    assert s[0] == '-' && s[1..] == d;
    assert s[|s| - 1] == d[|d| - 1];
    assert IsDigit(s[|s| - 1]);
    TrimmedUnchanged(s);
    SignedNegated(s, d);
  }

  lemma SignedNegated(s: string, d: string)
    requires |d| > 0 && AllDigits(d)
    requires |s| > 0 && s[0] == '-' && s[1..] == d
    ensures ParseSigned(s) == Some(-(DigitsValue(d) as int))
  {
    assert IsIntBody(d);
  }

  /** `int(f"{i}") == i` for every integer. */
  lemma ParseIntToDecimal(i: int)
    ensures ParsePyInt(IntToDecimal(i)) == Some(i)
  {
    if i >= 0 {
      ParseDigits(NatToDecimal(i));
    } else {
      ParseNegated(NatToDecimal(-i));
    }
  }

  /** Inverse of `Split`: the parts put back together with the separator between them. */
  function Join(parts: seq<string>, sep: char): string
    requires |parts| >= 1
  {
    if |parts| == 1 then parts[0] else parts[0] + [sep] + Join(parts[1..], sep)
  }

  /** `s.split(sep)` for a one-character separator: empty fields are kept. */
  function Split(s: string, sep: char): (parts: seq<string>)
    ensures |parts| >= 1
    ensures forall i :: 0 <= i < |parts| ==> sep !in parts[i]
    ensures Join(parts, sep) == s
    decreases |s|
  {
    if s == [] then [[]]
    else
      var rest := Split(s[1..], sep);
      if s[0] == sep then
        assert s == [sep] + s[1..];
        [[]] + rest
      else
        var parts := [[s[0]] + rest[0]] + rest[1..];
        assert parts[1..] == rest[1..];
        assert forall i :: 1 <= i < |parts| ==> parts[i] == rest[i];
        parts
  }

  lemma {:induction false} SplitAfterField(a: string, sep: char, b: string)
    requires sep !in a
    ensures Split(a + [sep] + b, sep) == [a] + Split(b, sep)
    decreases |a|
  {
    if a == [] {
      assert a + [sep] + b == [sep] + b;
    } else {
      var s := a + [sep] + b;
      assert s[1..] == a[1..] + [sep] + b && s[0] == a[0] != sep;
      SplitAfterField(a[1..], sep, b);
      var rest := Split(s[1..], sep);
      assert rest[0] == a[1..] && rest[1..] == Split(b, sep);
      assert [a[0]] + a[1..] == a;
      assert Split(s, sep) == [[s[0]] + rest[0]] + rest[1..];
    }
  }

  lemma {:induction false} SplitNoSeparator(a: string, sep: char)
    requires sep !in a
    ensures Split(a, sep) == [a]
    decreases |a|
  {
    if a != [] {
      SplitNoSeparator(a[1..], sep);
      assert a == [a[0]] + a[1..];
    }
  }

  /** Two separator-free fields joined by the separator split back into exactly those two. */
  lemma SplitTwoFields(a: string, sep: char, b: string)
    requires sep !in a && sep !in b
    ensures Split(a + [sep] + b, sep) == [a, b]
  {
    SplitAfterField(a, sep, b);
    SplitNoSeparator(b, sep);
  }

  /** `s.replace(pat, '')`: every non-overlapping occurrence, scanning left to right, removed. */
  function RemoveAll(s: string, pat: string): (r: string)
    requires |pat| > 0
    ensures |r| <= |s|
    decreases |s|
  {
    if |s| < |pat| then s
    else if s[..|pat|] == pat then RemoveAll(s[|pat|..], pat)
    else [s[0]] + RemoveAll(s[1..], pat)
  }

  /** A string in which the pattern does not occur is left as it is. */
  lemma {:induction false} RemoveAbsent(s: string, pat: string)
    requires |pat| > 0 && !Occurs(s, pat)
    ensures RemoveAll(s, pat) == s
    decreases |s|
  {
    if |s| >= |pat| {
      assert !OccursAt(s, pat, 0);
      OccursTail(s, pat);
      RemoveAbsent(s[1..], pat);
      assert s == [s[0]] + s[1..];
    }
  }

  /** `pat in s`: some window of `s` spells `pat`. */
  predicate Occurs(s: string, pat: string) {
    exists i :: 0 <= i <= |s| && OccursAt(s, pat, i)
  }

  predicate OccursAt(s: string, pat: string, i: int) {
    0 <= i && i + |pat| <= |s| && s[i..i + |pat|] == pat
  }

  /** An occurrence in the tail of a string is an occurrence in the string. */
  lemma OccursTail(s: string, pat: string)
    requires |s| > 0
    ensures Occurs(s[1..], pat) ==> Occurs(s, pat)
  {
    if Occurs(s[1..], pat) {
      var i :| 0 <= i <= |s[1..]| && OccursAt(s[1..], pat, i);
      assert s[i + 1..i + 1 + |pat|] == s[1..][i..i + |pat|];
      assert OccursAt(s, pat, i + 1);
    }
  }

  /** Python's `a < b` on strings: lexicographic by code point, a proper prefix first. */
  predicate StrLt(a: string, b: string)
    decreases |a|
  {
    if a == [] then b != []
    else if b == [] then false
    else if a[0] != b[0] then a[0] < b[0]
    else StrLt(a[1..], b[1..])
  }

  lemma {:induction false} StrLtIrreflexive(a: string)
    ensures !StrLt(a, a)
    decreases |a|
  {
    if a != [] { StrLtIrreflexive(a[1..]); }
  }

  lemma {:induction false} StrLtTransitive(a: string, b: string, c: string)
    requires StrLt(a, b) && StrLt(b, c)
    ensures StrLt(a, c)
    decreases |a|
  {
    if a != [] && b != [] && c != [] && a[0] == b[0] && b[0] == c[0] {
      StrLtTransitive(a[1..], b[1..], c[1..]);
    }
  }

  lemma {:induction false} StrLtTotal(a: string, b: string)
    ensures a == b || StrLt(a, b) || StrLt(b, a)
    decreases |a|
  {
    if a != [] && b != [] && a[0] == b[0] {
      StrLtTotal(a[1..], b[1..]);
      if a[1..] == b[1..] {
        assert a == [a[0]] + a[1..] && b == [b[0]] + b[1..];
      }
    }
  }
}
