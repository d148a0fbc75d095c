/** The few pieces of Python's string semantics the controllers rely on:
    `str.isspace`, `str.strip`, `str.split(sep)`, `str.isdigit`, `int(str)`,
    `str(int)` and iterating over the lines of a text file. Strings are
    sequences of Unicode scalar values, as Python's `str` is. */
module PyText {
  import opened Wrappers

  /** `str.isspace()` for one character: the characters that `strip()` and
      `int()` skip (Unicode White_Space as CPython classifies it). */
  predicate IsSpace(c: char) {
    || ('\t' <= c <= '\r')
    || ('\U{1C}' <= c <= ' ')
    || c == '\U{85}' || c == '\U{A0}' || c == '\U{1680}'
    || ('\U{2000}' <= c <= '\U{200A}')
    || c == '\U{2028}' || c == '\U{2029}' || c == '\U{202F}' || c == '\U{205F}' || c == '\U{3000}'
  }

  predicate IsAsciiDigit(c: char) {
    '0' <= c <= '9'
  }

  function DigitValue(c: char): (d: nat)
    requires IsAsciiDigit(c)
    ensures d < 10
  {
    c as int - '0' as int
  }

  function DigitChar(d: nat): (c: char)
    requires d < 10
    ensures IsAsciiDigit(c) && DigitValue(c) == d
  {
    ('0' as int + d) as char
  }

  // ---------------------------------------------------------------- strip

  function StripLeft(s: string): (r: string)
    ensures |r| <= |s| && r == s[|s| - |r|..]
    ensures forall i :: 0 <= i < |s| - |r| ==> IsSpace(s[i])
    ensures r == [] || !IsSpace(r[0])
  {
    if |s| > 0 && IsSpace(s[0]) then StripLeft(s[1..]) else s
  }

  function StripRight(s: string): (r: string)
    ensures |r| <= |s| && r == s[..|r|]
    ensures forall i :: |r| <= i < |s| ==> IsSpace(s[i])
    ensures r == [] || !IsSpace(r[|r| - 1])
  {
    if |s| > 0 && IsSpace(s[|s| - 1]) then StripRight(s[..|s| - 1]) else s
  }

  /** `str.strip()` with no argument. */
  function Strip(s: string): (r: string)
  {
    StripRight(StripLeft(s))
  }

  predicate AllSpace(s: string) {
    forall i :: 0 <= i < |s| ==> IsSpace(s[i])
  }

  lemma {:induction false} StripLeftAfterSpace(a: string, u: string)
    requires AllSpace(a)
    requires u == [] || !IsSpace(u[0])
    ensures StripLeft(a + u) == u
  {
    if |a| > 0 {
      assert (a + u)[1..] == a[1..] + u;
      StripLeftAfterSpace(a[1..], u);
    } else {
      assert a + u == u;
    }
  }

  lemma {:induction false} StripRightBeforeSpace(u: string, b: string)
    requires AllSpace(b)
    requires u == [] || !IsSpace(u[|u| - 1])
    ensures StripRight(u + b) == u
  {
    if |b| > 0 {
      assert (u + b)[..|u + b| - 1] == u + b[..|b| - 1];
      StripRightBeforeSpace(u, b[..|b| - 1]);
    } else {
      assert u + b == u;
    }
  }

  /** `strip()` removes exactly the surrounding whitespace: padding `t` (that
      neither starts nor ends with whitespace) on both sides with whitespace
      and stripping gives `t` back. */
  lemma StripPadded(a: string, t: string, b: string)
    requires AllSpace(a) && AllSpace(b)
    requires t == [] || (!IsSpace(t[0]) && !IsSpace(t[|t| - 1]))
    ensures Strip(a + t + b) == t
  {
    assert a + t + b == a + (t + b);
    if t == [] {
      assert t + b == b;
      var l := StripLeft(a + b);
      assert AllSpace(a + b) by {
        forall i | 0 <= i < |a + b| ensures IsSpace((a + b)[i]) {
          if i < |a| { assert (a + b)[i] == a[i]; } else { assert (a + b)[i] == b[i - |a|]; }
        }
      }
      assert l == [];
    } else {
      assert (t + b)[0] == t[0];
      StripLeftAfterSpace(a, t + b);
      StripRightBeforeSpace(t, b);
    }
  }

  /** Nothing that starts and ends with a non-space character is changed. */
  lemma StripUnpadded(t: string)
    requires t == [] || (!IsSpace(t[0]) && !IsSpace(t[|t| - 1]))
    ensures Strip(t) == t
  {
    assert "" + t + "" == t;
    StripPadded("", t, "");
  }

  // ---------------------------------------------------------------- split / join

  /** `s.split(sep)` with an explicit one-character separator: never empty,
      empty pieces kept ("a::b" gives three pieces). */
  function Split(s: string, sep: char): (parts: seq<string>)
    ensures |parts| >= 1
    ensures forall k :: 0 <= k < |parts| ==> sep !in parts[k]
  {
    if |s| == 0 then [""]
    else
      var rest := Split(s[1..], sep);
      if s[0] == sep then [""] + rest else [[s[0]] + rest[0]] + rest[1..]
  }

  /** `sep.join(parts)`, the inverse of `Split`. */
  function Join(parts: seq<string>, sep: char): string
  {
    if |parts| == 0 then ""
    else if |parts| == 1 then parts[0]
    else parts[0] + [sep] + Join(parts[1..], sep)
  }

  /** `sep.join` takes its first field off the front. */
  lemma JoinCons(x: string, rest: seq<string>, sep: char)
    requires |rest| > 0
    ensures Join([x] + rest, sep) == x + [sep] + Join(rest, sep)
  {
    assert ([x] + rest)[1..] == rest;
  }

  /** `sep.join` of five fields written out. */
  lemma JoinFive(a: string, b: string, c: string, d: string, e: string, sep: char)
    ensures Join([a, b, c, d, e], sep) == a + [sep] + b + [sep] + c + [sep] + d + [sep] + e
  {
    var de := d + [sep] + e;
    JoinCons(d, [e], sep);
    assert [d] + [e] == [d, e];
    var cde := c + [sep] + de;
    JoinCons(c, [d, e], sep);
    assert [c] + [d, e] == [c, d, e];
    var bcde := b + [sep] + cde;
    JoinCons(b, [c, d, e], sep);
    assert [b] + [c, d, e] == [b, c, d, e];
    JoinCons(a, [b, c, d, e], sep);
    assert [a] + [b, c, d, e] == [a, b, c, d, e];
    assert Join([a, b, c, d, e], sep) == a + [sep] + bcde;
    assert a + [sep] + bcde == a + [sep] + b + [sep] + c + [sep] + d + [sep] + e;
  }

  lemma {:induction false} JoinSplit(s: string, sep: char)
    ensures Join(Split(s, sep), sep) == s
  {
    if |s| > 0 {
      var rest := Split(s[1..], sep);
      JoinSplit(s[1..], sep);
      if s[0] == sep {
        assert Split(s, sep) == [""] + rest;
        assert ([""] + rest)[1..] == rest;
        assert Join([""] + rest, sep) == "" + [sep] + Join(rest, sep);
        assert s == [s[0]] + s[1..];
      } else {
        var first := [s[0]] + rest[0];
        var parts := [first] + rest[1..];
        assert Split(s, sep) == parts;
        if |rest| == 1 {
          assert Join(parts, sep) == first;
          assert Join(rest, sep) == rest[0];
        } else {
          assert parts[1..] == rest[1..];
          assert Join(parts, sep) == first + [sep] + Join(rest[1..], sep);
          assert Join(rest, sep) == rest[0] + [sep] + Join(rest[1..], sep);
        }
        assert s == [s[0]] + s[1..];
      }
    }
  }

  /** Splitting a prefix that holds no separator extends the first piece. */
  lemma {:induction false} SplitAfterPlain(p: string, t: string, sep: char)
    requires sep !in p
    ensures Split(p + t, sep) == [p + Split(t, sep)[0]] + Split(t, sep)[1..]
  {
    if |p| > 0 {
      SplitAfterPlain(p[1..], t, sep);
      assert (p + t)[1..] == p[1..] + t;
      assert (p + t)[0] == p[0];
      assert [p[0]] + (p[1..] + Split(t, sep)[0]) == p + Split(t, sep)[0];
    } else {
      assert p + t == t;
      assert p + Split(t, sep)[0] == Split(t, sep)[0];
      assert Split(t, sep) == [Split(t, sep)[0]] + Split(t, sep)[1..];
    }
  }

  lemma {:induction false} SplitJoin(parts: seq<string>, sep: char)
    requires |parts| >= 1
    requires forall k :: 0 <= k < |parts| ==> sep !in parts[k]
    ensures Split(Join(parts, sep), sep) == parts
  {
    if |parts| == 1 {
      SplitAfterPlain(parts[0], "", sep);
      assert parts[0] + "" == parts[0];
    } else {
      var tail := Join(parts[1..], sep);
      SplitJoin(parts[1..], sep);
      var t := [sep] + tail;
      assert t[1..] == tail;
      assert Split(t, sep) == [""] + parts[1..];
      SplitAfterPlain(parts[0], t, sep);
      assert parts[0] + [sep] + tail == parts[0] + t;
      assert parts[0] + "" == parts[0];
      assert ([""] + parts[1..])[1..] == parts[1..];
    }
  }

  /** Two fields without the separator split back apart. */
  lemma Split2(a: string, b: string, sep: char)
    requires sep !in a && sep !in b
    ensures Split(a + [sep] + b, sep) == [a, b]
  {
    assert Join([a, b], sep) == a + [sep] + b by {
      assert [a, b][1..] == [b];
    }
    SplitJoin([a, b], sep);
  }

  /** Three fields without the separator split back apart. */
  lemma Split3(a: string, b: string, c: string, sep: char)
    requires sep !in a && sep !in b && sep !in c
    ensures Split(a + [sep] + b + [sep] + c, sep) == [a, b, c]
  {
    var bc := b + [sep] + c;
    assert Join([b, c], sep) == bc by {
      assert [b, c][1..] == [c];
    }
    assert Join([a, b, c], sep) == a + [sep] + bc by {
      assert [a, b, c][1..] == [b, c];
    }
    assert a + [sep] + bc == a + [sep] + b + [sep] + c;
    SplitJoin([a, b, c], sep);
  }

  /** A string holds the separator exactly when splitting on it gives more
      than one piece. */
  lemma {:induction false} SplitMany(s: string, sep: char)
    ensures sep in s <==> |Split(s, sep)| > 1
  {
    if |s| > 0 {
      SplitMany(s[1..], sep);
      assert s == [s[0]] + s[1..];
    }
  }

  /** `s.split(sep)` gives one piece more than `s` has separators. */
  lemma {:induction false} SplitCount(s: string, sep: char)
    ensures |Split(s, sep)| == multiset(s)[sep] + 1
  {
    if |s| > 0 {
      SplitCount(s[1..], sep);
      assert s == [s[0]] + s[1..];
    }
  }

  // ---------------------------------------------------------------- digits and int()

  /** `str.isdigit()`, over ASCII digits. */
  predicate IsDigitString(s: string) {
    |s| > 0 && forall i :: 0 <= i < |s| ==> IsAsciiDigit(s[i])
  }

  predicate DigitsOrUnderscores(s: string) {
    forall i :: 0 <= i < |s| ==> IsAsciiDigit(s[i]) || s[i] == '_'
  }

  /** The decimal value of the digits of `s`, underscores skipped. */
  function DecimalValue(s: string): nat
    requires DigitsOrUnderscores(s)
  {
    if |s| == 0 then 0
    else if s[|s| - 1] == '_' then DecimalValue(s[..|s| - 1])
    else DecimalValue(s[..|s| - 1]) * 10 + DigitValue(s[|s| - 1])
  }

  /** What `int()` accepts after an optional sign in base 10: digits, with
      single underscores allowed between two digits. */
  predicate IsDigitGroups(s: string) {
    && DigitsOrUnderscores(s)
    && |s| > 0 && IsAsciiDigit(s[0]) && IsAsciiDigit(s[|s| - 1])
    && forall i :: 0 <= i < |s| ==>
         IsAsciiDigit(s[i]) || (s[i] == '_' && 0 < i < |s| - 1 && IsAsciiDigit(s[i - 1]) && IsAsciiDigit(s[i + 1]))
  }

  /** `int(s)` in base 10: `None` where Python raises ValueError. */
  function ParseInt(s: string): (r: Option<int>)
    ensures r.Some? ==> Strip(s) != []
  {
    var t := Strip(s);
    if |t| > 0 && (t[0] == '+' || t[0] == '-') then
      if IsDigitGroups(t[1..]) then
        var v: int := DecimalValue(t[1..]);
        Some(if t[0] == '-' then -v else v)
      else None
    else if IsDigitGroups(t) then Some(DecimalValue(t))
    else None
  }

  /** A string of ASCII digits reads as its decimal value. */
  lemma ParseDigits(s: string)
    requires IsDigitString(s)
    ensures ParseInt(s) == Some(DecimalValue(s))
  {
    StripUnpadded(s);
    DigitsAreGroup(s);
    assert IsAsciiDigit(s[0]);
  }

  /** A plain run of digits is one digit group. */
  lemma DigitsAreGroup(ds: string)
    requires IsDigitString(ds)
    ensures IsDigitGroups(ds)
  {
  }

  /** A sign and digits keep their place under `strip()`. */
  lemma StripSigned(sp1: string, sign: char, ds: string, sp2: string)
    requires AllSpace(sp1) && AllSpace(sp2) && IsDigitString(ds)
    requires sign == '+' || sign == '-'
    ensures Strip(sp1 + [sign] + ds + sp2) == [sign] + ds
  {
    var t := [sign] + ds;
    assert sp1 + [sign] + ds + sp2 == sp1 + t + sp2;
    assert t[|t| - 1] == ds[|ds| - 1];
    StripPadded(sp1, t, sp2);
  }

  /** `int()` of a text that strips to a sign and digits. */
  lemma ParseSignedText(s: string, sign: char, ds: string)
    requires Strip(s) == [sign] + ds && IsDigitString(ds)
    requires sign == '+' || sign == '-'
    ensures sign == '+' ==> ParseInt(s) == Some(DecimalValue(ds))
    ensures sign == '-' ==> ParseInt(s) == Some(0 - DecimalValue(ds))
  {
    assert Strip(s)[1..] == ds;
    DigitsAreGroup(ds);
  }

  /** `int()` ignores surrounding whitespace and reads a leading sign. */
  lemma ParseSigned(sp1: string, sign: char, ds: string, sp2: string)
    requires AllSpace(sp1) && AllSpace(sp2) && IsDigitString(ds)
    requires sign == '+' || sign == '-'
    ensures sign == '+' ==> ParseInt(sp1 + [sign] + ds + sp2) == Some(DecimalValue(ds))
    ensures sign == '-' ==> ParseInt(sp1 + [sign] + ds + sp2) == Some(0 - DecimalValue(ds))
  {
    StripSigned(sp1, sign, ds, sp2);
    ParseSignedText(sp1 + [sign] + ds + sp2, sign, ds);
  }

  /** Unsigned digits padded with whitespace read as their value. */
  lemma ParsePadded(sp1: string, ds: string, sp2: string)
    requires AllSpace(sp1) && AllSpace(sp2) && IsDigitString(ds)
    ensures ParseInt(sp1 + ds + sp2) == Some(DecimalValue(ds))
  {
    assert IsAsciiDigit(ds[0]) && IsAsciiDigit(ds[|ds| - 1]);
    StripPadded(sp1, ds, sp2);
  }

  /** `int()` raises on any character of the stripped text that is not a
      digit, an underscore or a sign in front. */
  lemma ParseRejectsOther(s: string, i: nat)
    requires i < |Strip(s)|
    requires !IsAsciiDigit(Strip(s)[i]) && Strip(s)[i] != '_'
    requires i > 0 || (Strip(s)[i] != '+' && Strip(s)[i] != '-')
    ensures ParseInt(s) == None
  {
    var t := Strip(s);
    if t[0] == '+' || t[0] == '-' {
      assert t[1..][i - 1] == t[i];
    }
  }

  /** `str(n)` for a natural number. */
  function NatToString(n: nat): (r: string)
    ensures IsDigitString(r) && DecimalValue(r) == n
  {
    if n < 10 then [DigitChar(n)]
    else
      var p := NatToString(n / 10);
      var r := p + [DigitChar(n % 10)];
      assert r[..|r| - 1] == p;
      r
  }

  /** `int(str(n)) == n`. */
  lemma ParseShow(n: nat)
    ensures ParseInt(NatToString(n)) == Some(n)
  {
    ParseDigits(NatToString(n));
  }

  /** `f'{n:02d}'` for n < 100. */
  function Pad2(n: nat): (r: string)
    requires n < 100
    ensures |r| == 2 && IsDigitString(r) && DecimalValue(r) == n
  {
    var r := [DigitChar(n / 10), DigitChar(n % 10)];
    assert r[..1] == [DigitChar(n / 10)] && r[..1][..0] == [];
    assert DecimalValue(r[..1]) == n / 10;
    r
  }

  /** `f'{n:04d}'` for n < 10000. */
  function Pad4(n: nat): (r: string)
    requires n < 10000
    ensures |r| == 4 && IsDigitString(r) && DecimalValue(r) == n
  {
    var r := Pad2(n / 100) + Pad2(n % 100);
    assert r[..3] == Pad2(n / 100) + [Pad2(n % 100)[0]];
    assert r[..3][..2] == Pad2(n / 100);
    r
  }

  /** A digit string holds no field separator and no line break. */
  lemma DigitsHaveNoColon(d: string)
    requires IsDigitString(d)
    ensures ':' !in d && forall j :: 0 <= j < |d| ==> d[j] != '\n'
  {
    forall k | 0 <= k < |d|
      ensures d[k] != ':' && d[k] != '\n'
    {
      assert IsAsciiDigit(d[k]);
    }
  }

  // ---------------------------------------------------------------- text files

  /** The lines Python yields when iterating over a text file (or from
      `readlines()`): each ends with '\n' except possibly the last, and no
      empty line is produced at the end. */
  function Lines(text: string): (ls: seq<string>)
    ensures forall k :: 0 <= k < |ls| ==> |ls[k]| > 0
    ensures text == [] <==> ls == []
  {
    if |text| == 0 then []
    else
      var rest := Lines(text[1..]);
      if text[0] == '\n' then ["\n"] + rest
      else if rest == [] then [text[..1]]
      else [[text[0]] + rest[0]] + rest[1..]
  }

  function Concat(ls: seq<string>): string
  {
    if |ls| == 0 then "" else ls[0] + Concat(ls[1..])
  }

  /** The lines put back together are the file. */
  lemma {:induction false} ConcatLines(text: string)
    ensures Concat(Lines(text)) == text
  {
    if |text| > 0 {
      var rest := Lines(text[1..]);
      ConcatLines(text[1..]);
      if text[0] == '\n' {
        assert (["\n"] + rest)[1..] == rest;
      } else if rest == [] {
        assert text[1..] == [];
        assert text == text[..1];
      } else {
        var ls := [[text[0]] + rest[0]] + rest[1..];
        assert ls[1..] == rest[1..];
        assert Concat(rest) == rest[0] + Concat(rest[1..]);
      }
      assert text == [text[0]] + text[1..];
    }
  }

  /** A first line that ends at its only newline comes off whole. */
  lemma {:induction false} LinesAfterLine(a: string, b: string)
    requires |a| > 0 && a[|a| - 1] == '\n'
    requires forall j :: 0 <= j < |a| - 1 ==> a[j] != '\n'
    ensures Lines(a + b) == [a] + Lines(b)
  {
    var t := a + b;
    assert t[1..] == a[1..] + b;
    if |a| == 1 {
      assert t[0] == '\n' && a == "\n" && t[1..] == b;
    } else {
      LinesAfterLine(a[1..], b);
      var rest := Lines(t[1..]);
      assert rest == [a[1..]] + Lines(b);
      assert t[0] != '\n' && rest != [];
      assert Lines(t) == [[t[0]] + rest[0]] + rest[1..];
      assert rest[1..] == Lines(b);
      assert [t[0]] + a[1..] == a;
    }
  }

  /** A line of a file: a newline only at its end, and there unless it is
      the last line. */
  predicate LineShaped(line: string, last: bool) {
    && |line| > 0
    && (!last ==> line[|line| - 1] == '\n')
    && (forall j :: 0 <= j < |line| - 1 ==> line[j] != '\n')
  }

  /** Every line but the last ends with a newline, and no line holds a
      newline anywhere else. */
  lemma {:induction false} LinesShape(text: string)
    ensures forall k :: 0 <= k < |Lines(text)| ==> LineShaped(Lines(text)[k], k == |Lines(text)| - 1)
  {
    if |text| > 0 {
      LinesShape(text[1..]);
      var rest := Lines(text[1..]);
      var ls := Lines(text);
      if text[0] == '\n' {
        assert ls == ["\n"] + rest;
        forall k | 1 <= k < |ls| ensures ls[k] == rest[k - 1] { }
      } else if rest != [] {
        assert ls == [[text[0]] + rest[0]] + rest[1..];
        forall k | 1 <= k < |ls| ensures ls[k] == rest[k] { }
        assert LineShaped(rest[0], |rest| == 1);
        forall j | 0 <= j < |ls[0]| - 1 ensures ls[0][j] != '\n' {
          if j > 0 { assert ls[0][j] == rest[0][j - 1]; }
        }
      }
    }
  }
}
