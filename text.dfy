/** The string handling the scripts apply to CSV cells: Python's whitespace
    classes, strip/split/join, `int(s, base)`, hexadecimal and decimal
    formatting, and the `†` escape that keeps line breaks out of CSV cells. */
module Text {

  import opened Wrappers

  // ---------------------------------------------------------------------
  // Whitespace, strip, split, join
  // ---------------------------------------------------------------------

  /** Python's `str.isspace`. */
  predicate IsSpace(c: char)
  {
    var x := c as int;
    || 0x09 <= x <= 0x0D || 0x1C <= x <= 0x20 || x == 0x85 || x == 0xA0
    || x == 0x1680 || 0x2000 <= x <= 0x200A || x == 0x2028 || x == 0x2029
    || x == 0x202F || x == 0x205F || x == 0x3000
  }

  function LStrip(s: string): (r: string)
    ensures |r| <= |s|
  {
    if |s| > 0 && IsSpace(s[0]) then LStrip(s[1..]) else s
  }

  function RStrip(s: string): (r: string)
    ensures |r| <= |s|
  {
    if |s| > 0 && IsSpace(s[|s| - 1]) then RStrip(s[..|s| - 1]) else s
  }

  /** `lstrip` keeps a suffix that does not start with whitespace. */
  lemma {:induction false} LStripSpec(s: string)
    ensures LStrip(s) == s[|s| - |LStrip(s)|..]
    ensures LStrip(s) == [] || !IsSpace(LStrip(s)[0])
  {
    if |s| > 0 && IsSpace(s[0]) {
      LStripSpec(s[1..]);
    }
  }

  /** `rstrip` keeps a prefix that does not end with whitespace. */
  lemma {:induction false} RStripSpec(s: string)
    ensures RStrip(s) == s[..|RStrip(s)|]
    ensures RStrip(s) == [] || !IsSpace(RStrip(s)[|RStrip(s)| - 1])
  {
    if |s| > 0 && IsSpace(s[|s| - 1]) {
      RStripSpec(s[..|s| - 1]);
    }
  }

  /** `s.strip()`. */
  function Strip(s: string): string
  {
    RStrip(LStrip(s))
  }

  /** `s.rstrip(cs)`: drops trailing characters that belong to `cs`. */
  function RStripChars(s: string, cs: set<char>): (r: string)
    ensures |r| <= |s|
  {
    if |s| > 0 && s[|s| - 1] in cs then RStripChars(s[..|s| - 1], cs) else s
  }

  /** What `s.rstrip(cs)` removes is a run of characters of `cs` at the end,
      and what it keeps is a prefix of `s` not ending in one. */
  lemma {:induction false} RStripCharsSpec(s: string, cs: set<char>)
    ensures RStripChars(s, cs) == s[..|RStripChars(s, cs)|]
    ensures RStripChars(s, cs) == [] || RStripChars(s, cs)[|RStripChars(s, cs)| - 1] !in cs
    ensures forall i :: |RStripChars(s, cs)| <= i < |s| ==> s[i] in cs
  {
    if |s| > 0 && s[|s| - 1] in cs {
      RStripCharsSpec(s[..|s| - 1], cs);
    }
  }

  /** `s.split(d)` for a one-character delimiter: always at least one part. */
  function SplitOn(s: string, d: char): (parts: seq<string>)
    ensures |parts| >= 1
    ensures forall k :: 0 <= k < |parts| ==> d !in parts[k]
  {
    if |s| == 0 then [""]
    else
      var rest := SplitOn(s[1..], d);
      if s[0] == d then [""] + rest else [[s[0]] + rest[0]] + rest[1..]
  }

  /** `sep.join(parts)`. */
  function Join(parts: seq<string>, sep: string): string
  {
    if |parts| == 0 then ""
    else if |parts| == 1 then parts[0]
    else parts[0] + sep + Join(parts[1..], sep)
  }

  /** Splitting a string on a character and joining the parts back with
      that character gives the string back. */
  lemma {:induction false} JoinSplitOn(s: string, d: char)
    ensures Join(SplitOn(s, d), [d]) == s
  {
    if |s| > 0 {
      var rest := SplitOn(s[1..], d);
      JoinSplitOn(s[1..], d);
      if s[0] == d {
        assert s == [d] + s[1..];
      } else if |rest| == 1 {
        assert s == [s[0]] + s[1..];
      } else {
        assert Join(rest, [d]) == rest[0] + [d] + Join(rest[1..], [d]);
        assert s == [s[0]] + s[1..];
      }
    }
  }

  /** Splitting a join of delimiter-free parts gives the parts back. */
  lemma {:induction false} SplitOnJoin(parts: seq<string>, d: char)
    requires |parts| >= 1
    requires forall k :: 0 <= k < |parts| ==> d !in parts[k]
    ensures SplitOn(Join(parts, [d]), d) == parts
    decreases |parts|, |parts[0]|
  {
    if |parts| == 1 {
      SplitOnFree(parts[0], d);
    } else if parts[0] == "" {
      SplitOnJoin(parts[1..], d);
      assert Join(parts, [d]) == [d] + Join(parts[1..], [d]);
    } else {
      var tail := [parts[0][1..]] + parts[1..];
      SplitOnJoin(tail, d);
      assert Join(tail, [d]) == parts[0][1..] + [d] + Join(parts[1..], [d]);
      assert Join(parts, [d]) == [parts[0][0]] + Join(tail, [d]);
      assert [parts[0][0]] + parts[0][1..] == parts[0];
    }
  }

  lemma {:induction false} SplitOnFree(s: string, d: char)
    requires d !in s
    ensures SplitOn(s, d) == [s]
  {
    if |s| > 0 {
      SplitOnFree(s[1..], d);
      assert [s[0]] + s[1..] == s;
    }
  }

  /** The longest prefix of `s` without whitespace. */
  function Word(s: string): (w: string)
    ensures |w| <= |s| && w == s[..|w|]
    ensures forall i :: 0 <= i < |w| ==> !IsSpace(w[i])
    ensures |w| < |s| ==> IsSpace(s[|w|])
  {
    if |s| == 0 || IsSpace(s[0]) then "" else [s[0]] + Word(s[1..])
  }

  /** `s.split()`: the maximal runs of non-whitespace characters. */
  function SplitWhitespace(s: string): (words: seq<string>)
    ensures forall k :: 0 <= k < |words| ==> words[k] != ""
    decreases |s|
  {
    if |s| == 0 then []
    else if IsSpace(s[0]) then SplitWhitespace(s[1..])
    else
      var w := Word(s);
      [w] + SplitWhitespace(s[|w|..])
  }

  predicate IsWord(w: string)
  {
    w != "" && forall i :: 0 <= i < |w| ==> !IsSpace(w[i])
  }

  /** Joining words with single spaces and splitting on whitespace gives
      the words back. */
  lemma {:induction false} SplitWhitespaceJoin(words: seq<string>)
    requires forall k :: 0 <= k < |words| ==> IsWord(words[k])
    ensures SplitWhitespace(Join(words, " ")) == words
    decreases |words|
  {
    if |words| == 1 {
      WordOfWord(words[0], "");
      assert words[0] + "" == words[0];
    } else if |words| > 1 {
      var rest := Join(words[1..], " ");
      var s := Join(words, " ");
      assert s == words[0] + (" " + rest);
      WordOfWord(words[0], " " + rest);
      assert s[|words[0]|..] == " " + rest;
      assert (" " + rest)[1..] == rest;
      SplitWhitespaceJoin(words[1..]);
    }
  }

  lemma {:induction false} WordOfWord(w: string, t: string)
    requires IsWord(w)
    requires t == [] || IsSpace(t[0])
    ensures Word(w + t) == w
    decreases |w|
  {
    assert (w + t)[1..] == w[1..] + t;
    if |w| > 1 {
      WordOfWord(w[1..], t);
    } else {
      assert w[1..] + t == t;
    }
  }

  // ---------------------------------------------------------------------
  // Integers: int(s, base), hexadecimal and decimal formatting
  // ---------------------------------------------------------------------

  /** The value of digit `c` in base 10 or 16, if it is one. */
  function DigitValue(c: char, base: nat): (v: int)
    requires base == 10 || base == 16
    ensures -1 <= v < base
  {
    if '0' <= c <= '9' then c as int - '0' as int
    else if base == 16 && 'a' <= c <= 'f' then c as int - 'a' as int + 10
    else if base == 16 && 'A' <= c <= 'F' then c as int - 'A' as int + 10
    else -1
  }

  predicate AllDigits(ds: string, base: nat)
    requires base == 10 || base == 16
  {
    forall i :: 0 <= i < |ds| ==> DigitValue(ds[i], base) >= 0
  }

  /** The value of a digit string, most significant digit first. */
  function DigitsValue(ds: string, base: nat): (v: nat)
    requires base == 10 || base == 16
    requires AllDigits(ds, base)
  {
    if |ds| == 0 then 0
    else base * DigitsValue(ds[..|ds| - 1], base) + DigitValue(ds[|ds| - 1], base)
  }

  /** `int(s, base)` for base 10 or 16: surrounding whitespace, an optional
      sign, for base 16 an optional `0x`/`0X` prefix, then one or more
      ASCII digits. `None` stands for the ValueError Python raises on
      anything else this grammar rejects; Python also accepts single
      underscores between digits and non-ASCII decimal digits, which this
      grammar does not. */
  function ParseInt(s: string, base: nat): (r: Option<int>)
    requires base == 10 || base == 16
  {
    ParseSigned(Strip(s), base)
  }

  /** A stripped integer literal: optional sign, then the magnitude. */
  function ParseSigned(t: string, base: nat): (r: Option<int>)
    requires base == 10 || base == 16
  {
    if |t| > 0 && t[0] == '-' then
      match ParseMagnitude(t[1..], base)
      case None => None
      case Some(m) => Some(-m)
    else if |t| > 0 && t[0] == '+' then ParseMagnitude(t[1..], base)
    else ParseMagnitude(t, base)
  }

  /** An unsigned digit string, after the optional base-16 prefix. */
  function ParseMagnitude(u: string, base: nat): (r: Option<int>)
    requires base == 10 || base == 16
  {
    var ds := if base == 16 && |u| >= 2 && u[0] == '0' && (u[1] == 'x' || u[1] == 'X')
              then u[2..] else u;
    if |ds| == 0 || !AllDigits(ds, base) then None else Some(DigitsValue(ds, base))
  }

  function DigitChar(d: nat): (c: char)
    requires d < 16
    ensures DigitValue(c, 16) == d
    ensures d < 10 ==> DigitValue(c, 10) == d
  {
    if d < 10 then (d + '0' as int) as char else (d - 10 + 'A' as int) as char
  }

  /** The digits of `v` in `base`, upper-case, without leading zeros
      (`format(v, 'X')`, `str(v)`). */
  function Digits(v: nat, base: nat): (ds: string)
    requires base == 10 || base == 16
    ensures |ds| >= 1 && AllDigits(ds, base)
    ensures DigitsValue(ds, base) == v
  {
    if v < base then [DigitChar(v)]
    else
      var ds := Digits(v / base, base) + [DigitChar(v % base)];
      assert ds[..|ds| - 1] == Digits(v / base, base);
      ds
  }

  function Zeros(n: nat): (z: string)
    ensures |z| == n && forall i :: 0 <= i < n ==> z[i] == '0'
  {
    if n == 0 then "" else "0" + Zeros(n - 1)
  }

  /** Leading zeros do not change the value of a digit string. */
  lemma {:induction false} LeadingZeros(n: nat, ds: string, base: nat)
    requires base == 10 || base == 16
    requires AllDigits(ds, base)
    ensures AllDigits(Zeros(n) + ds, base)
    ensures DigitsValue(Zeros(n) + ds, base) == DigitsValue(ds, base)
    decreases |ds|
  {
    var z := Zeros(n) + ds;
    assert AllDigits(z, base) by {
      forall i | 0 <= i < |z| ensures DigitValue(z[i], base) >= 0 {
        if i >= n { assert z[i] == ds[i - n]; }
      }
    }
    if |ds| == 0 {
      assert z == Zeros(n);
      ZerosValue(n, base);
    } else {
      assert z[..|z| - 1] == Zeros(n) + ds[..|ds| - 1];
      LeadingZeros(n, ds[..|ds| - 1], base);
    }
  }

  lemma {:induction false} ZerosValue(n: nat, base: nat)
    requires base == 10 || base == 16
    ensures AllDigits(Zeros(n), base) && DigitsValue(Zeros(n), base) == 0
  {
    if n > 0 {
      ZerosValue(n - 1, base);
      assert Zeros(n)[..n - 1] == Zeros(n - 1);
    }
  }

  /** Python's `format(v, '0<width>X')` (and `'0<width>d'` in base 10):
      at least `width` characters, a minus sign before the zero padding. */
  function FormatPadded(v: int, width: nat, base: nat): (s: string)
    requires base == 10 || base == 16
  {
    if v < 0 then
      var ds := Digits(-v, base);
      "-" + (if |ds| + 1 < width then Zeros(width - 1 - |ds|) else "") + ds
    else
      var ds := Digits(v, base);
      (if |ds| < width then Zeros(width - |ds|) else "") + ds
  }

  /** A zero-padded hexadecimal field parses back to its value, with or
      without a `0x` prefix (`int('%08X' % v, 16) == v`, `int('0x%06X' % v, 16) == v`). */
  lemma ParseFormatHex(v: nat, width: nat)
    ensures ParseInt(FormatPadded(v, width, 16), 16) == Some(v)
    ensures ParseInt("0x" + FormatPadded(v, width, 16), 16) == Some(v)
  {
    var f := FormatPadded(v, width, 16);
    PaddedDigits(v, width, 16);
    ParseDigitString(f, v, 16);
    ParsePrefixed(f, v);
  }

  /** `0x` followed by a plain hexadecimal digit string parses to its value. */
  lemma ParsePrefixed(f: string, v: nat)
    requires PlainNumeral(f, 16, v)
    ensures ParseInt("0x" + f, 16) == Some(v)
  {
    var g := "0x" + f;
    assert g[2..] == f;
    assert forall i :: 0 <= i < |g| ==> !IsSpace(g[i]) by {
      forall i | 0 <= i < |g| ensures !IsSpace(g[i]) {
        if i >= 2 { assert g[i] == f[i - 2]; }
      }
    }
    assert ParseMagnitude(g, 16) == Some(v);
    ParseUnsigned(g, v, 16);
  }

  /** A minus sign followed by a plain digit string parses to the negated value. */
  lemma ParseNegated(m: string, v: nat, base: nat)
    requires base == 10 || base == 16
    requires PlainNumeral(m, base, v)
    ensures ParseInt("-" + m, base) == Some(-(v as int))
  {
    var f := "-" + m;
    assert f[1..] == m;
    assert forall i :: 0 <= i < |f| ==> !IsSpace(f[i]) by {
      forall i | 0 <= i < |f| ensures !IsSpace(f[i]) {
        if i >= 1 { assert f[i] == m[i - 1]; }
      }
    }
    StripNoSpace(f);
    assert ParseMagnitude(m, base) == Some(v);
  }

  /** A plain digit string (no sign, no `x`) parses to its value. */
  lemma ParseDigitString(f: string, v: nat, base: nat)
    requires base == 10 || base == 16
    requires PlainNumeral(f, base, v)
    ensures ParseMagnitude(f, base) == Some(v)
    ensures ParseInt(f, base) == Some(v)
  {
    assert ParseMagnitude(f, base) == Some(v);
    ParseUnsigned(f, v, base);
  }

  /** Without whitespace or a leading sign, parsing is parsing the magnitude. */
  lemma ParseUnsigned(f: string, v: nat, base: nat)
    requires base == 10 || base == 16
    requires ParseMagnitude(f, base) == Some(v)
    requires forall i :: 0 <= i < |f| ==> !IsSpace(f[i])
    requires |f| > 0 && f[0] != '-' && f[0] != '+'
    ensures ParseInt(f, base) == Some(v)
  {
    StripNoSpace(f);
  }

  /** A digit string of value `v` with no whitespace, no `x` and no sign. */
  predicate PlainNumeral(f: string, base: nat, v: nat)
    requires base == 10 || base == 16
  {
    && |f| >= 1 && AllDigits(f, base) && DigitsValue(f, base) == v
    && (forall i :: 0 <= i < |f| ==> !IsSpace(f[i]) && f[i] != 'x' && f[i] != 'X' && f[i] != '-' && f[i] != '+')
  }

  /** A non-negative padded rendering is a digit string of value `v`. */
  lemma PaddedDigits(v: nat, width: nat, base: nat)
    requires base == 10 || base == 16
    ensures PlainNumeral(FormatPadded(v, width, base), base, v)
  {
    var ds := Digits(v, base);
    var z := if |ds| < width then Zeros(width - |ds|) else "";
    var f := z + ds;
    assert FormatPadded(v, width, base) == f;
    assert z == Zeros(|z|);
    LeadingZeros(|z|, ds, base);
    DigitsArePlain(f, base);
  }

  /** Every character of a digit string is plain. */
  lemma DigitsArePlain(f: string, base: nat)
    requires base == 10 || base == 16
    requires AllDigits(f, base)
    ensures forall i :: 0 <= i < |f| ==> !IsSpace(f[i]) && f[i] != 'x' && f[i] != 'X' && f[i] != '-' && f[i] != '+'
  {
    forall i | 0 <= i < |f| ensures !IsSpace(f[i]) && f[i] != 'x' && f[i] != 'X' && f[i] != '-' && f[i] != '+' {
      DigitIsPlain(f[i], base);
    }
  }

  /** A digit is neither whitespace, nor `x`, nor a sign. */
  lemma DigitIsPlain(c: char, base: nat)
    requires base == 10 || base == 16
    requires DigitValue(c, base) >= 0
    ensures !IsSpace(c) && c != 'x' && c != 'X' && c != '-' && c != '+'
  {
  }

  /** A decimal rendering of any integer parses back to it (`int(str(v)) == v`). */
  lemma ParseFormatDecimal(v: int)
    ensures ParseInt(FormatPadded(v, 0, 10), 10) == Some(v)
  {
    if v < 0 {
      ParseFormatNegative(v);
    } else {
      PaddedDigits(v, 0, 10);
      ParseDigitString(FormatPadded(v, 0, 10), v, 10);
    }
  }

  /** Without padding, a negative value renders as a minus sign before its magnitude. */
  lemma UnpaddedNegative(v: int, base: nat)
    requires base == 10 || base == 16
    requires v < 0
    ensures FormatPadded(v, 0, base) == "-" + FormatPadded(-v, 0, base)
  {
    var ds := Digits(-v, base);
    assert FormatPadded(-v, 0, base) == ds;
  }

  /** An unpadded negative decimal parses back to its value (`int(str(v)) == v`). */
  lemma ParseFormatNegative(v: int)
    requires v < 0
    ensures ParseInt(FormatPadded(v, 0, 10), 10) == Some(v)
  {
    UnpaddedNegative(v, 10);
    PaddedDigits(-v, 0, 10);
    ParseNegated(FormatPadded(-v, 0, 10), -v, 10);
  }

  /** A string that neither starts nor ends with whitespace is its own strip. */
  lemma StripTrimmed(s: string)
    requires s == [] || (!IsSpace(s[0]) && !IsSpace(s[|s| - 1]))
    ensures Strip(s) == s
  {
  }

  /** Stripping twice is stripping once. */
  lemma StripIdempotent(s: string)
    ensures Strip(Strip(s)) == Strip(s)
  {
    var x := LStrip(s);
    var y := RStrip(x);
    LStripSpec(s);
    RStripSpec(x);
    if y != [] {
      assert y[0] == x[0];
    }
    StripTrimmed(y);
  }

  /** `int(s.strip(), base) == int(s, base)`: `int` strips on its own. */
  lemma ParseIntStrip(s: string, base: nat)
    requires base == 10 || base == 16
    ensures ParseInt(Strip(s), base) == ParseInt(s, base)
  {
    StripIdempotent(s);
  }

  /** A string without whitespace is its own strip. */
  lemma StripNoSpace(s: string)
    requires forall i :: 0 <= i < |s| ==> !IsSpace(s[i])
    ensures Strip(s) == s
  {
  }

  // ---------------------------------------------------------------------
  // Case and the line-break escape
  // ---------------------------------------------------------------------

  function LowerAscii(c: char): char
  {
    if 'A' <= c <= 'Z' then (c as int + 32) as char else c
  }

  /** `a.lower() == b` for a lower-case ASCII `b` (no other character
      lower-cases to an ASCII letter that `b` could contain). */
  predicate EqualsIgnoringCase(a: string, b: string)
  {
    |a| == |b| && forall i :: 0 <= i < |a| ==> LowerAscii(a[i]) == b[i]
  }

  /** The dagger, U+2020, that stands for a line break in CSV cells. */
  const NEWLINE_MARK: char := '\U{2020}'

  /** `escape_newlines`: every line break becomes `†` in the CSV cell. */
  function EscapeNewlines(t: string): (r: string)
    ensures |r| == |t|
    ensures forall i :: 0 <= i < |t| ==> r[i] == if t[i] == '\n' then NEWLINE_MARK else t[i]
  {
    seq(|t|, i requires 0 <= i < |t| => if t[i] == '\n' then NEWLINE_MARK else t[i])
  }

  /** `text.replace('†', '\n')`, applied by every injector before encoding. */
  function UnescapeNewlines(t: string): (r: string)
    ensures |r| == |t|
    ensures forall i :: 0 <= i < |t| ==> r[i] == if t[i] == NEWLINE_MARK then '\n' else t[i]
  {
    seq(|t|, i requires 0 <= i < |t| => if t[i] == NEWLINE_MARK then '\n' else t[i])
  }

  /** The escape is undone by the injectors exactly when the original text
      held no `†` of its own. */
  lemma UnescapeEscape(t: string)
    ensures UnescapeNewlines(EscapeNewlines(t)) == t <==> NEWLINE_MARK !in t
  {
    if NEWLINE_MARK in t {
      var i :| 0 <= i < |t| && t[i] == NEWLINE_MARK;
      assert UnescapeNewlines(EscapeNewlines(t))[i] == '\n';
    }
  }
}
