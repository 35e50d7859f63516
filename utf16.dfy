/** UTF-16LE as the scripts use it (`str.encode('utf-16le')`,
    `bytes.decode('utf-16le', errors='ignore')`): two bytes per code unit,
    least significant byte first, characters above U+FFFF as a surrogate
    pair (section 2.1 of RFC 2781). */
module Utf16 {

  import opened Bytes

  predicate IsHighSurrogate(u: int) { 0xD800 <= u < 0xDC00 }
  predicate IsLowSurrogate(u: int) { 0xDC00 <= u < 0xE000 }
  predicate IsUnit(u: int) { 0 <= u < 0x10000 }

  /** The code units of one character. */
  function CharUnits(c: char): (u: seq<int>)
    ensures |u| == 1 || |u| == 2
    ensures forall k :: 0 <= k < |u| ==> IsUnit(u[k])
  {
    var x := c as int;
    if x < 0x10000 then [x]
    else
      var y := x - 0x10000;
      [0xD800 + y / 0x400, 0xDC00 + y % 0x400]
  }

  /** The code units of a text. */
  function TextUnits(t: string): (u: seq<int>)
    ensures forall k :: 0 <= k < |u| ==> IsUnit(u[k])
  {
    if t == "" then [] else CharUnits(t[0]) + TextUnits(t[1..])
  }

  /** Each code unit as two little-endian bytes. */
  function UnitBytes(u: seq<int>): (b: seq<byte>)
    requires forall k :: 0 <= k < |u| ==> IsUnit(u[k])
    ensures |b| == 2 * |u|
    ensures forall k :: 0 <= k < |u| ==> b[2 * k] == u[k] % 256 && b[2 * k + 1] == u[k] / 256
  {
    if u == [] then []
    else
      assert IsUnit(u[0]);
      var lo: byte, hi: byte := u[0] % 256, u[0] / 256;
      var r := [lo, hi] + UnitBytes(u[1..]);
      assert forall k :: 1 <= k < |u| ==> r[2 * k] == UnitBytes(u[1..])[2 * (k - 1)];
      r
  }

  /** `t.encode('utf-16le')`. Every Dafny `char` is a Unicode scalar value,
      so the encoding never fails. */
  function Encode(t: string): (b: seq<byte>)
    ensures |b| % 2 == 0
    ensures |b| >= 2 * |t|
  {
    TextUnitsLength(t);
    UnitBytes(TextUnits(t))
  }

  lemma {:induction false} TextUnitsLength(t: string)
    ensures |TextUnits(t)| >= |t|
  {
    if t != "" { TextUnitsLength(t[1..]); }
  }

  /** The code units read from a byte string, pairing bytes from the
      start; an odd trailing byte is dropped. */
  function Units(b: seq<byte>): (u: seq<int>)
    ensures |u| == |b| / 2
    ensures forall k :: 0 <= k < |u| ==> IsUnit(u[k])
  {
    if |b| < 2 then [] else [(b[0] as int) + 256 * (b[1] as int)] + Units(b[2..])
  }

  /** Decoding code units, dropping every unit that is not part of a
      well-formed surrogate pair (`errors='ignore'`). */
  function DecodeUnits(u: seq<int>): string
    requires forall k :: 0 <= k < |u| ==> IsUnit(u[k])
  {
    if u == [] then ""
    else if IsHighSurrogate(u[0]) && |u| >= 2 && IsLowSurrogate(u[1]) then
      [(0x10000 + (u[0] - 0xD800) * 0x400 + (u[1] - 0xDC00)) as char] + DecodeUnits(u[2..])
    else if IsHighSurrogate(u[0]) || IsLowSurrogate(u[0]) then DecodeUnits(u[1..])
    else
      assert IsUnit(u[0]);
      [u[0] as char] + DecodeUnits(u[1..])
  }

  /** `b.decode('utf-16le', errors='ignore')`. */
  function Decode(b: seq<byte>): string
  {
    DecodeUnits(Units(b))
  }

  /** Pairing the bytes of encoded units gives the units back. */
  lemma {:induction false} UnitsOfUnitBytes(u: seq<int>)
    requires forall k :: 0 <= k < |u| ==> IsUnit(u[k])
    ensures Units(UnitBytes(u)) == u
  {
    if u != [] {
      var b := UnitBytes(u);
      assert b[2..] == UnitBytes(u[1..]);
      UnitsOfUnitBytes(u[1..]);
    }
  }

  /** The two units of a character above U+FFFF are a high and a low
      surrogate that recombine to the character. */
  lemma SurrogatePair(x: int, hi: int, lo: int)
    requires 0x10000 <= x < 0x110000
    requires hi == 0xD800 + (x - 0x10000) / 0x400 && lo == 0xDC00 + (x - 0x10000) % 0x400
    ensures IsHighSurrogate(hi) && IsLowSurrogate(lo)
    ensures 0x10000 + (hi - 0xD800) * 0x400 + (lo - 0xDC00) == x
  {
    var y := x - 0x10000;
    assert y == (y / 0x400) * 0x400 + y % 0x400;
  }

  /** Decoding a surrogate pair followed by anything. */
  lemma DecodePair(u: seq<int>)
    requires forall k :: 0 <= k < |u| ==> IsUnit(u[k])
    requires |u| >= 2 && IsHighSurrogate(u[0]) && IsLowSurrogate(u[1])
    ensures DecodeUnits(u) == [(0x10000 + (u[0] - 0xD800) * 0x400 + (u[1] - 0xDC00)) as char] + DecodeUnits(u[2..])
  {
  }

  /** Decoding a unit that is not a surrogate followed by anything. */
  lemma DecodeSingle(u: seq<int>)
    requires forall k :: 0 <= k < |u| ==> IsUnit(u[k])
    requires |u| >= 1 && !IsHighSurrogate(u[0]) && !IsLowSurrogate(u[0])
    ensures DecodeUnits(u) == [u[0] as char] + DecodeUnits(u[1..])
  {
  }

  /** Decoding the units of one character followed by anything yields that
      character followed by the decoding of the rest. */
  lemma DecodeCharUnits(c: char, rest: seq<int>)
    requires forall k :: 0 <= k < |rest| ==> IsUnit(rest[k])
    ensures DecodeUnits(CharUnits(c) + rest) == [c] + DecodeUnits(rest)
  {
    var x := c as int;
    var u := CharUnits(c) + rest;
    if x >= 0x10000 {
      SurrogatePair(x, u[0], u[1]);
      DecodePair(u);
      assert (0x10000 + (u[0] - 0xD800) * 0x400 + (u[1] - 0xDC00)) as char == c;
      assert u[2..] == rest;
    } else {
      DecodeSingle(u);
      assert u[0] as char == c;
      assert u[1..] == rest;
    }
  }

  /** Decoding what was encoded gives the text back (the codec round trip
      of `decode_utf16le(encode_utf16le(t))`). */
  lemma {:induction false} DecodeEncode(t: string)
    ensures Decode(Encode(t)) == t
  {
    UnitsOfUnitBytes(TextUnits(t));
    DecodeTextUnits(t);
  }

  lemma {:induction false} DecodeTextUnits(t: string)
    ensures DecodeUnits(TextUnits(t)) == t
  {
    if t != "" {
      DecodeTextUnits(t[1..]);
      DecodeCharUnits(t[0], TextUnits(t[1..]));
      assert [t[0]] + t[1..] == t;
    }
  }

  /** Encoding a concatenation encodes the parts one after the other. */
  lemma {:induction false} EncodeAppend(a: string, b: string)
    ensures Encode(a + b) == Encode(a) + Encode(b)
  {
    TextUnitsAppend(a, b);
    UnitBytesAppend(TextUnits(a), TextUnits(b));
  }

  lemma {:induction false} TextUnitsAppend(a: string, b: string)
    ensures TextUnits(a + b) == TextUnits(a) + TextUnits(b)
  {
    if a != "" {
      assert (a + b)[1..] == a[1..] + b;
      TextUnitsAppend(a[1..], b);
    } else {
      assert a + b == b;
    }
  }

  lemma {:induction false} UnitBytesAppend(u: seq<int>, v: seq<int>)
    requires forall k :: 0 <= k < |u| ==> IsUnit(u[k])
    requires forall k :: 0 <= k < |v| ==> IsUnit(v[k])
    ensures UnitBytes(u + v) == UnitBytes(u) + UnitBytes(v)
  {
    if u != [] {
      assert (u + v)[1..] == u[1..] + v;
      UnitBytesAppend(u[1..], v);
    } else {
      assert u + v == v;
    }
  }

  /** The UTF-16LE space unit `20 00` used as padding. */
  const SPACE: seq<byte> := [0x20, 0x00]

  /** `b * n` for a byte string `b`. */
  function Repeat(b: seq<byte>, n: nat): (r: seq<byte>)
    ensures |r| == |b| * n
  {
    if n == 0 then [] else b + Repeat(b, n - 1)
  }

  /** Every unit of a repeated two-byte pattern is that pattern. */
  lemma {:induction false} RepeatUnits(b: seq<byte>, n: nat)
    requires |b| == 2
    ensures forall k :: 0 <= k < n ==> Repeat(b, n)[2 * k] == b[0] && Repeat(b, n)[2 * k + 1] == b[1]
  {
    if n > 0 {
      RepeatUnits(b, n - 1);
      var r := Repeat(b, n);
      assert r == b + Repeat(b, n - 1);
      forall k | 1 <= k < n ensures r[2 * k] == b[0] && r[2 * k + 1] == b[1] {
        assert r[2 * k] == Repeat(b, n - 1)[2 * (k - 1)];
        assert r[2 * k + 1] == Repeat(b, n - 1)[2 * (k - 1) + 1];
      }
    }
  }

  /** The pad-or-truncate rule every in-place patcher applies to an encoded
      replacement `b` for a slot of `n` bytes: longer is cut to `n` bytes,
      shorter is followed by `(n - |b|) // 2` space units. */
  function FitToLength(b: seq<byte>, n: nat): (r: seq<byte>)
    ensures |b| >= n ==> r == b[..n]
    ensures |b| < n ==> |r| == |b| + 2 * ((n - |b|) / 2) && r[..|b|] == b
    ensures |b| < n ==> forall k :: 0 <= k < (n - |b|) / 2 ==> r[|b| + 2 * k] == 0x20 && r[|b| + 2 * k + 1] == 0x00
    ensures |b| % 2 == n % 2 ==> |r| == n
  {
    if |b| > n then b[..n]
    else if |b| < n then
      var pad := Repeat(SPACE, (n - |b|) / 2);
      RepeatUnits(SPACE, (n - |b|) / 2);
      b + pad
    else b
  }
}
