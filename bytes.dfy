/** Byte buffers as the patch scripts see them: Python `bytes`/`bytearray`
    values, 32-bit little-endian fields, slicing with Python's index rules,
    and the search, count and replace operations of `bytes`. */
module Bytes {

  type byte = b: int | 0 <= b < 256

  /** One past the largest value a 4-byte unsigned field can hold. */
  const U32_LIMIT: int := 0x1_0000_0000

  // ---------------------------------------------------------------------
  // 32-bit little-endian fields (struct.pack('<I', v), v.to_bytes(4, 'little'))
  // ---------------------------------------------------------------------

  predicate IsU32(v: int) { 0 <= v < U32_LIMIT }

  /** The four bytes of `v`, least significant first. */
  function Le32(v: int): (r: seq<byte>)
    requires IsU32(v)
    ensures |r| == 4
  {
    [v % 256, (v / 256) % 256, (v / 65536) % 256, v / 16777216]
  }

  /** The value of the 4-byte little-endian field at `off`. */
  function ReadLe32(s: seq<byte>, off: int): (v: int)
    requires 0 <= off && off + 4 <= |s|
  {
    (s[off] as int) + 256 * (s[off + 1] as int) + 65536 * (s[off + 2] as int)
      + 16777216 * (s[off + 3] as int)
  }

  /** Reading back a packed field gives the packed value. */
  lemma ReadLe32OfLe32(v: int)
    requires IsU32(v)
    ensures ReadLe32(Le32(v), 0) == v
  {
    var a, b, c, d := v % 256, (v / 256) % 256, (v / 65536) % 256, v / 16777216;
    assert v == a + 256 * (v / 256);
    assert v / 256 == b + 256 * (v / 65536);
    assert v / 65536 == c + 256 * d;
  }

  /** `s` with the 4 bytes at `off` replaced by `v` packed little-endian
      (`data[off:off+4] = v.to_bytes(4, 'little')` on an in-range slot). */
  function WriteLe32(s: seq<byte>, off: int, v: int): (r: seq<byte>)
    requires 0 <= off && off + 4 <= |s|
    requires IsU32(v)
    ensures |r| == |s|
    ensures r[off..off + 4] == Le32(v)
    ensures forall i :: 0 <= i < |s| && !(off <= i < off + 4) ==> r[i] == s[i]
  {
    s[..off] + Le32(v) + s[off + 4..]
  }

  /** Writing the same slot twice with the same value is writing it once. */
  lemma WriteLe32Idempotent(s: seq<byte>, off: int, v: int)
    requires 0 <= off && off + 4 <= |s|
    requires IsU32(v)
    ensures WriteLe32(WriteLe32(s, off, v), off, v) == WriteLe32(s, off, v)
  {
  }

  // ---------------------------------------------------------------------
  // Python slice semantics
  // ---------------------------------------------------------------------

  /** `min(a, b)`. */
  function Min(a: int, b: int): int
  {
    if a < b then a else b
  }

  /** How Python normalises a slice bound `i` for a sequence of length `n`:
      negative bounds count from the end, and every bound is clamped to [0, n]. */
  function PyIndex(i: int, n: nat): (r: nat)
    ensures r <= n
    ensures 0 <= i <= n ==> r == i
    ensures i > n ==> r == n
    ensures i < 0 ==> r == if n + i < 0 then 0 else n + i
  {
    if i < 0 then (if n + i < 0 then 0 else n + i) else if i > n then n else i
  }

  /** `s[i:j]`. */
  function PySlice<T>(s: seq<T>, i: int, j: int): (r: seq<T>)
    ensures |r| <= |s|
    ensures 0 <= i <= j <= |s| ==> r == s[i..j]
  {
    var lo := PyIndex(i, |s|);
    var hi := PyIndex(j, |s|);
    if hi <= lo then [] else s[lo..hi]
  }

  /** `s[i:j] = v`: the normalised range is replaced by `v`; an empty or
      inverted range becomes an insertion at its lower bound. */
  function PySliceAssign<T>(s: seq<T>, i: int, j: int, v: seq<T>): (r: seq<T>)
    ensures 0 <= i <= j <= |s| ==> r == s[..i] + v + s[j..]
  {
    var lo := PyIndex(i, |s|);
    var hi := PyIndex(j, |s|);
    s[..lo] + v + s[(if hi < lo then lo else hi)..]
  }

  /** `s[at:at + len(v)] = v` with the window inside `s`: the bytes of `v`
      replace as many bytes of `s`, and nothing else changes. */
  function Overwrite<T>(s: seq<T>, at: nat, v: seq<T>): (r: seq<T>)
    requires at + |v| <= |s|
    ensures |r| == |s|
  {
    s[..at] + v + s[at + |v|..]
  }

  /** Byte by byte: inside the window the bytes of `v`, outside it the
      bytes of `s`. */
  lemma OverwriteAt<T>(s: seq<T>, at: nat, v: seq<T>)
    requires at + |v| <= |s|
    ensures forall j :: 0 <= j < |s| ==> Overwrite(s, at, v)[j] == if at <= j < at + |v| then v[j - at] else s[j]
  {
  }

  /** The same slice assignment on a `bytearray`, in place. */
  method WriteSlice(buf: array<byte>, from: nat, bytes: seq<byte>)
    requires from + |bytes| <= buf.Length
    modifies buf
    ensures buf[..] == Overwrite(old(buf[..]), from, bytes)
  {
    for k := 0 to |bytes|
      invariant forall j :: 0 <= j < buf.Length ==> buf[j] == if from <= j < from + k then bytes[j - from] else old(buf[j])
    {
      buf[from + k] := bytes[k];
    }
    assert buf[..] == old(buf[..])[..from] + bytes + old(buf[..])[from + |bytes|..];
  }

  /** `s[i:]`. */
  function PySliceFrom<T>(s: seq<T>, i: int): (r: seq<T>)
    ensures r == PySlice(s, i, |s|)
    ensures 0 <= i <= |s| ==> r == s[i..]
  {
    s[PyIndex(i, |s|)..]
  }

  // ---------------------------------------------------------------------
  // Searching (bytes.find with a non-negative start)
  // ---------------------------------------------------------------------

  /** `p` occurs in `s` at offset `i`. */
  predicate OccursAt<T(==)>(s: seq<T>, p: seq<T>, i: int)
  {
    0 <= i && i + |p| <= |s| && s[i..i + |p|] == p
  }

  /** `s.find(p, start)`: the smallest occurrence at or after `start`, or -1. */
  function FindFrom<T(==)>(s: seq<T>, p: seq<T>, start: nat): (r: int)
    ensures r == -1 || (start <= r && OccursAt(s, p, r))
    ensures r == -1 ==> forall i :: start <= i ==> !OccursAt(s, p, i)
    ensures r != -1 ==> forall i :: start <= i < r ==> !OccursAt(s, p, i)
    decreases |s| - start
  {
    if start + |p| > |s| then -1
    else if s[start..start + |p|] == p then start
    else FindFrom(s, p, start + 1)
  }

  // ---------------------------------------------------------------------
  // Counting and replacing (bytes.count, bytes.replace)
  // ---------------------------------------------------------------------

  /** `s.count(p)`: occurrences found scanning left to right without
      overlap; for an empty `p`, Python counts every position, |s| + 1. */
  function CountOf<T(==)>(s: seq<T>, p: seq<T>): nat
    decreases |s|
  {
    if |p| == 0 then |s| + 1
    else if |s| < |p| then 0
    else if s[..|p|] == p then 1 + CountOf(s[|p|..], p)
    else CountOf(s[1..], p)
  }

  /** `r` between all elements of `s` and at both ends (`s.replace(b'', r)`). */
  function Interleave<T>(s: seq<T>, r: seq<T>): seq<T>
  {
    if s == [] then r else r + [s[0]] + Interleave(s[1..], r)
  }

  /** `s.replace(p, r)`: every occurrence found by the same left-to-right,
      non-overlapping scan as CountOf is replaced by `r`. */
  function ReplaceAll<T(==)>(s: seq<T>, p: seq<T>, r: seq<T>): seq<T>
    decreases |s|
  {
    if |p| == 0 then Interleave(s, r)
    else if |s| < |p| then s
    else if s[..|p|] == p then r + ReplaceAll(s[|p|..], p, r)
    else [s[0]] + ReplaceAll(s[1..], p, r)
  }

  /** A non-empty pattern is counted zero times exactly when it occurs nowhere. */
  lemma {:induction false} CountZeroIffAbsent<T>(s: seq<T>, p: seq<T>)
    requires |p| > 0
    ensures CountOf(s, p) == 0 <==> FindFrom(s, p, 0) == -1
    decreases |s|
  {
    if |s| < |p| {
    } else if s[..|p|] == p {
      assert OccursAt(s, p, 0);
    } else {
      CountZeroIffAbsent(s[1..], p);
      if CountOf(s, p) == 0 {
        forall i | 0 <= i ensures !OccursAt(s, p, i) {
          if i > 0 && OccursAt(s, p, i) {
            assert s[1..][i - 1..i - 1 + |p|] == s[i..i + |p|];
            assert OccursAt(s[1..], p, i - 1);
          }
        }
      } else {
        var j := FindFrom(s[1..], p, 0);
        assert s[j + 1..j + 1 + |p|] == s[1..][j..j + |p|];
        assert OccursAt(s, p, j + 1);
      }
    }
  }

  /** Replacing a pattern that is counted zero times changes nothing. */
  lemma {:induction false} ReplaceAbsent<T>(s: seq<T>, p: seq<T>, r: seq<T>)
    requires |p| > 0 && CountOf(s, p) == 0
    ensures ReplaceAll(s, p, r) == s
    decreases |s|
  {
    if |s| >= |p| {
      ReplaceAbsent(s[1..], p, r);
    }
  }

  /** Each counted occurrence changes the length by |r| - |p|. */
  lemma {:induction false} ReplaceLength<T>(s: seq<T>, p: seq<T>, r: seq<T>)
    requires |p| > 0
    ensures |ReplaceAll(s, p, r)| == |s| + CountOf(s, p) * (|r| - |p|)
    decreases |s|
  {
    if |s| < |p| {
    } else if s[..|p|] == p {
      ReplaceLength(s[|p|..], p, r);
      MulSucc(CountOf(s[|p|..], p), |r| - |p|);
    } else {
      ReplaceLength(s[1..], p, r);
    }
  }

  lemma MulSucc(n: int, d: int)
    ensures (1 + n) * d == d + n * d
  {
  }

  /** Replacing a pattern by itself leaves the sequence as it was. */
  lemma {:induction false} ReplaceBySelf<T>(s: seq<T>, p: seq<T>)
    requires |p| > 0
    ensures ReplaceAll(s, p, p) == s
    decreases |s|
  {
    if |s| < |p| {
    } else if s[..|p|] == p {
      ReplaceBySelf(s[|p|..], p);
      assert s == s[..|p|] + s[|p|..];
    } else {
      ReplaceBySelf(s[1..], p);
      assert s == [s[0]] + s[1..];
    }
  }
}
