/** safe_replacement_test.py: in-place replacement of UTF-16LE strings.
    Each test replacement looks for the first occurrence of its Japanese
    text, and overwrites exactly that many bytes with the English text
    padded with space units or truncated; nothing moves, so no pointer
    needs updating and the image keeps its length. */
module SafeReplacement {

  import opened Wrappers
  import opened Bytes
  import Utf16

  /** `find_utf16_string`: the smallest offset at which the UTF-16LE
      encoding of `text` occurs (`None` when it occurs nowhere). */
  function FindString(data: seq<byte>, text: string): (r: Option<nat>)
    ensures r.Some? ==> OccursAt(data, Utf16.Encode(text), r.value)
    ensures r.Some? ==> forall i :: 0 <= i < r.value ==> !OccursAt(data, Utf16.Encode(text), i)
    ensures r.None? ==> forall i :: 0 <= i ==> !OccursAt(data, Utf16.Encode(text), i)
  {
    var off := FindFrom(data, Utf16.Encode(text), 0);
    if off == -1 then None else Some(off)
  }

  /** `replace_utf16_string`: the English encoding brought to the byte
      length of the Japanese encoding. A shorter encoding is followed by
      space units, a longer one is cut to its prefix, and one of the same
      length is returned as it is. */
  function ReplaceString(original: string, newText: string): (r: seq<byte>)
    ensures |r| == |Utf16.Encode(original)|
    ensures var o, n := Utf16.Encode(original), Utf16.Encode(newText);
      && (|n| < |o| ==> r == n + Utf16.Repeat(Utf16.SPACE, (|o| - |n|) / 2))
      && (|n| > |o| ==> r == n[..|o|])
      && (|n| == |o| ==> r == n)
  {
    Utf16.FitToLength(Utf16.Encode(newText), |Utf16.Encode(original)|)
  }

  /** One entry of the replacement list. */
  datatype Replacement = Replacement(search: string, replace: string)

  /** The image and the number of replacements made so far. */
  datatype Outcome = Outcome(data: seq<byte>, made: nat)

  /** One iteration of the loop in `main`: when the Japanese text is found,
      its bytes are overwritten and the counter increases. */
  function Apply(acc: Outcome, rep: Replacement): (r: Outcome)
    ensures |r.data| == |acc.data|
  {
    match FindString(acc.data, rep.search)
    case None => acc
    case Some(off) =>
      var n := |Utf16.Encode(rep.search)|;
      Outcome(PySliceAssign(acc.data, off, off + n, ReplaceString(rep.search, rep.replace)), acc.made + 1)
  }

  /** A found text's bytes are replaced, and nothing outside them changes;
      a missing text changes nothing. */
  lemma ApplySpec(acc: Outcome, rep: Replacement)
    ensures FindString(acc.data, rep.search).None? ==> Apply(acc, rep) == acc
    ensures FindString(acc.data, rep.search).Some? ==>
      var off, n := FindString(acc.data, rep.search).value, |Utf16.Encode(rep.search)|;
      && Apply(acc, rep).made == acc.made + 1
      && off + n <= |acc.data|
      && Apply(acc, rep).data[off..off + n] == ReplaceString(rep.search, rep.replace)
      && (forall j :: 0 <= j < |acc.data| && !(off <= j < off + n) ==> Apply(acc, rep).data[j] == acc.data[j])
  {
    if FindString(acc.data, rep.search).Some? {
      var off, n := FindString(acc.data, rep.search).value, |Utf16.Encode(rep.search)|;
      var r := ReplaceString(rep.search, rep.replace);
      var out := acc.data[..off] + r + acc.data[off + n..];
      assert Apply(acc, rep).data == out;
      assert out[off..off + n] == r;
    }
  }

  /** The whole replacement list, in order. */
  function ApplyAll(data: seq<byte>, reps: seq<Replacement>): (r: Outcome)
    ensures |r.data| == |data| && r.made <= |reps|
  {
    if reps == [] then Outcome(data, 0) else Apply(ApplyAll(data, reps[..|reps| - 1]), reps[|reps| - 1])
  }

  lemma ApplyAllStep(data: seq<byte>, reps: seq<Replacement>, i: nat)
    requires i < |reps|
    ensures ApplyAll(data, reps[..i + 1]) == Apply(ApplyAll(data, reps[..i]), reps[i])
  {
    assert reps[..i + 1][..i] == reps[..i];
  }

  /** The body of the loop in `main`. */
  method ReplaceOne(data: seq<byte>, made: nat, rep: Replacement) returns (out: seq<byte>, made': nat)
    ensures Outcome(out, made') == Apply(Outcome(data, made), rep)
  {
    out, made' := data, made;
    var offset := FindString(data, rep.search);
    if offset.Some? {
      var newBytes := ReplaceString(rep.search, rep.replace);
      var originalLength := |Utf16.Encode(rep.search)|;
      out := PySliceAssign(data, offset.value, offset.value + originalLength, newBytes);
      made' := made + 1;
    }
  }

  /** The loop of `main`: returns the image, the number of replacements
      made, and what is written out, which is the image when at least one
      replacement was made and nothing otherwise. */
  method RunScript(data: seq<byte>, reps: seq<Replacement>) returns (out: seq<byte>, made: nat, written: Option<seq<byte>>)
    ensures Outcome(out, made) == ApplyAll(data, reps)
    ensures |out| == |data|
    ensures written == if made > 0 then Some(out) else None
  {
    out := data;
    made := 0;
    for i := 0 to |reps|
      invariant Outcome(out, made) == ApplyAll(data, reps[..i])
    {
      ApplyAllStep(data, reps, i);
      out, made := ReplaceOne(out, made, reps[i]);
    }
    assert reps[..|reps|] == reps;
    written := if made > 0 then Some(out) else None;
  }
}
