/** tutorial_injection_script.py: the append-only loop. Each translation's
    English text is encoded as UTF-16LE, followed by a `00 00` terminator
    and appended at the end of the image; no pointer is rewritten. A row
    whose `english_translation` cell is missing (the CSV reader gives
    `None`, and `.encode` raises an exception that the loop catches) is
    counted as a failure and changes nothing. */
module TutorialInjection {

  import opened Wrappers
  import opened Bytes
  import Utf16
  import Relocation

  /** The terminator appended after each text. */
  const TERMINATOR: seq<byte> := [0x00, 0x00]

  /** What one translation appends: nothing when its text is missing. */
  function Piece(english: Option<string>): seq<byte>
  {
    match english
    case None => []
    case Some(t) => Utf16.Encode(t) + TERMINATOR
  }

  /** Everything the loop appends, translation after translation. */
  function Appended(english: seq<Option<string>>): seq<byte>
  {
    if english == [] then [] else Appended(english[..|english| - 1]) + Piece(english[|english| - 1])
  }

  /** The number of translations whose text is present. */
  function Present(english: seq<Option<string>>): (n: nat)
    ensures n <= |english|
  {
    if english == [] then 0 else Present(english[..|english| - 1]) + (if english[|english| - 1].Some? then 1 else 0)
  }

  /** The sum of `len(encoded) + 2` over the translations whose text is present. */
  function EncodedTotal(english: seq<Option<string>>): nat
  {
    if english == [] then 0
    else
      EncodedTotal(english[..|english| - 1])
        + (match english[|english| - 1] case Some(t) => |Utf16.Encode(t)| + 2 case None => 0)
  }

  /** The appended tail is as long as the encodings plus their terminators. */
  lemma {:induction false} AppendedLength(english: seq<Option<string>>)
    ensures |Appended(english)| == EncodedTotal(english)
  {
    if english != [] {
      AppendedLength(english[..|english| - 1]);
    }
  }

  /** What the first `m` translations append is a prefix of what the first
      `n` append. */
  lemma {:induction false} AppendedPrefix(english: seq<Option<string>>, m: nat, n: nat)
    requires m <= n <= |english|
    ensures Appended(english[..m]) <= Appended(english[..n])
    decreases n - m
  {
    if m < n {
      AppendedPrefix(english, m + 1, n);
      assert english[..m + 1][..m] == english[..m];
    }
  }

  /** `enc` followed by the terminator occupies `all` from offset `at`. */
  predicate PlacedAt(all: seq<byte>, at: nat, enc: seq<byte>)
  {
    at + |enc| + 2 <= |all| && all[at..at + |enc|] == enc && all[at + |enc|..at + |enc| + 2] == TERMINATOR
  }

  /** Translation `i`, when present, sits at the cursor it was reached at:
      file offset `orig_len + |Appended(english[..i])|`, which is reported
      as BASE_ADDR plus that offset; its bytes are its encoding followed by
      `00 00`. */
  lemma AppendedAt(english: seq<Option<string>>, i: nat)
    requires i < |english| && english[i].Some?
    ensures PlacedAt(Appended(english), |Appended(english[..i])|, Utf16.Encode(english[i].value))
  {
    var enc := Utf16.Encode(english[i].value);
    var before := Appended(english[..i]);
    AppendedPresent(english, i);
    AppendedPrefixOfAll(english, i + 1);
    SlicesOfPrefix(before, enc, Appended(english));
  }

  lemma AppendedPrefixOfAll(english: seq<Option<string>>, m: nat)
    requires m <= |english|
    ensures Appended(english[..m]) <= Appended(english)
  {
    AppendedPrefix(english, m, |english|);
    assert english[..|english|] == english;
  }

  /** One present translation more, unfolded. */
  lemma AppendedPresent(english: seq<Option<string>>, i: nat)
    requires i < |english| && english[i].Some?
    ensures Appended(english[..i + 1]) == Appended(english[..i]) + Utf16.Encode(english[i].value) + TERMINATOR
  {
    assert english[..i + 1][..i] == english[..i];
    assert Piece(english[i]) == Utf16.Encode(english[i].value) + TERMINATOR;
  }

  lemma SlicesOfPrefix(before: seq<byte>, enc: seq<byte>, all: seq<byte>)
    requires before + enc + TERMINATOR <= all
    ensures PlacedAt(all, |before|, enc)
  {
    var x := before + enc + TERMINATOR;
    assert all[|before|..|before| + |enc|] == x[|before|..|before| + |enc|];
    assert all[|before| + |enc|..|before| + |enc| + 2] == x[|before| + |enc|..|before| + |enc| + 2];
  }

  /** Every present translation counts, and only those. */
  lemma {:induction false} PresentAll(english: seq<Option<string>>)
    ensures Present(english) == |english| <==> forall i :: 0 <= i < |english| ==> english[i].Some?
  {
    if english != [] {
      var front := english[..|english| - 1];
      PresentAll(front);
      assert forall i :: 0 <= i < |front| ==> front[i] == english[i];
    }
  }

  lemma LoopStep(english: seq<Option<string>>, i: nat)
    requires i < |english|
    ensures Appended(english[..i + 1]) == Appended(english[..i]) + Piece(english[i])
    ensures Present(english[..i + 1]) == Present(english[..i]) + if english[i].Some? then 1 else 0
  {
    assert english[..i + 1][..i] == english[..i];
  }

  lemma Assoc(a: seq<byte>, b: seq<byte>, c: seq<byte>)
    ensures a + b + c == a + (b + c)
  {
  }

  /** The body of the `try` block: encode, add the terminator, append and
      advance the cursor; a missing text raises before anything changes. */
  method AppendTranslation(data: seq<byte>, cursor: int, english: Option<string>) returns (out: seq<byte>, cursor': int, ok: bool)
    requires cursor == |data|
    ensures out == data + Piece(english) && cursor' == |out|
    ensures ok <==> english.Some?
  {
    if english.None? {
      return data, cursor, false;
    }
    var utf16Bytes := Utf16.Encode(english.value);
    utf16Bytes := utf16Bytes + TERMINATOR;
    var newFileOffset := cursor;
    var newVirtualAddr := Relocation.BASE_ADDR + newFileOffset;
    out := data + utf16Bytes;
    cursor' := cursor + |utf16Bytes|;
    ok := true;
  }

  /** The main loop: the image grows only at its end, by every present
      translation's encoding and terminator in order; the success count is
      the number of present texts, and the run is reported successful
      exactly when every text was present. */
  method RunScript(data: seq<byte>, english: seq<Option<string>>) returns (out: seq<byte>, successful: nat, allOk: bool)
    ensures out == data + Appended(english)
    ensures successful == Present(english)
    ensures allOk <==> forall i :: 0 <= i < |english| ==> english[i].Some?
  {
    out := data;
    var cursor := |data|;
    successful := 0;
    for i := 0 to |english|
      invariant cursor == |out|
      invariant out == data + Appended(english[..i])
      invariant successful == Present(english[..i])
    {
      LoopStep(english, i);
      ghost var before := Appended(english[..i]);
      var ok;
      out, cursor, ok := AppendTranslation(out, cursor, english[i]);
      Assoc(data, before, Piece(english[i]));
      if ok {
        successful := successful + 1;
      }
    }
    assert english[..|english|] == english;
    PresentAll(english);
    allOk := successful == |english|;
  }
}
