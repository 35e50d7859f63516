/** inject_character_selection_complete.py: the single-pointer variant of
    the append-and-repoint loop. The `pointer_offsets` cell is one
    hexadecimal address; a translation whose slot passes the acceptance
    test has its slot rewritten and its block appended, any other one is
    passed over without changing anything. */
module InjectSelectionComplete {

  import opened Wrappers
  import opened Bytes
  import opened Text
  import opened Relocation

  /** A translation once parsed: its one address (`None` is the ValueError
      of `int(pointer_offsets, 16)`) and its block. */
  datatype Single = Single(addr: Option<int>, block: Option<seq<byte>>)

  function SingleOf(e: Entry): (s: Single)
    ensures s.addr == ParseInt(e.pointerOffsets, 16) && s.block == Block(e)
  {
    Single(ParseInt(e.pointerOffsets, 16), Block(e))
  }

  /** The acceptance test on the file offset: `0 <= off < len(data) - 4`. */
  predicate Accepts(data: seq<byte>, off: int)
  {
    0 <= off < |data| - 4
  }

  /** One translation: on acceptance the slot gets the block's address
      BASE_ADDR + old length and the block is appended (flag `true`); on
      rejection nothing changes (flag `false`). `None` is an exception:
      bad separators, a bad address, or an address of 2^32 or more. */
  function Step(data: seq<byte>, s: Single): (r: Option<(seq<byte>, bool)>)
  {
    match s.block
    case None => None
    case Some(block) =>
      match s.addr
      case None => None
      case Some(v) =>
        var off := v - BASE_ADDR;
        if !Accepts(data, off) then Some((data, false))
        else if !IsU32(BASE_ADDR + |data|) then None
        else Some((WriteLe32(data, off, BASE_ADDR + |data|) + block, true))
  }

  /** An accepted translation: the old image with its slot holding the new
      address, the block at the old end, nothing else changed; a rejected
      one leaves the image as it was. */
  lemma StepSpec(data: seq<byte>, s: Single)
    requires Step(data, s).Some?
    ensures s.block.Some? && s.addr.Some?
    ensures Step(data, s).value.1 <==> Accepts(data, s.addr.value - BASE_ADDR)
    ensures !Step(data, s).value.1 ==> Step(data, s).value.0 == data
    ensures Step(data, s).value.1 ==>
      var off := s.addr.value - BASE_ADDR;
      && |Step(data, s).value.0| == |data| + |s.block.value|
      && ReadLe32(Step(data, s).value.0, off) == BASE_ADDR + |data|
      && Step(data, s).value.0[|data|..] == s.block.value
      && (forall j :: 0 <= j < |data| && !(off <= j < off + 4) ==> Step(data, s).value.0[j] == data[j])
  {
    if Step(data, s).value.1 {
      var off := s.addr.value - BASE_ADDR;
      var w := WriteLe32(data, off, BASE_ADDR + |data|);
      var r := w + s.block.value;
      assert r[off..off + 4] == Le32(BASE_ADDR + |data|);
      ReadLe32OfLe32(BASE_ADDR + |data|);
      assert ReadLe32(r, off) == ReadLe32(r[off..off + 4], 0);
    }
  }

  /** A slot occupying exactly the last four bytes of the image lies inside
      it, yet the acceptance test rejects it. */
  lemma LastSlotRejected(data: seq<byte>)
    requires |data| >= 4
    ensures ValidSlot(data, |data| - 4) && !Accepts(data, |data| - 4)
  {
  }

  /** The image and the acceptance flag of every translation processed. */
  datatype Run = Run(data: seq<byte>, accepted: seq<bool>)

  function RunAll(data: seq<byte>, singles: seq<Single>): (r: Option<Run>)
    ensures r.Some? ==> |r.value.accepted| == |singles|
  {
    if singles == [] then Some(Run(data, []))
    else
      match RunAll(data, singles[..|singles| - 1])
      case None => None
      case Some(acc) =>
        match Step(acc.data, singles[|singles| - 1])
        case None => None
        case Some(st) => Some(Run(st.0, acc.accepted + [st.1]))
  }

  function Singles(rows: seq<Entry>): (singles: seq<Single>)
    ensures |singles| == |rows|
  {
    if rows == [] then [] else Singles(rows[..|rows| - 1]) + [SingleOf(rows[|rows| - 1])]
  }

  /** The main loop over the rows of the CSV file. */
  function CompleteAll(data: seq<byte>, rows: seq<Entry>): Option<Run>
  {
    RunAll(data, Singles(rows))
  }

  lemma CompleteAllStep(data: seq<byte>, rows: seq<Entry>, i: nat)
    requires i < |rows|
    ensures CompleteAll(data, rows[..i + 1]) ==
      match CompleteAll(data, rows[..i])
      case None => None
      case Some(acc) =>
        match Step(acc.data, SingleOf(rows[i]))
        case None => None
        case Some(st) => Some(Run(st.0, acc.accepted + [st.1]))
  {
    assert rows[..i + 1][..i] == rows[..i];
    var singles := Singles(rows[..i + 1]);
    assert singles[..|singles| - 1] == Singles(rows[..i]);
  }

  lemma {:induction false} CompleteFailureSticks(data: seq<byte>, rows: seq<Entry>, k: nat, n: nat)
    requires k <= n <= |rows| && CompleteAll(data, rows[..k]).None?
    ensures CompleteAll(data, rows[..n]).None?
    decreases n - k
  {
    if k < n {
      CompleteAllStep(data, rows, k);
      CompleteFailureSticks(data, rows, k + 1, n);
    }
  }

  /** The number of `true` flags. */
  function CountTrue(flags: seq<bool>): (n: nat)
    ensures n <= |flags|
  {
    if flags == [] then 0 else CountTrue(flags[..|flags| - 1]) + (if flags[|flags| - 1] then 1 else 0)
  }

  /** Every flag is set exactly when the count of set flags is the length. */
  lemma {:induction false} CountTrueAll(flags: seq<bool>)
    ensures CountTrue(flags) == |flags| <==> forall i :: 0 <= i < |flags| ==> flags[i]
  {
    if flags != [] {
      var front := flags[..|flags| - 1];
      CountTrueAll(front);
      assert forall i :: 0 <= i < |front| ==> front[i] == flags[i];
    }
  }

  /** The flag of translation `i` is the acceptance test on the image as it
      stood when that translation was reached. */
  lemma {:induction false} AcceptedMeans(data: seq<byte>, singles: seq<Single>, i: nat)
    requires RunAll(data, singles).Some? && i < |singles|
    ensures RunAll(data, singles[..i]).Some? && singles[i].addr.Some?
    ensures RunAll(data, singles).value.accepted[i] <==>
      Accepts(RunAll(data, singles[..i]).value.data, singles[i].addr.value - BASE_ADDR)
  {
    var front := singles[..|singles| - 1];
    var acc := RunAll(data, front).value;
    StepSpec(acc.data, singles[|singles| - 1]);
    if i == |singles| - 1 {
      assert singles[..i] == front;
    } else {
      AcceptedMeans(data, front, i);
      assert front[..i] == singles[..i];
      assert front[i] == singles[i];
    }
  }

  /** The image grows by the blocks of the accepted translations only. */
  function AcceptedLength(singles: seq<Single>, accepted: seq<bool>): nat
    requires |accepted| == |singles|
  {
    if singles == [] then 0
    else
      AcceptedLength(singles[..|singles| - 1], accepted[..|accepted| - 1])
        + (match singles[|singles| - 1].block
           case Some(b) => if accepted[|accepted| - 1] then |b| else 0
           case None => 0)
  }

  lemma {:induction false} RunAllLength(data: seq<byte>, singles: seq<Single>)
    requires RunAll(data, singles).Some?
    ensures |RunAll(data, singles).value.data| == |data| + AcceptedLength(singles, RunAll(data, singles).value.accepted)
  {
    if singles != [] {
      var front := singles[..|singles| - 1];
      var acc := RunAll(data, front).value;
      RunAllLength(data, front);
      StepSpec(acc.data, singles[|singles| - 1]);
      var accepted := RunAll(data, singles).value.accepted;
      assert accepted[..|accepted| - 1] == acc.accepted;
    }
  }

  /** `int(pointer_offsets, 16)`. */
  method ParseAddress(field: string) returns (a: Option<int>)
    ensures a == ParseInt(field, 16)
  {
    a := ParseInt(field, 16);
  }

  /** One translation as the loop body writes it, with the cursor kept equal
      to the image length; `size` is what the cursor advances by. */
  method InjectSingle(cur: seq<byte>, cursor: int, e: Entry) returns (r: Option<(seq<byte>, bool)>, size: nat)
    requires cursor == |cur|
    ensures r == Step(cur, SingleOf(e))
    ensures r.Some? ==> |r.value.0| == |cur| + size
  {
    var block := MakeBlock(e);
    if block.None? {
      return None, 0;
    }
    var newFileOff := cursor;
    var newAddr := BASE_ADDR + newFileOff;
    var addrVirt := ParseAddress(e.pointerOffsets);
    if addrVirt.None? {
      return None, 0;
    }
    var off := addrVirt.value - BASE_ADDR;
    if 0 <= off < |cur| - 4 {
      if !IsU32(newAddr) {
        return None, 0;
      }
      r := Some((WriteLe32(cur, off, newAddr) + block.value, true));
      size := |block.value|;
    } else {
      r := Some((cur, false));
      size := 0;
    }
  }

  /** The main loop: returns the written image, the number of translations
      injected, and whether every translation was injected. */
  method RunScript(data: seq<byte>, translations: seq<Entry>) returns (out: Option<seq<byte>>, successful: nat, allOk: bool)
    ensures out.Some? <==> CompleteAll(data, translations).Some?
    ensures out.Some? ==>
      && out.value == CompleteAll(data, translations).value.data
      && successful == CountTrue(CompleteAll(data, translations).value.accepted)
      && (allOk <==> forall i :: 0 <= i < |translations| ==> CompleteAll(data, translations).value.accepted[i])
  {
    var cur := data;
    var cursor := |data|;
    successful := 0;
    ghost var accepted: seq<bool> := [];
    for idx := 0 to |translations|
      invariant cursor == |cur|
      invariant CompleteAll(data, translations[..idx]) == Some(Run(cur, accepted))
      invariant successful == CountTrue(accepted)
    {
      var st, size := InjectSingle(cur, cursor, translations[idx]);
      CompleteAllStep(data, translations, idx);
      if st.None? {
        CompleteFailureSticks(data, translations, idx + 1, |translations|);
        assert translations[..|translations|] == translations;
        return None, 0, false;
      }
      cur := st.value.0;
      cursor := cursor + size;
      if st.value.1 {
        successful := successful + 1;
      }
      accepted := accepted + [st.value.1];
      assert accepted[..|accepted| - 1] == accepted[..idx];
    }
    assert translations[..|translations|] == translations;
    CountTrueAll(accepted);
    out := Some(cur);
    allOk := successful == |translations|;
  }
}
