/** scripts/inject_from_file.py: the append-and-repoint main loop over the
    translated rows, stopping after MAX_CHAINES rows. */
module InjectFromFile {

  import opened Wrappers
  import opened Bytes
  import opened Relocation

  /** The most rows one run processes. */
  const MAX_CHAINES: nat := 13988

  /** The image a run of the main loop writes, if it completes. */
  function ImageOf(r: Option<Injected>): Option<seq<byte>>
  {
    match r
    case None => None
    case Some(i) => Some(i.data)
  }

  /** The main loop: rows past the first MAX_CHAINES are never looked at,
      and the written image is that of the relocation over the rows kept. */
  method RunScript(data: seq<byte>, rows: seq<Entry>) returns (out: Option<seq<byte>>)
    ensures out == ImageOf(InjectAll(data, rows[..Min(|rows|, MAX_CHAINES)]))
  {
    var cur := data;
    var cursor := |data|;
    ghost var counts: seq<nat> := [];
    var idx := 0;
    while idx < |rows|
      invariant 0 <= idx <= |rows| && idx <= MAX_CHAINES
      invariant cursor == |cur|
      invariant InjectAll(data, rows[..idx]) == Some(Injected(cur, counts))
    {
      if idx >= MAX_CHAINES {
        break;
      }
      var p, size := InjectOne(cur, cursor, rows[idx]);
      InjectAllStep(data, rows, idx);
      if p.None? {
        InjectFailureSticks(data, rows, idx + 1, Min(|rows|, MAX_CHAINES));
        return None;
      }
      cur := p.value.data;
      cursor := cursor + size;
      counts := counts + [p.value.count];
      idx := idx + 1;
    }
    assert idx == Min(|rows|, MAX_CHAINES);
    out := Some(cur);
  }

  /** Only the first MAX_CHAINES rows matter: rows past them can be changed
      or dropped without changing the output. */
  lemma RowsPastLimitIgnored(data: seq<byte>, rows: seq<Entry>, more: seq<Entry>)
    requires |rows| >= MAX_CHAINES
    ensures ImageOf(InjectAll(data, (rows + more)[..Min(|rows + more|, MAX_CHAINES)]))
         == ImageOf(InjectAll(data, rows[..Min(|rows|, MAX_CHAINES)]))
  {
    assert (rows + more)[..MAX_CHAINES] == rows[..MAX_CHAINES];
  }
}
