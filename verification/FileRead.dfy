/** The read of the configuration file in src/config/mod.rs: take the modification time, read the
    file chunk by chunk, refuse it if it is not UTF-8, take the modification time again, and reject the
    read if it changed.

    Writers run between any two of these steps. Where the file system keeps no modification time, all
    times are equal, and every write restores it. */
module FileRead {
  import opened Utf8

  datatype File = File(content: Bytes, mtime: nat)

  /** Where the reader is: before the first stat, reading with what it has so far, after the end of
      file with text, or finished. */
  datatype Reader =
    | Idle
    | Reading(before: nat, got: Bytes)
    | AtEnd(before: nat, got: Bytes)
    | NotText
    | Changed
    | Returned(got: Bytes)

  datatype State = State(file: File, reader: Reader)

  /** A write replaces the whole content; a partial write is one with the partial result. */
  datatype Event =
    | Write(content: Bytes, mtime: nat)
    | StatBefore
    | ReadChunk(size: nat)
    | StatAfter

  /** One `read` call: up to `size` bytes from the current offset; nothing there is end of file. */
  function Chunk(file: File, offset: nat, size: nat): Bytes {
    if offset >= |file.content| then []
    else if offset + size <= |file.content| then file.content[offset..offset + size]
    else file.content[offset..]
  }

  predicate Enabled(s: State, e: Event) {
    match e
    case Write(_, _) => true
    case StatBefore => s.reader.Idle?
    case ReadChunk(size) => s.reader.Reading? && 0 < size
    case StatAfter => s.reader.AtEnd?
  }

  function Next(s: State, e: Event): State {
    if !Enabled(s, e) then s else
      match e
      case Write(content, mtime) => s.(file := File(content, mtime))
      case StatBefore => s.(reader := Reading(s.file.mtime, []))
      case ReadChunk(size) =>
        var chunk := Chunk(s.file, |s.reader.got|, size);
        if chunk != [] then s.(reader := Reading(s.reader.before, s.reader.got + chunk))
        else if IsText(s.reader.got) then s.(reader := AtEnd(s.reader.before, s.reader.got))
        else s.(reader := NotText)
      case StatAfter =>
        if s.file.mtime == s.reader.before then s.(reader := Returned(s.reader.got))
        else s.(reader := Changed)
  }

  function After(start: File, events: seq<Event>): State {
    if events == [] then State(start, Idle)
    else Next(After(start, events[..|events| - 1]), events[|events| - 1])
  }

  lemma AfterTake(start: File, events: seq<Event>, n: nat)
    requires 0 < n <= |events|
    ensures After(start, events[..n]) == Next(After(start, events[..n - 1]), events[n - 1])
  {
    assert events[..n][..n - 1] == events[..n - 1];
  }

  // ----- the window between the two stats -----

  /** Event `k` is the first stat. */
  ghost predicate StatTaken(start: File, events: seq<Event>, k: nat) {
    k < |events| && events[k].StatBefore? && After(start, events[..k]).reader.Idle?
  }

  /** Events `k` and `m` are the two stats of one read. */
  ghost predicate Window(start: File, events: seq<Event>, k: nat, m: nat) {
    && StatTaken(start, events, k)
    && k < m < |events| && events[m].StatAfter?
    && After(start, events[..m]).reader.AtEnd?
  }

  predicate WriteFree(events: seq<Event>, from: nat, end: nat)
    requires end <= |events|
  {
    forall j :: from <= j < end ==> !events[j].Write?
  }

  /** Event `j` is the last write from `from` on, before `end`. */
  predicate IsLastWrite(events: seq<Event>, from: nat, end: nat, j: nat)
    requires end <= |events|
  {
    from <= j < end && events[j].Write? && WriteFree(events, j + 1, end)
  }

  lemma {:induction false} FileUnwritten(start: File, events: seq<Event>, from: nat, end: nat)
    requires from <= end <= |events| && WriteFree(events, from, end)
    ensures After(start, events[..end]).file == After(start, events[..from]).file
    decreases end
  {
    if from != end {
      FileUnwritten(start, events, from, end - 1);
      AfterTake(start, events, end);
    }
  }

  /** The file is what the last write made it. */
  lemma FileAfterWrite(start: File, events: seq<Event>, from: nat, end: nat, j: nat)
    requires end <= |events| && IsLastWrite(events, from, end, j)
    ensures After(start, events[..end]).file == File(events[j].content, events[j].mtime)
  {
    hide After;
    AfterTake(start, events, j + 1);
    FileUnwritten(start, events, j + 1, end);
  }

  lemma {:induction false} SomeLastWrite(events: seq<Event>, from: nat, end: nat) returns (j: nat)
    requires from <= end <= |events| && !WriteFree(events, from, end)
    ensures IsLastWrite(events, from, end, j)
    decreases end
  {
    if events[end - 1].Write? {
      j := end - 1;
    } else {
      j := SomeLastWrite(events, from, end - 1);
    }
  }

  /** Nothing has been written since the first stat: what has been read is a prefix of the content. */
  ghost predicate ReadsPrefix(r: Reader, content: Bytes) {
    && !r.Idle?
    && (r.Reading? ==> r.got <= content)
    && (r.AtEnd? ==> r.got == content)
  }

  lemma ReadStep(s: State, e: Event)
    requires ReadsPrefix(s.reader, s.file.content) && !e.Write?
    ensures ReadsPrefix(Next(s, e).reader, s.file.content)
  {
  }

  lemma {:induction false} ReadUnwritten(start: File, events: seq<Event>, k: nat, end: nat)
    requires StatTaken(start, events, k) && k < end <= |events| && WriteFree(events, k, end)
    ensures ReadsPrefix(After(start, events[..end]).reader, After(start, events[..k]).file.content)
    decreases end
  {
    hide After;
    AfterTake(start, events, end);
    if k + 1 < end {
      ReadUnwritten(start, events, k, end - 1);
      FileUnwritten(start, events, k, end - 1);
      ReadStep(After(start, events[..end - 1]), events[end - 1]);
    }
  }

  /** A read that has started has its first stat; one that has returned has its window, and the file
      then had the modification time of the first stat. */
  ghost predicate Traced(start: File, events: seq<Event>, k: nat, m: nat) {
    var s := After(start, events);
    !s.reader.Idle? ==>
      && StatTaken(start, events, k)
      && var before := After(start, events[..k]).file.mtime;
         && (s.reader.Reading? || s.reader.AtEnd? ==> s.reader.before == before)
         && (s.reader.Returned? ==>
               && Window(start, events, k, m)
               && After(start, events[..m]).reader == AtEnd(before, s.reader.got)
               && After(start, events[..m]).file.mtime == before)
  }

  lemma {:induction false} Trace(start: File, events: seq<Event>) returns (k: nat, m: nat)
    ensures Traced(start, events, k, m)
  {
    k, m := 0, 0;
    if events != [] {
      var n := |events| - 1;
      k, m := Trace(start, events[..n]);
      var s := After(start, events[..n]);
      AfterTake(start, events, n + 1);
      assert events[..n + 1] == events;
      hide After;
      if s.reader.Idle? && events[n].StatBefore? {
        k := n;
      } else if !s.reader.Idle? {
        assert events[..n][..k] == events[..k];
        if s.reader.AtEnd? && events[n].StatAfter? {
          m := n;
        } else if s.reader.Returned? {
          assert events[..n][..m] == events[..m];
        }
      }
    }
  }

  /** Between the stats of a read that returns, either nothing was written, and what it returns is the
      content at the first stat, or the last write gave the file that stat's modification time back. */
  lemma {:induction false} ReturnedRead(start: File, events: seq<Event>) returns (k: nat, m: nat)
    requires After(start, events).reader.Returned?
    ensures Window(start, events, k, m)
    ensures WriteFree(events, k, m) ==> After(start, events).reader.got == After(start, events[..k]).file.content
    ensures forall j: nat :: IsLastWrite(events, k, m, j) ==> events[j].mtime == After(start, events[..k]).file.mtime
  {
    k, m := Trace(start, events);
    hide After;
    if WriteFree(events, k, m) {
      ReadUnwritten(start, events, k, m);
    }
    forall j: nat | IsLastWrite(events, k, m, j)
      ensures events[j].mtime == After(start, events[..k]).file.mtime
    {
      FileAfterWrite(start, events, k, m, j);
    }
  }

  /** Event `j` is the last write between two stats of a read, and gives the file the modification time
      that the first of them saw. */
  ghost predicate Restores(start: File, events: seq<Event>, k: nat, m: nat, j: nat) {
    && Window(start, events, k, m) && IsLastWrite(events, k, m, j)
    && events[j].mtime == After(start, events[..k]).file.mtime
  }

  /** Untorn read: however reads and writes interleave, what is returned is the content the file had at
      the first stat, unless the last write before the second restored the modification time. Writes
      before the first stat or after the second do not matter. */
  lemma {:induction false} UntornRead(start: File, events: seq<Event>)
    requires After(start, events).reader.Returned?
    ensures || (exists k: nat :: StatTaken(start, events, k)
                              && After(start, events).reader.got == After(start, events[..k]).file.content)
            || (exists k: nat, m: nat, j: nat :: Restores(start, events, k, m, j))
  {
    var k, m := ReturnedRead(start, events);
    hide After;
    if !WriteFree(events, k, m) {
      var j := SomeLastWrite(events, k, m);
      assert Restores(start, events, k, m, j);
    }
  }

  /** Every write in `from..end` gives the file a later modification time than it had. */
  ghost predicate Advancing(start: File, events: seq<Event>, from: nat, end: nat)
    requires end <= |events|
  {
    forall j :: from <= j < end && events[j].Write? ==> After(start, events[..j]).file.mtime < events[j].mtime
  }

  lemma {:induction false} MtimeAdvances(start: File, events: seq<Event>, from: nat, end: nat)
    requires from <= end <= |events| && Advancing(start, events, from, end)
    ensures After(start, events[..from]).file.mtime <= After(start, events[..end]).file.mtime
    ensures !WriteFree(events, from, end) ==> After(start, events[..from]).file.mtime < After(start, events[..end]).file.mtime
    decreases end
  {
    if from != end {
      MtimeAdvances(start, events, from, end - 1);
      AfterTake(start, events, end);
    }
  }

  /** Where every write between the stats advances the modification time, none restores it. */
  lemma AdvancingWritesDoNotRestore(start: File, events: seq<Event>, k: nat, m: nat, j: nat)
    requires Window(start, events, k, m) && Advancing(start, events, k, m)
    ensures !Restores(start, events, k, m, j)
  {
    hide After;
    MtimeAdvances(start, events, k, m);
    if IsLastWrite(events, k, m, j) {
      FileAfterWrite(start, events, k, m, j);
    }
  }

  /** Where every write between the stats advances the modification time, a read that returns has the
      content at the first stat. */
  lemma {:induction false} AdvancingReadIsUntorn(start: File, events: seq<Event>)
    requires After(start, events).reader.Returned?
    requires forall k: nat, m: nat :: Window(start, events, k, m) ==> Advancing(start, events, k, m)
    ensures exists k: nat :: StatTaken(start, events, k)
                          && After(start, events).reader.got == After(start, events[..k]).file.content
  {
    var k, m := ReturnedRead(start, events);
    hide After;
    if !WriteFree(events, k, m) {
      var j := SomeLastWrite(events, k, m);
      AdvancingWritesDoNotRestore(start, events, k, m, j);
      assert false;
    }
  }

  // ----- what a restoring write can do -----

  /** The first `i` bytes of one content, then what another has from there on. */
  function Splice(a: Bytes, b: Bytes, i: nat): Bytes
    requires i <= |a|
  {
    a[..i] + if i <= |b| then b[i..] else []
  }

  /** Read `i` bytes, be overwritten, read on. A chunk of size zero is no event. */
  function SplicingRun(written: File, i: nat): seq<Event> {
    [StatBefore]
    + [ReadChunk(i)]
    + [Write(written.content, written.mtime)]
    + [ReadChunk(if i <= |written.content| then |written.content| - i else 0)]
    + [ReadChunk(1)]
    + [StatAfter]
  }

  lemma AfterSnoc(start: File, events: seq<Event>, e: Event)
    ensures After(start, events + [e]) == Next(After(start, events), e)
  {
    assert (events + [e])[..|events|] == events;
  }

  lemma SplicingReads(start: File, i: nat)
    requires i <= |start.content|
    ensures Next(State(start, Reading(start.mtime, [])), ReadChunk(i))
         == State(start, Reading(start.mtime, start.content[..i]))
  {
    assert [] + start.content[0..i] == start.content[..i];
  }

  lemma SplicingReadsOn(before: nat, a: Bytes, written: File, i: nat)
    requires i <= |a|
    ensures var size := if i <= |written.content| then |written.content| - i else 0;
            Next(State(written, Reading(before, a[..i])), ReadChunk(size))
            == State(written, Reading(before, Splice(a, written.content, i)))
    ensures var all := Splice(a, written.content, i);
            Next(State(written, Reading(before, all)), ReadChunk(1))
            == State(written, if IsText(all) then AtEnd(before, all) else NotText)
  {
    var b := written.content;
    assert a[..i] + [] == a[..i];
    assert i <= |b| ==> b[i..i + (|b| - i)] == b[i..];
  }

  /** For every file, every write that restores its modification time, and every point `i` of the file,
      some read gets the two contents spliced at that point, and returns them if they are text. */
  lemma EverySpliceReturned(start: File, content: Bytes, i: nat)
    requires i <= |start.content|
    ensures After(start, SplicingRun(File(content, start.mtime), i))
         == State(File(content, start.mtime), if IsText(Splice(start.content, content, i))
                                              then Returned(Splice(start.content, content, i)) else NotText)
    ensures After(start, SplicingRun(File(content, start.mtime), i)[..5])
         == State(File(content, start.mtime), if IsText(Splice(start.content, content, i))
                                              then AtEnd(start.mtime, Splice(start.content, content, i)) else NotText)
  {
    hide Next, Splice, IsText;
    var written := File(content, start.mtime);
    var e0, e1, e2 := StatBefore, ReadChunk(i), Write(content, start.mtime);
    var e3 := ReadChunk(if i <= |content| then |content| - i else 0);
    StatsAndWrite(start, written, start.content[..i], Splice(start.content, content, i));
    SplicingReads(start, i);
    SplicingReadsOn(start.mtime, start.content, written, i);
    assert After(start, []) == State(start, Idle);
    hide After;
    assert [e0] == [] + [e0];
    AfterSnoc(start, [], e0);
    AfterSnoc(start, [e0], e1);
    AfterSnoc(start, [e0] + [e1], e2);
    AfterSnoc(start, [e0] + [e1] + [e2], e3);
    AfterSnoc(start, [e0] + [e1] + [e2] + [e3], ReadChunk(1));
    AfterSnoc(start, [e0] + [e1] + [e2] + [e3] + [ReadChunk(1)], StatAfter);
    assert SplicingRun(written, i)[..5] == [e0] + [e1] + [e2] + [e3] + [ReadChunk(1)];
  }

  lemma StatsAndWrite(start: File, written: File, got: Bytes, all: Bytes)
    requires written.mtime == start.mtime
    ensures Next(State(start, Idle), StatBefore) == State(start, Reading(start.mtime, []))
    ensures Next(State(start, Reading(start.mtime, got)), Write(written.content, written.mtime))
         == State(written, Reading(start.mtime, got))
    ensures Next(State(written, AtEnd(start.mtime, all)), StatAfter) == State(written, Returned(all))
    ensures Next(State(written, NotText), StatAfter) == State(written, NotText)
  {
  }

  /** What has been read once the write is done is a prefix of a splice. */
  ghost predicate ReadsSplice(r: Reader, a: Bytes, b: Bytes, i: nat)
    requires i <= |a|
  {
    && !r.Idle?
    && (r.Reading? ==> i <= |r.got| && r.got <= Splice(a, b, i))
    && (r.AtEnd? ==> r.got == Splice(a, b, i) && IsText(r.got))
  }

  lemma SpliceStep(s: State, e: Event, a: Bytes, i: nat)
    requires i <= |a| && ReadsSplice(s.reader, a, s.file.content, i) && !e.Write?
    ensures ReadsSplice(Next(s, e).reader, a, s.file.content, i)
  {
  }

  /** Reading on after the one write `j`, from `i` bytes of the old content. */
  lemma {:induction false} ReadAfterWrite(start: File, events: seq<Event>, j: nat, end: nat, a: Bytes, i: nat)
    requires j < end <= |events| && events[j].Write? && WriteFree(events, j + 1, end) && i <= |a|
    requires var r := After(start, events[..j]).reader; r.Reading? && r.got == a[..i]
    ensures ReadsSplice(After(start, events[..end]).reader, a, events[j].content, i)
    decreases end
  {
    hide After;
    AfterTake(start, events, end);
    if j + 1 < end {
      ReadAfterWrite(start, events, j, end - 1, a, i);
      FileAfterWrite(start, events, j, end - 1, j);
      SpliceStep(After(start, events[..end - 1]), events[end - 1], a, i);
    }
  }

  predicate IsTorn(got: Bytes, a: Bytes, b: Bytes) {
    IsText(got) && got != a && got != b
  }

  /** One write of `content` falls between the stats, restores the modification time, and the second
      stat finds the reader with text that is neither the old content nor the new. */
  ghost predicate Tears(start: File, content: Bytes, events: seq<Event>, k: nat, m: nat, j: nat) {
    && Restores(start, events, k, m, j) && WriteFree(events, 0, j) && events[j].content == content
    && IsTorn(After(start, events[..m]).reader.got, start.content, content)
  }

  lemma {:induction false} OneWriteSplices(start: File, content: Bytes, events: seq<Event>, k: nat, m: nat, j: nat) returns (i: nat)
    requires Tears(start, content, events, k, m, j)
    ensures i <= |start.content| && IsText(Splice(start.content, content, i))
    ensures After(start, events[..m]).reader.got == Splice(start.content, content, i)
  {
    FileUnwritten(start, events, 0, k);
    assert After(start, events[..0]).file == start;
    hide After, Splice;
    assert j != k;
    ReadUnwritten(start, events, k, j);
    var r := After(start, events[..j]).reader;
    if r.Reading? {
      i := |r.got|;
      assert r.got == start.content[..i];
      ReadAfterWrite(start, events, j, m, start.content, i);
    } else {
      FinishedStays(start, events, j, m);
      assert false;
    }
  }

  /** Once at the end of the file, the reader has all it will have. */
  lemma {:induction false} FinishedStays(start: File, events: seq<Event>, j: nat, end: nat)
    requires j <= end <= |events|
    requires var r := After(start, events[..j]).reader; !r.Idle? && !r.Reading?
    ensures var r, r' := After(start, events[..j]).reader, After(start, events[..end]).reader;
            && !r'.Idle? && !r'.Reading?
            && (r'.AtEnd? ==> r == r')
    decreases end
  {
    if j != end {
      FinishedStays(start, events, j, end - 1);
      AfterTake(start, events, end);
    }
  }

  /** The contents that can be torn, exactly: a read of a file can come back as bytes it never held,
      after one write that restores the modification time, if and only if some splice of the two
      contents is text and neither of them. */
  lemma {:induction false} TearsIff(start: File, content: Bytes)
    ensures (exists events, k, m, j :: Tears(start, content, events, k, m, j))
       <==> (exists i: nat :: i <= |start.content| && IsTorn(Splice(start.content, content, i), start.content, content))
  {
    if events, k, m, j :| Tears(start, content, events, k, m, j) {
      var i := OneWriteSplices(start, content, events, k, m, j);
    }
    if i: nat :| i <= |start.content| && IsTorn(Splice(start.content, content, i), start.content, content) {
      SplicingRunTears(start, content, i);
    }
  }

  lemma SplicingRunTears(start: File, content: Bytes, i: nat)
    requires i <= |start.content| && IsTorn(Splice(start.content, content, i), start.content, content)
    ensures Tears(start, content, SplicingRun(File(content, start.mtime), i), 0, 5, 2)
  {
    hide Splice;
    var events := SplicingRun(File(content, start.mtime), i);
    EverySpliceReturned(start, content, i);
    assert events[..0] == [] && After(start, []) == State(start, Idle);
  }

  /** Other bytes of the same length, and one more. */
  function Unlike(a: Bytes): Bytes {
    seq(|a| + 1, _ => if a != [] && a[0] == 0x61 then 0x62 else 0x61)
  }

  lemma UnlikeTears(a: Bytes)
    requires a != [] && IsText(a)
    ensures IsText(Unlike(a)) && IsTorn(Splice(a, Unlike(a), |a|), a, Unlike(a))
  {
    var b := Unlike(a);
    AsciiIsText(b);
    AsciiIsText(b[|a|..]);
    TextAppend(a, b[|a|..]);
    var torn := Splice(a, b, |a|);
    assert torn == a + b[|a|..];
    assert |torn| != |a| && torn[0] != b[0];
  }

  /** A configuration file, as text, has such a write, of text, exactly when it is not empty. */
  lemma SomeWriteTearsIff(start: File)
    requires IsText(start.content)
    ensures (exists content, events, k, m, j :: IsText(content) && Tears(start, content, events, k, m, j))
       <==> start.content != []
  {
    var a := start.content;
    if content, events, k, m, j :| IsText(content) && Tears(start, content, events, k, m, j) {
      var i := OneWriteSplices(start, content, events, k, m, j);
      assert Splice(a, content, 0) == content;
    }
    if a != [] {
      UnlikeTears(a);
      SplicingRunTears(start, Unlike(a), |a|);
    }
  }
}
