/** Writing and reading archives undo each other, whatever the chunking. */
module TarProofs {
  import opened Texts
  import opened TarFormat
  import opened TarArchive
  import opened Wrappers

  /** The whole archive is below 2^31 bytes. */
  const LIMIT: nat := U32 / 2

  ghost predicate CursorAt(t: Tar, off: nat) {
    t.fpos == off && t.pos == off && |t.data| < LIMIT
  }

  // ---------- One record ----------

  lemma EntryPieces(data: string, off: nat, e: Entry)
    requires ValidEntry(e) && TextAt(data, off, EntryBytes(e))
    ensures off + RECORD <= |data| && data[off..off + RECORD] == RawOf(HeaderOf(e))
    ensures TextAt(data, off + RECORD, Content(e))
    ensures off + |EntryBytes(e)| <= |data|
  {
    hide TextAt, RawOf, Storable;
    EntryIsStorable(e);
    var raw := RawOf(HeaderOf(e));
    TextOfConcat(data, off, raw + Content(e), Zeros(PaddingOf(|Content(e)|)));
    TextOfConcat(data, off, raw, Content(e));
    TextFits(data, off, EntryBytes(e));
    TextFits(data, off, raw);
    SliceOfText(data, off, raw);
  }

  lemma TextFits(s: string, i: nat, t: string)
    requires TextAt(s, i, t)
    ensures i + |t| <= |s|
  {
  }

  lemma ReadHeaderAtEntry(t: Tar, off: nat, e: Entry, prior: Header)
    requires ValidEntry(e) && CursorAt(t, off) && TextAt(t.data, off, EntryBytes(e))
    ensures ReadHeader(t, prior) == (t.(lastHeader := off), Loaded(HeaderOf(e)))
  {
    hide TextAt, RawToHeader, EntryBytes, RawOf;
    EntryPieces(t.data, off, e);
    EntryIsStorable(e);
    LoadOfStore(HeaderOf(e), prior);
  }

  lemma RoundedSize(n: nat)
    requires n < LIMIT
    ensures RoundUp(n, RECORD) == n + PaddingOf(n)
    ensures (n + PaddingOf(n)) % RECORD == 0
  {
  }

  lemma NextAtEntry(t: Tar, off: nat, e: Entry)
    requires ValidEntry(e) && CursorAt(t, off) && TextAt(t.data, off, EntryBytes(e))
    ensures Next(t) == (Seek(t.(lastHeader := off), off + |EntryBytes(e)|), None)
  {
    hide TextAt, ReadHeader, RoundUp;
    ReadHeaderAtEntry(t, off, e, BLANK);
    EntryPieces(t.data, off, e);
    RoundedSize(|Content(e)|);
  }

  /** Reads a record's data in pieces of the given sizes. */
  function ReadChunks(t: Tar, sizes: seq<nat>): (Tar, DataResult)
    decreases |sizes|
  {
    if sizes == [] then (t, Bytes(""))
    else match ReadData(t, sizes[0])
      case (t1, DataFail(e)) => (t1, DataFail(e))
      case (t1, Bytes(b)) =>
        match ReadChunks(t1, sizes[1..])
        case (t2, DataFail(e)) => (t2, DataFail(e))
        case (t2, Bytes(rest)) => (t2, Bytes(b + rest))
  }

  function Total(sizes: seq<nat>): nat {
    if sizes == [] then 0 else sizes[0] + Total(sizes[1..])
  }

  ghost predicate Positive(sizes: seq<nat>) {
    forall i :: 0 <= i < |sizes| ==> sizes[i] > 0
  }

  /** In the middle of a record's data, with `done` bytes read and more to come. */
  ghost predicate InData(t: Tar, off: nat, e: Entry, done: nat) {
    && done < |Content(e)| && CursorAt(t, off + RECORD + done)
    && t.remaining == |Content(e)| - done && t.lastHeader == off
  }

  lemma ReadInData(t: Tar, off: nat, e: Entry, done: nat, size: nat)
    requires ValidEntry(e) && TextAt(t.data, off, EntryBytes(e)) && InData(t, off, e, done)
    requires 0 < size && done + size <= |Content(e)|
    ensures var (t1, r) := ReadRemaining(t, size);
      && r == Bytes(Content(e)[done..done + size])
      && (if done + size < |Content(e)| then InData(t1, off, e, done + size) && t1.data == t.data
          else t1 == Seek(t.(remaining := 0), off))
  {
    hide EntryBytes, TextAt, ReadRemaining;
    EntryPieces(t.data, off, e);
    SubSlice(t.data, off + RECORD, Content(e), done, size);
    ReadWithin(t, size);
  }

  lemma ReadWithin(t: Tar, size: nat)
    requires 0 < size <= t.remaining < U32 && CursorAt(t, t.pos) && t.pos + size <= |t.data|
    ensures ReadRemaining(t, size) ==
      (if size == t.remaining then Seek(t.(remaining := 0), t.lastHeader)
       else Seek(t.(remaining := t.remaining - size), t.pos + size),
       Bytes(t.data[t.pos..t.pos + size]))
  {
    SubU32(t.remaining, size);
  }

  lemma SubSlice(data: string, o: nat, c: string, done: nat, size: nat)
    requires TextAt(data, o, c) && done + size <= |c|
    ensures o + done + size <= |data| && data[o + done..o + done + size] == c[done..done + size]
  {
    var x := data[o + done..o + done + size];
    forall k | 0 <= k < size ensures x[k] == c[done..done + size][k] {
      assert data[o + (done + k)] == CharAt(c, done + k);
    }
  }

  /** Unsigned subtraction without wrap-around. */
  lemma SubU32(a: nat, b: nat)
    requires b <= a < U32
    ensures (a + U32 - b % U32) % U32 == a - b
  {
  }

  /**
   * Reading beyond the record is not refused: the count of what remains wraps, and the cursor does
   * not return to the header.
   */
  lemma ReadingTooMuchWraps(t: Tar, size: nat)
    requires 0 < t.remaining < size < U32 && CursorAt(t, t.pos) && t.pos + size <= |t.data|
    ensures var (t1, r) := ReadData(t, size);
      && r == Bytes(t.data[t.pos..t.pos + size])
      && t1 == t.(fpos := t.pos + size, pos := t.pos + size, remaining := U32 + t.remaining - size)
  {
    SubWraps(t.remaining, size);
  }

  /** Unsigned subtraction with wrap-around. */
  lemma SubWraps(a: nat, b: nat)
    requires a < b < U32
    ensures (a + U32 - b % U32) % U32 == U32 + a - b
  {
  }

  /** Rewinding forgets a read in progress and goes back to the start. */
  lemma RewindStartsOver(t: Tar)
    ensures var r := Rewind(t);
      r.data == t.data && r.remaining == 0 && r.lastHeader == 0 && r.pos == 0 && r.fpos == 0
  {
  }

  lemma NothingLeft(sizes: seq<nat>)
    requires Positive(sizes) && Total(sizes) == 0
    ensures sizes == []
  {
  }

  lemma {:induction false} ChunksInData(t: Tar, off: nat, e: Entry, done: nat, sizes: seq<nat>)
    requires ValidEntry(e) && TextAt(t.data, off, EntryBytes(e)) && InData(t, off, e, done)
    requires Positive(sizes) && done + Total(sizes) == |Content(e)|
    ensures ReadChunks(t, sizes) == (Seek(t.(remaining := 0), off), Bytes(Content(e)[done..]))
    decreases |sizes|
  {
    hide TextAt, EntryBytes, ReadRemaining, Content;
    var c := Content(e);
    var size := sizes[0];
    ReadInData(t, off, e, done, size);
    var t1 := ReadRemaining(t, size).0;
    assert ReadData(t, size) == ReadRemaining(t, size);
    assert forall i :: 0 <= i < |sizes[1..]| ==> sizes[1..][i] == sizes[i + 1];
    if done + size < |c| {
      ChunksInData(t1, off, e, done + size, sizes[1..]);
      assert c[done..done + size] + c[done + size..] == c[done..];
    } else {
      assert Total(sizes[1..]) == 0;
      NothingLeft(sizes[1..]);
      assert c[done..done + size] == c[done..] && c[done..] + "" == c[done..];
    }
  }

  /**
   * Reading a record's data in any positive pieces gives its bytes, and the completed read
   * returns to its header.
   */
  lemma ChunksAtEntry(t: Tar, off: nat, e: Entry, sizes: seq<nat>)
    requires ValidEntry(e) && CursorAt(t, off) && TextAt(t.data, off, EntryBytes(e)) && t.remaining == 0
    requires Positive(sizes) && sizes != [] && Total(sizes) == |Content(e)|
    ensures ReadChunks(t, sizes) == (t.(lastHeader := off), Bytes(Content(e)))
  {
    hide TextAt, EntryBytes, ReadRemaining, ReadHeader;
    var m := Seek(t.(lastHeader := off), off + RECORD).(remaining := |Content(e)|);
    ReadHeaderAtEntry(t, off, e, BLANK);
    EntryPieces(t.data, off, e);
    assert sizes[0] > 0;
    assert ReadData(t, sizes[0]) == ReadRemaining(m, sizes[0]) == ReadData(m, sizes[0]);
    assert ReadChunks(t, sizes) == ReadChunks(m, sizes);
    ChunksInData(m, off, e, 0, sizes);
    assert Content(e)[0..] == Content(e);
  }

  lemma ReadNothing(t: Tar)
    requires t.remaining == 0 && t.pos < U32
    ensures ReadRemaining(t, 0) == (Seek(t, t.lastHeader), Bytes(""))
  {
  }

  /** A single read of the recorded size does the same, for an empty file too. */
  lemma WholeReadAtEntry(t: Tar, off: nat, e: Entry)
    requires ValidEntry(e) && CursorAt(t, off) && TextAt(t.data, off, EntryBytes(e)) && t.remaining == 0
    ensures ReadData(t, |Content(e)|) == (t.(lastHeader := off), Bytes(Content(e)))
  {
    hide TextAt, EntryBytes, ReadHeader, ReadRemaining;
    var n := |Content(e)|;
    ReadHeaderAtEntry(t, off, e, BLANK);
    EntryPieces(t.data, off, e);
    var m := Seek(t.(lastHeader := off), off + RECORD).(remaining := n);
    assert ReadData(t, n) == ReadRemaining(m, n);
    if n == 0 {
      ReadNothing(m);
    } else {
      ReadInData(m, off, e, 0, n);
      assert Content(e)[0..n] == Content(e);
    }
  }

  // ---------- Sequences of records ----------

  lemma FirstOfBody(data: string, off: nat, es: seq<Entry>)
    requires ValidEntries(es) && es != [] && TextAt(data, off, Body(es))
    ensures TextAt(data, off, EntryBytes(es[0]))
    ensures TextAt(data, off + |EntryBytes(es[0])|, Body(es[1..]))
    ensures |Body(es)| == |EntryBytes(es[0])| + |Body(es[1..])|
  {
    hide TextAt, EntryBytes;
    TextOfConcat(data, off, EntryBytes(es[0]), Body(es[1..]));
  }

  /** A file, unless it is the global header that git puts into its archives. */
  predicate IsKept(e: Entry) {
    e.File? && e.name != "pax_global_header"
  }

  lemma KeptIsExtracted(e: Entry)
    ensures IsExtracted(HeaderOf(e)) <==> IsKept(e)
  {
  }

  /** The names and contents of the files that are kept, in order. */
  function Extracted(es: seq<Entry>): seq<(string, string)> {
    if es == [] then []
    else (if IsKept(es[0]) then [(es[0].name, es[0].content)] else []) + Extracted(es[1..])
  }

  /**
   * `files` are the files of `es`, at the places `at`: in order, each once, with their own names and
   * contents, and no file is passed over but one called "pax_global_header".
   */
  ghost predicate FilesInOrder(es: seq<Entry>, files: seq<(string, string)>, at: seq<nat>) {
    && |at| == |files|
    && (forall j, k :: 0 <= j < k < |at| ==> at[j] < at[k])
    && (forall j :: 0 <= j < |at| ==>
          at[j] < |es| && es[at[j]] == File(files[j].0, files[j].1) && files[j].0 != "pax_global_header")
    && (forall i :: 0 <= i < |es| && es[i].File? && es[i].name != "pax_global_header" ==> i in at)
  }

  lemma {:induction false} ExtractedInOrder(es: seq<Entry>) returns (at: seq<nat>)
    ensures FilesInOrder(es, Extracted(es), at)
    decreases |es|
  {
    at := [];
    if es != [] {
      var n := |es| - 1;
      at := ExtractedInOrder(es[..n]);
      ExtractedOfLast(es);
      FileAdded(es, Extracted(es[..n]), at);
      if IsKept(es[n]) {
        at := at + [n];
      }
    }
  }

  lemma {:induction false} ExtractedOfLast(es: seq<Entry>)
    requires es != []
    ensures var n := |es| - 1;
      Extracted(es) == Extracted(es[..n]) + (if IsKept(es[n]) then [(es[n].name, es[n].content)] else [])
    decreases |es|
  {
    var n := |es| - 1;
    if n == 0 {
      assert es[1..] == [] && es[..0] == [];
    } else {
      ExtractedOfLast(es[1..]);
      assert es[..n][1..] == es[1..][..n - 1] && es[..n][0] == es[0];
    }
  }

  lemma FileAdded(es: seq<Entry>, files: seq<(string, string)>, at: seq<nat>)
    requires es != [] && FilesInOrder(es[..|es| - 1], files, at)
    ensures var n := |es| - 1;
      if IsKept(es[n]) then FilesInOrder(es, files + [(es[n].name, es[n].content)], at + [n])
      else FilesInOrder(es, files, at)
  {
    var n := |es| - 1;
    assert forall i :: 0 <= i < n ==> es[..n][i] == es[i];
    if IsKept(es[n]) {
      var more := at + [n];
      forall i | 0 <= i < |es| && es[i].File? && es[i].name != "pax_global_header" ensures i in more {
        if i == n { assert more[|at|] == n; }
      }
    }
  }

  /** One turn of the extraction loop over a record. */
  lemma ExtractEntry(t: Tar, off: nat, e: Entry, h: Header, files: seq<(string, string)>, turns: nat)
    requires ValidEntry(e) && CursorAt(t, off) && TextAt(t.data, off, EntryBytes(e)) && t.remaining == 0
    requires turns > 0
    ensures var t1 := Seek(t.(lastHeader := off), off + |EntryBytes(e)|);
      ExtractFrom(t, h, files, turns) ==
        ExtractFrom(t1, HeaderOf(e),
                    if IsKept(e) then files + [(e.name, Content(e))] else files, turns - 1)
  {
    KeptIsExtracted(e);
    hide TextAt, EntryBytes, ReadHeader, ReadData, Next;
    var t0 := t.(lastHeader := off);
    ReadHeaderAtEntry(t, off, e, h);
    WholeReadAtEntry(t0, off, e);
    NextAtEntry(t0, off, e);
  }

  ghost predicate NullAt(data: string, off: nat) {
    off + RECORD <= |data| && data[off + 148] == '\0'
  }

  lemma ReadHeaderAtNull(t: Tar, prior: Header)
    requires CursorAt(t, t.pos) && NullAt(t.data, t.pos)
    ensures ReadHeader(t, prior) == (t.(lastHeader := t.pos), Refused(NullRecord))
  {
    assert t.data[t.fpos..t.fpos + RECORD][148] == t.data[t.fpos + 148];
  }

  lemma ExtractAtNull(t: Tar, h: Header, files: seq<(string, string)>, turns: nat)
    requires CursorAt(t, t.pos) && NullAt(t.data, t.pos) && turns > 0
    ensures ExtractFrom(t, h, files, turns) == Done(files)
  {
    hide ReadHeader;
    ReadHeaderAtNull(t, h);
  }

  /** What the header variable holds after the records. */
  function HeaderAfter(es: seq<Entry>, h: Header): Header {
    if es == [] then h else HeaderOf(es[|es| - 1])
  }

  /** The records take one turn each and leave the cursor behind them. */
  lemma {:induction false} ExtractBody(t: Tar, off: nat, es: seq<Entry>, h: Header, files: seq<(string, string)>, turns: nat)
    returns (t1: Tar)
    requires ValidEntries(es) && CursorAt(t, off) && TextAt(t.data, off, Body(es)) && t.remaining == 0
    ensures CursorAt(t1, off + |Body(es)|) && t1.data == t.data && t1.remaining == 0
    ensures ExtractFrom(t, h, files, |es| + turns)
      == ExtractFrom(t1, HeaderAfter(es, h), files + Extracted(es), turns)
    decreases |es|
  {
    hide TextAt, EntryBytes, ExtractFrom, HeaderOf, Content, IsExtracted;
    if es == [] {
      t1 := t;
      assert files + Extracted(es) == files;
    } else {
      var e := es[0];
      FirstOfBody(t.data, off, es);
      ExtractEntry(t, off, e, h, files, |es| + turns);
      EntryPieces(t.data, off, e);
      t1 := Seek(t.(lastHeader := off), off + |EntryBytes(e)|);
      var files1 := if IsKept(e) then files + [(e.name, Content(e))] else files;
      t1 := ExtractBody(t1, off + |EntryBytes(e)|, es[1..], HeaderOf(e), files1, turns);
      ExtractedUnfolds(es);
      assert files1 + Extracted(es[1..]) == files + Extracted(es);
    }
  }

  /** Once the loop has ended, a larger number of turns changes nothing. */
  lemma {:induction false} MoreTurnsChangeNothing(t: Tar, h: Header, files: seq<(string, string)>, turns: nat, more: nat)
    requires turns <= more && ExtractFrom(t, h, files, turns) != Unfinished
    ensures ExtractFrom(t, h, files, more) == ExtractFrom(t, h, files, turns)
    decreases turns
  {
    hide ReadHeader, ReadData, Next;
    var (t1, r) := ReadHeader(t, h);
    if r != Refused(NullRecord) {
      var current := if r.Loaded? then r.header else h;
      if !IsExtracted(current) {
        MoreTurnsChangeNothing(Next(t1).0, current, files, turns - 1, more - 1);
      } else {
        var (t2, d) := ReadData(t1, current.size);
        if d.Bytes? {
          MoreTurnsChangeNothing(Next(t2).0, current, files + [(current.name, d.bytes)], turns - 1, more - 1);
        }
      }
    }
  }

  lemma ExtractedUnfolds(es: seq<Entry>)
    requires es != []
    ensures Extracted(es) ==
      (if IsKept(es[0]) then [(es[0].name, Content(es[0]))] else []) + Extracted(es[1..])
  {
  }

  lemma ArchivePieces(es: seq<Entry>)
    requires ValidEntries(es)
    ensures TextAt(Archive(es), 0, Body(es)) && NullAt(Archive(es), |Body(es)|)
    ensures |Archive(es)| == |Body(es)| + 2 * RECORD
  {
    var a := Archive(es);
    assert TextAt(a, 0, a);
    TextOfConcat(a, 0, Body(es), Zeros(2 * RECORD));
    assert a[|Body(es)| + 148] == Zeros(2 * RECORD)[148];
  }

  /** The fields that come back from a written file and from a written directory. */
  lemma WrittenFieldsLoad(t: Tar, off: nat, e: Entry, prior: Header)
    requires ValidEntry(e) && CursorAt(t, off) && TextAt(t.data, off, EntryBytes(e))
    ensures var (t1, r) := ReadHeader(t, prior);
      && r.Loaded? && r.header.name == e.name
      && (e.File? ==> r.header.mode == 6 * 64 + 6 * 8 + 4 && r.header.kind == 48 && r.header.size == |e.content|)
      && (e.Dir? ==> r.header.mode == 7 * 64 + 7 * 8 + 5 && r.header.kind == 53 && r.header.size == 0)
      && r.header.owner == 0 && r.header.mtime == 0 && r.header.linkname == ""
  {
    hide TextAt, ReadHeader, EntryBytes;
    ReadHeaderAtEntry(t, off, e, prior);
  }

  // ---------- What follows the records ----------

  /** The first record of `tail`, when there is a whole one. */
  function FirstRecord(tail: string): HeaderResult {
    if |tail| < RECORD then Refused(ReadFail) else RawToHeader(tail[..RECORD], BLANK)
  }

  /** A record that loads and is not extracted, of a size that takes the 32-bit cursor back to the record itself. */
  predicate Traps(tail: string) {
    && FirstRecord(tail).Loaded? && !IsExtracted(FirstRecord(tail).header)
    && (RoundUp(FirstRecord(tail).header.size, RECORD) + RECORD) % U32 == 0
  }

  /** The header cannot be read here, now or ever again. */
  ghost predicate Dead(t: Tar, e: Error) {
    && t.remaining == 0
    && if t.fpos + RECORD > |t.data| then e == ReadFail
       else
         && e == BadChecksum && t.pos == t.fpos
         && RawToHeader(t.data[t.fpos..t.fpos + RECORD], BLANK) == Refused(BadChecksum)
  }

  /** Whether a record loads, its type and its name do not depend on what the target held. */
  lemma PriorDecidesNothing(raw: string, prior: Header)
    requires |raw| == RECORD
    ensures match RawToHeader(raw, BLANK)
      case Refused(e) => RawToHeader(raw, prior) == Refused(e)
      case Loaded(g) =>
        && RawToHeader(raw, prior).Loaded?
        && RawToHeader(raw, prior).header.name == g.name
        && RawToHeader(raw, prior).header.kind == g.kind
  {
    hide ScanOctal, CString, ChecksumOf, KindOf;
  }

  lemma DeadStaysDead(t: Tar, e: Error, prior: Header)
    requires Dead(t, e)
    ensures ReadHeader(t, prior).1 == Refused(e) && Dead(ReadHeader(t, prior).0, e)
  {
    hide RawToHeader;
    if t.fpos + RECORD <= |t.data| {
      PriorDecidesNothing(t.data[t.fpos..t.fpos + RECORD], prior);
    }
  }

  /** There a stale header that is not extracted keeps the loop going for ever. */
  lemma {:induction false} StuckOnDead(t: Tar, e: Error, h: Header, files: seq<(string, string)>, turns: nat)
    requires Dead(t, e) && e != NullRecord && !IsExtracted(h)
    ensures ExtractFrom(t, h, files, turns) == Unfinished
    decreases turns
  {
    hide ReadHeader, Dead;
    if turns > 0 {
      DeadStaysDead(t, e, h);
      var t1 := ReadHeader(t, h).0;
      DeadStaysDead(t1, e, BLANK);
      StuckOnDead(Next(t1).0, e, h, files, turns - 1);
    }
  }

  /** ... while one that is extracted makes the next read throw. */
  lemma ThrowsOnDead(t: Tar, e: Error, h: Header, files: seq<(string, string)>, turns: nat)
    requires Dead(t, e) && e != NullRecord && IsExtracted(h) && turns > 0
    ensures ExtractFrom(t, h, files, turns) == Thrown(e)
  {
    hide ReadHeader;
    DeadStaysDead(t, e, h);
    DeadStaysDead(ReadHeader(t, h).0, e, BLANK);
  }

  lemma {:induction false} StuckOnTrap(t: Tar, h: Header, files: seq<(string, string)>, turns: nat)
    requires CursorAt(t, t.pos) && t.pos <= |t.data| && Traps(t.data[t.pos..])
    ensures ExtractFrom(t, h, files, turns) == Unfinished
    decreases turns
  {
    hide RawToHeader, RoundUp, IsExtracted;
    if turns > 0 {
      var raw := t.data[t.pos..t.pos + RECORD];
      assert t.data[t.pos..][..RECORD] == raw;
      PriorDecidesNothing(raw, h);
      var t1 := t.(lastHeader := t.pos);
      assert ReadHeader(t, h) == (t1, RawToHeader(raw, h)) && ReadHeader(t1, BLANK) == (t1, RawToHeader(raw, BLANK));
      BackToItself(t.pos, RoundUp(FirstRecord(t.data[t.pos..]).header.size, RECORD) + RECORD);
      assert Next(t1) == (t1, None);
      var g := RawToHeader(raw, h).header;
      SameExtraction(g, RawToHeader(raw, BLANK).header);
      StuckOnTrap(t1, g, files, turns - 1);
    }
  }

  lemma BackToItself(pos: nat, step: nat)
    requires pos < U32 && step % U32 == 0
    ensures (pos + step) % U32 == pos
  {
    assert pos + step == U32 * (step / U32) + pos;
  }

  lemma SameExtraction(g: Header, h: Header)
    requires g.name == h.name && g.kind == h.kind
    ensures IsExtracted(g) == IsExtracted(h)
  {
  }

  /** Behind the records: a null record ends the loop, and of the rest only an extracted file does. */
  lemma ExtractTail(t: Tar, h: Header, files: seq<(string, string)>, turns: nat)
    requires CursorAt(t, t.pos) && t.pos <= |t.data| && t.remaining == 0 && turns > 0
    requires var tail := t.data[t.pos..];
      Traps(tail) || FirstRecord(tail).Refused?
    ensures var tail := t.data[t.pos..];
      ExtractFrom(t, h, files, turns) ==
        if Traps(tail) then Unfinished
        else if FirstRecord(tail) == Refused(NullRecord) then Done(files)
        else if IsExtracted(h) then Thrown(FirstRecord(tail).error)
        else Unfinished
  {
    hide ExtractFrom, RawToHeader, IsExtracted, RoundUp;
    var tail := t.data[t.pos..];
    if Traps(tail) {
      StuckOnTrap(t, h, files, turns);
    } else {
      if |tail| >= RECORD {
        assert tail[..RECORD] == t.data[t.fpos..t.fpos + RECORD];
        RefusedHow(tail[..RECORD]);
      }
      var e := FirstRecord(tail).error;
      if e == NullRecord {
        NullRecordAt(t.data, t.pos);
        ExtractAtNull(t, h, files, turns);
      } else if IsExtracted(h) {
        ThrowsOnDead(t, e, h, files, turns);
      } else {
        StuckOnDead(t, e, h, files, turns);
      }
    }
  }

  lemma RefusedHow(raw: string)
    requires |raw| == RECORD && RawToHeader(raw, BLANK).Refused?
    ensures RawToHeader(raw, BLANK).error == NullRecord || RawToHeader(raw, BLANK).error == BadChecksum
    ensures RawToHeader(raw, BLANK).error == NullRecord ==> raw[148] == '\0'
  {
    hide ScanOctal, ChecksumOf;
  }

  lemma NullRecordAt(data: string, off: nat)
    requires off + RECORD <= |data| && data[off..][..RECORD][148] == '\0'
    ensures NullAt(data, off)
  {
  }

  /** Whether extraction ends, told from what follows the last record. */
  predicate EndsAfter(es: seq<Entry>, tail: string) {
    && !Traps(tail)
    && (es == [] || FirstRecord(tail) == Refused(NullRecord) || IsKept(es[|es| - 1]))
  }

  /** How it ends, if it does. */
  function EndingOf(es: seq<Entry>, tail: string): Extraction {
    if es != [] && FirstRecord(tail) == Refused(NullRecord) then Done(Extracted(es))
    else match FirstRecord(tail)
      case Refused(e) => Thrown(e)
      case Loaded(_) => Unfinished
  }

  /**
   * Any records followed by anything that does not load, be it cut short, damaged or null, or by a
   * record whose size wraps: extraction ends if and only if the records are followed by a null
   * record, or the last of them is a file that is extracted. Otherwise it goes on for ever.
   */
  lemma ExtractEnds(es: seq<Entry>, tail: string, h: Header)
    requires ValidEntries(es) && |Body(es) + tail| < LIMIT
    requires Traps(tail) || FirstRecord(tail).Refused?
    ensures (exists turns :: Extract(Body(es) + tail, h, turns) != Unfinished) <==> EndsAfter(es, tail)
    ensures forall turns :: turns > |es| ==>
      Extract(Body(es) + tail, h, turns) == if EndsAfter(es, tail) then EndingOf(es, tail) else Unfinished
  {
    hide *;
    forall turns: nat ensures
        && (turns > |es| ==>
          Extract(Body(es) + tail, h, turns) == if EndsAfter(es, tail) then EndingOf(es, tail) else Unfinished)
        && (!EndsAfter(es, tail) ==> Extract(Body(es) + tail, h, turns) == Unfinished)
    {
      ExtractWithTail(es, tail, h, turns);
    }
    if EndsAfter(es, tail) {
      EndingIsEnding(es, tail);
      assert Extract(Body(es) + tail, h, |es| + 1) != Unfinished;
    }
  }

  lemma EndingIsEnding(es: seq<Entry>, tail: string)
    requires EndsAfter(es, tail) && (Traps(tail) || FirstRecord(tail).Refused?)
    ensures EndingOf(es, tail) != Unfinished
  {
  }

  lemma ExtractWithTail(es: seq<Entry>, tail: string, h: Header, turns: nat)
    requires ValidEntries(es) && |Body(es) + tail| < LIMIT
    requires Traps(tail) || FirstRecord(tail).Refused?
    ensures turns > |es| ==>
      Extract(Body(es) + tail, h, turns) == if EndsAfter(es, tail) then EndingOf(es, tail) else Unfinished
    ensures !EndsAfter(es, tail) ==> Extract(Body(es) + tail, h, turns) == Unfinished
  {
    hide TextAt, EntryBytes, ExtractFrom, ReadHeader, FirstRecord, Traps, IsExtracted;
    var data := Body(es) + tail;
    var t := Opened(data);
    WholeText(data);
    TextOfConcat(data, 0, Body(es), tail);
    if es == [] {
      assert data == tail by { NoBody(es); }
      OpenTail(tail, h, turns);
    } else {
      FirstOfBody(data, 0, es);
      ReadHeaderAtEntry(t, 0, es[0], BLANK);
      var more := if turns > |es| then turns - |es| else 1;
      var t1 := ExtractBody(t, 0, es, h, [], more);
      assert t1.data[t1.pos..] == tail;
      assert [] + Extracted(es) == Extracted(es);
      KeptIsExtracted(es[|es| - 1]);
      ExtractTail(t1, HeaderAfter(es, h), Extracted(es), more);
      if turns <= |es| && ExtractFrom(t, h, [], turns) != Unfinished {
        MoreTurnsChangeNothing(t, h, [], turns, |es| + more);
      }
    }
  }

  lemma OpenTail(tail: string, h: Header, turns: nat)
    requires |tail| < LIMIT
    requires Traps(tail) || FirstRecord(tail).Refused?
    ensures Extract(tail, h, turns) == if Traps(tail) then Unfinished else Thrown(FirstRecord(tail).error)
  {
    hide RawToHeader, ExtractFrom, RoundUp, IsExtracted;
    var t := Opened(tail);
    assert tail[0..] == tail;
    assert ReadHeader(t, BLANK).1 == FirstRecord(tail);
    if Traps(tail) {
      StuckOnTrap(t, h, [], turns);
    }
  }

  /**
   * Extracting a written archive terminates, after one turn a record and one more, with exactly
   * the file records in order; an archive without records is refused when it is opened.
   */
  lemma ExtractArchive(es: seq<Entry>, h: Header, turns: nat)
    requires ValidEntries(es) && |Archive(es)| < LIMIT && turns > |es|
    ensures Extract(Archive(es), h, turns) == if es == [] then Thrown(NullRecord) else Done(Extracted(es))
  {
    hide Body, Extract;
    var tail := Zeros(2 * RECORD);
    assert tail[..RECORD][148] == tail[148] == '\0';
    assert FirstRecord(tail) == Refused(NullRecord);
    ExtractEnds(es, tail, h);
  }

  /** Records without anything behind them: only after a file that is extracted does the loop end, by throwing. */
  lemma ExtractTruncated(es: seq<Entry>, h: Header)
    requires ValidEntries(es) && es != [] && |Body(es)| < LIMIT
    ensures var last := es[|es| - 1];
      (exists turns :: Extract(Body(es), h, turns) != Unfinished) <==> last.File? && last.name != "pax_global_header"
    ensures IsKept(es[|es| - 1]) ==> Extract(Body(es), h, |es| + 1) == Thrown(ReadFail)
  {
    hide Extract, Body;
    assert Body(es) + "" == Body(es);
    ExtractEnds(es, "", h);
  }

  lemma DamageIsRefused(e: Entry, i: nat, c: char, rest: string)
    requires ValidEntry(e) && i < RECORD && !(148 <= i < 156) && c != EntryBytes(e)[i]
    ensures FirstRecord(EntryBytes(e)[i := c] + rest) == Refused(BadChecksum)
  {
    EntryIsStorable(e);
    var raw := RawOf(HeaderOf(e));
    hide RawOf, RawToHeader, Storable, HeaderOf, Zeros;
    assert EntryBytes(e)[..RECORD] == raw;
    assert (EntryBytes(e)[i := c] + rest)[..RECORD] == raw[i := c];
    DamageIsNoticed(HeaderOf(e), i, c, BLANK);
  }

  lemma BodyOfOne(e: Entry)
    requires ValidEntry(e)
    ensures ValidEntries([e]) && Body([e]) == EntryBytes(e)
  {
    hide EntryBytes;
    assert [e][1..] == [];
    assert Body([e][1..]) == "";
  }

  /**
   * Both null records may be there, and still extraction does not end: one byte of the record that
   * follows a directory is damaged.
   */
  lemma DamagedRecordNeverEnds(dir: string, bad: Entry, i: nat, c: char, rest: string, h: Header, turns: nat)
    requires ValidEntry(Dir(dir)) && ValidEntry(bad)
    requires i < RECORD && !(148 <= i < 156) && c != EntryBytes(bad)[i]
    requires |EntryBytes(Dir(dir)) + (EntryBytes(bad)[i := c] + rest)| < LIMIT
    ensures Extract(EntryBytes(Dir(dir)) + (EntryBytes(bad)[i := c] + rest), h, turns) == Unfinished
  {
    hide EntryBytes, Extract, Body, FirstRecord, ValidEntry;
    var tail := EntryBytes(bad)[i := c] + rest;
    DamageIsRefused(bad, i, c, rest);
    BodyOfOne(Dir(dir));
    assert HeaderOf(Dir(dir)).kind == TDIR;
    ExtractWithTail([Dir(dir)], tail, h, turns);
  }

  const HUGE_DIR: Header := Header(509, 0, U32 - RECORD, 0, TDIR, "d", "")

  lemma HugeDirTraps(tail: string)
    requires Storable(HUGE_DIR) && |tail| >= RECORD && tail[..RECORD] == RawOf(HUGE_DIR)
    ensures Traps(tail)
  {
    hide RawOf, RawToHeader;
    LoadOfStore(HUGE_DIR, BLANK);
    assert RoundUp(U32 - RECORD, RECORD) == U32 - RECORD;
  }

  /** A stored directory of nearly 2^32 bytes is read again and again, whatever follows it. */
  lemma WrappingSizeNeverEnds(rest: string, h: Header, turns: nat)
    requires |rest| < LIMIT - RECORD
    ensures Storable(HUGE_DIR) && Extract(RawOf(HUGE_DIR) + rest, h, turns) == Unfinished
  {
    ElevenDigits();
    Numerals.PowMonotone(Numerals.Octal, 6, 7);
    hide RawOf, Extract, Traps, RawToHeader;
    var tail := RawOf(HUGE_DIR) + rest;
    assert tail[..RECORD] == RawOf(HUGE_DIR);
    HugeDirTraps(tail);
    OpenTail(tail, h, turns);
  }

  /**
   * What extraction of a written archive gives, told from its entries alone: the files but any
   * "pax_global_header", in order.
   */
  lemma ExtractArchiveFiles(es: seq<Entry>, h: Header, turns: nat) returns (at: seq<nat>)
    requires ValidEntries(es) && es != [] && |Archive(es)| < LIMIT && turns > |es|
    ensures Extract(Archive(es), h, turns).Done?
    ensures FilesInOrder(es, Extract(Archive(es), h, turns).files, at)
  {
    hide Extract, Archive, FilesInOrder;
    ExtractArchive(es, h, turns);
    at := ExtractedInOrder(es);
  }

  // ---------- Any file at all ----------

  /** The size field has digits, so that loading the record does not leave the size to what was there before. */
  predicate HasSize(raw: string)
    requires |raw| == RECORD
  {
    ScanOctal(raw, 124, 0) == ScanOctal(raw, 124, 1)
  }

  function RecordsAt(data: string, pos: nat): HeaderResult {
    if pos > |data| then Refused(ReadFail) else FirstRecord(data[pos..])
  }

  predicate SizeIsWritten(data: string, pos: nat) {
    pos + RECORD <= |data| && RecordsAt(data, pos).Loaded? ==> HasSize(data[pos..pos + RECORD])
  }

  ghost predicate SizesAreWritten(data: string) {
    forall pos: nat :: pos % RECORD == 0 ==> SizeIsWritten(data, pos)
  }

  function NextPos(h: Header, pos: nat): nat {
    (pos + RoundUp(h.size, RECORD) + RECORD) % U32
  }

  /** A loaded record whose data, if it is extracted, is all there. */
  predicate GoesOn(data: string, pos: nat) {
    var r := RecordsAt(data, pos);
    r.Loaded? && (IsExtracted(r.header) ==> pos + RECORD + r.header.size <= |data|)
  }

  /**
   * Following the records from `pos` comes, after at most `k` of them, to one that stops extraction:
   * a null record, an extracted file that is cut short, or one that does not load behind an
   * extracted file.
   */
  predicate ComesToAStop(data: string, pos: nat, afterFile: bool, k: nat)
    decreases k
  {
    var r := RecordsAt(data, pos);
    if r.Refused? then r.error == NullRecord || afterFile
    else !GoesOn(data, pos) || (k > 0 && ComesToAStop(data, NextPos(r.header, pos), IsExtracted(r.header), k - 1))
  }

  lemma ScanIsSettled(raw: string, unset: nat)
    requires |raw| == RECORD && HasSize(raw)
    ensures ScanOctal(raw, 124, unset) == ScanOctal(raw, 124, 0) < U32
  {
    hide Numerals.Value;
  }

  lemma SizeDoesNotDepend(raw: string, prior: Header)
    requires |raw| == RECORD && HasSize(raw) && RawToHeader(raw, BLANK).Loaded?
    ensures RawToHeader(raw, prior).Loaded?
    ensures RawToHeader(raw, prior).header.size == RawToHeader(raw, BLANK).header.size < U32
  {
    ScanIsSettled(raw, prior.size);
    ScanIsSettled(raw, 0);
    hide ScanOctal, CString, ChecksumOf, KindOf, HasSize;
  }

  lemma RoundUpIsAligned(n: nat)
    ensures RoundUp(n, RECORD) % RECORD == 0
  {
    var a := n + (RECORD - n % RECORD) % RECORD;
    assert a % RECORD == 0;
    AlignedRemainder(a);
  }

  lemma NextPosIsAligned(h: Header, pos: nat)
    requires pos % RECORD == 0
    ensures NextPos(h, pos) % RECORD == 0 && NextPos(h, pos) < U32
  {
    hide RoundUp;
    var step := RoundUp(h.size, RECORD);
    RoundUpIsAligned(h.size);
    AlignedSum(pos, step);
    AlignedSum(pos + step, RECORD);
    AlignedRemainder(pos + step + RECORD);
  }

  lemma AlignedRemainder(n: nat)
    requires n % RECORD == 0
    ensures n % U32 % RECORD == 0
  {
    assert n == U32 * (n / U32) + n % U32;
    assert U32 == RECORD * 8388608;
    assert n % U32 == RECORD * (n / RECORD - 8388608 * (n / U32));
  }

  ghost predicate Reading(t: Tar, data: string, pos: nat) {
    t.data == data && CursorAt(t, pos) && t.remaining == 0 && pos < U32 && pos % RECORD == 0
  }

  lemma LoadsAt(t: Tar, data: string, pos: nat, prior: Header)
    requires Reading(t, data, pos) && RecordsAt(data, pos).Loaded?
    ensures pos + RECORD <= |data|
    ensures ReadHeader(t, prior) == (t.(lastHeader := pos), RawToHeader(data[pos..pos + RECORD], prior))
    ensures RecordsAt(data, pos) == RawToHeader(data[pos..pos + RECORD], BLANK)
  {
    hide RawToHeader;
    assert data[pos..][..RECORD] == data[pos..pos + RECORD];
  }

  lemma WholeReadAt(t: Tar, data: string, pos: nat, size: nat)
    requires Reading(t, data, pos) && RecordsAt(data, pos).Loaded? && RecordsAt(data, pos).header.size == size < U32
    requires pos + RECORD + size <= |data|
    ensures ReadData(t, size) == (t.(lastHeader := pos), Bytes(data[pos + RECORD..pos + RECORD + size]))
  {
    hide RawToHeader, ReadHeader, ReadRemaining;
    LoadsAt(t, data, pos, BLANK);
    var m := Seek(t.(lastHeader := pos), pos + RECORD).(remaining := size);
    assert ReadData(t, size) == ReadRemaining(m, size);
    if size == 0 {
      ReadNothing(m);
      assert data[pos + RECORD..pos + RECORD + size] == "";
    } else {
      ReadWithin(m, size);
    }
  }

  /** One turn over a record that loads, whoever wrote it. */
  lemma TurnGoesOn(t: Tar, data: string, pos: nat, h: Header, files: seq<(string, string)>, turns: nat)
    returns (t1: Tar, h1: Header, files1: seq<(string, string)>)
    requires Reading(t, data, pos) && GoesOn(data, pos) && SizeIsWritten(data, pos)
    ensures var g := RecordsAt(data, pos).header;
      Reading(t1, data, NextPos(g, pos)) && IsExtracted(h1) == IsExtracted(g)
    ensures ExtractFrom(t, h, files, turns + 1) == ExtractFrom(t1, h1, files1, turns)
    ensures var g := RecordsAt(data, pos).header;
      if g.kind != 53 && g.name != "pax_global_header"
      then
        && pos + 512 + g.size <= |data|
        && files1 == files + [(g.name, data[pos + 512..pos + 512 + g.size])]
      else files1 == files
  {
    hide RawToHeader, ReadHeader, ReadData, RoundUp;
    var raw := data[pos..pos + RECORD];
    var g := RecordsAt(data, pos).header;
    LoadsAt(t, data, pos, h);
    PriorDecidesNothing(raw, h);
    SizeDoesNotDepend(raw, h);
    h1 := RawToHeader(raw, h).header;
    SameExtraction(h1, g);
    var t0 := t.(lastHeader := pos);
    LoadsAt(t0, data, pos, BLANK);
    NextPosIsAligned(g, pos);
    t1 := Seek(t0, NextPos(g, pos));
    assert Next(t0) == (t1, None);
    files1 := files;
    if IsExtracted(h1) {
      WholeReadAt(t0, data, pos, g.size);
      files1 := files + [(h1.name, ReadData(t0, g.size).1.bytes)];
    }
  }

  /** A record that does not go on ends the loop at once, or keeps it for ever. */
  lemma TurnStops(t: Tar, data: string, pos: nat, h: Header, files: seq<(string, string)>, turns: nat)
    requires Reading(t, data, pos) && !GoesOn(data, pos) && SizeIsWritten(data, pos) && turns > 0
    ensures ExtractFrom(t, h, files, turns) != Unfinished <==> ComesToAStop(data, pos, IsExtracted(h), 0)
  {
    hide RawToHeader, ExtractFrom, RoundUp, IsExtracted;
    var r := RecordsAt(data, pos);
    if r.Loaded? {
      CutShort(t, data, pos, h, files, turns);
    } else if pos > |data| {
      assert Dead(t, ReadFail);
      if IsExtracted(h) {
        ThrowsOnDead(t, ReadFail, h, files, turns);
      } else {
        StuckOnDead(t, ReadFail, h, files, turns);
      }
    } else {
      ExtractTail(t, h, files, turns);
    }
  }

  lemma CutShort(t: Tar, data: string, pos: nat, h: Header, files: seq<(string, string)>, turns: nat)
    requires Reading(t, data, pos) && RecordsAt(data, pos).Loaded? && !GoesOn(data, pos)
    requires SizeIsWritten(data, pos) && turns > 0
    ensures ExtractFrom(t, h, files, turns) == Thrown(ReadFail)
  {
    hide RawToHeader, ReadHeader, RoundUp;
    var raw := data[pos..pos + RECORD];
    LoadsAt(t, data, pos, h);
    PriorDecidesNothing(raw, h);
    SizeDoesNotDepend(raw, h);
    var h1 := RawToHeader(raw, h).header;
    SameExtraction(h1, RecordsAt(data, pos).header);
    var t0 := t.(lastHeader := pos);
    LoadsAt(t0, data, pos, BLANK);
    ShortReadAt(t0, data, pos, h1.size);
    hide ReadData;
  }

  lemma ShortReadAt(t: Tar, data: string, pos: nat, size: nat)
    requires Reading(t, data, pos) && RecordsAt(data, pos).Loaded? && RecordsAt(data, pos).header.size == size
    requires pos + RECORD + size > |data|
    ensures ReadData(t, size).1 == DataFail(ReadFail)
  {
    hide RawToHeader, ReadHeader;
    LoadsAt(t, data, pos, BLANK);
  }

  lemma NoTurns(t: Tar, h: Header, files: seq<(string, string)>)
    ensures ExtractFrom(t, h, files, 0) == Unfinished
  {
  }

  /** Following the records tells whether the loop ends. */
  lemma {:induction false} LoopFollowsRecords(t: Tar, data: string, pos: nat, h: Header, files: seq<(string, string)>, k: nat)
    requires Reading(t, data, pos) && SizesAreWritten(data)
    ensures ExtractFrom(t, h, files, k + 1) != Unfinished <==> ComesToAStop(data, pos, IsExtracted(h), k)
    decreases k
  {
    hide RecordsAt, ExtractFrom, IsExtracted, SizeIsWritten, NextPos;
    assert SizeIsWritten(data, pos);
    if !GoesOn(data, pos) {
      TurnStops(t, data, pos, h, files, k + 1);
    } else {
      var t1, h1, files1 := TurnGoesOn(t, data, pos, h, files, k);
      if k == 0 {
        NoTurns(t1, h1, files1);
      } else {
        LoopFollowsRecords(t1, data, NextPos(RecordsAt(data, pos).header, pos), h1, files1, k - 1);
      }
    }
  }

  lemma {:induction false} StopsLaterToo(data: string, pos: nat, afterFile: bool, k: nat, m: nat)
    requires k <= m && ComesToAStop(data, pos, afterFile, k)
    ensures ComesToAStop(data, pos, afterFile, m)
    decreases k
  {
    hide RecordsAt, GoesOn, IsExtracted, NextPos;
    var r := RecordsAt(data, pos);
    if r.Loaded? && GoesOn(data, pos) {
      StopsLaterToo(data, NextPos(r.header, pos), IsExtracted(r.header), k - 1, m - 1);
    }
  }

  /**
   * The records on the shortest way to a stop are all different: each comes to a stop in fewer steps
   * than the one before it.
   */
  lemma {:induction false} PathNeverReturns(data: string, pos: nat, afterFile: bool, k: nat) returns (path: set<nat>)
    requires pos % RECORD == 0 && ComesToAStop(data, pos, afterFile, k)
    requires k > 0 ==> !ComesToAStop(data, pos, afterFile, k - 1)
    ensures |path| == k
    ensures forall i :: i in path ==> i < |data| / RECORD && ComesToAStop(data, RECORD * i, true, k)
    decreases k
  {
    hide RecordsAt, GoesOn, IsExtracted, NextPos;
    path := {};
    if k > 0 {
      var g := RecordsAt(data, pos).header;
      var next := NextPos(g, pos);
      NextPosIsAligned(g, pos);
      GoesOnInside(data, pos);
      var rest := PathNeverReturns(data, next, IsExtracted(g), k - 1);
      var i := pos / RECORD;
      assert RECORD * i == pos;
      assert !ComesToAStop(data, pos, true, k - 1);
      path := rest + {i};
      forall j | j in rest ensures ComesToAStop(data, RECORD * j, true, k) {
        StopsLaterToo(data, RECORD * j, true, k - 1, k);
      }
      StopsLaterToo(data, pos, afterFile, k, k);
    }
  }

  lemma GoesOnInside(data: string, pos: nat)
    requires GoesOn(data, pos)
    ensures RecordsAt(data, pos).Loaded? && pos / RECORD < |data| / RECORD
  {
    hide RawToHeader;
  }

  lemma {:induction false} SetBelow(s: set<nat>, n: nat)
    requires forall i :: i in s ==> i < n
    ensures |s| <= n
  {
    if n == 0 {
      assert s == {};
    } else {
      SetBelow(s - {n - 1}, n - 1);
    }
  }

  lemma {:induction false} StopIsNear(data: string, pos: nat, afterFile: bool, k: nat)
    requires pos % RECORD == 0 && ComesToAStop(data, pos, afterFile, k)
    ensures ComesToAStop(data, pos, afterFile, |data| / RECORD)
    decreases k
  {
    hide ComesToAStop;
    if k > 0 && ComesToAStop(data, pos, afterFile, k - 1) {
      StopIsNear(data, pos, afterFile, k - 1);
    } else {
      var path := PathNeverReturns(data, pos, afterFile, k);
      SetBelow(path, |data| / RECORD);
      StopsLaterToo(data, pos, afterFile, k, |data| / RECORD);
    }
  }

  /**
   * Any file below 2^31 bytes, whoever wrote it: extraction ends if and only if following its
   * records comes to a stop after no more of them than the file has room for. What it has not
   * ended after that many turns and one more, it never ends.
   */
  lemma ExtractIsDecided(data: string, h: Header)
    requires |data| < LIMIT && SizesAreWritten(data)
    ensures (exists turns :: Extract(data, h, turns) != Unfinished) <==>
      ComesToAStop(data, 0, true, |data| / RECORD)
    ensures forall turns :: turns > |data| / RECORD ==>
      Extract(data, h, turns) == Extract(data, h, |data| / RECORD + 1)
  {
    hide ComesToAStop, Extract, SizesAreWritten;
    var n := |data| / RECORD;
    ExtractFollowsRecords(data, h, n);
    forall turns: nat | Extract(data, h, turns) != Unfinished ensures ComesToAStop(data, 0, true, n) {
      if turns > 0 {
        ExtractFollowsRecords(data, h, turns - 1);
        StopIsNear(data, 0, true, turns - 1);
      } else {
        OpenRefused(data, h);
      }
    }
    forall turns: nat | turns > n ensures Extract(data, h, turns) == Extract(data, h, n + 1) {
      if Extract(data, h, n + 1) != Unfinished {
        MoreTurnsToExtract(data, h, n + 1, turns);
      }
    }
  }

  lemma ExtractFollowsRecords(data: string, h: Header, k: nat)
    requires |data| < LIMIT && SizesAreWritten(data)
    ensures Extract(data, h, k + 1) != Unfinished <==> ComesToAStop(data, 0, true, k)
  {
    hide RawToHeader, ExtractFrom, IsExtracted, SizesAreWritten, GoesOn, NextPos;
    assert data[0..] == data;
    var t := Opened(data);
    if RecordsAt(data, 0).Loaded? {
      LoopFollowsRecords(t, data, 0, h, [], k);
    }
  }

  lemma OpenRefused(data: string, h: Header)
    requires Extract(data, h, 0) != Unfinished
    ensures ComesToAStop(data, 0, true, |data| / RECORD)
  {
    hide RawToHeader;
    assert data[0..] == data;
  }

  lemma MoreTurnsToExtract(data: string, h: Header, turns: nat, more: nat)
    requires turns <= more && Extract(data, h, turns) != Unfinished
    ensures Extract(data, h, more) == Extract(data, h, turns)
  {
    hide ReadHeader, ExtractFrom;
    var (t, r) := ReadHeader(Opened(data), BLANK);
    if r.Loaded? {
      MoreTurnsChangeNothing(t, h, [], turns, more);
    }
  }

  // ---------- mtar_find ----------

  /** The index of the first record of that name, or the number of records. */
  function FirstNamed(es: seq<Entry>, name: string): (k: nat)
    ensures k <= |es|
    ensures k < |es| ==> es[k].name == name
    ensures forall i :: 0 <= i < k ==> es[i].name != name
  {
    if es == [] || es[0].name == name then 0 else 1 + FirstNamed(es[1..], name)
  }

  lemma {:induction false} FindInBody(t: Tar, off: nat, es: seq<Entry>, name: string, h: Header, turns: nat)
    requires ValidEntries(es) && CursorAt(t, off) && TextAt(t.data, off, Body(es))
    requires NullAt(t.data, off + |Body(es)|) && turns > |es|
    ensures var k := FirstNamed(es, name);
      var (t1, r) := FindFrom(t, name, h, turns);
      && ValidEntries(es[..k])
      && t1.pos == t1.fpos == off + |Body(es[..k])|
      && r == (if k < |es| then Found(HeaderOf(es[k])) else NotThere(NotFound))
    decreases |es|
  {
    hide TextAt, EntryBytes, ReadHeader, Next, Body, NullAt, HeaderOf;
    if es == [] {
      assert es[..0] == [];
      NoBody(es);
      ReadHeaderAtNull(t, h);
    } else {
      var e := es[0];
      FirstOfBody(t.data, off, es);
      ReadHeaderAtEntry(t, off, e, h);
      if e.name == name {
        assert es[..0] == [];
        NoBody(es[..0]);
        assert HeaderOf(e).name == name by { HeaderNames(e); }
      } else {
        HeaderNames(e);
        EntryPieces(t.data, off, e);
        var t0 := t.(lastHeader := off);
        NextAtEntry(t0, off, e);
        FindInBody(Next(t0).0, off + |EntryBytes(e)|, es[1..], name, HeaderOf(e), turns - 1);
        BodyOfPrefix(es, FirstNamed(es, name));
      }
    }
  }

  lemma HeaderSizes(e: Entry)
    ensures HeaderOf(e).size == |Content(e)|
  {
  }

  lemma NoPadding()
    ensures PaddingOf(0) == 0 && Zeros(0) == ""
  {
  }

  lemma HeaderNames(e: Entry)
    ensures HeaderOf(e).name == e.name
  {
  }

  lemma NoBody(es: seq<Entry>)
    requires es == []
    ensures ValidEntries(es) && Body(es) == ""
  {
  }

  lemma BodyOfPrefix(es: seq<Entry>, k: nat)
    requires ValidEntries(es) && 0 < k <= |es|
    ensures ValidEntries(es[..k]) && ValidEntries(es[1..][..k - 1])
    ensures |Body(es[..k])| == |EntryBytes(es[0])| + |Body(es[1..][..k - 1])|
  {
    hide EntryBytes;
    assert es[..k][1..] == es[1..][..k - 1] && es[..k][0] == es[0];
  }

  /** Once the search has ended, a larger number of turns changes nothing. */
  lemma {:induction false} MoreTurnsFindTheSame(t: Tar, name: string, h: Header, turns: nat, more: nat)
    requires turns <= more && FindFrom(t, name, h, turns).1 != StillSearching
    ensures FindFrom(t, name, h, more) == FindFrom(t, name, h, turns)
    decreases turns
  {
    hide ReadHeader, Next;
    var (t1, r) := ReadHeader(t, h);
    if r.Loaded? && r.header.name != name {
      MoreTurnsFindTheSame(Next(t1).0, name, r.header, turns - 1, more - 1);
    }
  }

  /** From any cursor, the search stops on the first record of that name, or reports not found. */
  lemma FindInArchive(t: Tar, es: seq<Entry>, name: string, turns: nat)
    requires ValidEntries(es) && t.data == Archive(es) && |t.data| < LIMIT && turns > |es|
    ensures var k := FirstNamed(es, name);
      var (t1, r) := Find(t, name, turns);
      && ValidEntries(es[..k])
      && t1.pos == t1.fpos == |Body(es[..k])| && t1.pos % RECORD == 0
      && r == (if k < |es| then Found(HeaderOf(es[k])) else NotThere(NotFound))
  {
    hide TextAt, EntryBytes, FindFrom, NullAt, Archive;
    ArchivePieces(es);
    FindInBody(Rewind(t), 0, es, name, BLANK, turns);
  }

  // ---------- Writing ----------

  function Concat(chunks: seq<string>): string {
    if chunks == [] then "" else chunks[0] + Concat(chunks[1..])
  }

  ghost predicate NonEmpty(chunks: seq<string>) {
    forall i :: 0 <= i < |chunks| ==> chunks[i] != ""
  }

  function WriteChunks(t: Tar, chunks: seq<string>): (r: Tar)
    requires t.fpos <= |t.data|
    ensures r.fpos <= |r.data|
    decreases |chunks|
  {
    if chunks == [] then t else WriteChunks(WriteData(t, chunks[0]), chunks[1..])
  }

  /** At the end of the stream, where writers always are. */
  ghost predicate AtEnd(t: Tar) {
    t.fpos == |t.data| && t.pos == |t.data|
  }

  /** Appending at the end. */
  function Appended(t: Tar, bytes: string): Tar {
    t.(data := t.data + bytes, fpos := |t.data| + |bytes|, pos := |t.data| + |bytes|)
  }

  lemma WriteAtEnd(t: Tar, bytes: string)
    requires AtEnd(t) && |t.data| + |bytes| < U32
    ensures Write(t, bytes) == Appended(t, bytes) && AtEnd(Write(t, bytes))
  {
    assert t.data[..t.fpos] == t.data;
    assert t.data + bytes + "" == t.data + bytes;
  }

  lemma PaddingIsSmall(n: nat)
    ensures PaddingOf(n) < RECORD
  {
  }

  lemma WriteDataAtEnd(t: Tar, chunk: string)
    requires AtEnd(t) && |chunk| <= t.remaining < LIMIT && |t.data| + t.remaining < LIMIT
    ensures WriteData(t, chunk) ==
      var w := Appended(t.(remaining := t.remaining - |chunk|), chunk);
      if |chunk| < t.remaining then w else Appended(w, Zeros(PaddingOf(|w.data|)))
    ensures AtEnd(WriteData(t, chunk))
  {
    hide RoundUp, PaddingOf, Zeros;
    WriteAtEnd(t, chunk);
    SubU32(t.remaining, |chunk|);
    var w := Appended(t.(remaining := t.remaining - |chunk|), chunk);
    if |chunk| == t.remaining {
      RoundedSize(|w.data|);
      assert PaddingOf(|w.data|) < RECORD by { PaddingIsSmall(|w.data|); }
      SubU32(|w.data| + PaddingOf(|w.data|), |w.data|);
      WriteAtEnd(w, Zeros(PaddingOf(|w.data|)));
    }
  }

  /** Writing more than was announced is not refused either: the count wraps and no padding follows. */
  lemma WritingTooMuchWraps(t: Tar, chunk: string)
    requires AtEnd(t) && t.remaining < |chunk| < LIMIT && |t.data| + |chunk| < LIMIT
    ensures WriteData(t, chunk) == Appended(t.(remaining := U32 + t.remaining - |chunk|), chunk)
  {
    hide RoundUp, Zeros;
    WriteAtEnd(t, chunk);
    SubWraps(t.remaining, |chunk|);
  }

  lemma AppendedTwice(t: Tar, left: nat, a: string, b: string)
    ensures Appended(Appended(t.(remaining := left), a).(remaining := 0), b) == Appended(t.(remaining := 0), a + b)
    ensures |Appended(t.(remaining := left), a).data| == |t.data| + |a|
  {
    assert (t.data + a) + b == t.data + (a + b);
  }

  lemma ChunksSplit(chunks: seq<string>)
    requires chunks != [] && NonEmpty(chunks)
    ensures NonEmpty(chunks[1..]) && Concat(chunks) == chunks[0] + Concat(chunks[1..])
    ensures chunks[1..] == [] ==> Concat(chunks) == chunks[0]
    ensures chunks[1..] != [] ==> |chunks[0]| < |Concat(chunks)|
  {
    assert chunks[0] + "" == chunks[0];
    if chunks[1..] != [] {
      assert chunks[1] != "";
    }
  }

  lemma {:induction false} WriteChunksAtEnd(t: Tar, chunks: seq<string>)
    requires AtEnd(t) && chunks != [] && NonEmpty(chunks)
    requires t.remaining == |Concat(chunks)| && |t.data| + t.remaining < LIMIT
    ensures var n := PaddingOf(|t.data| + |Concat(chunks)|);
      WriteChunks(t, chunks) == Appended(Appended(t.(remaining := 0), Concat(chunks)), Zeros(n))
    decreases |chunks|
  {
    var chunk, rest := chunks[0], chunks[1..];
    ChunksSplit(chunks);
    WriteDataAtEnd(t, chunk);
    AppendedTwice(t, t.remaining - |chunk|, chunk, Concat(rest));
    if rest == [] {
      hide WriteData, PaddingOf, Zeros, Concat, NonEmpty;
    } else {
      LeftToWrite(t, chunk);
      hide WriteData, PaddingOf, Zeros, Concat, NonEmpty, Appended, AtEnd;
      WriteChunksAtEnd(WriteData(t, chunk), rest);
    }
  }

  lemma LeftToWrite(t: Tar, chunk: string)
    requires |chunk| <= t.remaining
    ensures Appended(t.(remaining := t.remaining - |chunk|), chunk).remaining == t.remaining - |chunk|
  {
  }

  /** One record to be written, with its data in pieces. */
  datatype Job = Job(entry: Entry, chunks: seq<string>)

  ghost predicate ValidJob(j: Job) {
    ValidEntry(j.entry) && NonEmpty(j.chunks) && Concat(j.chunks) == Content(j.entry)
  }

  ghost predicate ValidJobs(js: seq<Job>) {
    forall i :: 0 <= i < |js| ==> ValidJob(js[i])
  }

  function Entries(js: seq<Job>): (es: seq<Entry>)
    ensures |es| == |js| && forall i :: 0 <= i < |js| ==> es[i] == js[i].entry
  {
    if js == [] then [] else [js[0].entry] + Entries(js[1..])
  }

  ghost function WriteJob(t: Tar, j: Job): (r: Tar)
    requires ValidJob(j) && t.fpos <= |t.data|
    ensures r.fpos <= |r.data|
  {
    EntryIsStorable(j.entry);
    WriteChunks(WriteHeader(t, HeaderOf(j.entry)), j.chunks)
  }

  ghost function WriteJobs(t: Tar, js: seq<Job>): (r: Tar)
    requires ValidJobs(js) && t.fpos <= |t.data|
    ensures r.fpos <= |r.data|
    decreases |js|
  {
    if js == [] then t else WriteJobs(WriteJob(t, js[0]), js[1..])
  }

  lemma WriteJobAtEnd(t: Tar, j: Job)
    requires ValidJob(j) && AtEnd(t) && |t.data| % RECORD == 0
    requires |t.data| + |EntryBytes(j.entry)| < LIMIT
    ensures WriteJob(t, j).data == t.data + EntryBytes(j.entry) && AtEnd(WriteJob(t, j))
  {
    hide RawOf, WriteData, Write, HeaderOf, Content, Zeros, PaddingOf;
    var e := j.entry;
    EntryIsStorable(e);
    HeaderSizes(e);
    var raw, c := RawOf(HeaderOf(e)), Content(e);
    var t0 := t.(remaining := |c|);
    WriteAtEnd(t0, raw);
    var w := Write(t0, raw);
    PaddingIgnoresRecords(|t.data| + RECORD, |c|);
    if j.chunks == [] {
      assert c == "";
      NoPadding();
      assert raw + "" + "" == raw;
    } else {
      WriteChunksAtEnd(w, j.chunks);
      assert t.data + raw + c + Zeros(PaddingOf(|c|)) == t.data + (raw + c + Zeros(PaddingOf(|c|)));
    }
  }

  lemma PaddingIgnoresRecords(base: nat, n: nat)
    requires base % RECORD == 0
    ensures PaddingOf(base + n) == PaddingOf(n)
  {
    var q := base / RECORD;
    assert base + n == RECORD * (q + n / RECORD) + n % RECORD;
    assert (base + n) % RECORD == n % RECORD;
  }

  lemma {:induction false} WriteJobsAtEnd(t: Tar, js: seq<Job>)
    requires ValidJobs(js) && AtEnd(t) && |t.data| % RECORD == 0
    requires ValidEntries(Entries(js)) && |t.data| + |Body(Entries(js))| < LIMIT
    ensures WriteJobs(t, js).data == t.data + Body(Entries(js)) && AtEnd(WriteJobs(t, js))
    decreases |js|
  {
    hide WriteJob, EntryBytes, Body, Entries;
    if js == [] {
      assert Entries(js) == [] && Body(Entries(js)) == "" by { NoJobs(js); }
      assert t.data + "" == t.data;
    } else {
      var a := EntryBytes(js[0].entry);
      BodyOfJobs(js);
      WriteJobAtEnd(t, js[0]);
      AlignedSum(|t.data|, |a|);
      WriteJobsAtEnd(WriteJob(t, js[0]), js[1..]);
      assert t.data + a + Body(Entries(js[1..])) == t.data + (a + Body(Entries(js[1..])));
    }
  }

  lemma NoJobs(js: seq<Job>)
    requires js == []
    ensures Entries(js) == [] && ValidEntries(Entries(js)) && Body(Entries(js)) == ""
  {
  }

  lemma BodyOfJobs(js: seq<Job>)
    requires ValidJobs(js) && js != [] && ValidEntries(Entries(js))
    ensures ValidJob(js[0]) && ValidJobs(js[1..]) && ValidEntries(Entries(js[1..]))
    ensures Body(Entries(js)) == EntryBytes(js[0].entry) + Body(Entries(js[1..]))
  {
    hide EntryBytes;
    assert Entries(js)[1..] == Entries(js[1..]);
    JobsAreValidEntries(js[1..]);
  }

  lemma JobsAreValidEntries(js: seq<Job>)
    requires ValidJobs(js)
    ensures ValidEntries(Entries(js))
  {
    forall i | 0 <= i < |js| ensures ValidEntry(Entries(js)[i]) {
      assert ValidJob(js[i]);
    }
  }

  /** Whatever the chunking, the writer produces the archive of its records. */
  lemma WriterProducesArchive(js: seq<Job>)
    requires ValidJobs(js)
    ensures ValidEntries(Entries(js))
    ensures |Archive(Entries(js))| < LIMIT ==>
      Finalize(WriteJobs(Opened(""), js)).data == Archive(Entries(js))
  {
    hide EntryBytes, WriteJob;
    JobsAreValidEntries(js);
    if |Archive(Entries(js))| < LIMIT {
      WriteJobsAtEnd(Opened(""), js);
      assert "" + Body(Entries(js)) == Body(Entries(js));
      WriteAtEnd(WriteJobs(Opened(""), js), Zeros(2 * RECORD));
    }
  }

  /** What was written, in any chunking, is what is extracted. */
  lemma WriteThenExtract(js: seq<Job>, h: Header, turns: nat)
    requires ValidJobs(js) && js != [] && turns > |js|
    ensures ValidEntries(Entries(js))
    ensures |Archive(Entries(js))| < LIMIT ==>
      Extract(Finalize(WriteJobs(Opened(""), js)).data, h, turns) == Done(Extracted(Entries(js)))
    ensures |Archive(Entries(js))| < LIMIT ==>
      exists at :: FilesInOrder(Entries(js), Extracted(Entries(js)), at)
  {
    WriterProducesArchive(js);
    if |Archive(Entries(js))| < LIMIT {
      ExtractArchive(Entries(js), h, turns);
      var at := ExtractedInOrder(Entries(js));
    }
  }

  // ---------- Reading record by record ----------

  /** Any positive pieces that make up the data; none for a record without data. */
  ghost predicate Chunking(e: Entry, sizes: seq<nat>) {
    Positive(sizes) && Total(sizes) == |Content(e)|
  }

  ghost predicate Chunkings(es: seq<Entry>, sizes: seq<seq<nat>>) {
    |sizes| == |es| && forall i :: 0 <= i < |es| ==> Chunking(es[i], sizes[i])
  }

  /** From wherever the cursor stands: the header, the data in pieces, and the way to the next record. */
  lemma RecordReadsBack(t: Tar, off: nat, e: Entry, prior: Header, sizes: seq<nat>)
    requires ValidEntry(e) && CursorAt(t, off) && TextAt(t.data, off, EntryBytes(e)) && t.remaining == 0
    requires Chunking(e, sizes)
    ensures var t1 := t.(lastHeader := off);
      && ReadHeader(t, prior) == (t1, Loaded(HeaderOf(e)))
      && ReadChunks(t1, sizes) == (t1, Bytes(Content(e)))
      && Next(t1) == (Seek(t1, off + |EntryBytes(e)|), None)
  {
    hide TextAt, EntryBytes, ReadHeader, ReadData, Next;
    ReadHeaderAtEntry(t, off, e, prior);
    var t1 := t.(lastHeader := off);
    if sizes == [] {
      assert Content(e) == "";
    } else {
      ChunksAtEntry(t1, off, e, sizes);
    }
    NextAtEntry(t1, off, e);
  }

  /** What a walk has listed, and the error that ended it; none when it was not told how to read on. */
  datatype Listing = Listing(records: seq<(Header, string)>, stop: Option<Error>)

  /** Header, data in the given pieces, next record, and again until a header cannot be loaded. */
  function Walk(t: Tar, sizes: seq<seq<nat>>): Listing
    decreases |sizes|
  {
    match ReadHeader(t, BLANK)
    case (_, Refused(e)) => Listing([], Some(e))
    case (t1, Loaded(h)) =>
      if sizes == [] then Listing([], None)
      else match ReadChunks(t1, sizes[0])
        case (_, DataFail(e)) => Listing([], Some(e))
        case (t2, Bytes(b)) =>
          match Next(t2)
          case (_, Some(e)) => Listing([(h, b)], Some(e))
          case (t3, None) => var rest := Walk(t3, sizes[1..]);
            Listing([(h, b)] + rest.records, rest.stop)
  }

  /** The headers and bytes of the records, in order. */
  function Records(es: seq<Entry>): (rs: seq<(Header, string)>)
    ensures |rs| == |es| && forall i :: 0 <= i < |es| ==> rs[i] == (HeaderOf(es[i]), Content(es[i]))
  {
    if es == [] then [] else [(HeaderOf(es[0]), Content(es[0]))] + Records(es[1..])
  }

  lemma {:induction false} WalkBody(t: Tar, off: nat, es: seq<Entry>, sizes: seq<seq<nat>>)
    requires ValidEntries(es) && CursorAt(t, off) && TextAt(t.data, off, Body(es)) && t.remaining == 0
    requires NullAt(t.data, off + |Body(es)|) && Chunkings(es, sizes)
    ensures Walk(t, sizes) == Listing(Records(es), Some(NullRecord))
    decreases |es|
  {
    hide TextAt, EntryBytes, ReadHeader, ReadChunks, Next, NullAt, HeaderOf, Content;
    if es == [] {
      ReadHeaderAtNull(t, BLANK);
    } else {
      var e := es[0];
      FirstOfBody(t.data, off, es);
      RecordReadsBack(t, off, e, BLANK, sizes[0]);
      EntryPieces(t.data, off, e);
      var t3 := Seek(t.(lastHeader := off), off + |EntryBytes(e)|);
      assert forall i :: 0 <= i < |es[1..]| ==> es[1..][i] == es[i + 1] && sizes[1..][i] == sizes[i + 1];
      WalkBody(t3, off + |EntryBytes(e)|, es[1..], sizes[1..]);
    }
  }

  /**
   * A written archive, walked from its start in any pieces: exactly its records, empty files and
   * directories included, in order, and then the null record.
   */
  lemma WalkArchive(t: Tar, es: seq<Entry>, sizes: seq<seq<nat>>)
    requires ValidEntries(es) && t.data == Archive(es) && CursorAt(t, 0) && t.remaining == 0
    requires Chunkings(es, sizes)
    ensures Walk(t, sizes) == Listing(Records(es), Some(NullRecord))
  {
    hide TextAt, Body, NullAt, Walk, Archive;
    ArchivePieces(es);
    WalkBody(t, 0, es, sizes);
  }

  /**
   * What was written, in any pieces, is what is read back, in any other pieces, by a cursor just
   * opened or rewound.
   */
  lemma WriteThenWalk(js: seq<Job>, t: Tar, sizes: seq<seq<nat>>)
    requires ValidJobs(js) && Chunkings(Entries(js), sizes)
    requires t.data == Finalize(WriteJobs(Opened(""), js)).data && CursorAt(t, 0) && t.remaining == 0
    ensures ValidEntries(Entries(js))
    ensures |Archive(Entries(js))| < LIMIT ==>
      Walk(t, sizes) == Listing(Records(Entries(js)), Some(NullRecord))
  {
    WriterProducesArchive(js);
    if |Archive(Entries(js))| < LIMIT {
      WalkArchive(t, Entries(js), sizes);
    }
  }

  /** Every record, standing at its 512-aligned offset, is read back in any pieces and leads to the next offset. */
  lemma RecordsReadBack(t: Tar, es: seq<Entry>, k: nat, prior: Header, sizes: seq<nat>)
    requires ValidEntries(es) && t.data == Archive(es) && k < |es| && t.remaining == 0
    requires ValidEntries(es[..k]) && CursorAt(t, |Body(es[..k])|)
    requires Chunking(es[k], sizes)
    ensures ValidEntries(es[..k + 1])
    ensures var off := |Body(es[..k])|;
      var t1 := t.(lastHeader := off);
      && off % RECORD == 0
      && ReadHeader(t, prior) == (t1, Loaded(HeaderOf(es[k])))
      && ReadChunks(t1, sizes) == (t1, Bytes(Content(es[k])))
      && Next(t1) == (Seek(t1, |Body(es[..k + 1])|), None)
  {
    hide TextAt, EntryBytes, ReadHeader, ReadChunks, Next, Archive, NullAt;
    ArchivePieces(es);
    RecordAt(t.data, 0, es, k);
    RecordReadsBack(t, |Body(es[..k])|, es[k], prior, sizes);
  }

  lemma {:induction false} RecordAt(data: string, off: nat, es: seq<Entry>, k: nat)
    requires ValidEntries(es) && TextAt(data, off, Body(es)) && k < |es|
    ensures ValidEntries(es[..k]) && ValidEntries(es[..k + 1])
    ensures TextAt(data, off + |Body(es[..k])|, EntryBytes(es[k]))
    ensures |Body(es[..k + 1])| == |Body(es[..k])| + |EntryBytes(es[k])|
    decreases k
  {
    hide TextAt, EntryBytes, Body;
    FirstOfBody(data, off, es);
    if k == 0 {
      NoBody(es[..0]);
      NoBody(es[1..][..0]);
    } else {
      RecordAt(data, off + |EntryBytes(es[0])|, es[1..], k - 1);
      BodyOfPrefix(es, k);
      assert es[1..][k - 1] == es[k];
    }
    BodyOfPrefix(es, k + 1);
  }
}
