/** Archives as byte strings, and the cursor operations over them as functions on states. */
module TarArchive {
  import opened TarFormat
  import opened Wrappers

  /**
   * The stream with its own position, and the cursor beside it: `pos` counts what was asked for,
   * `fpos` is where the stream really is.
   */
  datatype Tar = Tar(data: string, fpos: nat, pos: nat, remaining: nat, lastHeader: nat)

  const BLANK: Header := Header(0, 0, 0, 0, 0, "", "")

  // ---------- Reading ----------

  function Seek(t: Tar, p: nat): Tar {
    t.(fpos := p, pos := p)
  }

  function Available(t: Tar, size: nat): nat {
    if t.fpos >= |t.data| then 0
    else if t.fpos + size <= |t.data| then size
    else |t.data| - t.fpos
  }

  /** The cursor moves by the requested size even when the stream ends early. */
  function AfterRead(t: Tar, size: nat): Tar {
    t.(fpos := t.fpos + Available(t, size), pos := (t.pos + size) % U32)
  }

  function RoundUp(n: nat, incr: nat): nat
    requires 0 < incr
  {
    (n + (incr - n % incr) % incr) % U32
  }

  function ReadHeader(t: Tar, prior: Header): (Tar, HeaderResult) {
    var marked := t.(lastHeader := t.pos);
    var read := AfterRead(marked, RECORD);
    if Available(marked, RECORD) != RECORD then (read, Refused(ReadFail))
    else (Seek(read, marked.lastHeader), RawToHeader(t.data[t.fpos..t.fpos + RECORD], prior))
  }

  /** Moves to the next record; a failure to read the header leaves the cursor where that read left it. */
  function Next(t: Tar): (Tar, Option<Error>) {
    match ReadHeader(t, BLANK)
    case (t1, Refused(e)) => (t1, Some(e))
    case (t1, Loaded(h)) => (Seek(t1, (t1.pos + RoundUp(h.size, RECORD) + RECORD) % U32), None)
  }

  datatype DataResult = Bytes(bytes: string) | DataFail(error: Error)

  /** The read proper, once the data of the record has been reached. */
  function ReadRemaining(t: Tar, size: nat): (Tar, DataResult) {
    var read := AfterRead(t, size);
    if Available(t, size) != size then (read, DataFail(ReadFail))
    else
      var bytes := if size == 0 then "" else t.data[t.fpos..t.fpos + size];
      var left := read.(remaining := (read.remaining + U32 - size % U32) % U32);
      (if left.remaining == 0 then Seek(left, left.lastHeader) else left, Bytes(bytes))
  }

  function ReadData(t: Tar, size: nat): (Tar, DataResult) {
    if t.remaining != 0 then ReadRemaining(t, size)
    else match ReadHeader(t, BLANK)
      case (t1, Refused(e)) => (t1, DataFail(e))
      case (t1, Loaded(h)) => ReadRemaining(Seek(t1, (t1.pos + RECORD) % U32).(remaining := h.size), size)
  }

  function Rewind(t: Tar): Tar {
    Seek(t.(remaining := 0, lastHeader := 0), 0)
  }

  datatype FindResult = Found(header: Header) | NotThere(error: Error) | StillSearching

  /** The search loop, for at most `turns` turns. */
  function FindFrom(t: Tar, name: string, header: Header, turns: nat): (Tar, FindResult)
    decreases turns
  {
    if turns == 0 then (t, StillSearching)
    else match ReadHeader(t, header)
      case (t1, Refused(e)) => (t1, NotThere(if e == NullRecord then NotFound else e))
      case (t1, Loaded(h)) =>
        if h.name == name then (t1, Found(h)) else FindFrom(Next(t1).0, name, h, turns - 1)
  }

  function Find(t: Tar, name: string, turns: nat): (Tar, FindResult) {
    FindFrom(Rewind(t), name, BLANK, turns)
  }

  // ---------- Extraction ----------

  /** The files written, in order, or the error thrown. */
  datatype Extraction = Done(files: seq<(string, string)>) | Thrown(error: Error) | Unfinished

  predicate IsExtracted(h: Header) {
    h.kind != TDIR && h.name != "pax_global_header"
  }

  /** The extraction loop for at most `turns` turns; `h` is what the header variable holds. */
  function ExtractFrom(t: Tar, h: Header, files: seq<(string, string)>, turns: nat): Extraction
    decreases turns
  {
    if turns == 0 then Unfinished
    else
      var (t1, r) := ReadHeader(t, h);
      if r == Refused(NullRecord) then Done(files)
      else
        var current := if r.Loaded? then r.header else h;
        if !IsExtracted(current) then ExtractFrom(Next(t1).0, current, files, turns - 1)
        else match ReadData(t1, current.size)
          case (_, DataFail(e)) => Thrown(e)
          case (t2, Bytes(b)) => ExtractFrom(Next(t2).0, current, files + [(current.name, b)], turns - 1)
  }

  function Opened(data: string): Tar {
    Tar(data, 0, 0, 0, 0)
  }

  /** Opening for reading loads the first header; `h` is the uninitialised header variable of the loop. */
  function Extract(data: string, h: Header, turns: nat): Extraction {
    match ReadHeader(Opened(data), BLANK)
    case (_, Refused(e)) => Thrown(e)
    case (t, Loaded(_)) => ExtractFrom(t, h, [], turns)
  }

  // ---------- Writing ----------

  /** The in-memory stream never refuses a write; writing past its end is not part of this model. */
  function Write(t: Tar, bytes: string): Tar
    requires t.fpos <= |t.data|
  {
    t.(data := Overwritten(t.data, t.fpos, bytes), fpos := t.fpos + |bytes|, pos := (t.pos + |bytes|) % U32)
  }

  function Overwritten(data: string, at: nat, bytes: string): string
    requires at <= |data|
  {
    var end := at + |bytes|;
    data[..at] + bytes + (if end < |data| then data[end..] else "")
  }

  ghost function WriteHeader(t: Tar, h: Header): Tar
    requires Storable(h) && t.fpos <= |t.data|
  {
    Write(t.(remaining := h.size), RawOf(h))
  }

  function WriteData(t: Tar, bytes: string): (r: Tar)
    requires t.fpos <= |t.data|
    ensures r.fpos <= |r.data|
  {
    var w := Write(t, bytes);
    var left := w.(remaining := (w.remaining + U32 - |bytes| % U32) % U32);
    if left.remaining != 0 then left
    else Write(left, Zeros((RoundUp(left.pos, RECORD) + U32 - left.pos % U32) % U32))
  }

  function Finalize(t: Tar): Tar
    requires t.fpos <= |t.data|
  {
    Write(t, Zeros(2 * RECORD))
  }

  // ---------- Archives ----------

  datatype Entry = File(name: string, content: string) | Dir(name: string)

  function FileHeader(name: string, size: nat): Header {
    Header(436, 0, size, 0, TREG, name, "")
  }

  function DirHeader(name: string): Header {
    Header(509, 0, 0, 0, TDIR, name, "")
  }

  function Content(e: Entry): string {
    if e.File? then e.content else ""
  }

  function HeaderOf(e: Entry): Header {
    if e.File? then FileHeader(e.name, |e.content|) else DirHeader(e.name)
  }

  ghost predicate ValidEntry(e: Entry) {
    IsName(e.name) && |Content(e)| < U32 / 2
  }

  ghost predicate ValidEntries(es: seq<Entry>) {
    forall i :: 0 <= i < |es| ==> ValidEntry(es[i])
  }

  lemma EntryIsStorable(e: Entry)
    requires ValidEntry(e)
    ensures Storable(HeaderOf(e)) && Normalised(HeaderOf(e)) == HeaderOf(e)
  {
    ElevenDigits();
    assert Numerals.Pow(Numerals.Octal, 7) >= 512 by {
      Numerals.PowMonotone(Numerals.Octal, 6, 7);
    }
  }

  function PaddingOf(n: nat): nat {
    (RECORD - n % RECORD) % RECORD
  }

  ghost function EntryBytes(e: Entry): (b: string)
    requires ValidEntry(e)
    ensures |b| == RECORD + |Content(e)| + PaddingOf(|Content(e)|)
    ensures |b| % RECORD == 0
  {
    EntryIsStorable(e);
    RawOf(HeaderOf(e)) + Content(e) + Zeros(PaddingOf(|Content(e)|))
  }

  lemma AlignedSum(a: nat, b: nat)
    requires a % RECORD == 0 && b % RECORD == 0
    ensures (a + b) % RECORD == 0
  {
    var x, y := a / RECORD, b / RECORD;
    assert a + b == RECORD * (x + y);
  }

  ghost function Body(es: seq<Entry>): (b: string)
    requires ValidEntries(es)
    ensures |b| % RECORD == 0
  {
    if es == [] then ""
    else
      AlignedSum(|EntryBytes(es[0])|, |Body(es[1..])|);
      EntryBytes(es[0]) + Body(es[1..])
  }

  /** What any sequence of headers and data, finalized, amounts to. */
  ghost function Archive(es: seq<Entry>): string
    requires ValidEntries(es)
  {
    Body(es) + Zeros(2 * RECORD)
  }
}
