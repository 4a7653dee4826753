/** The tar cursor as an object, header output into a buffer, and the extraction loop. */
module TarFile {
  import opened Numerals
  import opened TarFormat
  import opened TarArchive
  import opened Wrappers

  // ---------- Header output ----------

  /** Copies text into a zeroed field that starts where the written prefix ends. */
  method WriteField(raw: array<char>, ghost prefix: string, off: nat, t: string, width: nat)
    requires raw.Length == RECORD && off == |prefix| && |t| <= width && off + width <= RECORD
    requires raw[..] == prefix + Zeros(RECORD - off)
    modifies raw
    ensures raw[..] == (prefix + Padded(t, width)) + Zeros(RECORD - off - width)
  {
    for i := 0 to |t|
      invariant raw[..] == prefix + t[..i] + Zeros(RECORD - off - i)
    {
      raw[off + i] := t[i];
    }
    assert t[..|t|] == t;
    assert Zeros(RECORD - off - |t|) == Zeros(width - |t|) + Zeros(RECORD - off - width);
  }

  method HeaderToRaw(h: Header) returns (raw: array<char>)
    requires Storable(h)
    ensures fresh(raw) && raw.Length == RECORD && raw[..] == RawOf(h)
  {
    FieldsFit(h);
    hide Print, Padded;
    raw := new char[RECORD](_ => '\0');
    assert raw[..] == "" + Zeros(RECORD);
    var mode, owner := Print(Octal, h.mode), Print(Octal, h.owner);
    var size, mtime := Print(Octal, h.size), Print(Octal, h.mtime);
    WriteField(raw, "", 0, h.name, 100);
    ghost var p := "" + Padded(h.name, 100);
    assert p == Padded(h.name, 100);
    WriteField(raw, p, 100, mode, 8);
    p := p + Padded(mode, 8);
    WriteField(raw, p, 108, owner, 8);
    p := p + Padded(owner, 8);
    assert Zeros(396) == Zeros(8) + Zeros(388);
    p := p + Zeros(8);
    WriteField(raw, p, 124, size, 12);
    p := p + Padded(size, 12);
    WriteField(raw, p, 136, mtime, 12);
    p := p + Padded(mtime, 12);
    assert p == FrontOf(h);
    assert Zeros(364) == Zeros(8) + Zeros(356);
    WriteRest(raw, h);
  }

  /** The kind, the link name, and last the checksum of everything around it. */
  method WriteRest(raw: array<char>, h: Header)
    requires Storable(h) && raw.Length == RECORD && raw[..] == FrontOf(h) + Zeros(364)
    modifies raw
    ensures raw[..] == RawOf(h)
  {
    ghost var front, back := FrontOf(h), BackOf(h);
    ghost var p := front + Zeros(8);
    assert p + Zeros(356) == front + Zeros(364);
    hide FrontOf, Padded;
    WriteField(raw, p, 156, [KindChar(h.kind)], 1);
    PaddedExactly([KindChar(h.kind)]);
    WriteField(raw, p + [KindChar(h.kind)], 157, h.linkname, 100);
    assert raw[..] == front + Zeros(8) + back;
    assert raw[..148] == front && raw[156..] == back;
    RecordIsBytes(h);
    var chksum := Checksum(raw);
    SumFitsSixDigits(h);
    WriteChecksum(raw, h, chksum);
  }

  lemma PaddedExactly(t: string)
    ensures Padded(t, |t|) == t
  {
  }

  lemma RecordIsBytes(h: Header)
    requires Storable(h)
    ensures AreBytes(FrontOf(h) + Zeros(8) + BackOf(h))
  {
    hide FrontOf, BackOf, AreBytes;
    FrontIsBytes(h);
    ZeroBytes(8);
    BytesOfConcat(FrontOf(h), Zeros(8));
    BytesOfConcat(FrontOf(h) + Zeros(8), BackOf(h));
  }

  method WriteChecksum(raw: array<char>, h: Header, chksum: nat)
    requires Storable(h) && raw.Length == RECORD && raw[..] == FrontOf(h) + Zeros(8) + BackOf(h)
    requires chksum == 256 + Sum(FrontOf(h)) + Sum(BackOf(h)) && |Print(Octal, chksum)| <= 6
    modifies raw
    ensures raw[..] == RawOf(h)
  {
    ghost var front, back := FrontOf(h), BackOf(h);
    ghost var field := ChecksumField(h);
    var digits := Octal6(chksum);
    assert field == digits + ['\0', ' '];
    hide FrontOf, BackOf, Sum, Octal6, Print, ChecksumField;
    ghost var mid := Zeros(8);
    for i := 0 to 6
      invariant mid == digits[..i] + Zeros(8 - i) && raw[..] == front + mid + back
    {
      MiddleChanges(front, mid, back, i, digits[i]);
      raw[148 + i] := digits[i];
      DigitPlaced(digits, i);
      mid := mid[i := digits[i]];
    }
    MiddleChanges(front, mid, back, 7, ' ');
    raw[155] := ' ';
    assert mid[7 := ' '] == field;
  }

  lemma DigitPlaced(digits: string, i: nat)
    requires i < |digits| == 6
    ensures (digits[..i] + Zeros(8 - i))[i := digits[i]] == digits[..i + 1] + Zeros(8 - (i + 1))
  {
  }

  lemma MiddleChanges(front: string, mid: string, back: string, i: nat, c: char)
    requires i < |mid|
    ensures (front + mid + back)[|front| + i := c] == front + mid[i := c] + back
  {
  }

  // ---------- The cursor ----------

  class MTar {
    var data: string
    var fpos: nat
    var pos: nat
    var remaining: nat
    var lastHeader: nat

    ghost function State(): Tar
      reads this
    {
      Tar(data, fpos, pos, remaining, lastHeader)
    }

    constructor (data: string)
      ensures State() == Opened(data)
    {
      this.data := data;
      fpos, pos, remaining, lastHeader := 0, 0, 0, 0;
    }

    /** Fewer bytes than asked for is a failure; the cursor advances by the request all the same. */
    method TRead(size: nat) returns (ok: bool, bytes: string)
      modifies this
      ensures State() == AfterRead(old(State()), size)
      ensures pos == (old(pos) + size) % U32 && data == old(data)
      ensures if ok then fpos == old(fpos) + size else old(fpos) <= fpos && (fpos >= |data|)
      ensures ok <==> Available(old(State()), size) == size
      ensures ok <==> size == 0 || old(fpos) + size <= |data|
      ensures ok ==> |bytes| == size
      ensures ok && size > 0 ==> bytes == data[old(fpos)..old(fpos) + size]
    {
      var n := if fpos >= |data| then 0 else if fpos + size <= |data| then size else |data| - fpos;
      bytes := if n == 0 then "" else data[fpos..fpos + n];
      ok := n == size;
      fpos := fpos + n;
      pos := (pos + size) % U32;
    }

    method TWrite(bytes: string)
      requires fpos <= |data|
      modifies this
      ensures State() == Write(old(State()), bytes)
      ensures fpos == old(fpos) + |bytes| <= |data| && data[old(fpos)..fpos] == bytes
      ensures data[..old(fpos)] == old(data[..fpos]) && pos == (old(pos) + |bytes|) % U32
      ensures old(fpos) + |bytes| <= old(|data|) ==> data[fpos..] == old(data)[old(fpos) + |bytes|..]
    {
      data := Overwritten(data, fpos, bytes);
      fpos := fpos + |bytes|;
      pos := (pos + |bytes|) % U32;
    }

    /** One NUL byte at a time. */
    method WriteNullBytes(n: nat)
      requires fpos <= |data| && pos < U32
      modifies this
      ensures State() == Write(old(State()), Zeros(n))
    {
      hide Write;
      ghost var start := State();
      WriteNothing(start);
      assert Zeros(0) == "";
      for i := 0 to n
        invariant fpos <= |data| && State() == Write(start, Zeros(i))
      {
        WriteTwice(start, Zeros(i), ['\0']);
        TWrite(['\0']);
        assert Zeros(i) + ['\0'] == Zeros(i + 1);
      }
    }

    method SeekTo(p: nat)
      modifies this
      ensures State() == Seek(old(State()), p)
      ensures fpos == p && pos == p && data == old(data)
      ensures remaining == old(remaining) && lastHeader == old(lastHeader)
    {
      fpos := p;
      pos := p;
    }

    method ReadHeaderInto(prior: Header) returns (r: HeaderResult)
      modifies this
      ensures (State(), r) == ReadHeader(old(State()), prior)
    {
      hide RawToHeader;
      lastHeader := pos;
      var ok, raw := TRead(RECORD);
      if !ok {
        return Refused(ReadFail);
      }
      SeekTo(lastHeader);
      r := RawToHeader(raw, prior);
    }

    method NextRecord() returns (err: Option<Error>)
      modifies this
      ensures (State(), err) == Next(old(State()))
    {
      hide ReadHeader, RoundUp;
      var r := ReadHeaderInto(BLANK);
      if r.Refused? {
        return Some(r.error);
      }
      SeekTo((pos + RoundUp(r.header.size, RECORD) + RECORD) % U32);
      return None;
    }

    method ReadDataInto(size: nat) returns (r: DataResult)
      modifies this
      ensures (State(), r) == ReadData(old(State()), size)
    {
      hide ReadHeader;
      if remaining == 0 {
        var h := ReadHeaderInto(BLANK);
        if h.Refused? {
          return DataFail(h.error);
        }
        SeekTo((pos + RECORD) % U32);
        remaining := h.header.size;
      }
      var ok, bytes := TRead(size);
      if !ok {
        return DataFail(ReadFail);
      }
      remaining := (remaining + U32 - size % U32) % U32;
      if remaining == 0 {
        SeekTo(lastHeader);
      }
      assert size == 0 ==> bytes == "";
      return Bytes(bytes);
    }

    /** The search, for at most `turns` turns of its loop. */
    method FindRecord(name: string, turns: nat) returns (r: FindResult)
      modifies this
      ensures (State(), r) == Find(old(State()), name, turns)
    {
      hide ReadHeader, Next;
      remaining := 0;
      lastHeader := 0;
      SeekTo(0);
      var header := BLANK;
      ghost var goal := FindFrom(State(), name, header, turns);
      for i := 0 to turns
        invariant goal == FindFrom(State(), name, header, turns - i)
      {
        var loaded := ReadHeaderInto(header);
        if loaded.Refused? {
          return NotThere(if loaded.error == NullRecord then NotFound else loaded.error);
        }
        header := loaded.header;
        if header.name == name {
          return Found(header);
        }
        var _ := NextRecord();
      }
      return StillSearching;
    }

    method WriteHeaderOf(h: Header)
      requires Storable(h) && fpos <= |data|
      modifies this
      ensures State() == WriteHeader(old(State()), h)
    {
      var raw := HeaderToRaw(h);
      remaining := h.size;
      TWrite(raw[..]);
    }

    method WriteFileHeader(name: string, size: nat)
      requires IsName(name) && size < U32 && fpos <= |data|
      modifies this
      ensures Storable(FileHeader(name, size))
      ensures State() == WriteHeader(old(State()), FileHeader(name, size))
    {
      SmallModes(name, size);
      WriteHeaderOf(FileHeader(name, size));
    }

    method WriteDirHeader(name: string)
      requires IsName(name) && fpos <= |data|
      modifies this
      ensures Storable(DirHeader(name))
      ensures State() == WriteHeader(old(State()), DirHeader(name))
    {
      SmallModes(name, 0);
      WriteHeaderOf(DirHeader(name));
    }

    method WriteDataOf(bytes: string)
      requires fpos <= |data|
      modifies this
      ensures State() == WriteData(old(State()), bytes)
    {
      TWrite(bytes);
      remaining := (remaining + U32 - |bytes| % U32) % U32;
      if remaining == 0 {
        WriteNullBytes((RoundUp(pos, RECORD) + U32 - pos % U32) % U32);
      }
    }

    method FinalizeArchive()
      requires fpos <= |data| && pos < U32
      modifies this
      ensures State() == Finalize(old(State()))
    {
      WriteNullBytes(2 * RECORD);
    }
  }

  lemma SmallModes(name: string, size: nat)
    requires IsName(name) && size < U32
    ensures Storable(FileHeader(name, size)) && Storable(DirHeader(name))
  {
    ElevenDigits();
    PowMonotone(Octal, 6, 7);
  }

  lemma WriteNothing(t: Tar)
    requires t.fpos <= |t.data| && t.pos < U32
    ensures Write(t, "") == t
  {
    assert t.data[..t.fpos] + "" + t.data[t.fpos..] == t.data;
  }

  lemma WriteTwice(t: Tar, a: string, b: string)
    requires t.fpos <= |t.data|
    ensures var u := Write(t, a);
      && u.fpos <= |u.data| && Write(u, b).fpos <= |Write(u, b).data|
      && Write(u, b) == Write(t, a + b)
  {
    OverwrittenTwice(t.data, t.fpos, a, b);
    hide Overwritten;
    SumWraps(t.pos + |a|, |b|);
  }

  lemma SumWraps(m: nat, n: nat)
    ensures (m % U32 + n) % U32 == (m + n) % U32
  {
    assert m + n == U32 * (m / U32) + (m % U32 + n);
  }

  lemma OverwrittenTwice(data: string, at: nat, a: string, b: string)
    requires at <= |data|
    ensures var u := Overwritten(data, at, a);
      && at + |a| + |b| <= |Overwritten(data, at, a + b)|
      && at + |a| <= |u|
      && Overwritten(u, at + |a|, b) == Overwritten(data, at, a + b)
  {
    var u, mid := Overwritten(data, at, a), at + |a|;
    var end := mid + |b|;
    assert u[..mid] == data[..at] + a;
    assert (data[..at] + a) + b == data[..at] + (a + b);
    if end < |data| {
      assert u[end..] == data[mid..][|b|..] == data[end..];
    }
  }

  // ---------- Extraction ----------

  /** Opening for reading checks that a first header loads. */
  method Open(data: string) returns (tar: MTar, err: Option<Error>)
    ensures fresh(tar)
    ensures match ReadHeader(Opened(data), BLANK)
      case (t, Refused(e)) => err == Some(e)
      case (t, Loaded(_)) => err == None && tar.State() == t
  {
    hide ReadHeader;
    tar := new MTar(data);
    var r := tar.ReadHeaderInto(BLANK);
    err := if r.Refused? then Some(r.error) else None;
  }

  /** The whole extraction, for at most `turns` turns of its loop. */
  method ExtractAll(data: string, uninitialised: Header, turns: nat) returns (r: Extraction)
    ensures r == Extract(data, uninitialised, turns)
  {
    hide ReadHeader, ReadData, Next;
    var tar, err := Open(data);
    if err.Some? {
      return Thrown(err.value);
    }
    var h := uninitialised;
    var files: seq<(string, string)> := [];
    ghost var goal := ExtractFrom(tar.State(), h, files, turns);
    for i := 0 to turns
      invariant goal == ExtractFrom(tar.State(), h, files, turns - i)
    {
      var loaded := tar.ReadHeaderInto(h);
      if loaded == Refused(NullRecord) {
        return Done(files);
      }
      if loaded.Loaded? {
        h := loaded.header;
      }
      if IsExtracted(h) {
        var d := tar.ReadDataInto(h.size);
        if d.DataFail? {
          return Thrown(d.error);
        }
        files := files + [(h.name, d.bytes)];
      }
      var _ := tar.NextRecord();
    }
    return Unfinished;
  }
}
