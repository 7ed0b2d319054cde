/**
 * The archive layout that the reader expects, as a printer (PKWARE APPNOTE.TXT, sections 4.3.12
 * and 4.3.16), and what reading a printed archive gives back.
 */
module ZipRoundTrip {
  import opened Wrappers
  import opened ZipReader

  /** A Central Directory record; `lead` and `rest` are the fields the reader does not look at. */
  datatype Entry = Entry(lead: bytes, rest: bytes, name: bytes, extra: bytes, comment: bytes) {
    predicate Valid() {
      && |lead| == 24 && |rest| == 12
      && |name| < 0x1_0000 && |extra| < 0x1_0000 && |comment| < 0x1_0000
    }
  }

  predicate AllValid(entries: seq<Entry>) {
    forall i :: 0 <= i < |entries| ==> entries[i].Valid()
  }

  function Le16(n: nat): (b: bytes)
    requires n < 0x1_0000
    ensures |b| == 2 && ReadUInt16LE(b, 0) == n
  {
    [n % 0x100, n / 0x100]
  }

  function Le32(n: nat): (b: bytes)
    requires n < 0x1_0000_0000
    ensures |b| == 4 && ReadUInt32LE(b, 0) == n
  {
    Le16(n % 0x1_0000) + Le16(n / 0x1_0000)
  }

  function Header(e: Entry): (b: bytes)
    requires e.Valid()
    ensures |b| == 46
  {
    [0x50, 0x4b, 0x01, 0x02] + e.lead + Le16(|e.name|) + Le16(|e.extra|) + Le16(|e.comment|) + e.rest
  }

  function Record(e: Entry): (b: bytes)
    requires e.Valid()
    ensures |b| == 46 + |e.name| + |e.extra| + |e.comment|
  {
    Header(e) + e.name + e.extra + e.comment
  }

  function Directory(entries: seq<Entry>): bytes
    requires AllValid(entries)
  {
    if entries == [] then [] else Record(entries[0]) + Directory(entries[1..])
  }

  /** The end record; `counts` are its disk numbers and entry counts, which the reader ignores. */
  function EndRecord(counts: bytes, cdSize: nat, cdOffset: nat, comment: bytes): (b: bytes)
    requires |counts| == 8 && cdSize < 0x1_0000_0000 && cdOffset < 0x1_0000_0000 && |comment| < 0x1_0000
    ensures |b| == 22 + |comment|
  {
    [0x50, 0x4b, 0x05, 0x06] + counts + Le32(cdSize) + Le32(cdOffset) + Le16(|comment|) + comment
  }

  /** `body` is everything before the Central Directory: local headers and compressed data. */
  datatype Archive = Archive(body: bytes, entries: seq<Entry>, counts: bytes, comment: bytes) {
    predicate Valid() {
      && AllValid(entries) && |counts| == 8 && |comment| < 0x1_0000
      && |body| < 0x1_0000_0000 && |Directory(entries)| < 0x1_0000_0000
    }

    /** Where the end record starts. */
    function EndAt(): nat
      requires Valid()
    {
      |body| + |Directory(entries)|
    }

    function Print(): (b: bytes)
      requires Valid()
      ensures |b| == EndAt() + EOCD_MIN_SIZE + |comment|
    {
      body + Directory(entries) + EndRecord(counts, |Directory(entries)|, |body|, comment)
    }

    /** No later position the backwards scan visits shows the end record's signature. */
    ghost predicate NoLaterSignature()
      requires Valid()
    {
      forall i :: EndAt() < i <= |Print()| - EOCD_MIN_SIZE ==> ReadUInt32LE(Print(), i) != EOCD_SIG
    }
  }

  /** The name of a folder ends in a slash. */
  predicate EndsInSlash(name: bytes) {
    name != [] && name[|name| - 1] == 0x2f
  }

  function FileNames(entries: seq<Entry>): seq<bytes> {
    if entries == [] then []
    else (if EndsInSlash(entries[0].name) then [] else [entries[0].name]) + FileNames(entries[1..])
  }

  // ---------- Reading numbers inside larger buffers ----------

  lemma Read16Shift(a: bytes, b: bytes, c: bytes, i: nat)
    requires i + 2 <= |b|
    ensures |a| + i + 2 <= |a + b + c|
    ensures ReadUInt16LE(a + b + c, |a| + i) == ReadUInt16LE(b, i)
  {
  }

  lemma Read32Shift(a: bytes, b: bytes, c: bytes, i: nat)
    requires i + 4 <= |b|
    ensures |a| + i + 4 <= |a + b + c|
    ensures ReadUInt32LE(a + b + c, |a| + i) == ReadUInt32LE(b, i)
  {
  }

  lemma HeaderFields(e: Entry)
    requires e.Valid()
    ensures var h := Header(e);
            && ReadUInt32LE(h, 0) == CD_SIG
            && ReadUInt16LE(h, 28) == |e.name|
            && ReadUInt16LE(h, 30) == |e.extra|
            && ReadUInt16LE(h, 32) == |e.comment|
  {
  }

  /** Wherever a record stands in a buffer, the reader sees its fields there. */
  lemma RecordFields(before: bytes, e: Entry, after: bytes)
    requires e.Valid()
    ensures var buf, pos := before + Record(e) + after, |before|;
            && pos + RECORD_SIZE <= |buf|
            && ReadUInt32LE(buf, pos) == CD_SIG
            && RecordLength(buf, pos) == |Record(e)|
            && NameAt(buf, pos) == e.name
  {
    var buf := before + Record(e) + after;
    var h, tail := Header(e), e.name + e.extra + e.comment + after;
    assert buf == before + h + tail;
    HeaderFields(e);
    Read32Shift(before, h, tail, 0);
    Read16Shift(before, h, tail, 28);
    Read16Shift(before, h, tail, 30);
    Read16Shift(before, h, tail, 32);
    assert buf == before + h + e.name + (e.extra + e.comment + after);
  }

  // ---------- Parsing what was printed ----------

  lemma NamesFromAt(buf: bytes, pos: nat, name: bytes, next: nat)
    requires pos + RECORD_SIZE <= |buf| && ReadUInt32LE(buf, pos) == CD_SIG
    requires NameAt(buf, pos) == name && pos + RecordLength(buf, pos) == next
    ensures NamesFrom(buf, pos) == (if IsDirectory(name) then [] else [name]) + NamesFrom(buf, next)
  {
  }

  lemma ParsePrintedRecord(before: bytes, e: Entry, after: bytes)
    requires e.Valid()
    ensures var buf := before + Record(e) + after;
            NamesFrom(buf, |before|) ==
            (if EndsInSlash(e.name) then [] else [e.name]) + NamesFrom(buf, |before + Record(e)|)
  {
    RecordFields(before, e, after);
    NamesFromAt(before + Record(e) + after, |before|, e.name, |before + Record(e)|);
  }

  lemma {:induction false} ParsePrinted(before: bytes, entries: seq<Entry>)
    requires AllValid(entries)
    ensures NamesFrom(before + Directory(entries), |before|) == FileNames(entries)
    decreases entries
  {
    if entries == [] {
      assert before + [] == before;
    } else {
      var head, rest := Record(entries[0]), Directory(entries[1..]);
      ParsePrintedRecord(before, entries[0], rest);
      ParsePrinted(before + head, entries[1..]);
      ConcatAssociates(before, head, rest);
    }
  }

  lemma ConcatAssociates(a: bytes, b: bytes, c: bytes)
    ensures a + (b + c) == a + b + c
  {
  }

  // ---------- Finding the end record ----------

  function TailStart(file: bytes): nat {
    |file| - Min(TAIL_CHUNK_SIZE, |file|)
  }

  lemma TailReads(file: bytes, i: nat)
    requires TailStart(file) <= i && i + 4 <= |file|
    ensures i - TailStart(file) + 4 <= |TailOf(file)|
    ensures ReadUInt32LE(TailOf(file), i - TailStart(file)) == ReadUInt32LE(file, i)
  {
  }

  /** The scan of a file's tail finds the last signature of the file that lies inside the tail. */
  lemma ScanOfTail(file: bytes, p: nat)
    requires p + EOCD_MIN_SIZE <= |file| && ReadUInt32LE(file, p) == EOCD_SIG
    ensures 0 <= EocdOffset(TailOf(file)) == p - TailStart(file) <==>
            TailStart(file) <= p && forall i :: p < i <= |file| - EOCD_MIN_SIZE ==> ReadUInt32LE(file, i) != EOCD_SIG
  {
    var tail, start := TailOf(file), TailStart(file);
    LastSignatureExact(tail, |tail| - EOCD_MIN_SIZE, p - start);
    LastSignatureExact(tail, |tail| - EOCD_MIN_SIZE, EocdOffset(tail));
    if start <= p {
      TailReads(file, p);
      forall i | p < i <= |file| - EOCD_MIN_SIZE
        ensures ReadUInt32LE(tail, i - start) == ReadUInt32LE(file, i)
      {
        TailReads(file, i);
      }
      if forall i :: p < i <= |file| - EOCD_MIN_SIZE ==> ReadUInt32LE(file, i) != EOCD_SIG {
        forall k | p - start < k <= |tail| - EOCD_MIN_SIZE
          ensures ReadUInt32LE(tail, k) != EOCD_SIG
        {
          assert ReadUInt32LE(tail, k + start - start) == ReadUInt32LE(file, k + start);
        }
      }
    }
  }

  lemma ScanFindsNothing(file: bytes)
    requires forall i :: TailStart(file) <= i <= |file| - EOCD_MIN_SIZE ==> ReadUInt32LE(file, i) != EOCD_SIG
    ensures EocdOffset(TailOf(file)) == -1
  {
    var tail, start := TailOf(file), TailStart(file);
    forall k | 0 <= k <= |tail| - EOCD_MIN_SIZE
      ensures ReadUInt32LE(tail, k) != EOCD_SIG
    {
      TailReads(file, k + start);
    }
    LastSignatureExact(tail, |tail| - EOCD_MIN_SIZE, -1);
  }

  lemma EndRecordInFile(a: Archive)
    requires a.Valid()
    ensures var file, p := a.Print(), a.EndAt();
            && ReadUInt32LE(file, p) == EOCD_SIG
            && ReadUInt32LE(file, p + 12) == |Directory(a.entries)|
            && ReadUInt32LE(file, p + 16) == |a.body|
  {
  }

  /**
   * The scan of the tail stops at the real end record if and only if the comment has at most 65514
   * bytes and no signature follows.
   */
  lemma FindsEndRecord(a: Archive)
    requires a.Valid()
    ensures 0 <= EocdOffset(TailOf(a.Print())) == a.EndAt() - TailStart(a.Print()) <==>
            |a.comment| <= 65514 && a.NoLaterSignature()
  {
    EndRecordInFile(a);
    ScanOfTail(a.Print(), a.EndAt());
    assert TailStart(a.Print()) <= a.EndAt() <==> |a.comment| <= 65514;
  }

  // ---------- Fetching the directory ----------

  /**
   * Whether it is sliced out of the tail or fetched with a second request, the directory is exactly
   * the bytes from `offset` on, when the end record follows it immediately. A second request then
   * asks for a range that is neither empty nor beyond the end of the file.
   */
  lemma FetchesDirectory(file: bytes, end: nat, offset: nat, size: nat)
    requires TailStart(file) <= end && end + EOCD_MIN_SIZE <= |file| && offset + size == end
    requires ReadUInt32LE(file, end + 12) == size && ReadUInt32LE(file, end + 16) == offset
    ensures DirectoryBytes(file, TailOf(file), end - TailStart(file)) == Success(file[offset..end])
    ensures offset < TailStart(file) ==> 0 < size && offset < |file|
  {
    var tail, start := TailOf(file), TailStart(file);
    TailReads(file, end + 12);
    TailReads(file, end + 16);
    if offset >= start {
      assert tail[offset - start..offset - start + size] == file[offset..end];
    }
  }

  /** When the scan finds the real end record, the names read are those in the directory's bytes. */
  lemma ReadsDirectory(file: bytes, end: nat, offset: nat, size: nat)
    requires end + EOCD_MIN_SIZE <= |file| && offset + size == end
    requires ReadUInt32LE(file, end + 12) == size && ReadUInt32LE(file, end + 16) == offset
    requires 0 <= EocdOffset(TailOf(file)) == end - TailStart(file)
    ensures ReadNames(file) == Success(NamesFrom(file[offset..end], 0))
  {
    FetchesDirectory(file, end, offset, size);
  }

  // ---------- The round trip ----------

  /**
   * Reading a printed archive gives back its file names in order - unless the archive comment is
   * longer than 65514 bytes, when the reader reports that there is no end record.
   */
  lemma RoundTrip(a: Archive)
    requires a.Valid() && a.NoLaterSignature()
    ensures ReadNames(a.Print()) ==
            if |a.comment| <= 65514 then Success(FileNames(a.entries)) else Failure(EocdNotFound)
  {
    if |a.comment| <= 65514 {
      FindsEndRecord(a);
      EndRecordInFile(a);
      ReadsDirectory(a.Print(), a.EndAt(), |a.body|, |Directory(a.entries)|);
      PrintedDirectory(a);
      ParsePrinted([], a.entries);
    } else {
      ScanFindsNothing(a.Print());
    }
  }

  lemma PrintedDirectory(a: Archive)
    requires a.Valid()
    ensures a.Print()[|a.body|..a.EndAt()] == [] + Directory(a.entries)
  {
  }

  /** Without a comment nothing needs to be known about the bytes of the archive. */
  lemma RoundTripWithoutComment(a: Archive)
    requires a.Valid() && a.comment == []
    ensures ReadNames(a.Print()) == Success(FileNames(a.entries))
  {
    RoundTrip(a);
  }

  /** The names of a longer archive are those of its parts, in order; of one entry, its own unless it ends in a slash. */
  lemma {:induction false} FileNamesKeep(a: seq<Entry>, b: seq<Entry>)
    ensures FileNames(a + b) == FileNames(a) + FileNames(b)
    ensures |a| == 1 ==> FileNames(a) == FirstFile(a[0])
  {
    if a == [] {
      assert [] + b == b;
    } else {
      FileNamesKeep(a[1..], b);
      assert (a + b)[0] == a[0] && (a + b)[1..] == a[1..] + b;
      assert FileNames(a + b) == FirstFile(a[0]) + (FileNames(a[1..]) + FileNames(b));
      assert FileNames(a) == FirstFile(a[0]) + FileNames(a[1..]);
    }
  }

  function FirstFile(e: Entry): seq<bytes> {
    if e.name != [] && e.name[|e.name| - 1] == 47 then [] else [e.name]
  }

  function NamesOf(entries: seq<Entry>): seq<bytes> {
    seq(|entries|, i requires 0 <= i < |entries| => entries[i].name)
  }

  lemma FirstName(entries: seq<Entry>)
    requires entries != []
    ensures multiset(NamesOf(entries)) == multiset{entries[0].name} + multiset(NamesOf(entries[1..]))
    ensures multiset(FileNames(entries)) ==
            (if EndsInSlash(entries[0].name) then multiset{} else multiset{entries[0].name}) + multiset(FileNames(entries[1..]))
  {
    assert NamesOf(entries) == [entries[0].name] + NamesOf(entries[1..]);
  }

  lemma {:induction false} FileNamesHold(entries: seq<Entry>, name: bytes)
    ensures multiset(FileNames(entries))[name] == if EndsInSlash(name) then 0 else multiset(NamesOf(entries))[name]
  {
    if entries != [] {
      FileNamesHold(entries[1..], name);
      FirstName(entries);
    }
  }

  /** What is read: no name with a slash at its end, and every other as often as the archive has it. */
  lemma ReadsExactlyTheFiles(a: Archive, stem: bytes, last: byte)
    requires a.Valid() && a.NoLaterSignature() && |a.comment| <= 65514
    ensures var names := ReadNames(a.Print());
            && names.Success?
            && stem + [47] !in names.value
            && (last != 47 ==> multiset(names.value)[stem + [last]] == multiset(NamesOf(a.entries))[stem + [last]])
            && multiset(names.value)[[]] == multiset(NamesOf(a.entries))[[]]
  {
    RoundTrip(a);
    FileNamesHold(a.entries, stem + [47]);
    FileNamesHold(a.entries, stem + [last]);
    FileNamesHold(a.entries, []);
    assert stem + [47] in FileNames(a.entries) ==> multiset(FileNames(a.entries))[stem + [47]] > 0;
  }

  // ---------- A comment that the format allows and the reader does not ----------

  const ZEROS_8: bytes := [0, 0, 0, 0, 0, 0, 0, 0]

  lemma NoSignatureWithoutItsFirstByte(file: bytes, i: nat)
    requires i + 4 <= |file| && file[i] != 0x50
    ensures ReadUInt32LE(file, i) != EOCD_SIG
  {
  }

  lemma EndRecordBytes(comment: bytes, cdSize: nat, k: nat)
    requires |comment| < 0x1_0000 && forall i :: 0 <= i < |comment| ==> comment[i] == 0
    requires cdSize < 0x50 && |comment| % 0x100 != 0x50 && |comment| / 0x100 != 0x50
    requires 0 < k < EOCD_MIN_SIZE + |comment|
    ensures EndRecord(ZEROS_8, cdSize, 0, comment)[k] != 0x50
  {
  }

  /** The names of some archives with a comment of 65515 zero bytes are not found. */
  lemma LongCommentIsMissed() returns (a: Archive)
    ensures a.Valid() && FileNames(a.entries) == [[120]]
    ensures ReadNames(a.Print()) == Failure(EocdNotFound)
  {
    var comment := seq(65515, _ => 0);
    var e := Entry(seq(24, _ => 0), seq(12, _ => 0), [120], [], []);
    a := Archive([], [e], ZEROS_8, comment);
    assert Directory([e]) == Record(e) + Directory([]);
    assert FileNames([e]) == [[120]] + FileNames([]);
    var file, p := a.Print(), a.EndAt();
    forall i | p < i <= |file| - EOCD_MIN_SIZE
      ensures ReadUInt32LE(file, i) != EOCD_SIG
    {
      EndRecordBytes(comment, 47, i - p);
      assert file[i] == EndRecord(ZEROS_8, 47, 0, comment)[i - p];
      NoSignatureWithoutItsFirstByte(file, i);
    }
    RoundTrip(a);
  }

  // ---------- A comment that looks like an end record ----------

  /** The end record of an archive without files. */
  const EMPTY_END: bytes := EndRecord(ZEROS_8, 0, 0, [])

  lemma EndRecordAtEnd(before: bytes)
    ensures var file, p := before + EMPTY_END, |before|;
            && |file| == p + EOCD_MIN_SIZE
            && ReadUInt32LE(file, p) == EOCD_SIG && ReadUInt32LE(file, p + 12) == 0 && ReadUInt32LE(file, p + 16) == 0
  {
    assert EMPTY_END == EMPTY_END + [];
    assert before + EMPTY_END + [] == before + EMPTY_END;
    Read32Shift(before, EMPTY_END, [], 0);
    Read32Shift(before, EMPTY_END, [], 12);
    Read32Shift(before, EMPTY_END, [], 16);
  }

  /** So a comment that ends with these 22 bytes hides every file of an archive. */
  lemma CommentHidesFiles(a: Archive, text: bytes)
    requires a.Valid() && a.comment == text + EMPTY_END
    ensures ReadNames(a.Print()) == Success([])
  {
    var front := a.body + Directory(a.entries);
    var head := [0x50, 0x4b, 0x05, 0x06] + a.counts + Le32(|Directory(a.entries)|) + Le32(|a.body|) + Le16(|a.comment|);
    ConcatAssociates(head, text, EMPTY_END);
    ConcatAssociates(front, head + text, EMPTY_END);
    var file, before := a.Print(), front + (head + text);
    EndRecordAtEnd(before);
    EmptyEndRecordFound(file, |before|);
  }

  lemma EmptyEndRecordFound(file: bytes, end: nat)
    requires |file| == end + EOCD_MIN_SIZE
    requires ReadUInt32LE(file, end) == EOCD_SIG && ReadUInt32LE(file, end + 12) == 0 && ReadUInt32LE(file, end + 16) == 0
    ensures ReadNames(file) == Success([])
  {
    ScanOfTail(file, end);
    TailReads(file, end + 12);
    TailReads(file, end + 16);
    NoDirectory(file, TailOf(file), end - TailStart(file));
  }

  lemma NoDirectory(file: bytes, tail: bytes, eocd: nat)
    requires eocd + EOCD_MIN_SIZE <= |tail| && ReadUInt32LE(tail, eocd + 12) == 0 && ReadUInt32LE(tail, eocd + 16) == 0
    ensures DirectoryBytes(file, tail, eocd) == Success([])
  {
    assert tail[eocd..eocd] == [];
  }
}
