/**
 * Reading the file names of a ZIP archive from its Central Directory with at most two range
 * requests (src/plugins/file-upload/helpers/validation-helpers.js). File names are byte strings.
 */
module ZipReader {
  import opened Wrappers

  type byte = b: int | 0 <= b < 256
  type bytes = seq<byte>

  const EOCD_SIG: nat := 0x06054b50
  const CD_SIG: nat := 0x02014b50
  const EOCD_MIN_SIZE: nat := 22
  const TAIL_CHUNK_SIZE: nat := 65536
  const RECORD_SIZE: nat := 46
  const SLASH: byte := 47

  function ReadUInt16LE(b: bytes, i: nat): (n: nat)
    requires i + 2 <= |b|
    ensures n < 0x1_0000
  {
    b[i] as int + 0x100 * b[i + 1] as int
  }

  function ReadUInt32LE(b: bytes, i: nat): (n: nat)
    requires i + 4 <= |b|
    ensures n < 0x1_0000_0000
  {
    ReadUInt16LE(b, i) + 0x1_0000 * ReadUInt16LE(b, i + 2)
  }

  function Min(a: int, b: int): int {
    if a < b then a else b
  }

  // ---------- Specifications of the two scans ----------

  /** The last offset up to `i` at which the end record's signature stands, or -1. */
  function LastSignature(buf: bytes, i: int): int
    requires i + EOCD_MIN_SIZE <= |buf|
    decreases i + 1
  {
    if i < 0 then -1
    else if ReadUInt32LE(buf, i) == EOCD_SIG then i
    else LastSignature(buf, i - 1)
  }

  function EocdOffset(buf: bytes): int {
    LastSignature(buf, |buf| - EOCD_MIN_SIZE)
  }

  /** LastSignature is the greatest position with the signature, and -1 only if there is none. */
  lemma {:induction false} LastSignatureExact(buf: bytes, i: int, p: int)
    requires i + EOCD_MIN_SIZE <= |buf|
    ensures LastSignature(buf, i) == p <==>
            && (p == -1 || (0 <= p <= i && ReadUInt32LE(buf, p) == EOCD_SIG))
            && (forall k :: p < k <= i && 0 <= k ==> ReadUInt32LE(buf, k) != EOCD_SIG)
    decreases i + 1
  {
    if i >= 0 {
      LastSignatureExact(buf, i - 1, p);
    }
  }

  predicate IsDirectory(name: bytes) {
    name != [] && name[|name| - 1] == SLASH
  }

  /** The bytes toString takes: the end is cut off at the end of the buffer. */
  function NameAt(buf: bytes, pos: nat): bytes
    requires pos + RECORD_SIZE <= |buf|
  {
    buf[pos + RECORD_SIZE..Min(pos + RECORD_SIZE + ReadUInt16LE(buf, pos + 28), |buf|)]
  }

  function RecordLength(buf: bytes, pos: nat): (n: nat)
    requires pos + RECORD_SIZE <= |buf|
    ensures n >= RECORD_SIZE
  {
    RECORD_SIZE + ReadUInt16LE(buf, pos + 28) + ReadUInt16LE(buf, pos + 30) + ReadUInt16LE(buf, pos + 32)
  }

  function NamesFrom(buf: bytes, pos: nat): seq<bytes>
    decreases |buf| - pos
  {
    if pos + RECORD_SIZE > |buf| || ReadUInt32LE(buf, pos) != CD_SIG then []
    else
      (if IsDirectory(NameAt(buf, pos)) then [] else [NameAt(buf, pos)]) + NamesFrom(buf, pos + RecordLength(buf, pos))
  }

  /** On arbitrary bytes a record takes at least 46 of them, which bounds the number of names. */
  lemma {:induction false} NamesAreFew(buf: bytes, pos: nat)
    requires pos <= |buf|
    ensures RECORD_SIZE * |NamesFrom(buf, pos)| <= |buf| - pos
    decreases |buf| - pos
  {
    if pos + RECORD_SIZE <= |buf| && ReadUInt32LE(buf, pos) == CD_SIG {
      var next := pos + RecordLength(buf, pos);
      if next <= |buf| {
        NamesAreFew(buf, next);
      }
    }
  }

  lemma NamesFromStep(buf: bytes, pos: nat, names: seq<bytes>)
    requires pos + RECORD_SIZE <= |buf| && ReadUInt32LE(buf, pos) == CD_SIG
    ensures names + NamesFrom(buf, pos) ==
            (if IsDirectory(NameAt(buf, pos)) then names else names + [NameAt(buf, pos)])
            + NamesFrom(buf, pos + RecordLength(buf, pos))
  {
  }

  // ---------- The scans as loops ----------

  method FindEocdOffset(buf: bytes) returns (offset: int)
    ensures offset == EocdOffset(buf)
    ensures offset == -1 || 0 <= offset <= |buf| - EOCD_MIN_SIZE
  {
    var i := |buf| - EOCD_MIN_SIZE;
    while i >= 0
      invariant -1 <= i <= |buf| - EOCD_MIN_SIZE || i == |buf| - EOCD_MIN_SIZE < -1
      invariant LastSignature(buf, i) == EocdOffset(buf)
    {
      if ReadUInt32LE(buf, i) == EOCD_SIG {
        return i;
      }
      i := i - 1;
    }
    return -1;
  }

  method ReadRecord(buf: bytes, pos: nat) returns (name: bytes, next: nat)
    requires pos + RECORD_SIZE <= |buf|
    ensures name == NameAt(buf, pos) && next == pos + RecordLength(buf, pos)
  {
    var nameLen := ReadUInt16LE(buf, pos + 28);
    var extraLen := ReadUInt16LE(buf, pos + 30);
    var commentLen := ReadUInt16LE(buf, pos + 32);
    name := buf[pos + RECORD_SIZE..Min(pos + RECORD_SIZE + nameLen, |buf|)];
    next := pos + RECORD_SIZE + nameLen + extraLen + commentLen;
  }

  method ParseCentralDirectory(buf: bytes) returns (names: seq<bytes>)
    ensures names == NamesFrom(buf, 0)
  {
    names := [];
    var pos := 0;
    while pos <= |buf| - RECORD_SIZE
      invariant 0 <= pos
      invariant names + NamesFrom(buf, pos) == NamesFrom(buf, 0)
      decreases |buf| - pos
    {
      if ReadUInt32LE(buf, pos) != CD_SIG {
        break;
      }
      var name, next := ReadRecord(buf, pos);
      NamesFromStep(buf, pos, names);
      if !IsDirectory(name) {
        names := names + [name];
      }
      pos := next;
    }
  }

  // ---------- Range requests ----------

  datatype Range = Suffix(length: nat) | Between(first: int, last: int)

  datatype ReadError = EocdNotFound | RangeNotSatisfiable

  /**
   * RFC 9110, sections 14.1.1 and 14.1.2: a suffix longer than the file means all of it,
   * a last position before the first makes the range invalid and the request is answered in full,
   * and a range that starts past the end is refused.
   */
  function GetObjectRange(file: bytes, range: Range): Result<bytes, ReadError>
    requires range.Between? ==> 0 <= range.first
  {
    match range
    case Suffix(n) => Success(file[|file| - Min(n, |file|)..])
    case Between(first, last) =>
      if last < first then Success(file)
      else if first >= |file| then Failure(RangeNotSatisfiable)
      else Success(file[first..Min(last + 1, |file|)])
  }

  // ---------- The reader ----------

  /** The bytes that are parsed as the Central Directory, once the end record is found. */
  function DirectoryBytes(file: bytes, tail: bytes, eocd: nat): Result<bytes, ReadError>
    requires eocd + EOCD_MIN_SIZE <= |tail|
  {
    var cdSize := ReadUInt32LE(tail, eocd + 12);
    var cdOffset := ReadUInt32LE(tail, eocd + 16);
    var tailAbsStart := cdOffset + cdSize - eocd;
    var cdPosInTail := cdOffset - tailAbsStart;
    if cdPosInTail >= 0 && cdPosInTail + cdSize <= |tail| then Success(tail[cdPosInTail..cdPosInTail + cdSize])
    else GetObjectRange(file, Between(cdOffset, cdOffset + cdSize - 1))
  }

  function TailOf(file: bytes): bytes {
    file[|file| - Min(TAIL_CHUNK_SIZE, |file|)..]
  }

  function ReadNames(file: bytes): Result<seq<bytes>, ReadError> {
    var tail := TailOf(file);
    var eocd := EocdOffset(tail);
    LastSignatureExact(tail, |tail| - EOCD_MIN_SIZE, eocd);
    if eocd == -1 then Failure(EocdNotFound)
    else
      match DirectoryBytes(file, tail, eocd)
      case Failure(e) => Failure(e)
      case Success(cd) => Success(NamesFrom(cd, 0))
  }

  /** The slice of the tail that the end record points at, or else a second request for it. */
  method ReadDirectory(file: bytes, tail: bytes, eocdOffset: nat) returns (r: Result<bytes, ReadError>)
    requires eocdOffset + EOCD_MIN_SIZE <= |tail|
    ensures r == DirectoryBytes(file, tail, eocdOffset)
  {
    var cdSize := ReadUInt32LE(tail, eocdOffset + 12);
    var cdOffset := ReadUInt32LE(tail, eocdOffset + 16);
    var tailAbsStart := cdOffset + cdSize - eocdOffset;
    var cdPosInTail := cdOffset - tailAbsStart;
    if cdPosInTail >= 0 && cdPosInTail + cdSize <= |tail| {
      return Success(tail[cdPosInTail..cdPosInTail + cdSize]);
    }
    return GetObjectRange(file, Between(cdOffset, cdOffset + cdSize - 1));
  }

  method ReadZipCentralDirectory(file: bytes) returns (r: Result<seq<bytes>, ReadError>)
    ensures r == ReadNames(file)
  {
    var answer := GetObjectRange(file, Suffix(TAIL_CHUNK_SIZE));
    var tail := answer.value;
    var eocdOffset := FindEocdOffset(tail);
    if eocdOffset == -1 {
      return Failure(EocdNotFound);
    }
    var directory := ReadDirectory(file, tail, eocdOffset);
    if directory.Failure? {
      return Failure(directory.error);
    }
    var names := ParseCentralDirectory(directory.value);
    return Success(names);
  }
}
