/**
 * Whether an archive's file names cover the required extensions (validateZipContents in
 * src/plugins/file-upload/helpers/validation-helpers.js), on its own and after reading a ZIP.
 */
module ZipContents {
  import opened ZipReader
  import opened ZipRoundTrip

  const DOT: byte := 46

  datatype Verdict = Accepted | Empty | Missing(extensions: seq<bytes>)

  /** toLowerCase, on the ASCII letters. */
  function Lower(s: bytes): (r: bytes)
    ensures |r| == |s|
  {
    seq(|s|, i requires 0 <= i < |s| => if 65 <= s[i] <= 90 then s[i] + 32 else s[i])
  }

  /** split('.').pop(): what follows the last dot, or everything. */
  function LastSegment(name: bytes): bytes {
    if name == [] || name[|name| - 1] == DOT then []
    else LastSegment(name[..|name| - 1]) + [name[|name| - 1]]
  }

  /** A dot and the last segment in lower case; nothing when that segment is empty. */
  function Extension(name: bytes): bytes {
    var segment := Lower(LastSegment(name));
    if segment == [] then [] else [DOT] + segment
  }

  function Normalised(required: bytes): bytes {
    Lower(if required != [] && required[0] == DOT then required else [DOT] + required)
  }

  function Unmatched(required: seq<bytes>, present: set<bytes>): seq<bytes> {
    if required == [] then []
    else (if Normalised(required[0]) in present then [] else [required[0]]) + Unmatched(required[1..], present)
  }

  function ValidateZipContents(names: seq<bytes>, required: seq<bytes>): Verdict {
    if names == [] then Empty
    else
      var present := set n | n in names :: Extension(n);
      var missing := Unmatched(required, present);
      if missing == [] then Accepted else Missing(missing)
  }

  /** `name` ends in `.segment` in any case, or is `segment` itself, when it has no dot. */
  ghost predicate EndsWithSegment(name: bytes, segment: bytes) {
    exists stem: bytes, tail: bytes ::
      && name == stem + tail
      && (stem == [] || stem[|stem| - 1] == 46)
      && 46 !in tail
      && Lower(tail) == segment
  }

  lemma {:induction false} LastSegmentSplits(name: bytes) returns (stem: bytes)
    ensures name == stem + LastSegment(name)
    ensures stem == [] || stem[|stem| - 1] == DOT
    ensures DOT !in LastSegment(name)
  {
    if name == [] || name[|name| - 1] == DOT {
      stem := name;
    } else {
      stem := LastSegmentSplits(name[..|name| - 1]);
    }
  }

  lemma {:induction false} LastSegmentUnique(stem: bytes, tail: bytes)
    requires stem == [] || stem[|stem| - 1] == DOT
    requires DOT !in tail
    ensures LastSegment(stem + tail) == tail
    decreases |tail|
  {
    if tail == [] {
      assert stem + tail == stem;
    } else {
      var shorter := tail[..|tail| - 1];
      LastSegmentUnique(stem, shorter);
      assert (stem + tail)[..|stem + tail| - 1] == stem + shorter;
    }
  }

  lemma ExtensionMeans(name: bytes, segment: bytes)
    requires segment != []
    ensures Extension(name) == [46] + segment <==> EndsWithSegment(name, segment)
  {
    if Extension(name) == [DOT] + segment {
      var stem := LastSegmentSplits(name);
      assert Extension(name)[1..] == Lower(LastSegment(name));
      assert Lower(LastSegment(name)) == segment;
    }
    if EndsWithSegment(name, segment) {
      var stem: bytes, tail: bytes :| name == stem + tail && (stem == [] || stem[|stem| - 1] == DOT) && DOT !in tail
        && Lower(tail) == segment;
      LastSegmentUnique(stem, tail);
    }
  }

  /** Two texts are the same in lower case if and only if they differ at most in the case of letters. */
  lemma LowerExactly(a: bytes, b: bytes)
    ensures Lower(a) == Lower(b) <==>
            |a| == |b| && forall i :: 0 <= i < |a| ==>
              a[i] == b[i] || (65 <= a[i] <= 90 && b[i] as int == a[i] as int + 32) || (65 <= b[i] <= 90 && a[i] as int == b[i] as int + 32)
  {
    if Lower(a) == Lower(b) {
      forall i | 0 <= i < |a|
        ensures a[i] == b[i] || (65 <= a[i] <= 90 && b[i] as int == a[i] as int + 32) || (65 <= b[i] <= 90 && a[i] as int == b[i] as int + 32)
      {
        assert Lower(a)[i] == Lower(b)[i];
      }
    }
  }

  /** Without files the archive is empty; else exactly the required extensions that no file has are missing. */
  lemma VerdictExactly(names: seq<bytes>, required: seq<bytes>)
    ensures var verdict := ValidateZipContents(names, required);
            && (verdict == Empty <==> names == [])
            && (verdict == Accepted <==> names != [] && forall r | r in required :: exists n :: n in names && Extension(n) == Normalised(r))
            && (verdict.Missing? ==> forall r :: r in verdict.extensions <==>
                  r in required && forall n | n in names :: Extension(n) != Normalised(r))
  {
    var present := set n | n in names :: Extension(n);
    NothingUnmatched(required, present);
    forall r
      ensures r in Unmatched(required, present) <==> r in required && Normalised(r) !in present
    {
      UnmatchedExact(required, present, r);
    }
  }

  lemma {:induction false} UnmatchedExact(required: seq<bytes>, present: set<bytes>, r: bytes)
    ensures r in Unmatched(required, present) <==> r in required && Normalised(r) !in present
  {
    if required != [] {
      UnmatchedExact(required[1..], present, r);
    }
  }

  lemma NothingUnmatched(required: seq<bytes>, present: set<bytes>)
    ensures Unmatched(required, present) == [] <==> forall r | r in required :: Normalised(r) in present
  {
  }

  /** Some file of the archive has the extension; nothing has an extension of no letters. */
  ghost predicate Provides(entries: seq<Entry>, required: bytes) {
    |Normalised(required)| > 1 &&
    exists i :: 0 <= i < |entries| && !EndsInSlash(entries[i].name)
      && EndsWithSegment(entries[i].name, Normalised(required)[1..])
  }

  lemma {:induction false} FileNamesExact(entries: seq<Entry>, name: bytes)
    ensures name in FileNames(entries) <==>
            exists i :: 0 <= i < |entries| && !EndsInSlash(entries[i].name) && entries[i].name == name
  {
    if entries != [] {
      FileNamesExact(entries[1..], name);
      if exists i :: 0 <= i < |entries| && !EndsInSlash(entries[i].name) && entries[i].name == name {
        var i :| 0 <= i < |entries| && !EndsInSlash(entries[i].name) && entries[i].name == name;
        assert i > 0 ==> entries[1..][i - 1].name == name;
      }
      if name in FileNames(entries[1..]) {
        var i :| 0 <= i < |entries[1..]| && !EndsInSlash(entries[1..][i].name) && entries[1..][i].name == name;
        assert entries[i + 1].name == name;
      }
    }
  }

  /**
   * From the bytes of an archive to the verdict: it is accepted exactly when it holds a file and
   * each required extension belongs to one of its files.
   */
  lemma AcceptsExactlyCompleteArchives(a: Archive, required: seq<bytes>)
    requires a.Valid() && a.NoLaterSignature() && |a.comment| <= 65514
    ensures ReadNames(a.Print()).Success?
    ensures ValidateZipContents(ReadNames(a.Print()).value, required) == Accepted <==>
            FileNames(a.entries) != [] && forall r | r in required :: Provides(a.entries, r)
  {
    RoundTrip(a);
    var names := FileNames(a.entries);
    var present := set n | n in names :: Extension(n);
    NothingUnmatched(required, present);
    forall r | r in required
      ensures Normalised(r) in present <==> Provides(a.entries, r)
    {
      ProvidedWhenPresent(a.entries, r);
    }
  }

  lemma ProvidedWhenPresent(entries: seq<Entry>, required: bytes)
    ensures Normalised(required) in (set n | n in FileNames(entries) :: Extension(n)) <==> Provides(entries, required)
  {
    var wanted := Normalised(required);
    assert wanted[0] == DOT;
    var segment := wanted[1..];
    assert wanted == [DOT] + segment;
    if n :| n in FileNames(entries) && Extension(n) == wanted {
      assert |Extension(n)| > 1;
      FileNamesExact(entries, n);
      ExtensionMeans(n, segment);
    }
    if Provides(entries, required) {
      var i :| 0 <= i < |entries| && !EndsInSlash(entries[i].name) && EndsWithSegment(entries[i].name, segment);
      FileNamesExact(entries, entries[i].name);
      ExtensionMeans(entries[i].name, segment);
    }
  }
}
