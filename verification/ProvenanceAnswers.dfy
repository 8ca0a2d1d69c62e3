/**
 The answers of the provenance reader (_read_provenance_marker in tools/build_all_releases.py)
 told in the bytes of the file, without the functions that search it.
 */
module ProvenanceAnswers {
  import opened Basics
  import opened ProvenanceScan

  predicate Blank(c: int) {
    c == 32 || 9 <= c <= 13
  }

  /** The marker text stands at `i`. */
  predicate MarkerHere(file: Bytes, i: int) {
    && 0 <= i && i + 32 <= |file|
    && forall k :: 0 <= k < 32 ==> file[i + k] == "COMPUTEMESH_BUILD_PROVENANCE_V1="[k] as int
  }

  /** A line from a marker to the first newline behind it. */
  predicate MarkerLine(file: Bytes, start: int, end: int) {
    && MarkerHere(file, start) && start <= end < |file| && file[end] == 10
    && forall k :: start <= k < end ==> file[k] != 10
  }

  predicate FirstMarkerLine(file: Bytes, start: int, end: int) {
    MarkerLine(file, start, end) && forall i :: 0 <= i < start ==> !MarkerHere(file, i)
  }

  /** `t` is `s` without the white space at its ends. */
  ghost predicate Trimmed(s: Bytes, t: Bytes) {
    exists i, j :: TrimmedTo(s, i, j) && t == s[i..j]
  }

  predicate TrimmedTo(s: Bytes, i: int, j: int) {
    && 0 <= i <= j <= |s|
    && (forall k :: 0 <= k < i ==> Blank(s[k])) && (forall k :: j <= k < |s| ==> Blank(s[k]))
    && (i < j ==> !Blank(s[i]) && !Blank(s[j - 1]))
  }

  /** The answer is what the trimmed text of the line behind its marker is parsed to. */
  ghost predicate Told<T(!new)>(file: Bytes, start: int, end: int, parse: Bytes -> Parsed<T>, r: Result<T, MarkerError>)
    requires 0 <= start && start + 32 <= end <= |file|
  {
    exists payload ::
      && Trimmed(file[start + 32..end], payload)
      && match parse(payload)
         case Object(v) => r == Ok(v)
         case OtherValue => r == Err(NotAnObject)
         case Undecodable => r == Err(InvalidProvenance)
  }

  lemma MarkerExactly(file: Bytes, i: int)
    ensures MarkerAt(file, i) <==> MarkerHere(file, i)
  {
    PrefixExactly();
    if 0 <= i && i + 32 <= |file| {
      MatchesFrom(file, i, 0);
    }
  }

  lemma PrefixExactly()
    ensures |PREFIX| == 32 && forall k :: 0 <= k < 32 ==> PREFIX[k] == "COMPUTEMESH_BUILD_PROVENANCE_V1="[k] as int
  {
  }

  lemma NewlineExactly(file: Bytes, start: int, end: int)
    requires 0 <= start <= |file|
    ensures end == FindNewline(file, start) && 0 <= end <==>
      start <= end < |file| && file[end] == 10 && forall k :: start <= k < end ==> file[k] != 10
  {
    assert forall k :: start <= k < |file| ==> (NewlineAt(file, k) <==> file[k] == 10);
    var found := FindNewline(file, start);
    assert found >= 0 ==> NewlineAt(file, found);
  }

  lemma FirstMarkerExactly(file: Bytes, start: int)
    requires 0 <= start
    ensures start == FindMarker(file, 0) <==>
      MarkerHere(file, start) && forall i :: 0 <= i < start ==> !MarkerHere(file, i)
  {
    forall i: int
      ensures MarkerAt(file, i) <==> MarkerHere(file, i)
    {
      MarkerExactly(file, i);
    }
  }

  /** A marker line ends behind its marker. */
  lemma LineExactly(file: Bytes, start: int, end: int)
    ensures MarkerLine(file, start, end) ==> start + 32 <= end
    ensures FirstMarkerLine(file, start, end) <==> FirstLine(file, start, end)
    ensures MarkerAt(file, start) && end == FindNewline(file, start) && 0 <= end <==> MarkerLine(file, start, end)
  {
    MarkerExactly(file, start);
    if 0 <= start <= |file| {
      NewlineExactly(file, start, end);
      FirstMarkerExactly(file, start);
    }
    if MarkerLine(file, start, end) {
      NewlineAfterPrefix(file, start, end);
    }
  }

  lemma {:induction false} FrontExactly(s: Bytes) returns (i: int)
    ensures 0 <= i <= |s| && StripFront(s) == s[i..] && (forall k :: 0 <= k < i ==> Blank(s[k]))
    ensures i < |s| ==> !Blank(s[i])
  {
    i := 0;
    if s != [] && Blank(s[0]) {
      var k := FrontExactly(s[1..]);
      i := k + 1;
      assert s[1..][k..] == s[i..];
      assert forall j :: 0 < j < i ==> s[j] == s[1..][j - 1];
    }
  }

  lemma {:induction false} BackExactly(s: Bytes) returns (j: int)
    ensures 0 <= j <= |s| && StripBack(s) == s[..j] && (forall k :: j <= k < |s| ==> Blank(s[k]))
    ensures 0 < j ==> !Blank(s[j - 1])
  {
    j := |s|;
    if s == [] || !Blank(s[j - 1]) {
      assert s[..j] == s;
    } else {
      var front := s[..|s| - 1];
      j := BackExactly(front);
      assert front[..j] == s[..j];
      assert forall k :: j <= k < |front| ==> s[k] == front[k];
    }
  }

  lemma PayloadExactly(file: Bytes, start: int, end: int)
    requires 0 <= start && start + 32 <= end <= |file|
    ensures Trimmed(file[start + 32..end], Payload(file, start, end))
  {
    var s := file[start + 32..end];
    var i := FrontExactly(s);
    var j := BackExactly(s[i..]);
    assert s[i..][..j] == s[i..i + j];
    assert forall k :: i + j <= k < |s| ==> s[k] == s[i..][k - i];
    assert TrimmedTo(s, i, i + j);
  }

  lemma ToldExactly<T(!new)>(file: Bytes, start: int, end: int, parse: Bytes -> Parsed<T>)
    requires MarkerLine(file, start, end) && start + 32 <= end
    ensures Told(file, start, end, parse, Verdict(Some(Payload(file, start, end)), parse))
  {
    PayloadExactly(file, start, end);
  }

  /** What the reader answers: a first marker line whose newline comes in a read that starts at most
      8192 bytes behind the marker decides; otherwise some marker line does, or nothing is found. */
  ghost predicate MarkerSpec<T(!new)>(file: Bytes, parse: Bytes -> Parsed<T>, r: Result<T, MarkerError>) {
    && (forall start, end ::
          FirstMarkerLine(file, start, end) && end / 1_048_576 * 1_048_576 <= start + 8192 ==>
          start + 32 <= end && Told(file, start, end, parse, r))
    && (r == Err(LacksProvenance)
        || exists start, end ::
             MarkerLine(file, start, end) && start + 32 <= end && Told(file, start, end, parse, r))
  }

  lemma FoundTold<T(!new)>(file: Bytes, parse: Bytes -> Parsed<T>, start: int, end: int)
    requires FirstMarkerLine(file, start, end) && end / 1_048_576 * 1_048_576 <= start + 8192
    ensures start + 32 <= end
    ensures Told(file, start, end, parse, Verdict(Scan([], Reads(file, 0, 1_048_576)), parse))
  {
    LineExactly(file, start, end);
    ReadsFindLine(file, 1_048_576, start, end);
    FirstLineFound(file, start, end);
    ToldExactly(file, start, end, parse);
  }

  /** The reader's answer in terms of the file's bytes. */
  lemma AnswerExactly<T(!new)>(file: Bytes, parse: Bytes -> Parsed<T>)
    ensures MarkerSpec(file, parse, Verdict(Scan([], Reads(file, 0, 1_048_576)), parse))
  {
    var found := Scan([], Reads(file, 0, 1_048_576));
    var r := Verdict(found, parse);
    forall start, end | FirstMarkerLine(file, start, end) && end / 1_048_576 * 1_048_576 <= start + 8192
      ensures start + 32 <= end && Told(file, start, end, parse, r)
    {
      FoundTold(file, parse, start, end);
    }
    ReadsJoin(file, 0, 1_048_576);
    assert file[0..] == file;
    WholeScan(file, Reads(file, 0, 1_048_576));
    if found.Some? {
      var (start, end) := ScanLine([], 0, Reads(file, 0, 1_048_576)).value;
      LineExactly(file, start, end);
      ToldExactly(file, start, end, parse);
    }
  }
}
