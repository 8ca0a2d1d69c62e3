/**
 The windowed search for the build-provenance line of a disk image
 (_read_provenance_marker in tools/build_all_releases.py).

 The file is any byte string. The general laws hold for every way of cutting it into pieces;
 the code reads pieces of one mebibyte, and for reads of a fixed size there is an exact law.
 */
module ProvenanceScan {
  import opened Basics

  type Bytes = seq<int>

  const WINDOW := 8192
  const READ := 1_048_576
  const NEWLINE := 10

  /** "COMPUTEMESH_BUILD_PROVENANCE_V1=" in ASCII. */
  const PREFIX: Bytes :=
    [67, 79, 77, 80, 85, 84, 69, 77, 69, 83, 72, 95, 66, 85, 73, 76, 68, 95,
     80, 82, 79, 86, 69, 78, 65, 78, 67, 69, 95, 86, 49, 61]

  const WIDTH := 32

  /** The marker from its byte `k` on stands at `i + k`. */
  predicate Matches(data: Bytes, i: int, k: nat)
    requires 0 <= i <= |data| - WIDTH && k <= WIDTH
    decreases WIDTH - k, data
  {
    k == WIDTH || (data[i + k] == PREFIX[k] && Matches(data, i, k + 1))
  }

  predicate MarkerAt(data: Bytes, i: int) {
    0 <= i <= |data| - WIDTH && Matches(data, i, 0)
  }

  lemma {:induction false} MatchesFrom(data: Bytes, i: int, k: nat)
    requires 0 <= i <= |data| - WIDTH && k <= WIDTH
    ensures Matches(data, i, k) <==> forall j :: k <= j < WIDTH ==> data[i + j] == PREFIX[j]
    decreases WIDTH - k
  {
    if k < WIDTH {
      MatchesFrom(data, i, k + 1);
    }
  }

  /** A marker is an occurrence of the prefix. */
  lemma MarkerIsPrefix(data: Bytes, i: int)
    requires 0 <= i <= |data| - WIDTH
    ensures MarkerAt(data, i) <==> data[i..i + WIDTH] == PREFIX
  {
    MatchesFrom(data, i, 0);
    if MarkerAt(data, i) {
      assert forall j :: 0 <= j < WIDTH ==> data[i..i + WIDTH][j] == PREFIX[j];
    } else {
      var j :| 0 <= j < WIDTH && data[i + j] != PREFIX[j];
      assert data[i..i + WIDTH][j] != PREFIX[j];
    }
  }

  predicate NewlineAt(data: Bytes, i: int) {
    0 <= i < |data| && data[i] == NEWLINE
  }

  /** `bytes.find` for the marker. */
  function FindMarker(data: Bytes, from: nat): (r: int)
    requires from <= |data|
    ensures r == -1 || (r >= from && MarkerAt(data, r))
    ensures forall i :: from <= i && (r == -1 || i < r) ==> !MarkerAt(data, i)
    decreases |data| - from
  {
    if MarkerAt(data, from) then from
    else if from < |data| then FindMarker(data, from + 1)
    else -1
  }

  function FindNewline(data: Bytes, from: nat): (r: int)
    requires from <= |data|
    ensures r == -1 || (r >= from && NewlineAt(data, r))
    ensures forall i :: from <= i && (r == -1 || i < r) ==> !NewlineAt(data, i)
    decreases |data| - from
  {
    if from == |data| then -1
    else if data[from] == NEWLINE then from
    else FindNewline(data, from + 1)
  }

  function StripFront(s: Bytes): Bytes {
    if s != [] && IsSpace(s[0]) then StripFront(s[1..]) else s
  }

  function StripBack(s: Bytes): Bytes {
    if s != [] && IsSpace(s[|s| - 1]) then StripBack(s[..|s| - 1]) else s
  }

  function Payload(data: Bytes, start: int, end: int): Bytes
    requires 0 <= start <= start + WIDTH <= end <= |data|
  {
    StripBack(StripFront(data[start + WIDTH..end]))
  }

  lemma NewlineAfterPrefix(data: Bytes, start: int, end: int)
    requires MarkerAt(data, start) && NewlineAt(data, end) && start <= end
    ensures start + WIDTH <= end
  {
    MatchesFrom(data, start, 0);
    assert forall k :: 0 <= k < WIDTH ==> PREFIX[k] != NEWLINE;
    assert forall k :: start <= k < start + WIDTH ==> data[k] == PREFIX[k - start];
  }

  /** Where a buffer has its first marker and the first newline after it. */
  function LineIn(data: Bytes): (r: Option<(int, int)>)
    ensures r.Some? ==>
      && MarkerAt(data, r.value.0) && NewlineAt(data, r.value.1) && r.value.0 + WIDTH <= r.value.1
      && r.value.1 == FindNewline(data, r.value.0)
  {
    var start := FindMarker(data, 0);
    if start < 0 then None
    else
      var end := FindNewline(data, start);
      if end < 0 then None
      else
        NewlineAfterPrefix(data, start, end);
        Some((start, end))
  }

  /** The search of one buffer. */
  function SearchBuffer(data: Bytes): Option<Bytes> {
    var line := LineIn(data);
    if line.None? then None else Some(Payload(data, line.value.0, line.value.1))
  }

  function Last(data: Bytes, n: nat): Bytes {
    if |data| <= n then data else data[|data| - n..]
  }

  function Join(pieces: seq<Bytes>): Bytes {
    if pieces == [] then [] else pieces[0] + Join(pieces[1..])
  }

  /** The scan: each piece is searched together with the overlap kept from before it. */
  function Scan(tail: Bytes, pieces: seq<Bytes>): Option<Bytes>
    decreases |pieces|
  {
    if pieces == [] then None
    else
      var data := tail + pieces[0];
      if SearchBuffer(data).Some? then SearchBuffer(data) else Scan(Last(data, WINDOW), pieces[1..])
  }

  /** Where in the file the scan finds its line; `at` bytes have been read before. */
  function ScanLine(tail: Bytes, at: int, pieces: seq<Bytes>): Option<(int, int)>
    decreases |pieces|
  {
    if pieces == [] then None
    else
      var data, lo := tail + pieces[0], at - |tail|;
      var line := LineIn(data);
      if line.Some? then Some((lo + line.value.0, lo + line.value.1))
      else ScanLine(Last(data, WINDOW), at + |pieces[0]|, pieces[1..])
  }

  /** The first marker and the newline that ends its line. */
  predicate FirstLine(file: Bytes, start: int, end: int) {
    && start == FindMarker(file, 0) && 0 <= start
    && end == FindNewline(file, start) && 0 <= end
  }

  /** No marker is followed by a newline. */
  ghost predicate NoLine(file: Bytes) {
    forall i, j :: MarkerAt(file, i) && NewlineAt(file, j) ==> j < i
  }

  // --------------------------------------------------- windows of the file

  /** `data` is the part of the file between `lo` and `hi`. */
  predicate Window(file: Bytes, data: Bytes, lo: int, hi: int) {
    0 <= lo <= hi <= |file| && data == file[lo..hi]
  }

  lemma SliceOfSlice(s: Bytes, lo: nat, hi: nat, i: nat, j: nat)
    requires lo <= hi <= |s| && i <= j <= hi - lo
    ensures s[lo..hi][i..j] == s[lo + i..lo + j]
  {
    var inner, outer := s[lo..hi][i..j], s[lo + i..lo + j];
    assert forall k :: 0 <= k < |inner| ==> inner[k] == outer[k];
    assert inner == outer;
  }

  lemma WindowMarker(file: Bytes, data: Bytes, lo: int, hi: int, i: int)
    requires Window(file, data, lo, hi) && 0 <= i
    ensures MarkerAt(data, i) <==> MarkerAt(file, lo + i) && lo + i + WIDTH <= hi
  {
    if i + WIDTH <= |data| {
      WindowMatches(file, data, lo, hi, i, 0);
    }
  }

  lemma {:induction false} WindowMatches(file: Bytes, data: Bytes, lo: int, hi: int, i: int, k: nat)
    requires Window(file, data, lo, hi) && 0 <= i <= |data| - WIDTH && k <= WIDTH
    ensures Matches(data, i, k) <==> Matches(file, lo + i, k)
    decreases WIDTH - k
  {
    if k < WIDTH {
      WindowMatches(file, data, lo, hi, i, k + 1);
      assert data[i + k] == file[lo + i + k];
    }
  }

  lemma WindowNewline(file: Bytes, data: Bytes, lo: int, hi: int, i: int)
    requires Window(file, data, lo, hi) && 0 <= i
    ensures NewlineAt(data, i) <==> NewlineAt(file, lo + i) && lo + i < hi
  {
  }

  lemma WindowFirstMarker(file: Bytes, data: Bytes, lo: int, hi: int, start: int)
    requires Window(file, data, lo, hi) && start == FindMarker(file, 0) && lo <= start && start + WIDTH <= hi
    ensures FindMarker(data, 0) == start - lo
  {
    WindowMarker(file, data, lo, hi, start - lo);
    var found := FindMarker(data, 0);
    assert found >= 0 && found <= start - lo;
    WindowMarker(file, data, lo, hi, found);
  }

  lemma WindowFirstNewline(file: Bytes, data: Bytes, lo: int, hi: int, start: nat, end: int)
    requires Window(file, data, lo, hi) && lo <= start <= end < hi && end == FindNewline(file, start)
    ensures FindNewline(data, start - lo) == end - lo
  {
    WindowNewline(file, data, lo, hi, end - lo);
    var found := FindNewline(data, start - lo);
    assert found >= 0 && found <= end - lo;
    WindowNewline(file, data, lo, hi, found);
  }

  lemma WindowPayload(file: Bytes, data: Bytes, lo: int, hi: int, start: int, end: int)
    requires Window(file, data, lo, hi) && lo <= start && start + WIDTH <= end <= hi
    ensures Payload(data, start - lo, end - lo) == Payload(file, start, end)
  {
    SliceOfSlice(file, lo, hi, start - lo + WIDTH, end - lo);
  }

  lemma FirstLineFound(file: Bytes, start: int, end: int)
    requires FirstLine(file, start, end)
    ensures start + WIDTH <= end < |file| && LineIn(file) == Some((start, end))
    ensures SearchBuffer(file) == Some(Payload(file, start, end))
  {
    NewlineAfterPrefix(file, start, end);
  }

  /** A window that reaches back to the first line and past its end shows exactly that line. */
  lemma WindowShowsLine(file: Bytes, data: Bytes, lo: int, hi: int, start: int, end: int)
    requires Window(file, data, lo, hi) && FirstLine(file, start, end) && lo <= start && end < hi
    ensures LineIn(data) == Some((start - lo, end - lo)) && SearchBuffer(data) == SearchBuffer(file)
  {
    FirstLineFound(file, start, end);
    WindowFirstMarker(file, data, lo, hi, start);
    WindowFirstNewline(file, data, lo, hi, start, end);
    FirstLineFound(data, start - lo, end - lo);
    WindowPayload(file, data, lo, hi, start, end);
  }

  /** What a window shows is a line of the file. */
  lemma WindowLine(file: Bytes, data: Bytes, lo: int, hi: int, s: nat, e: int)
    requires Window(file, data, lo, hi) && LineIn(data) == Some((s, e))
    ensures LineAt(file, lo + s, lo + e) && Payload(data, s, e) == Payload(file, lo + s, lo + e)
  {
    WindowMarker(file, data, lo, hi, s);
    WindowNewline(file, data, lo, hi, e);
    var first := FindNewline(file, lo + s);
    assert lo + s <= first <= lo + e;
    WindowNewline(file, data, lo, hi, first - lo);
    WindowPayload(file, data, lo, hi, lo + s, lo + e);
  }

  /** A marker and the first newline after it. */
  predicate LineAt(file: Bytes, s: int, e: int) {
    MarkerAt(file, s) && e == FindNewline(file, s) && s + WIDTH <= e < |file|
  }

  /** A window that ends before the line does shows nothing. */
  lemma WindowTooEarly(file: Bytes, data: Bytes, lo: int, hi: int, start: int, end: int)
    requires Window(file, data, lo, hi) && FirstLine(file, start, end) && hi <= end
    ensures LineIn(data) == None
  {
    if LineIn(data).Some? {
      var (s, e) := LineIn(data).value;
      WindowLine(file, data, lo, hi, s, e);
    }
  }

  /** One step of the scan moves the window over the file. */
  lemma NextWindow(file: Bytes, tail: Bytes, lo: int, hi: int, piece: Bytes, rest: Bytes)
    requires Window(file, tail, lo, hi) && file[hi..] == piece + rest
    ensures Window(file, tail + piece, lo, hi + |piece|)
    ensures file[hi + |piece|..] == rest
    ensures var kept := Last(tail + piece, WINDOW); Window(file, kept, hi + |piece| - |kept|, hi + |piece|)
  {
    var end := hi + |piece|;
    assert |file| - hi == |piece| + |rest|;
    assert file[hi..end] == file[hi..][..|piece|] == piece;
    assert file[end..] == file[hi..][|piece|..] == rest;
    assert tail + piece == file[lo..end];
  }

  lemma ScanCons(tail: Bytes, at: int, piece: Bytes, rest: seq<Bytes>)
    ensures Scan(tail, [piece] + rest) ==
      if LineIn(tail + piece).Some? then SearchBuffer(tail + piece) else Scan(Last(tail + piece, WINDOW), rest)
    ensures ScanLine(tail, at, [piece] + rest) ==
      if LineIn(tail + piece).Some?
      then Some((at - |tail| + LineIn(tail + piece).value.0, at - |tail| + LineIn(tail + piece).value.1))
      else ScanLine(Last(tail + piece, WINDOW), at + |piece|, rest)
  {
    assert ([piece] + rest)[1..] == rest;
  }

  /** What the scan has found, at the place where it stopped, is the payload of a line of the file
      that starts within what it still had. */
  ghost predicate Honest(file: Bytes, lo: int, line: Option<(int, int)>, payload: Option<Bytes>) {
    if line.None? then payload == None
    else
      var (s, e) := line.value;
      lo <= s && LineAt(file, s, e) && payload == Some(Payload(file, s, e))
  }

  lemma PieceMoves(file: Bytes, tail: Bytes, at: int, pieces: seq<Bytes>)
    requires Window(file, tail, at - |tail|, at) && file[at..] == Join(pieces) && pieces != []
    ensures var data, next := tail + pieces[0], at + |pieces[0]|;
      var kept := Last(data, WINDOW);
      && Window(file, data, at - |tail|, next) && Window(file, kept, next - |kept|, next)
      && file[next..] == Join(pieces[1..])
      && (|tail| == Min(at, WINDOW) ==> |kept| == Min(next, WINDOW))
  {
    NextWindow(file, tail, at - |tail|, at, pieces[0], Join(pieces[1..]));
  }

  /** However the file is cut. */
  lemma {:induction false} ScanIsHonest(file: Bytes, tail: Bytes, at: int, pieces: seq<Bytes>)
    requires Window(file, tail, at - |tail|, at) && file[at..] == Join(pieces)
    ensures Honest(file, at - |tail|, ScanLine(tail, at, pieces), Scan(tail, pieces))
    decreases |pieces|
  {
    if pieces != [] {
      var data, next := tail + pieces[0], at + |pieces[0]|;
      PieceMoves(file, tail, at, pieces);
      if LineIn(data).Some? {
        WindowLine(file, data, at - |tail|, next, LineIn(data).value.0, LineIn(data).value.1);
      } else {
        ScanIsHonest(file, Last(data, WINDOW), next, pieces[1..]);
      }
    }
  }

  /** The piece that brings the newline shows the line, the pieces before show nothing. */
  lemma PieceShows(file: Bytes, tail: Bytes, at: int, pieces: seq<Bytes>, start: int, end: int)
    requires pieces != [] && FirstLine(file, start, end) && at - |tail| <= start
    requires Window(file, tail + pieces[0], at - |tail|, at + |pieces[0]|)
    ensures ScanLine(tail, at, pieces) ==
      if end < at + |pieces[0]| then Some((start, end))
      else ScanLine(Last(tail + pieces[0], WINDOW), at + |pieces[0]|, pieces[1..])
  {
    var data, next := tail + pieces[0], at + |pieces[0]|;
    if next <= end {
      WindowTooEarly(file, data, at - |tail|, next, start, end);
    } else {
      WindowShowsLine(file, data, at - |tail|, next, start, end);
    }
  }

  lemma {:induction false} ScanFindsLine(file: Bytes, tail: Bytes, at: int, pieces: seq<Bytes>, start: int, end: int)
    requires Window(file, tail, at - |tail|, at) && |tail| == Min(at, WINDOW) && file[at..] == Join(pieces)
    requires FirstLine(file, start, end) && end - start <= WINDOW && at <= end
    ensures ScanLine(tail, at, pieces) == Some((start, end))
    decreases |pieces|
  {
    assert |Join(pieces)| == |file| - at > 0;
    if pieces != [] {
      var data, next := tail + pieces[0], at + |pieces[0]|;
      PieceMoves(file, tail, at, pieces);
      PieceShows(file, tail, at, pieces, start, end);
      if next <= end {
        ScanFindsLine(file, Last(data, WINDOW), next, pieces[1..], start, end);
      }
    }
  }

  /** The whole scan, from the start of the file. */
  lemma WholeScan(file: Bytes, pieces: seq<Bytes>)
    requires Join(pieces) == file
    ensures Honest(file, 0, ScanLine([], 0, pieces), Scan([], pieces))
  {
    assert file[0..] == file && file[0..0] == [];
    ScanIsHonest(file, [], 0, pieces);
  }

  /** The scan refines the whole-file search: for every file and every way the reads cut it, a first
      marker line of at most 8192 bytes before its newline is extracted exactly as from the
      whole file. */
  lemma ScanRefinesSearch(pieces: seq<Bytes>, start: int, end: int)
    requires FirstLine(Join(pieces), start, end) && end - start <= WINDOW
    ensures ScanLine([], 0, pieces) == Some((start, end))
    ensures Scan([], pieces) == SearchBuffer(Join(pieces)) && Scan([], pieces).Some?
  {
    var file := Join(pieces);
    assert file[0..] == file && file[0..0] == [];
    ScanFindsLine(file, [], 0, pieces, start, end);
    WholeScan(file, pieces);
    FirstLineFound(file, start, end);
  }

  /** A file without a complete marker line yields nothing, however it is cut. */
  lemma ScanFailsWithoutLine(pieces: seq<Bytes>)
    requires NoLine(Join(pieces))
    ensures Scan([], pieces) == None
  {
    WholeScan(Join(pieces), pieces);
  }

  // -------------------------------------------------- reads of a fixed size

  function NextRead(file: Bytes, at: nat, size: nat): nat {
    Min(at + size, |file|)
  }

  /** What is read from position `at` on. */
  function Reads(file: Bytes, at: nat, size: nat): seq<Bytes>
    requires at <= |file| && size > 0
    decreases |file| - at
  {
    if at == |file| then []
    else [file[at..NextRead(file, at, size)]] + Reads(file, NextRead(file, at, size), size)
  }

  lemma {:induction false} ReadsJoin(file: Bytes, at: nat, size: nat)
    requires at <= |file| && size > 0
    ensures Join(Reads(file, at, size)) == file[at..]
    decreases |file| - at
  {
    if at < |file| {
      var next := NextRead(file, at, size);
      ReadsJoin(file, next, size);
      assert file[at..] == file[at..next] + file[next..];
    }
  }

  lemma ReadAt(end: nat, k: nat, size: nat)
    requires size > 0 && k * size <= end < k * size + size
    ensures end / size * size == k * size
  {
    if end / size < k {
      MulMono(end / size + 1, k, size);
    } else if end / size > k {
      MulMono(k + 1, end / size, size);
    }
    Distribute(k, 1, size);
    Distribute(end / size, 1, size);
  }

  /** The overlap before the read at `at`. */
  ghost predicate Overlap(file: Bytes, tail: Bytes, at: int) {
    Window(file, tail, at - |tail|, at) && |tail| == Min(at, WINDOW)
  }

  /** One read moves the window on. */
  lemma ReadMoves(file: Bytes, tail: Bytes, at: nat, next: nat)
    requires at <= next <= |file| && Overlap(file, tail, at)
    ensures Window(file, tail + file[at..next], at - |tail|, next)
    ensures Overlap(file, Last(tail + file[at..next], WINDOW), next)
  {
    assert file[at..] == file[at..next] + file[next..];
    NextWindow(file, tail, at - |tail|, at, file[at..next], file[next..]);
  }

  /** The last step: the read at `at` brings the newline. */
  lemma ReadBringsNewline(file: Bytes, tail: Bytes, at: nat, size: nat, start: int, end: int)
    requires size > 0 && at <= end < NextRead(file, at, size) && FirstLine(file, start, end) && Overlap(file, tail, at)
    ensures at <= start + WINDOW ==> ScanLine(tail, at, Reads(file, at, size)) == Some((start, end))
    ensures at > start + WINDOW ==>
      var line := ScanLine(tail, at, Reads(file, at, size)); line.None? || line.value.0 > start
  {
    if at <= start + WINDOW {
      var next := NextRead(file, at, size);
      ReadMoves(file, tail, at, next);
      ScanCons(tail, at, file[at..next], Reads(file, next, size));
      WindowShowsLine(file, tail + file[at..next], at - |tail|, next, start, end);
    } else {
      ReadsJoin(file, at, size);
      ScanIsHonest(file, tail, at, Reads(file, at, size));
    }
  }

  /** A read that ends before the newline shows nothing. */
  lemma ReadPassesBy(file: Bytes, tail: Bytes, at: nat, size: nat, start: int, end: int)
    requires size > 0 && NextRead(file, at, size) <= end && FirstLine(file, start, end) && Overlap(file, tail, at)
    ensures var next := NextRead(file, at, size);
      var kept := Last(tail + file[at..next], WINDOW);
      && next == at + size && Overlap(file, kept, next)
      && ScanLine(tail, at, Reads(file, at, size)) == ScanLine(kept, next, Reads(file, next, size))
  {
    var next := NextRead(file, at, size);
    ReadMoves(file, tail, at, next);
    ScanCons(tail, at, file[at..next], Reads(file, next, size));
    WindowTooEarly(file, tail + file[at..next], at - |tail|, next, start, end);
  }

  /** The read that brings the newline decides: `k` reads lie behind, and the overlap is `tail`. */
  lemma {:induction false} ReadsFrom(file: Bytes, tail: Bytes, at: nat, k: nat, size: nat, start: int, end: int)
    requires size > 0 && at == k * size && at <= end && FirstLine(file, start, end) && Overlap(file, tail, at)
    ensures end / size * size <= start + WINDOW ==> ScanLine(tail, at, Reads(file, at, size)) == Some((start, end))
    ensures end / size * size > start + WINDOW ==>
      var line := ScanLine(tail, at, Reads(file, at, size)); line.None? || line.value.0 > start
    decreases |file| - at
  {
    var next := NextRead(file, at, size);
    Distribute(k, 1, size);
    if next <= end {
      ReadPassesBy(file, tail, at, size, start, end);
      ReadsFrom(file, Last(tail + file[at..next], WINDOW), next, k + 1, size, start, end);
    } else {
      ReadAt(end, k, size);
      ReadBringsNewline(file, tail, at, size, start, end);
    }
  }

  /** For every file and reads of any fixed size, exactly: the scan stops at the first marker line if
      and only if the read that brings its newline starts at most a window behind the marker.
      Otherwise it finds nothing, or a line of a later marker. */
  lemma ReadsExactLine(file: Bytes, size: nat, start: int, end: int)
    requires size > 0 && FirstLine(file, start, end)
    ensures var line := ScanLine([], 0, Reads(file, 0, size));
      && (line == Some((start, end)) <==> end / size * size <= start + WINDOW)
      && (line != Some((start, end)) ==> line.None? || line.value.0 > start)
      && Honest(file, 0, line, Scan([], Reads(file, 0, size)))
  {
    assert file[0..0] == [] && 0 * size == 0 && file[0..] == file;
    ReadsFrom(file, [], 0, 0, size, start, end);
    ReadsJoin(file, 0, size);
    WholeScan(file, Reads(file, 0, size));
  }

  /** With reads of a fixed size, the first marker line is then extracted as from the whole file. */
  lemma ReadsFindLine(file: Bytes, size: nat, start: int, end: int)
    requires size > 0 && FirstLine(file, start, end) && end / size * size <= start + WINDOW
    ensures Scan([], Reads(file, 0, size)) == SearchBuffer(file) && SearchBuffer(file).Some?
  {
    ReadsExactLine(file, size, start, end);
    FirstLineFound(file, start, end);
  }

  /** For a file with one marker the condition is exact for the extracted payload, too. */
  lemma ReadsExact(file: Bytes, size: nat, start: int, end: int)
    requires size > 0 && FirstLine(file, start, end) && forall i :: MarkerAt(file, i) ==> i == start
    ensures Scan([], Reads(file, 0, size)) == SearchBuffer(file) <==> end / size * size <= start + WINDOW
  {
    ReadsExactLine(file, size, start, end);
    FirstLineFound(file, start, end);
  }

  /** A line longer than the window is missed by reads that end just before its newline. */
  lemma LongLineIsMissed(file: Bytes, start: int, end: int)
    requires FirstLine(file, start, end) && end - start > WINDOW
    ensures Join(Reads(file, 0, end)) == file && ScanLine([], 0, Reads(file, 0, end)) != Some((start, end))
  {
    ReadAt(end, 1, end);
    ReadsExactLine(file, end, start, end);
    ReadsJoin(file, 0, end);
    assert file[0..] == file;
  }

  /** Over all ways of cutting a file, the overlap is exactly long enough: all of them stop at the
      first marker line if and only if that line fits the window. */
  lemma WindowIsExact(file: Bytes, start: int, end: int)
    requires FirstLine(file, start, end)
    ensures (forall pieces :: Join(pieces) == file ==> ScanLine([], 0, pieces) == Some((start, end)))
        <==> end - start <= WINDOW
  {
    if end - start <= WINDOW {
      forall pieces | Join(pieces) == file
        ensures ScanLine([], 0, pieces) == Some((start, end))
      {
        ScanRefinesSearch(pieces, start, end);
      }
    } else {
      LongLineIsMissed(file, start, end);
    }
  }

  /** A file that the code misses: one marker at its start, a line of exactly one read, and the
      newline in the next read. */
  lemma LineOfOneReadIsMissed(filler: Bytes)
    requires |filler| == READ - WIDTH && forall i :: 0 <= i < |filler| ==> filler[i] == 120
    ensures var file := PREFIX + filler + [NEWLINE];
      FirstLine(file, 0, READ) && SearchBuffer(file).Some? && Scan([], Reads(file, 0, READ)) != SearchBuffer(file)
  {
    var file := PREFIX + filler + [NEWLINE];
    OnlyMarker(filler, file);
    LineOf(filler, file);
    FirstLineFound(file, 0, READ);
    ReadsExact(file, READ, 0, READ);
  }

  lemma OnlyMarker(filler: Bytes, file: Bytes)
    requires file == PREFIX + filler + [NEWLINE] && forall i :: 0 <= i < |filler| ==> filler[i] == 120
    ensures MarkerAt(file, 0) && forall i :: MarkerAt(file, i) ==> i == 0
  {
    assert file[0..WIDTH] == PREFIX;
    MarkerIsPrefix(file, 0);
    assert forall k :: WIDTH <= k < |file| ==> file[k] == 120 || file[k] == NEWLINE;
    forall i | MarkerAt(file, i)
      ensures i == 0
    {
      MarkerEnds(file, i);
    }
  }

  /** The last byte of a marker is an equals sign. */
  lemma MarkerEnds(file: Bytes, i: int)
    requires MarkerAt(file, i)
    ensures file[i + 31] == 61
  {
    MatchesFrom(file, i, 0);
    assert PREFIX[31] == 61;
  }

  lemma LineOf(filler: Bytes, file: Bytes)
    requires file == PREFIX + filler + [NEWLINE] && forall i :: 0 <= i < |filler| ==> filler[i] == 120
    requires MarkerAt(file, 0)
    ensures FirstLine(file, 0, |file| - 1)
  {
    assert NewlineAt(file, |file| - 1);
    var found := FindNewline(file, 0);
    NewlineAfterPrefix(file, 0, found);
  }

  // ------------------------------------------------------------- the method

  /** What `json.loads` and the check for an object make of a payload. */
  datatype Parsed<T> = Object(value: T) | OtherValue | Undecodable

  datatype MarkerError = InvalidProvenance | NotAnObject | LacksProvenance

  function Verdict<T>(payload: Option<Bytes>, parse: Bytes -> Parsed<T>): Result<T, MarkerError> {
    if payload.None? then Err(LacksProvenance)
    else match parse(payload.value)
      case Object(v) => Ok(v)
      case OtherValue => Err(NotAnObject)
      case Undecodable => Err(InvalidProvenance)
  }

  lemma ReadGuarantees(file: Bytes)
    ensures forall start, end :: FirstLine(file, start, end) && end / READ * READ <= start + WINDOW ==>
      Scan([], Reads(file, 0, READ)) == SearchBuffer(file)
    ensures NoLine(file) ==> Scan([], Reads(file, 0, READ)) == None
  {
    forall start, end | FirstLine(file, start, end) && end / READ * READ <= start + WINDOW
      ensures Scan([], Reads(file, 0, READ)) == SearchBuffer(file)
    {
      ReadsFindLine(file, READ, start, end);
    }
    if NoLine(file) {
      ReadsJoin(file, 0, READ);
      assert file[0..] == file;
      ScanFailsWithoutLine(Reads(file, 0, READ));
    }
  }

  /** The loop over reads of one mebibyte. */
  method ReadProvenanceMarker<T>(file: Bytes, parse: Bytes -> Parsed<T>) returns (r: Result<T, MarkerError>)
    ensures r == Verdict(Scan([], Reads(file, 0, 1_048_576)), parse)
    ensures forall start, end :: FirstLine(file, start, end) && end / 1_048_576 * 1_048_576 <= start + 8192 ==>
      r == Verdict(SearchBuffer(file), parse)
    ensures NoLine(file) ==> r == Err(LacksProvenance)
  {
    ReadGuarantees(file);
    var tail: Bytes := [];
    var at := 0;
    while true
      invariant 0 <= at <= |file|
      invariant Scan([], Reads(file, 0, READ)) == Scan(tail, Reads(file, at, READ))
      decreases |file| - at
    {
      var chunk := file[at..NextRead(file, at, READ)];
      if chunk == [] {
        return Err(LacksProvenance);
      }
      at := NextRead(file, at, READ);
      var data := tail + chunk;
      var start := FindMarker(data, 0);
      if start >= 0 {
        var end := FindNewline(data, start);
        if end >= 0 {
          NewlineAfterPrefix(data, start, end);
          match parse(Payload(data, start, end)) {
            case Object(v) => return Ok(v);
            case OtherValue => return Err(NotAnObject);
            case Undecodable => return Err(InvalidProvenance);
          }
        }
      }
      tail := Last(data, WINDOW);
    }
  }
}
