/**
 The records of the evidence transfer between lab machines and the rules for paths and
 manifests (setup/evidence_transfer.py).

 A node root is a map from relative POSIX paths to files; contents do not change while an
 export runs. SHA-256, JSON, ISO dates, `str.isprintable`, the recognition of a profile or a
 benchmark record and the compressed size of a ZIP file are the functions of a `Library`.
 A refusal (EvidenceTransferError) is `None`.
 */
module EvidenceTransfer {
  import opened Basics
  import opened StableSort

  type Bytes = seq<int>

  const MAX_FILES := 10_000
  const MAX_FILE_BYTES := 16_777_216
  const MAX_TOTAL_BYTES := 268_435_456
  const MAX_ARCHIVE_BYTES := 268_435_456
  const MAX_MANIFEST_BYTES := 2_097_152
  const MAX_PATH := 4096

  datatype Record = Record(path: string, sha256: string, size: int)

  datatype Manifest = Manifest(
    version: int,
    exportId: string,
    createdAt: string,
    nodeId: string,
    revision: int,
    files: seq<Record>)

  /** A ZIP entry: its declared size, the bytes it decompresses to, its flags. */
  datatype Member = Member(name: string, size: int, data: Bytes, encrypted: bool, link: bool)

  datatype Archive = Archive(size: int, link: bool, members: seq<Member>)

  datatype Entry = File(data: Bytes) | Link

  type Tree = map<string, Entry>

  /** What the content of a local JSON file is taken for; `Refused` stops the export. */
  datatype Kind = Profile(nodeId: string, revision: int) | Benchmark | Unrecognised | Refused

  datatype Library = Library(
    sha256: Bytes -> string,
    exportId: (string, int, seq<Record>) -> string,
    encode: Manifest -> Bytes,
    decode: Bytes -> Option<Manifest>,
    printable: char -> bool,
    zoned: string -> bool,
    recognise: Bytes -> Kind,
    packed: seq<Member> -> int)

  /** What the platform guarantees of the library. */
  ghost predicate Faithful(lib: Library) {
    && (forall data :: DigestShape(lib.sha256(data)))
    && (forall id, revision, files :: ExportIdShape(lib.exportId(id, revision, files)))
    && (forall m :: lib.decode(lib.encode(m)) == Some(m))
    && (forall c :: ' ' <= c <= '~' ==> lib.printable(c))
    && (forall members :: lib.packed(members) >= 1)
  }

  predicate HexDigit(c: char) {
    '0' <= c <= '9' || 'a' <= c <= 'f'
  }

  predicate AllHex(s: string) {
    forall i :: 0 <= i < |s| ==> HexDigit(s[i])
  }

  predicate DigestShape(s: string) {
    |s| == 71 && s[..7] == "sha256:" && AllHex(s[7..])
  }

  predicate ExportIdShape(s: string) {
    |s| == 27 && s[..11] == "lab-export-" && AllHex(s[11..])
  }

  // ---------------------------------------------------------- safe paths

  /** `str.split` at slashes. */
  function Split(s: string): (parts: seq<string>)
    ensures parts != []
  {
    if s == "" then [""]
    else
      var rest := Split(s[1..]);
      if s[0] == '/' then [""] + rest else [[s[0]] + rest[0]] + rest[1..]
  }

  predicate SafePart(lib: Library, part: string) {
    && part != "" && part != "." && part != ".."
    && |part| <= 255
    && forall i :: 0 <= i < |part| ==> part[i] != ':' && lib.printable(part[i])
  }

  predicate SafePath(lib: Library, path: string) {
    && 1 <= |path| <= MAX_PATH
    && '\\' !in path && path[0] != '/'
    && forall k :: 0 <= k < |Split(path)| ==> SafePart(lib, Split(path)[k])
  }

  lemma {:induction false} SplitAfterSlash(a: string, p: string)
    requires '/' !in a
    ensures Split(a + ['/'] + p) == [a] + Split(p)
  {
    var s := a + ['/'] + p;
    if a == "" {
      assert s[1..] == p;
    } else {
      assert s[1..] == a[1..] + ['/'] + p;
      SplitAfterSlash(a[1..], p);
      assert [a[0]] + a[1..] == a;
    }
  }

  lemma {:induction false} SplitPlain(a: string)
    requires '/' !in a
    ensures Split(a) == [a]
  {
    if a != "" {
      SplitPlain(a[1..]);
      assert [a[0]] + a[1..] == a;
    }
  }

  const FOLDER: string := "evidence"

  /** The archive name of an evidence path. */
  function MemberName(path: string): (name: string)
    ensures |name| == |path| + 9 && name[8] == '/'
  {
    FOLDER + ['/'] + path
  }

  lemma MemberNameInjective(p: string, q: string)
    requires MemberName(p) == MemberName(q)
    ensures p == q
  {
    assert p == MemberName(p)[9..] && q == MemberName(q)[9..];
  }

  lemma FolderIsSafe(lib: Library)
    requires Faithful(lib)
    ensures SafePart(lib, FOLDER) && '/' !in FOLDER && '\\' !in FOLDER && FOLDER[0] != '/'
  {
  }

  lemma LeadingSlash(lib: Library, path: string)
    requires path != "" && path[0] == '/'
    ensures !SafePart(lib, Split(path)[0])
  {
  }

  /** The archive name of a path is safe exactly when the path is safe and leaves room for the
      nine characters of the prefix. */
  lemma PrefixedPathSafe(lib: Library, path: string)
    requires Faithful(lib)
    ensures SafePath(lib, MemberName(path)) <==> SafePath(lib, path) && |path| <= MAX_PATH - 9
  {
    FolderIsSafe(lib);
    SplitAfterSlash(FOLDER, path);
    var name := MemberName(path);
    var parts, tail := Split(name), Split(path);
    assert parts == [FOLDER] + tail;
    assert name[0] == FOLDER[0];
    assert '\\' in name <==> '\\' in path by {
      assert name == FOLDER + (['/'] + path);
    }
    if path == "" {
      assert parts[1] == "";
    } else if path[0] == '/' {
      LeadingSlash(lib, path);
      assert parts[1] == tail[0];
    }
    SafeBehind(lib, FOLDER, tail);
  }

  /** A safe part in front changes nothing. */
  lemma SafeBehind(lib: Library, part: string, tail: seq<string>)
    requires SafePart(lib, part)
    ensures var parts := [part] + tail;
      (forall k :: 0 <= k < |parts| ==> SafePart(lib, parts[k])) <==>
      (forall k :: 0 <= k < |tail| ==> SafePart(lib, tail[k]))
  {
    var parts := [part] + tail;
    assert forall k :: 0 < k < |parts| ==> parts[k] == tail[k - 1];
    assert forall k :: 0 <= k < |tail| ==> tail[k] == parts[k + 1];
  }

  const MANIFEST_NAME: string := "computemesh-lab-export.json"

  /** A printable ASCII name of one part. */
  predicate PlainName(name: string) {
    && 3 <= |name| <= 255
    && forall i :: 0 <= i < |name| ==> ' ' <= name[i] <= '~' && name[i] != '/' && name[i] != '\\' && name[i] != ':'
  }

  lemma PlainNameSafe(lib: Library, name: string)
    requires Faithful(lib) && PlainName(name)
    ensures SafePath(lib, name)
  {
    SplitPlain(name);
  }

  lemma ManifestNamePlain()
    ensures PlainName(MANIFEST_NAME) && |MANIFEST_NAME| == 27 && MANIFEST_NAME[8] != '/'
  {
  }

  lemma NotAManifest(path: string)
    ensures MemberName(path) != MANIFEST_NAME
  {
  }

  // ------------------------------------------------------ order of paths

  /** Python's order of strings. */
  predicate Le(a: string, b: string) {
    a == "" || (b != "" && (a[0] < b[0] || (a[0] == b[0] && Le(a[1..], b[1..]))))
  }

  lemma {:induction false} LeTotal(a: string, b: string)
    ensures Le(a, b) || Le(b, a)
  {
    if a != "" && b != "" {
      LeTotal(a[1..], b[1..]);
    }
  }

  lemma {:induction false} LeTransitive(a: string, b: string, c: string)
    requires Le(a, b) && Le(b, c)
    ensures Le(a, c)
  {
    if a != "" && a[0] == b[0] && b[0] == c[0] {
      LeTransitive(a[1..], b[1..], c[1..]);
    }
  }

  lemma {:induction false} LeAntisymmetric(a: string, b: string)
    requires Le(a, b) && Le(b, a)
    ensures a == b
  {
    if a != "" {
      LeAntisymmetric(a[1..], b[1..]);
      assert a == [a[0]] + a[1..] && b == [b[0]] + b[1..];
    }
  }

  predicate RecordLe(a: Record, b: Record) {
    Le(a.path, b.path)
  }

  lemma RecordOrder()
    ensures TotalPreorder(RecordLe)
  {
    forall a: Record, b: Record
      ensures RecordLe(a, b) || RecordLe(b, a)
    {
      LeTotal(a.path, b.path);
    }
    forall a: Record, b: Record, c: Record | RecordLe(a, b) && RecordLe(b, c)
      ensures RecordLe(a, c)
    {
      LeTransitive(a.path, b.path, c.path);
    }
  }

  predicate DistinctPaths(files: seq<Record>) {
    forall i, j :: 0 <= i < j < |files| ==> files[i].path != files[j].path
  }

  /** The records of a valid manifest: sorted by path, no path twice. */
  ghost predicate Ordered(files: seq<Record>) {
    DistinctPaths(files) && Sorted(files, RecordLe)
  }

  lemma {:induction false} SortOfSorted(files: seq<Record>)
    requires Sorted(files, RecordLe)
    ensures Sort(files, RecordLe) == files
  {
    if files != [] {
      SortOfSorted(files[1..]);
      assert files == [files[0]] + files[1..];
      assert |files| > 1 ==> RecordLe(files[0], files[1]);
    }
  }

  lemma SortedIffSorting(files: seq<Record>)
    ensures Sorted(files, RecordLe) <==> Sort(files, RecordLe) == files
  {
    RecordOrder();
    SortSpec(files, RecordLe);
    if Sorted(files, RecordLe) {
      SortOfSorted(files);
    }
  }

  lemma SortKeepsPaths(files: seq<Record>)
    requires DistinctPaths(files)
    ensures Ordered(Sort(files, RecordLe))
    ensures forall r :: r in Sort(files, RecordLe) <==> r in files
  {
    RecordOrder();
    SortSpec(files, RecordLe);
    SortKeepsDistinct(files, RecordLe);
    var s := Sort(files, RecordLe);
    forall r: Record
      ensures r in s <==> r in files
    {
      MemberOfSort(files, RecordLe, r);
    }
    forall i, j | 0 <= i < j < |s|
      ensures s[i].path != s[j].path
    {
      assert s[i] in files && s[j] in files && s[i] != s[j];
    }
  }

  /** There is one way to order a set of records. */
  lemma {:induction false} OrderedUnique(s: seq<Record>, t: seq<Record>)
    requires Ordered(s) && Ordered(t) && forall r :: r in s <==> r in t
    ensures s == t
  {
    assert t != [] ==> t[0] in s;
    if s != [] {
      assert s[0] in t;
      LeastFirst(s, t[0]);
      LeastFirst(t, s[0]);
      LeAntisymmetric(s[0].path, t[0].path);
      assert s[0] == t[0];
      forall r: Record
        ensures r in s[1..] <==> r in t[1..]
      {
        TailMembers(s, r);
        TailMembers(t, r);
      }
      OrderedUnique(s[1..], t[1..]);
      assert s == [s[0]] + s[1..] && t == [t[0]] + t[1..];
    }
  }

  lemma LeastFirst(s: seq<Record>, r: Record)
    requires Ordered(s) && r in s
    ensures Le(s[0].path, r.path)
  {
    LeTotal(r.path, r.path);
  }

  lemma TailMembers(s: seq<Record>, r: Record)
    requires s != [] && DistinctPaths(s)
    ensures r in s[1..] <==> r in s && r != s[0]
  {
  }

  // ------------------------------------------------------- the manifest

  function SizeOf(r: Record): int {
    r.size
  }

  function Total(files: seq<Record>): int {
    SumBy(files, SizeOf)
  }

  predicate NodeIdOk(lib: Library, id: string) {
    1 <= |id| <= 128 && forall i :: 0 <= i < |id| ==> lib.printable(id[i]) && id[i] != '/' && id[i] != '\\'
  }

  predicate RecordOk(lib: Library, r: Record) {
    SafePath(lib, r.path) && DigestShape(r.sha256) && 1 <= r.size <= MAX_FILE_BYTES
  }

  ghost predicate FilesOk(lib: Library, files: seq<Record>) {
    && 1 <= |files| <= MAX_FILES
    && (forall k :: 0 <= k < |files| ==> RecordOk(lib, files[k]))
    && Total(files) <= MAX_TOTAL_BYTES
    && Ordered(files)
  }

  ghost predicate ManifestOk(lib: Library, m: Manifest) {
    && m.version == 1
    && ExportIdShape(m.exportId)
    && NodeIdOk(lib, m.nodeId)
    && m.revision > 0
    && lib.zoned(m.createdAt)
    && FilesOk(lib, m.files)
    && lib.exportId(m.nodeId, m.revision, m.files) == m.exportId
  }

  lemma {:induction false} TotalSnoc(files: seq<Record>, r: Record)
    ensures Total(files + [r]) == Total(files) + r.size
  {
    if files == [] {
      assert files + [r] == [r];
      assert [r][1..] == [];
    } else {
      assert (files + [r])[1..] == files[1..] + [r];
      TotalSnoc(files[1..], r);
    }
  }

  /** A running total over positive sizes that has passed the limit stays past it. */
  lemma {:induction false} TotalGrows(files: seq<Record>, k: nat)
    requires k <= |files| && forall i :: k <= i < |files| ==> files[i].size >= 0
    ensures Total(files[..k]) <= Total(files)
    decreases |files| - k
  {
    if k == |files| {
      assert files[..k] == files;
    } else {
      TotalSnoc(files[..k], files[k]);
      assert files[..k] + [files[k]] == files[..k + 1];
      TotalGrows(files, k + 1);
    }
  }

  function Paths(files: seq<Record>): set<string> {
    set r | r in files :: r.path
  }

  /** One more record: its path is new, or no continuation has distinct paths. */
  lemma SeenPath(files: seq<Record>, k: nat)
    requires k < |files| && DistinctPaths(files[..k])
    ensures Paths(files[..k + 1]) == Paths(files[..k]) + {files[k].path}
    ensures if files[k].path in Paths(files[..k]) then !DistinctPaths(files) else DistinctPaths(files[..k + 1])
  {
    var front := files[..k];
    assert files[..k + 1] == front + [files[k]];
    if files[k].path in Paths(front) {
      var r :| r in front && r.path == files[k].path;
      var i :| 0 <= i < k && front[i] == r;
      assert files[i].path == files[k].path;
    } else {
      assert forall i :: 0 <= i < k ==> front[i] in front;
    }
  }

  /** The loop over the file records: paths, digests, sizes, duplicates and the running total. */
  method CheckRecords(lib: Library, files: seq<Record>) returns (ok: bool)
    ensures ok <==>
      && (forall k :: 0 <= k < |files| ==> RecordOk(lib, files[k]))
      && DistinctPaths(files) && Total(files) <= MAX_TOTAL_BYTES
  {
    var seen: set<string> := {};
    var total := 0;
    assert files[..0] == [];
    for k := 0 to |files|
      invariant forall i :: 0 <= i < k ==> RecordOk(lib, files[i])
      invariant seen == Paths(files[..k]) && DistinctPaths(files[..k])
      invariant total == Total(files[..k]) && total <= MAX_TOTAL_BYTES
    {
      var item := files[k];
      if !SafePath(lib, item.path) {
        return false;
      }
      SeenPath(files, k);
      if item.path in seen {
        return false;
      }
      seen := seen + {item.path};
      if !DigestShape(item.sha256) || !(1 <= item.size <= MAX_FILE_BYTES) {
        return false;
      }
      total := total + item.size;
      assert files[..k + 1] == files[..k] + [item];
      TotalSnoc(files[..k], item);
      if total > MAX_TOTAL_BYTES {
        if forall i :: 0 <= i < |files| ==> RecordOk(lib, files[i]) {
          TotalGrows(files, k + 1);
        }
        return false;
      }
    }
    assert files[..|files|] == files;
    ok := true;
  }

  /** `_validate_manifest`: every clause of the contract, in both directions. */
  method ValidateManifest(lib: Library, m: Manifest) returns (ok: bool)
    ensures ok <==> ManifestOk(lib, m)
  {
    if m.version != 1 || !ExportIdShape(m.exportId) || !NodeIdOk(lib, m.nodeId)
      || m.revision <= 0 || !lib.zoned(m.createdAt) || !(1 <= |m.files| <= MAX_FILES)
    {
      return false;
    }
    ok := CheckRecords(lib, m.files);
    SortedIffSorting(m.files);
    ok := ok && m.files == Sort(m.files, RecordLe)
    && lib.exportId(m.nodeId, m.revision, m.files) == m.exportId;
  }
}
