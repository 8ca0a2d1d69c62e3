/**
 The hypotheses of the transfer laws can be met: a library with the platform's guarantees, and
 for every safe JSON path a tree that exports. With a long path the export is written and no
 root accepts it.
 */
module EvidenceWitness {
  import opened Basics
  import opened EvidenceTransfer
  import opened EvidenceExport
  import opened EvidenceImport
  import opened EvidenceLaws

  // ------------------------------------------------ an encoding of manifests

  function Codes(s: string): (b: Bytes)
    ensures |b| == |s| && forall i :: 0 <= i < |s| ==> b[i] == s[i] as int
  {
    seq(|s|, i requires 0 <= i < |s| => s[i] as int)
  }

  function TextBytes(s: string): (b: Bytes)
    ensures |b| == |s| + 1
  {
    [|s|] + Codes(s)
  }

  /** Texts with their lengths in front are told apart whatever follows. */
  lemma TextSplits(s: string, x: Bytes, t: string, y: Bytes)
    requires TextBytes(s) + x == TextBytes(t) + y
    ensures s == t && x == y
  {
    assert (TextBytes(s) + x)[0] == |s| && (TextBytes(t) + y)[0] == |t|;
    SplitAt(TextBytes(s), x, TextBytes(t), y);
    assert Codes(s) == TextBytes(s)[1..] && Codes(t) == TextBytes(t)[1..];
    forall i | 0 <= i < |s|
      ensures s[i] == t[i]
    {
      assert Codes(s)[i] == Codes(t)[i];
    }
  }

  function RecordBytes(files: seq<Record>): Bytes {
    if files == [] then []
    else [files[0].size] + (TextBytes(files[0].path) + (TextBytes(files[0].sha256) + RecordBytes(files[1..])))
  }

  lemma {:induction false} RecordsSplit(s: seq<Record>, t: seq<Record>)
    requires RecordBytes(s) == RecordBytes(t)
    ensures s == t
  {
    if s != [] && t != [] {
      var restS, restT := RecordBytes(s[1..]), RecordBytes(t[1..]);
      var pathS, pathT := TextBytes(s[0].sha256) + restS, TextBytes(t[0].sha256) + restT;
      SplitAt([s[0].size], TextBytes(s[0].path) + pathS, [t[0].size], TextBytes(t[0].path) + pathT);
      assert [s[0].size][0] == [t[0].size][0];
      TextSplits(s[0].path, pathS, t[0].path, pathT);
      TextSplits(s[0].sha256, restS, t[0].sha256, restT);
      RecordsSplit(s[1..], t[1..]);
      assert s == [s[0]] + s[1..] && t == [t[0]] + t[1..];
    }
  }

  function Encoded(m: Manifest): Bytes {
    [m.version, m.revision] +
    (TextBytes(m.exportId) + (TextBytes(m.createdAt) + (TextBytes(m.nodeId) + RecordBytes(m.files))))
  }

  lemma EncodedSplits(m: Manifest, n: Manifest)
    requires Encoded(m) == Encoded(n)
    ensures m == n
  {
    var m3, n3 := RecordBytes(m.files), RecordBytes(n.files);
    var m2, n2 := TextBytes(m.nodeId) + m3, TextBytes(n.nodeId) + n3;
    var m1, n1 := TextBytes(m.createdAt) + m2, TextBytes(n.createdAt) + n2;
    SplitAt([m.version, m.revision], TextBytes(m.exportId) + m1, [n.version, n.revision], TextBytes(n.exportId) + n1);
    assert [m.version, m.revision][0] == [n.version, n.revision][0];
    assert [m.version, m.revision][1] == [n.version, n.revision][1];
    TextSplits(m.exportId, m1, n.exportId, n1);
    TextSplits(m.createdAt, m2, n.createdAt, n2);
    TextSplits(m.nodeId, m3, n.nodeId, n3);
    RecordsSplit(m.files, n.files);
  }

  ghost function Decoded(b: Bytes): Option<Manifest> {
    if exists m :: Encoded(m) == b then
      var m :| Encoded(m) == b;
      Some(m)
    else None
  }

  lemma DecodedEncoded(m: Manifest)
    ensures Decoded(Encoded(m)) == Some(m)
  {
    var n := Decoded(Encoded(m)).value;
    EncodedSplits(m, n);
  }

  // ---------------------------------------------------------- a library

  const ZEROS: string := "0000000000000000"

  /** Every hash is zero, every character printable, every date zoned, every file a profile of
      revision 1 of node "n", and every archive packs into one byte. */
  ghost function Simple(): Library {
    Library(
      (data: Bytes) => "sha256:" + (ZEROS + ZEROS + (ZEROS + ZEROS)),
      (id: string, revision: int, files: seq<Record>) => "lab-export-" + ZEROS,
      (m: Manifest) => Encoded(m),
      (b: Bytes) => Decoded(b),
      (c: char) => true,
      (s: string) => true,
      (data: Bytes) => Profile("n", 1),
      (members: seq<Member>) => 1)
  }

  lemma SimpleIsFaithful()
    ensures Faithful(Simple())
  {
    var lib := Simple();
    var digest := "sha256:" + (ZEROS + ZEROS + (ZEROS + ZEROS));
    assert AllHex(ZEROS) && |ZEROS| == 16;
    assert digest[7..] == ZEROS + ZEROS + (ZEROS + ZEROS) && digest[..7] == "sha256:";
    var id := "lab-export-" + ZEROS;
    assert id[11..] == ZEROS && id[..11] == "lab-export-";
    forall m: Manifest
      ensures lib.decode(lib.encode(m)) == Some(m)
    {
      DecodedEncoded(m);
    }
  }

  // ------------------------------------------------- an export for any path

  function OneFile(path: string): Tree {
    map[path := File([0])]
  }

  ghost function OneRecord(path: string): seq<Record> {
    [RecordOf(Simple(), OneFile(path), path)]
  }

  ghost function OneManifest(path: string): Manifest {
    ManifestOf(Simple(), "n", 1, "", OneRecord(path))
  }

  ghost function OneArchive(path: string): Archive {
    Archive(1, false, Members(Simple(), OneFile(path), OneManifest(path)))
  }

  lemma OneListing(path: string)
    requires IsJson(path)
    ensures Listing(Simple(), OneFile(path), OneRecord(path))
  {
    var lib, tree, files := Simple(), OneFile(path), OneRecord(path);
    forall r: Record
      ensures r in files <==> IsEvidence(lib, tree, r.path) && r == RecordOf(lib, tree, r.path)
    {
      assert IsEvidence(lib, tree, r.path) <==> r.path == path;
    }
  }

  lemma OneTotal(path: string)
    ensures Total(OneRecord(path)) == 1
  {
    var r := OneRecord(path)[0];
    assert [] + [r] == OneRecord(path) && Total([]) == 0;
    TotalSnoc([], r);
  }

  lemma OneCollectable(path: string)
    requires SafePath(Simple(), path) && IsJson(path)
    ensures Collectable(Simple(), OneFile(path), "n", 1)
  {
    var lib, tree := Simple(), OneFile(path);
    assert Candidates(tree) == {path};
    assert IsProfile(lib, tree, path) && lib.recognise(tree[path].data).revision == 1;
    OneListing(path);
    forall files | Listing(lib, tree, files)
      ensures Total(files) <= MAX_TOTAL_BYTES
    {
      ListingUnique(lib, tree, files, OneRecord(path));
      OneTotal(path);
    }
  }

  lemma OneManifestFits(path: string)
    requires |path| <= MAX_PATH
    ensures |Encoded(OneManifest(path))| <= MAX_MANIFEST_BYTES
  {
    var m := OneManifest(path);
    var r := m.files[0];
    assert m.files == [r] && [r][1..] == [] && RecordBytes([]) == [];
    SimpleIsFaithful();
    assert |r.sha256| == 71 && |m.exportId| == 27 by {
      assert DigestShape(Simple().sha256([0])) && ExportIdShape(Simple().exportId("n", 1, m.files));
    }
    assert |RecordBytes(m.files)| == 1 + (|path| + 1) + (71 + 1);
  }

  /** Every safe JSON path is exported by some library and tree that meet all hypotheses of the
      transfer laws. */
  lemma OneExport(path: string)
    requires SafePath(Simple(), path) && IsJson(path)
    ensures Grounded(OneFile(path)) && Simple().zoned(OneManifest(path).createdAt)
    ensures IsExport(Simple(), OneFile(path), OneManifest(path), OneArchive(path))
    ensures ShortPaths(Simple(), OneFile(path)) <==> |path| <= MAX_PATH - 9
  {
    OneListing(path);
    OneCollectable(path);
    OneManifestFits(path);
    OneShort(path);
  }

  lemma OneShort(path: string)
    requires IsJson(path)
    ensures ShortPaths(Simple(), OneFile(path)) <==> |path| <= MAX_PATH - 9
  {
    assert IsEvidence(Simple(), OneFile(path), path);
  }

  // ------------------------------------------------------ one that is too long

  function Letters(n: nat): (s: string)
    ensures |s| == n && forall i :: 0 <= i < n ==> s[i] == 'a'
  {
    seq(n, _ => 'a')
  }

  function FileName(): (s: string)
    ensures |s| == 250 && s[0] == 'a'
  {
    Letters(245) + ".json"
  }

  /** `k` directories of 255 letters, then a file name of 250 characters. */
  function LongPath(k: nat): string {
    if k == 0 then FileName() else Letters(255) + ['/'] + LongPath(k - 1)
  }

  lemma FileNameIsJson()
    ensures IsJson(FileName())
    ensures forall i :: 0 <= i < 250 ==> FileName()[i] != '/' && FileName()[i] != '\\' && FileName()[i] != ':'
  {
    assert FileName()[245..] == ".json";
  }

  lemma {:induction false} LongPathShape(k: nat)
    ensures |LongPath(k)| == 256 * k + 250 && LongPath(k)[0] == 'a'
    ensures IsJson(LongPath(k)) && '\\' !in LongPath(k)
  {
    FileNameIsJson();
    if k > 0 {
      LongPathShape(k - 1);
      var p, rest := LongPath(k), LongPath(k - 1);
      assert p == Letters(255) + ['/'] + rest;
      assert p[256..] == rest && p[|p| - 5..] == rest[|rest| - 5..];
    }
  }

  predicate Plain(part: string) {
    3 <= |part| <= 255 && forall i :: 0 <= i < |part| ==> part[i] != ':' && part[i] != '/'
  }

  lemma PlainIsSafe(part: string)
    requires Plain(part)
    ensures SafePart(Simple(), part) && '/' !in part
  {
  }

  predicate PlainParts(path: string) {
    var parts := Split(path);
    forall i :: 0 <= i < |parts| ==> Plain(parts[i])
  }

  lemma OnePart(part: string)
    requires Plain(part)
    ensures PlainParts(part)
  {
    SplitPlain(part);
  }

  lemma OneMorePart(part: string, rest: string)
    requires Plain(part) && PlainParts(rest)
    ensures PlainParts(part + ['/'] + rest)
  {
    SplitAfterSlash(part, rest);
  }

  lemma {:induction false} LongPathParts(k: nat)
    ensures PlainParts(LongPath(k))
  {
    if k > 0 {
      LongPathParts(k - 1);
      OneMorePart(Letters(255), LongPath(k - 1));
    } else {
      FileNameIsJson();
      OnePart(FileName());
    }
  }

  lemma LongPathIsSafe(k: nat)
    requires 256 * k + 250 <= MAX_PATH
    ensures SafePath(Simple(), LongPath(k))
  {
    var path := LongPath(k);
    LongPathShape(k);
    LongPathParts(k);
    forall i | 0 <= i < |Split(path)|
      ensures SafePart(Simple(), Split(path)[i])
    {
      PlainIsSafe(Split(path)[i]);
    }
  }

  /** A path of 4090 characters, in fifteen directories: its export is written, and no import root
      ever accepts it. */
  lemma LongPathIsNeverImported(k: nat, root: Root)
    requires k == 15
    ensures var path := LongPath(k);
      && |path| == 4090
      && IsExport(Simple(), OneFile(path), OneManifest(path), OneArchive(path))
      && Outcome(Simple(), root, OneArchive(path)) == None
  {
    var path := LongPath(k);
    LongPathShape(k);
    LongPathIsSafe(k);
    OneExport(path);
    SimpleIsFaithful();
    LongPathsAreRefused(Simple(), OneFile(path), OneManifest(path), OneArchive(path), root);
  }
}
