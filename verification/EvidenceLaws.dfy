/**
 The laws of the evidence transfer: what any accepted archive leaves on disk, the round trip
 from export to import with its exact limit on path lengths, and imports of later exports.
 */
module EvidenceLaws {
  import opened Basics
  import opened EvidenceTransfer
  import opened EvidenceExport
  import opened EvidenceImport

  // ------------------------------------------- any archive that is accepted

  lemma WrittenMatches(lib: Library, members: seq<Member>, m: Manifest)
    requires Faithful(lib) && ManifestOk(lib, m) && ContentsOk(lib, members, m.files)
    ensures Matches(lib, Written(lib, members, m), m)
  {
  }

  /** The two ways in which an archive is accepted. */
  lemma AcceptedCases(lib: Library, root: Root, archive: Archive)
    requires Outcome(lib, root, archive).Some?
    ensures ManifestIn(lib, archive.members).Some?
    ensures var m := ManifestIn(lib, archive.members).value;
            && ManifestOk(lib, m)
            && if KeyOf(m) in root
               then Outcome(lib, root, archive) == Some((ReceiptOf(m), root)) && Matches(lib, root[KeyOf(m)], m)
               else Outcome(lib, root, archive) ==
                    Some((ReceiptOf(m), root[KeyOf(m) := Written(lib, archive.members, m)]))
                    && ContentsOk(lib, archive.members, m.files)
  {
  }

  lemma Placed(root: Root, key: (string, string), there: Imported, after: Root)
    requires after == root[key := there] && (key in root ==> root[key] == there)
    ensures after.Keys == root.Keys + {key} && after[key] == there
    ensures forall k :: k in root ==> k in after && after[k] == root[k]
  {
  }

  /** Every accepted archive leaves, in the directory of its manifest, exactly the manifest's
      paths with its sizes and hashes, whether the directory is new or was there before; no other
      directory changes, and an existing one is never rewritten. */
  lemma AcceptedIsExact(lib: Library, root: Root, archive: Archive)
    requires Faithful(lib) && Outcome(lib, root, archive).Some?
    ensures ManifestIn(lib, archive.members).Some?
    ensures var m, done := ManifestIn(lib, archive.members).value, Outcome(lib, root, archive).value;
            && ManifestOk(lib, m)
            && done.0 == ReceiptOf(m)
            && done.1.Keys == root.Keys + {KeyOf(m)}
            && Matches(lib, done.1[KeyOf(m)], m)
            && (forall key :: key in root ==> done.1[key] == root[key])
  {
    AcceptedCases(lib, root, archive);
    var m, done := ManifestIn(lib, archive.members).value, Outcome(lib, root, archive).value;
    var there := if KeyOf(m) in root then root[KeyOf(m)] else Written(lib, archive.members, m);
    if KeyOf(m) !in root {
      WrittenMatches(lib, archive.members, m);
    }
    Placed(root, KeyOf(m), there, done.1);
  }

  /** Every directory of the root belongs to a valid manifest and holds exactly its files. */
  ghost predicate SoundRoot(lib: Library, root: Root) {
    forall key :: key in root ==> exists m :: SoundAt(lib, key, root[key], m)
  }

  ghost predicate SoundAt(lib: Library, key: (string, string), there: Imported, m: Manifest) {
    ManifestOk(lib, m) && KeyOf(m) == key && Matches(lib, there, m)
  }

  ghost function RootAfter(lib: Library, root: Root, archive: Archive): Root {
    var outcome := Outcome(lib, root, archive);
    if outcome.Some? then outcome.value.1 else root
  }

  lemma ImportKeepsSound(lib: Library, root: Root, archive: Archive)
    requires Faithful(lib) && SoundRoot(lib, root)
    ensures SoundRoot(lib, RootAfter(lib, root, archive))
  {
    if Outcome(lib, root, archive).Some? {
      AcceptedIsExact(lib, root, archive);
      var m := ManifestIn(lib, archive.members).value;
      var after := RootAfter(lib, root, archive);
      assert SoundAt(lib, KeyOf(m), after[KeyOf(m)], m);
    }
  }

  ghost function RootAfterAll(lib: Library, root: Root, archives: seq<Archive>): Root
    decreases |archives|
  {
    if archives == [] then root else RootAfterAll(lib, RootAfter(lib, root, archives[0]), archives[1..])
  }

  /** Over every run of imports, of any archives whatever, the root stays sound and a directory
      once imported keeps its contents. */
  lemma {:induction false} RunsKeepImports(lib: Library, root: Root, archives: seq<Archive>)
    requires Faithful(lib) && SoundRoot(lib, root)
    ensures SoundRoot(lib, RootAfterAll(lib, root, archives))
    ensures forall key :: key in root ==>
      key in RootAfterAll(lib, root, archives) && RootAfterAll(lib, root, archives)[key] == root[key]
    decreases |archives|
  {
    if archives != [] {
      var next := RootAfter(lib, root, archives[0]);
      ImportKeepsSound(lib, root, archives[0]);
      if Outcome(lib, root, archives[0]).Some? {
        AcceptedIsExact(lib, root, archives[0]);
      }
      RunsKeepImports(lib, next, archives[1..]);
    }
  }

  /** Importing an accepted archive again gives the same receipt and changes nothing. */
  lemma ImportAgain(lib: Library, root: Root, archive: Archive)
    requires Faithful(lib) && Outcome(lib, root, archive).Some?
    ensures var done := Outcome(lib, root, archive).value; Outcome(lib, done.1, archive) == Some(done)
  {
    AcceptedIsExact(lib, root, archive);
  }

  // ------------------------------------------------------- the round trip

  /** No path of the tree is both a file and a directory: true of every file system. */
  ghost predicate Grounded(tree: Tree) {
    forall p, q :: p in tree && q in tree ==> !Ancestor(p, q)
  }

  /** The prefixed names still fit the path limit. */
  ghost predicate ShortPaths(lib: Library, tree: Tree) {
    forall p :: IsEvidence(lib, tree, p) ==> |p| <= MAX_PATH - 9
  }

  lemma {:induction false} DistinctFit(files: seq<Record>, all: set<string>)
    requires DistinctPaths(files) && forall r :: r in files ==> r.path in all
    ensures |files| <= |all|
    decreases |files|
  {
    if files != [] {
      var n := |files| - 1;
      var last := files[n];
      assert last in files;
      forall r | r in files[..n]
        ensures r.path in all - {last.path}
      {
        var k :| 0 <= k < n && files[..n][k] == r;
        assert files[k] == r && r in files;
      }
      DistinctFit(files[..n], all - {last.path});
    }
  }

  lemma ExportedRecord(lib: Library, tree: Tree, nodeId: string, revision: int, files: seq<Record>, k: nat)
    requires Faithful(lib) && Collectable(lib, tree, nodeId, revision) && Listing(lib, tree, files) && k < |files|
    ensures IsEvidence(lib, tree, files[k].path) && files[k] == RecordOf(lib, tree, files[k].path)
    ensures RecordOk(lib, files[k])
  {
  }

  /** The manifest of an export is valid. */
  lemma ExportedManifestOk(lib: Library, tree: Tree, m: Manifest, archive: Archive)
    requires Faithful(lib) && IsExport(lib, tree, m, archive) && lib.zoned(m.createdAt)
    ensures ManifestOk(lib, m)
  {
    var files := m.files;
    forall k | 0 <= k < |files|
      ensures RecordOk(lib, files[k])
    {
      ExportedRecord(lib, tree, m.nodeId, m.revision, files, k);
    }
    var p :| IsProfile(lib, tree, p) && lib.recognise(tree[p].data).revision == m.revision;
    assert RecordOf(lib, tree, p) in files;
    ListingFits(lib, tree, files);
  }

  lemma ListingFits(lib: Library, tree: Tree, files: seq<Record>)
    requires Listing(lib, tree, files)
    ensures |files| <= |Candidates(tree)|
  {
    forall r | r in files
      ensures r.path in Candidates(tree)
    {
      assert IsEvidence(lib, tree, r.path);
    }
    DistinctFit(files, Candidates(tree));
  }

  lemma MembersAreDistinct(lib: Library, tree: Tree, m: Manifest)
    requires DistinctPaths(m.files)
    ensures DistinctNames(Members(lib, tree, m))
  {
    var members := Members(lib, tree, m);
    forall i, j | 0 <= i < j < |members|
      ensures members[i].name != members[j].name
    {
      assert members[(j - 1) + 1] == EvidenceMember(tree, m.files[j - 1].path);
      if i == 0 {
        NotAManifest(m.files[j - 1].path);
      } else {
        assert members[(i - 1) + 1] == EvidenceMember(tree, m.files[i - 1].path);
        if members[i].name == members[j].name {
          MemberNameInjective(m.files[i - 1].path, m.files[j - 1].path);
        }
      }
    }
  }

  lemma ExportedManifestRead(lib: Library, tree: Tree, m: Manifest, archive: Archive)
    requires Faithful(lib) && IsExport(lib, tree, m, archive) && lib.zoned(m.createdAt)
    ensures ManifestIn(lib, archive.members) == Some(m)
  {
    ExportedManifestOk(lib, tree, m, archive);
    MembersAreDistinct(lib, tree, m);
    FindsTheMember(archive.members, 0);
  }

  lemma ExportedNames(lib: Library, tree: Tree, m: Manifest)
    ensures Names(Members(lib, tree, m)) == ExpectedNames(m.files)
  {
  }

  lemma {:induction false} SizeIsFound(files: seq<Record>, k: nat)
    requires DistinctPaths(files) && k < |files|
    ensures SizeFor(files, MemberName(files[k].path)) == Some(files[k].size)
  {
    var n := |files| - 1;
    if k < n {
      if MemberName(files[n].path) == MemberName(files[k].path) {
        MemberNameInjective(files[n].path, files[k].path);
      }
      SizeIsFound(files[..n], k);
    }
  }

  /** Entry `k` of an export passes the checks exactly when its path is short enough. */
  lemma ExportedMemberOk(lib: Library, tree: Tree, m: Manifest, archive: Archive, k: nat)
    requires Faithful(lib) && IsExport(lib, tree, m, archive) && k < |m.files|
    ensures MemberOk(lib, m.files, archive.members[k + 1]) <==> |m.files[k].path| <= MAX_PATH - 9
  {
    var path := m.files[k].path;
    ExportedRecord(lib, tree, m.nodeId, m.revision, m.files, k);
    assert archive.members[k + 1] == EvidenceMember(tree, path);
    PrefixedPathSafe(lib, path);
    NotAManifest(path);
    SizeIsFound(m.files, k);
  }

  lemma ManifestMemberOk(lib: Library, m: Manifest)
    requires Faithful(lib)
    ensures MemberOk(lib, m.files, ManifestMember(lib, m))
  {
    ManifestNamePlain();
    PlainNameSafe(lib, MANIFEST_NAME);
  }

  lemma {:induction false} TotalsAgree(members: seq<Member>, files: seq<Record>)
    requires |members| == 1 + |files| && Weight(members[0]) == 0
    requires forall k :: 1 <= k < |members| ==> Weight(members[k]) == files[k - 1].size
    ensures MemberTotal(members) == Total(files)
    decreases |files|
  {
    var n := |files|;
    assert members[..n + 1] == members;
    MemberTotalSnoc(members, n);
    if n == 0 {
      assert members[..0] == [];
    } else {
      var fewer := members[..n];
      assert forall k :: 0 <= k < n ==> fewer[k] == members[k];
      TotalsAgree(fewer, files[..n - 1]);
      TotalSnoc(files[..n - 1], files[n - 1]);
      assert files == files[..n - 1] + [files[n - 1]];
    }
  }

  lemma ExportedTotal(lib: Library, tree: Tree, m: Manifest)
    requires forall k :: 0 <= k < |m.files| ==> m.files[k] == RecordOf(lib, tree, m.files[k].path)
    ensures MemberTotal(Members(lib, tree, m)) == Total(m.files)
  {
    var members := Members(lib, tree, m);
    forall k | 1 <= k < |members|
      ensures Weight(members[k]) == m.files[k - 1].size
    {
      NotAManifest(m.files[k - 1].path);
      assert members[(k - 1) + 1] == EvidenceMember(tree, m.files[k - 1].path);
    }
    TotalsAgree(members, m.files);
  }

  lemma ShortIfAllOk(lib: Library, tree: Tree, m: Manifest, archive: Archive, p: string)
    requires Faithful(lib) && IsExport(lib, tree, m, archive) && AllOk(lib, archive.members, m.files)
    requires IsEvidence(lib, tree, p)
    ensures |p| <= MAX_PATH - 9
  {
    assert RecordOf(lib, tree, p) in m.files;
    var k :| 0 <= k < |m.files| && m.files[k] == RecordOf(lib, tree, p);
    ExportedMemberOk(lib, tree, m, archive, k);
  }

  lemma ShortMemberOk(lib: Library, tree: Tree, m: Manifest, archive: Archive, k: nat)
    requires Faithful(lib) && IsExport(lib, tree, m, archive) && ShortPaths(lib, tree) && k < |m.files|
    ensures MemberOk(lib, m.files, archive.members[k + 1])
  {
    ExportedRecord(lib, tree, m.nodeId, m.revision, m.files, k);
    ExportedMemberOk(lib, tree, m, archive, k);
  }

  lemma AllOkIfShort(lib: Library, tree: Tree, m: Manifest, archive: Archive)
    requires Faithful(lib) && IsExport(lib, tree, m, archive) && ShortPaths(lib, tree)
    ensures AllOk(lib, archive.members, m.files)
  {
    ManifestMemberOk(lib, m);
    forall k | 0 < k < |archive.members|
      ensures MemberOk(lib, m.files, archive.members[k])
    {
      ShortMemberOk(lib, tree, m, archive, k - 1);
    }
  }

  lemma ExportedRest(lib: Library, tree: Tree, m: Manifest, archive: Archive)
    requires Faithful(lib) && IsExport(lib, tree, m, archive) && lib.zoned(m.createdAt)
    ensures MembersOk(lib, archive.members, m.files) <==> AllOk(lib, archive.members, m.files)
  {
    ExportedManifestOk(lib, tree, m, archive);
    MembersAreDistinct(lib, tree, m);
    ExportedNames(lib, tree, m);
    forall k | 0 <= k < |m.files|
      ensures m.files[k] == RecordOf(lib, tree, m.files[k].path)
    {
      ExportedRecord(lib, tree, m.nodeId, m.revision, m.files, k);
    }
    ExportedTotal(lib, tree, m);
  }

  /** The entries of an export pass the import's checks exactly when all paths are short enough. */
  lemma ExportedMembersOk(lib: Library, tree: Tree, m: Manifest, archive: Archive)
    requires Faithful(lib) && IsExport(lib, tree, m, archive) && lib.zoned(m.createdAt)
    ensures MembersOk(lib, archive.members, m.files) <==> ShortPaths(lib, tree)
  {
    ExportedRest(lib, tree, m, archive);
    if AllOk(lib, archive.members, m.files) {
      forall p | IsEvidence(lib, tree, p)
        ensures |p| <= MAX_PATH - 9
      {
        ShortIfAllOk(lib, tree, m, archive, p);
      }
    }
    if ShortPaths(lib, tree) {
      AllOkIfShort(lib, tree, m, archive);
    }
  }

  lemma ExportedData(lib: Library, tree: Tree, m: Manifest, archive: Archive, k: nat)
    requires IsExport(lib, tree, m, archive) && k < |m.files|
    ensures DataOf(archive.members, m.files[k].path) == Contents(tree, m.files[k].path)
  {
    MembersAreDistinct(lib, tree, m);
    FindsTheMember(archive.members, k + 1);
  }

  /** The evidence of a tree, byte for byte. */
  ghost function EvidenceOf(lib: Library, tree: Tree): Tree {
    map p | p in tree && IsEvidence(lib, tree, p) :: tree[p]
  }

  lemma ExportedContent(lib: Library, tree: Tree, m: Manifest, archive: Archive, k: nat)
    requires Faithful(lib) && IsExport(lib, tree, m, archive) && k < |m.files|
    ensures ContentOk(lib, archive.members, m.files[k])
  {
    ExportedRecord(lib, tree, m.nodeId, m.revision, m.files, k);
    ExportedData(lib, tree, m, archive, k);
  }

  lemma GroundedIsNotNested(lib: Library, tree: Tree, files: seq<Record>)
    requires Grounded(tree) && forall k :: 0 <= k < |files| ==> files[k].path in tree
    ensures NoneNested(files)
  {
  }

  lemma UnpackedIsEvidence(lib: Library, tree: Tree, members: seq<Member>, files: seq<Record>)
    requires forall p :: p in Paths(files) <==> IsEvidence(lib, tree, p)
    requires forall p :: p in Paths(files) ==> DataOf(members, p) == Contents(tree, p)
    ensures Unpacked(members, files) == EvidenceOf(lib, tree)
  {
  }

  lemma ListedPaths(lib: Library, tree: Tree, files: seq<Record>, p: string)
    requires Listing(lib, tree, files)
    ensures p in Paths(files) <==> IsEvidence(lib, tree, p)
  {
    if IsEvidence(lib, tree, p) {
      assert RecordOf(lib, tree, p) in files;
    }
  }

  lemma ExportedContents(lib: Library, tree: Tree, m: Manifest, archive: Archive)
    requires Faithful(lib) && IsExport(lib, tree, m, archive) && Grounded(tree)
    ensures ContentsOk(lib, archive.members, m.files)
    ensures Unpacked(archive.members, m.files) == EvidenceOf(lib, tree)
  {
    var files := m.files;
    forall k | 0 <= k < |files|
      ensures ContentOk(lib, archive.members, files[k]) && files[k].path in tree
    {
      ExportedRecord(lib, tree, m.nodeId, m.revision, files, k);
      ExportedContent(lib, tree, m, archive, k);
    }
    GroundedIsNotNested(lib, tree, files);
    forall p: string
      ensures p in Paths(files) <==> IsEvidence(lib, tree, p)
      ensures p in Paths(files) ==> DataOf(archive.members, p) == Contents(tree, p)
    {
      ListedPaths(lib, tree, files, p);
      if p in Paths(files) {
        var k :| 0 <= k < |files| && files[k].path == p;
        ExportedData(lib, tree, m, archive, k);
      }
    }
    UnpackedIsEvidence(lib, tree, archive.members, files);
  }

  /** The outcome for an archive that is read as `m` when its directory is new. */
  lemma OutcomeNew(lib: Library, root: Root, archive: Archive, m: Manifest)
    requires !archive.link && 1 <= archive.size <= MAX_ARCHIVE_BYTES
    requires ManifestIn(lib, archive.members) == Some(m) && KeyOf(m) !in root
    requires ContentsOk(lib, archive.members, m.files)
    ensures Outcome(lib, root, archive) ==
      if MembersOk(lib, archive.members, m.files)
      then Some((ReceiptOf(m), root[KeyOf(m) := Written(lib, archive.members, m)]))
      else None
  {
  }

  /** The outcome for an archive that is read as `m` when its directory is there. */
  lemma OutcomeThere(lib: Library, root: Root, archive: Archive, m: Manifest)
    requires !archive.link && 1 <= archive.size <= MAX_ARCHIVE_BYTES
    requires ManifestIn(lib, archive.members) == Some(m) && KeyOf(m) in root
    ensures Outcome(lib, root, archive) ==
      if MembersOk(lib, archive.members, m.files) && Matches(lib, root[KeyOf(m)], m)
      then Some((ReceiptOf(m), root))
      else None
  {
  }

  /** An export with an evidence path that is too long is refused by every root. */
  lemma LongPathsAreRefused(lib: Library, tree: Tree, m: Manifest, archive: Archive, root: Root)
    requires Faithful(lib) && lib.zoned(m.createdAt) && IsExport(lib, tree, m, archive) && !ShortPaths(lib, tree)
    ensures Outcome(lib, root, archive) == None
  {
    ExportedManifestRead(lib, tree, m, archive);
    ExportedMembersOk(lib, tree, m, archive);
  }

  /** The directory that an export is restored to: its evidence byte for byte, under its manifest. */
  ghost function Restored(lib: Library, tree: Tree, m: Manifest): Imported {
    Imported(Some(lib.encode(m)), Some(EvidenceOf(lib, tree)))
  }

  /** Export then import, for every root: the import succeeds if and only if every evidence path
      leaves room for the archive prefix and a directory that is there already matches; a new
      directory holds exactly the recognised evidence of the exported tree. */
  lemma RoundTrip(lib: Library, tree: Tree, m: Manifest, archive: Archive, root: Root)
    requires Faithful(lib) && Grounded(tree) && lib.zoned(m.createdAt) && IsExport(lib, tree, m, archive)
    ensures Outcome(lib, root, archive) ==
      if !ShortPaths(lib, tree) then None
      else if KeyOf(m) !in root then Some((ReceiptOf(m), root[KeyOf(m) := Restored(lib, tree, m)]))
      else if Matches(lib, root[KeyOf(m)], m) then Some((ReceiptOf(m), root))
      else None
  {
    if !ShortPaths(lib, tree) {
      LongPathsAreRefused(lib, tree, m, archive, root);
    } else {
      ExportedManifestRead(lib, tree, m, archive);
      ExportedMembersOk(lib, tree, m, archive);
      if KeyOf(m) !in root {
        ExportedContents(lib, tree, m, archive);
        OutcomeNew(lib, root, archive, m);
      } else {
        OutcomeThere(lib, root, archive, m);
      }
    }
  }

  // ---------------------------------------------------- a later export

  lemma SameListing(lib: Library, tree: Tree, later: Tree, s: seq<Record>, t: seq<Record>)
    requires EvidenceOf(lib, tree) == EvidenceOf(lib, later)
    requires Listing(lib, tree, s) && Listing(lib, later, t)
    ensures s == t
  {
    forall p
      ensures IsEvidence(lib, tree, p) <==> IsEvidence(lib, later, p)
      ensures IsEvidence(lib, tree, p) ==> Contents(tree, p) == Contents(later, p)
    {
      assert p in EvidenceOf(lib, tree) <==> p in EvidenceOf(lib, later);
      assert p in EvidenceOf(lib, tree) ==> EvidenceOf(lib, tree)[p] == EvidenceOf(lib, later)[p];
    }
    forall r: Record
      ensures r in s <==> r in t
    {
    }
    OrderedUnique(s, t);
  }

  lemma SameLengths(lib: Library, tree: Tree, later: Tree)
    requires EvidenceOf(lib, tree) == EvidenceOf(lib, later) && ShortPaths(lib, tree)
    ensures ShortPaths(lib, later)
  {
    forall p | IsEvidence(lib, later, p)
      ensures |p| <= MAX_PATH - 9
    {
      assert p in EvidenceOf(lib, later);
    }
  }

  /** Once an export is imported, importing a later export of the same evidence, made at any other
      time, gives the same receipt and changes nothing. */
  lemma LaterExportChangesNothing(
    lib: Library, root: Root, tree: Tree, m: Manifest, archive: Archive, later: Tree, n: Manifest, second: Archive)
    requires Faithful(lib) && lib.zoned(m.createdAt) && lib.zoned(n.createdAt)
    requires IsExport(lib, tree, m, archive) && IsExport(lib, later, n, second)
    requires EvidenceOf(lib, tree) == EvidenceOf(lib, later)
    requires m.nodeId == n.nodeId && m.revision == n.revision
    requires Outcome(lib, root, archive).Some?
    ensures var done := Outcome(lib, root, archive).value; Outcome(lib, done.1, second) == Some(done)
  {
    SameListing(lib, tree, later, m.files, n.files);
    ExportedManifestRead(lib, tree, m, archive);
    ExportedManifestRead(lib, later, n, second);
    ExportedMembersOk(lib, tree, m, archive);
    SameLengths(lib, tree, later);
    ExportedMembersOk(lib, later, n, second);
    AcceptedIsExact(lib, root, archive);
    OutcomeThere(lib, Outcome(lib, root, archive).value.1, second, n);
  }
}
