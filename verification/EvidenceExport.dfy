/** Collecting the recognised evidence of a node and packing it (setup/evidence_transfer.py). */
module EvidenceExport {
  import opened Basics
  import opened StableSort
  import opened EvidenceTransfer

  predicate IsJson(path: string) {
    |path| >= 5 && path[|path| - 5..] == ".json"
  }

  function Candidates(tree: Tree): set<string> {
    set p | p in tree && IsJson(p)
  }

  /** A JSON file that the scan can load. */
  predicate Loadable(lib: Library, e: Entry) {
    e.File? && 1 <= |e.data| <= MAX_FILE_BYTES && lib.recognise(e.data) != Refused
  }

  predicate IsProfile(lib: Library, tree: Tree, path: string) {
    path in tree && IsJson(path) && tree[path].File? && lib.recognise(tree[path].data).Profile?
  }

  predicate IsBenchmark(lib: Library, tree: Tree, path: string) {
    path in tree && IsJson(path) && tree[path].File? && lib.recognise(tree[path].data).Benchmark?
  }

  /** The files an export contains: recognised profiles and benchmarks, nothing else. */
  predicate IsEvidence(lib: Library, tree: Tree, path: string) {
    IsProfile(lib, tree, path) || IsBenchmark(lib, tree, path)
  }

  function Contents(tree: Tree, path: string): Bytes {
    if path in tree && tree[path].File? then tree[path].data else []
  }

  function RecordOf(lib: Library, tree: Tree, path: string): Record {
    Record(path, lib.sha256(Contents(tree, path)), |Contents(tree, path)|)
  }

  /** `files` lists exactly the evidence of the tree, with true digests and sizes, by path. */
  ghost predicate Listing(lib: Library, tree: Tree, files: seq<Record>) {
    && Ordered(files)
    && (forall r :: r in files <==> IsEvidence(lib, tree, r.path) && r == RecordOf(lib, tree, r.path))
  }

  lemma ListingUnique(lib: Library, tree: Tree, s: seq<Record>, t: seq<Record>)
    requires Listing(lib, tree, s) && Listing(lib, tree, t)
    ensures s == t
  {
    OrderedUnique(s, t);
  }

  ghost predicate Scannable(lib: Library, tree: Tree) {
    && |Candidates(tree)| <= MAX_FILES
    && (forall p :: p in tree && IsJson(p) ==> Loadable(lib, tree[p]))
  }

  /** All profiles are of this node, and the newest has this revision. */
  ghost predicate ProfilesAgree(lib: Library, tree: Tree, nodeId: string, revision: int) {
    && (forall p :: IsProfile(lib, tree, p) ==>
          lib.recognise(tree[p].data).nodeId == nodeId && lib.recognise(tree[p].data).revision <= revision)
    && (exists p :: IsProfile(lib, tree, p) && lib.recognise(tree[p].data).revision == revision)
  }

  ghost predicate Collectable(lib: Library, tree: Tree, nodeId: string, revision: int) {
    && NodeIdOk(lib, nodeId) && revision > 0
    && Scannable(lib, tree)
    && ProfilesAgree(lib, tree, nodeId, revision)
    && (forall p :: IsEvidence(lib, tree, p) ==> SafePath(lib, p))
    && (forall files :: Listing(lib, tree, files) ==> Total(files) <= MAX_TOTAL_BYTES)
  }

  // ------------------------------------------------------------ the scan

  /** A list without repeats of the paths that satisfy one of the tests above. */
  ghost predicate Lists(names: seq<string>, all: set<string>) {
    Distinct(names) && forall p :: p in names <==> p in all
  }

  lemma ListsMore(names: seq<string>, all: set<string>, p: string)
    requires Lists(names, all) && p !in all
    ensures Lists(names + [p], all + {p})
  {
  }

  ghost function ProfilesIn(lib: Library, tree: Tree, seen: set<string>): set<string> {
    set p | p in seen && IsProfile(lib, tree, p)
  }

  ghost function BenchmarksIn(lib: Library, tree: Tree, seen: set<string>): set<string> {
    set p | p in seen && IsBenchmark(lib, tree, p)
  }

  lemma SeenMore(lib: Library, tree: Tree, seen: set<string>, p: string)
    requires p in tree && IsJson(p) && tree[p].File?
    ensures var kind := lib.recognise(tree[p].data);
            && ProfilesIn(lib, tree, seen + {p}) == ProfilesIn(lib, tree, seen) + (if kind.Profile? then {p} else {})
            && BenchmarksIn(lib, tree, seen + {p})
            == BenchmarksIn(lib, tree, seen) + (if kind.Benchmark? then {p} else {})
  {
  }

  /** The state of the scan after the files `seen`. */
  ghost predicate Scanned(
    lib: Library, tree: Tree, seen: set<string>, profiles: seq<string>, benchmarks: seq<string>)
  {
    && (forall p :: p in seen ==> p in tree && Loadable(lib, tree[p]))
    && Lists(profiles, ProfilesIn(lib, tree, seen))
    && Lists(benchmarks, BenchmarksIn(lib, tree, seen))
  }

  lemma ScannedMore(
    lib: Library, tree: Tree, seen: set<string>, profiles: seq<string>, benchmarks: seq<string>, p: string)
    requires Scanned(lib, tree, seen, profiles, benchmarks)
    requires p !in seen && p in tree && IsJson(p) && Loadable(lib, tree[p])
    ensures var kind := lib.recognise(tree[p].data);
            Scanned(lib, tree, seen + {p},
              if kind.Profile? then profiles + [p] else profiles,
              if kind.Benchmark? then benchmarks + [p] else benchmarks)
  {
    SeenMore(lib, tree, seen, p);
    ListsMore(profiles, ProfilesIn(lib, tree, seen), p);
    ListsMore(benchmarks, BenchmarksIn(lib, tree, seen), p);
  }

  /** The scan of the local JSON files. The files are visited in any order: the records are
      sorted afterwards and every refusal is the same refusal. */
  method DiscoverLocalEvidence(lib: Library, tree: Tree)
    returns (ok: bool, profiles: seq<string>, benchmarks: seq<string>)
    ensures ok <==> Scannable(lib, tree)
    ensures ok ==> Scanned(lib, tree, Candidates(tree), profiles, benchmarks)
  {
    profiles, benchmarks := [], [];
    var all := Candidates(tree);
    if |all| > MAX_FILES {
      return false, profiles, benchmarks;
    }
    var todo := all;
    assert all - todo == {};
    while todo != {}
      invariant todo <= all && Scanned(lib, tree, all - todo, profiles, benchmarks)
      decreases |todo|
    {
      var p :| p in todo;
      assert p in all;
      if !Loadable(lib, tree[p]) {
        return false, profiles, benchmarks;
      }
      ScannedMore(lib, tree, all - todo, profiles, benchmarks, p);
      assert all - (todo - {p}) == (all - todo) + {p};
      todo := todo - {p};
      var kind := lib.recognise(tree[p].data);
      profiles := if kind.Profile? then profiles + [p] else profiles;
      benchmarks := if kind.Benchmark? then benchmarks + [p] else benchmarks;
    }
    assert all - todo == all;
    ok := true;
  }

  /** The node ids and the newest revision of the profiles. */
  method CheckProfiles(lib: Library, tree: Tree, profiles: seq<string>, nodeId: string, revision: int)
    returns (ok: bool)
    requires Lists(profiles, ProfilesIn(lib, tree, Candidates(tree)))
    ensures ok <==> ProfilesAgree(lib, tree, nodeId, revision)
  {
    assert forall p :: p in profiles <==> IsProfile(lib, tree, p);
    if profiles == [] {
      return false;
    }
    assert IsProfile(lib, tree, profiles[0]);
    var newest := lib.recognise(tree[profiles[0]].data).revision;
    var best := profiles[0];
    var sameNode := true;
    for k := 0 to |profiles|
      invariant best in profiles && lib.recognise(tree[best].data).revision == newest
      invariant forall i :: 0 <= i < k ==>
        profiles[i] in tree && tree[profiles[i]].File? && lib.recognise(tree[profiles[i]].data).Profile?
        && lib.recognise(tree[profiles[i]].data).revision <= newest
      invariant sameNode <==> forall i :: 0 <= i < k ==> lib.recognise(tree[profiles[i]].data).nodeId == nodeId
    {
      assert IsProfile(lib, tree, profiles[k]);
      var found := lib.recognise(tree[profiles[k]].data);
      if found.revision > newest {
        newest := found.revision;
        best := profiles[k];
      }
      if found.nodeId != nodeId {
        sameNode := false;
      }
    }
    ok := sameNode && newest == revision;
    if ok {
      assert IsProfile(lib, tree, best);
    }
  }

  function Records(lib: Library, tree: Tree, names: seq<string>): (r: seq<Record>)
    ensures |r| == |names| && forall k :: 0 <= k < |names| ==> r[k] == RecordOf(lib, tree, names[k])
  {
    seq(|names|, k requires 0 <= k < |names| => RecordOf(lib, tree, names[k]))
  }

  /** The loop over the documents, with its checks of path, size and total. */
  method DescribeDocuments(lib: Library, tree: Tree, names: seq<string>) returns (r: Option<seq<Record>>)
    requires Distinct(names) && forall p :: p in names ==> p in tree && Loadable(lib, tree[p])
    ensures r.Some? <==>
      && (forall p :: p in names ==> SafePath(lib, p))
      && Total(Records(lib, tree, names)) <= MAX_TOTAL_BYTES
    ensures r.Some? ==> r.value == Records(lib, tree, names)
  {
    ghost var all := Records(lib, tree, names);
    var entries: seq<Record> := [];
    var seen: set<string> := {};
    var total := 0;
    for k := 0 to |names|
      invariant entries == all[..k]
      invariant total == Total(entries) && total <= MAX_TOTAL_BYTES
      invariant forall i :: 0 <= i < k ==> SafePath(lib, names[i])
      invariant forall p :: p in seen ==> p in names[..k]
    {
      var path := names[k];
      if !SafePath(lib, path) {
        return None;
      }
      if path in seen {
        assert false;
      }
      seen := seen + {path};
      var entry := RecordOf(lib, tree, path);
      total := total + entry.size;
      TotalSnoc(entries, entry);
      entries := entries + [entry];
      assert entries == all[..k + 1];
      if total > MAX_TOTAL_BYTES {
        TotalGrows(all, k + 1);
        return None;
      }
    }
    assert all[..|names|] == all;
    r := Some(entries);
  }

  lemma RecordsAreListing(lib: Library, tree: Tree, names: seq<string>)
    requires Distinct(names) && forall p :: p in names <==> IsEvidence(lib, tree, p)
    ensures Listing(lib, tree, Sort(Records(lib, tree, names), RecordLe))
    ensures Total(Sort(Records(lib, tree, names), RecordLe)) == Total(Records(lib, tree, names))
  {
    var all := Records(lib, tree, names);
    assert DistinctPaths(all);
    SortKeepsPaths(all);
    SumBySort(all, RecordLe, SizeOf);
    forall r: Record
      ensures r in all <==> IsEvidence(lib, tree, r.path) && r == RecordOf(lib, tree, r.path)
    {
      if IsEvidence(lib, tree, r.path) && r == RecordOf(lib, tree, r.path) {
        var k :| 0 <= k < |names| && names[k] == r.path;
        assert all[k] == r;
      }
      if r in all {
        var k :| 0 <= k < |all| && all[k] == r;
        assert names[k] in names;
      }
    }
  }

  lemma DocumentsAreEvidence(lib: Library, tree: Tree, profiles: seq<string>, benchmarks: seq<string>)
    requires Lists(profiles, ProfilesIn(lib, tree, Candidates(tree)))
    requires Lists(benchmarks, BenchmarksIn(lib, tree, Candidates(tree)))
    ensures Distinct(profiles + benchmarks)
    ensures forall p :: p in profiles + benchmarks <==> IsEvidence(lib, tree, p)
  {
    var names := profiles + benchmarks;
    forall i, j | 0 <= i < j < |names|
      ensures names[i] != names[j]
    {
      if i < |profiles| <= j {
        assert names[i] in profiles && names[j] in benchmarks;
      }
    }
  }

  /** `_collect_export_files` succeeds exactly on a collectable tree and lists its evidence. */
  method CollectExportFiles(lib: Library, tree: Tree, nodeId: string, revision: int)
    returns (r: Option<seq<Record>>)
    ensures r.Some? <==> Collectable(lib, tree, nodeId, revision)
    ensures r.Some? ==> Listing(lib, tree, r.value)
  {
    if !NodeIdOk(lib, nodeId) || revision <= 0 {
      return None;
    }
    var found, profiles, benchmarks := DiscoverLocalEvidence(lib, tree);
    if !found {
      return None;
    }
    var agree := CheckProfiles(lib, tree, profiles, nodeId, revision);
    if !agree {
      return None;
    }
    var documents := profiles + benchmarks;
    DocumentsAreEvidence(lib, tree, profiles, benchmarks);
    RecordsAreListing(lib, tree, documents);
    var entries := DescribeDocuments(lib, tree, documents);
    ghost var sorted := Sort(Records(lib, tree, documents), RecordLe);
    if entries.None? {
      return None;
    }
    forall files | Listing(lib, tree, files)
      ensures Total(files) <= MAX_TOTAL_BYTES
    {
      ListingUnique(lib, tree, files, sorted);
    }
    r := Some(Sort(entries.value, RecordLe));
  }

  // --------------------------------------------------------- the archive

  function ManifestOf(lib: Library, nodeId: string, revision: int, created: string, files: seq<Record>): Manifest {
    Manifest(1, lib.exportId(nodeId, revision, files), created, nodeId, revision, files)
  }

  function ManifestMember(lib: Library, m: Manifest): Member {
    Member(MANIFEST_NAME, |lib.encode(m)|, lib.encode(m), false, false)
  }

  function EvidenceMember(tree: Tree, path: string): Member {
    Member(MemberName(path), |Contents(tree, path)|, Contents(tree, path), false, false)
  }

  function Members(lib: Library, tree: Tree, m: Manifest): (r: seq<Member>)
    ensures |r| == 1 + |m.files| && r[0] == ManifestMember(lib, m)
    ensures forall k :: 0 <= k < |m.files| ==> r[k + 1] == EvidenceMember(tree, m.files[k].path)
  {
    [ManifestMember(lib, m)] +
    seq(|m.files|, k requires 0 <= k < |m.files| => EvidenceMember(tree, m.files[k].path))
  }

  /** The archive of a tree: the manifest, then each evidence file under its prefixed name. */
  ghost predicate IsExport(lib: Library, tree: Tree, m: Manifest, archive: Archive) {
    && Collectable(lib, tree, m.nodeId, m.revision)
    && Listing(lib, tree, m.files)
    && m == ManifestOf(lib, m.nodeId, m.revision, m.createdAt, m.files)
    && |lib.encode(m)| <= MAX_MANIFEST_BYTES
    && archive == Archive(lib.packed(Members(lib, tree, m)), false, Members(lib, tree, m))
    && archive.size <= MAX_ARCHIVE_BYTES
  }

  /** The loop that writes the archive; its re-checks of size and digest cannot fail. */
  method WriteMembers(lib: Library, tree: Tree, m: Manifest) returns (members: seq<Member>)
    requires forall k :: 0 <= k < |m.files| ==> Listed(lib, tree, m.files[k])
    ensures members == Members(lib, tree, m)
  {
    ghost var all := Members(lib, tree, m);
    members := [ManifestMember(lib, m)];
    PrefixSnoc(all, 0);
    for k := 0 to |m.files|
      invariant members == all[..k + 1]
    {
      var entry := m.files[k];
      var data := tree[entry.path].data;
      if |data| != entry.size || lib.sha256(data) != entry.sha256 {
        assert false;
      }
      members := members + [Member(MemberName(entry.path), |data|, data, false, false)];
      PrefixSnoc(all, k + 1);
    }
  }

  /** The record is of a file of the tree and true of it. */
  predicate Listed(lib: Library, tree: Tree, r: Record) {
    r.path in tree && tree[r.path].File? && r == RecordOf(lib, tree, r.path)
  }

  lemma ListingIsListed(lib: Library, tree: Tree, files: seq<Record>, k: nat)
    requires Listing(lib, tree, files) && k < |files|
    ensures Listed(lib, tree, files[k])
  {
    assert files[k] in files;
  }

  /** Export yields such an archive whenever there is one. */
  method ExportNodeEvidence(lib: Library, tree: Tree, nodeId: string, revision: int, created: string)
    returns (r: Option<(Manifest, Archive)>)
    ensures r.Some? ==>
      && IsExport(lib, tree, r.value.0, r.value.1)
      && r.value.0.nodeId == nodeId && r.value.0.revision == revision && r.value.0.createdAt == created
    ensures r.None? ==> forall m, a :: IsExport(lib, tree, m, a) ==>
      !(m.nodeId == nodeId && m.revision == revision && m.createdAt == created)
  {
    var files := CollectExportFiles(lib, tree, nodeId, revision);
    if files.None? {
      return None;
    }
    var m := ManifestOf(lib, nodeId, revision, created, files.value);
    forall other | Listing(lib, tree, other)
      ensures other == files.value
    {
      ListingUnique(lib, tree, other, files.value);
    }
    if |lib.encode(m)| > MAX_MANIFEST_BYTES {
      return None;
    }
    forall k | 0 <= k < |m.files|
      ensures Listed(lib, tree, m.files[k])
    {
      ListingIsListed(lib, tree, m.files, k);
    }
    var members := WriteMembers(lib, tree, m);
    if lib.packed(members) > MAX_ARCHIVE_BYTES {
      return None;
    }
    r := Some((m, Archive(lib.packed(members), false, members)));
  }
}
