/**
 What export and import accept and produce (setup/evidence_transfer.py), told in the fields of
 manifests, archives and trees, without the functions that check and pack them.
 */
module EvidenceAnswers {
  import opened Basics
  import opened EvidenceTransfer
  import opened EvidenceExport
  import opened EvidenceImport

  // ---------------------------------------------------------------------- paths

  function Join(parts: seq<string>): string {
    if parts == [] then "" else if |parts| == 1 then parts[0] else parts[0] + "/" + Join(parts[1..])
  }

  predicate PartSpec(lib: Library, part: string) {
    && 1 <= |part| <= 255 && part != "." && part != ".."
    && forall i :: 0 <= i < |part| ==> part[i] != '/' && part[i] != ':' && lib.printable(part[i])
  }

  predicate PartsSpec(lib: Library, parts: seq<string>) {
    parts != [] && forall k :: 0 <= k < |parts| ==> PartSpec(lib, parts[k])
  }

  /** A relative path of at most 4096 characters made of safe parts. */
  ghost predicate PathSpec(lib: Library, path: string) {
    && 1 <= |path| <= 4096 && (forall i :: 0 <= i < |path| ==> path[i] != '\\')
    && exists parts :: PartsSpec(lib, parts) && path == Join(parts)
  }

  lemma {:induction false} JoinSplit(s: string)
    ensures Join(Split(s)) == s && forall k :: 0 <= k < |Split(s)| ==> '/' !in Split(s)[k]
  {
    if s != "" {
      var rest := Split(s[1..]);
      JoinSplit(s[1..]);
      assert s == [s[0]] + s[1..];
      if s[0] == '/' {
        assert Split(s) == [""] + rest && ([""] + rest)[1..] == rest;
      } else {
        var parts := [[s[0]] + rest[0]] + rest[1..];
        assert Split(s) == parts && parts[1..] == rest[1..];
        assert forall k :: 0 < k < |parts| ==> parts[k] == rest[k];
      }
    }
  }

  lemma {:induction false} SplitJoin(parts: seq<string>)
    requires parts != [] && forall k :: 0 <= k < |parts| ==> '/' !in parts[k]
    ensures Split(Join(parts)) == parts
  {
    if |parts| == 1 {
      SplitPlain(parts[0]);
    } else {
      SplitJoin(parts[1..]);
      SplitAfterSlash(parts[0], Join(parts[1..]));
      assert parts == [parts[0]] + parts[1..];
    }
  }

  lemma PathExactly(lib: Library, path: string)
    ensures SafePath(lib, path) <==> PathSpec(lib, path)
  {
    if SafePath(lib, path) {
      JoinSplit(path);
      assert PartsSpec(lib, Split(path));
    }
    if PathSpec(lib, path) {
      var parts :| PartsSpec(lib, parts) && path == Join(parts);
      SplitJoin(parts);
      if path[0] == '/' {
        LeadingSlash(lib, path);
      }
    }
  }

  // ------------------------------------------------------------------- manifests

  predicate Hex(s: string, digits: nat) {
    |s| == digits && forall i :: 0 <= i < |s| ==> s[i] in "0123456789abcdef"
  }

  lemma HexExactly(s: string)
    ensures DigestShape(s) <==> exists hex :: Hex(hex, 64) && s == "sha256:" + hex
    ensures ExportIdShape(s) <==> exists hex :: Hex(hex, 16) && s == "lab-export-" + hex
  {
    if DigestShape(s) {
      assert Hex(s[7..], 64) && s == s[..7] + s[7..];
    }
    if hex :| Hex(hex, 64) && s == "sha256:" + hex {
      assert s[7..] == hex;
    }
    if ExportIdShape(s) {
      assert Hex(s[11..], 16) && s == s[..11] + s[11..];
    }
    if hex :| Hex(hex, 16) && s == "lab-export-" + hex {
      assert s[11..] == hex;
    }
  }

  /** Strictly before in the order of strings: at the first difference, or as a proper prefix. */
  ghost predicate Less(a: string, b: string) {
    exists k :: LessAt(a, b, k)
  }

  predicate LessAt(a: string, b: string, k: int) {
    0 <= k <= |a| && k < |b| && a[..k] == b[..k] && (k == |a| || a[k] < b[k])
  }

  lemma {:induction false} LessExactly(a: string, b: string)
    ensures Less(a, b) <==> Le(a, b) && a != b
  {
    if a == "" {
      assert b != "" ==> LessAt(a, b, 0);
    } else if b != "" {
      if a[0] == b[0] {
        LessExactly(a[1..], b[1..]);
        assert a == [a[0]] + a[1..] && b == [b[0]] + b[1..];
        if k :| LessAt(a[1..], b[1..], k) {
          assert a[..k + 1] == [a[0]] + a[1..][..k] && b[..k + 1] == [b[0]] + b[1..][..k];
          assert LessAt(a, b, k + 1);
        }
        if k :| LessAt(a, b, k) {
          assert a[1..][..k - 1] == a[..k][1..] && b[1..][..k - 1] == b[..k][1..];
          assert LessAt(a[1..], b[1..], k - 1);
        }
      } else if a[0] < b[0] {
        assert LessAt(a, b, 0);
      } else {
        assert forall k :: 0 < k <= |a| ==> a[..k][0] == a[0];
        assert forall k :: 0 < k <= |b| ==> b[..k][0] == b[0];
      }
    }
  }

  ghost predicate Ascending(files: seq<Record>) {
    forall i, j :: 0 <= i < j < |files| ==> Less(files[i].path, files[j].path)
  }

  lemma AscendingExactly(files: seq<Record>)
    ensures Ordered(files) <==> Ascending(files)
  {
    forall i, j | 0 <= i < j < |files|
      ensures Less(files[i].path, files[j].path)
         <==> RecordLe(files[i], files[j]) && files[i].path != files[j].path
    {
      LessExactly(files[i].path, files[j].path);
    }
  }

  function SizeSum(files: seq<Record>): int {
    if files == [] then 0 else SizeSum(files[..|files| - 1]) + files[|files| - 1].size
  }

  lemma {:induction false} SizeSumExactly(files: seq<Record>)
    ensures Total(files) == SizeSum(files)
  {
    if files != [] {
      SizeSumExactly(files[..|files| - 1]);
      TotalSnoc(files[..|files| - 1], files[|files| - 1]);
      Unsnoc(files);
    }
  }

  ghost predicate RecordSpec(lib: Library, r: Record) {
    && PathSpec(lib, r.path) && 1 <= r.size <= 16_777_216
    && exists hex :: Hex(hex, 64) && r.sha256 == "sha256:" + hex
  }

  predicate NodeIdSpec(lib: Library, id: string) {
    1 <= |id| <= 128 && forall i :: 0 <= i < |id| ==> lib.printable(id[i]) && id[i] !in "/\\"
  }

  /** The contract of a manifest. */
  ghost predicate ManifestSpec(lib: Library, m: Manifest) {
    && m.version == 1 && m.revision > 0 && lib.zoned(m.createdAt) && NodeIdSpec(lib, m.nodeId)
    && 1 <= |m.files| <= 10_000 && Ascending(m.files) && SizeSum(m.files) <= 268_435_456
    && (forall k :: 0 <= k < |m.files| ==> RecordSpec(lib, m.files[k]))
    && m.exportId == lib.exportId(m.nodeId, m.revision, m.files)
    && exists hex :: Hex(hex, 16) && m.exportId == "lab-export-" + hex
  }

  lemma RecordExactly(lib: Library, r: Record)
    ensures RecordOk(lib, r) <==> RecordSpec(lib, r)
  {
    PathExactly(lib, r.path);
    HexExactly(r.sha256);
  }

  lemma ManifestExactly(lib: Library, m: Manifest)
    ensures ManifestOk(lib, m) <==> ManifestSpec(lib, m)
  {
    forall k | 0 <= k < |m.files|
      ensures RecordOk(lib, m.files[k]) <==> RecordSpec(lib, m.files[k])
    {
      RecordExactly(lib, m.files[k]);
    }
    AscendingExactly(m.files);
    SizeSumExactly(m.files);
    HexExactly(m.exportId);
  }

  // --------------------------------------------------------------------- archives

  /** The last entry of the manifest's name is at `k`, plain and of its declared size, and holds `m`. */
  ghost predicate ManifestAt(lib: Library, members: seq<Member>, k: int, m: Manifest) {
    && 0 <= k < |members| && members[k].name == "computemesh-lab-export.json"
    && (forall j :: k < j < |members| ==> members[j].name != "computemesh-lab-export.json")
    && !members[k].encrypted && !members[k].link && members[k].size <= 2_097_152
    && |members[k].data| == members[k].size && lib.decode(members[k].data) == Some(m) && ManifestSpec(lib, m)
  }

  lemma {:induction false} FoundExactly(members: seq<Member>, name: string) returns (k: int)
    ensures match FindMember(members, name)
      case None => forall j :: 0 <= j < |members| ==> members[j].name != name
      case Some(m) =>
        && 0 <= k < |members| && members[k] == m && m.name == name
        && forall j :: k < j < |members| ==> members[j].name != name
  {
    k := |members| - 1;
    if members != [] && members[k].name != name {
      var n := k;
      k := FoundExactly(members[..n], name);
    }
  }

  lemma ManifestInExactly(lib: Library, members: seq<Member>)
    ensures match ManifestIn(lib, members)
      case Some(m) => exists k :: ManifestAt(lib, members, k, m)
      case None => forall k, m :: !ManifestAt(lib, members, k, m)
  {
    var at := FoundExactly(members, MANIFEST_NAME);
    var found := FindMember(members, MANIFEST_NAME);
    if found.Some? && lib.decode(found.value.data).Some? {
      ManifestExactly(lib, lib.decode(found.value.data).value);
    }
    if ManifestIn(lib, members).Some? {
      assert ManifestAt(lib, members, at, ManifestIn(lib, members).value);
    } else {
      forall k, m
        ensures !ManifestAt(lib, members, k, m)
      {
      }
    }
  }

  /** The bytes that the entries other than the manifest declare. */
  function Declared(members: seq<Member>): int {
    if members == [] then 0
    else (if members[0].name == "computemesh-lab-export.json" then 0 else members[0].size) + Declared(members[1..])
  }

  lemma {:induction false} DeclaredSnoc(members: seq<Member>, m: Member)
    ensures Declared(members + [m])
         == Declared(members) + if m.name == "computemesh-lab-export.json" then 0 else m.size
  {
    if members == [] {
      assert members + [m] == [m] && [m][1..] == [];
    } else {
      assert (members + [m])[1..] == members[1..] + [m];
      DeclaredSnoc(members[1..], m);
    }
  }

  lemma {:induction false} DeclaredExactly(members: seq<Member>)
    ensures MemberTotal(members) == Declared(members)
  {
    if members != [] {
      var n := |members| - 1;
      DeclaredExactly(members[..n]);
      DeclaredSnoc(members[..n], members[n]);
      Unsnoc(members);
    }
  }

  /** The entry holds the file of the record. */
  predicate EntryFor(m: Member, r: Record) {
    m.name == "evidence/" + r.path && m.size == r.size
  }

  /** The manifest's entry, or one of a record. */
  ghost predicate Expected(files: seq<Record>, m: Member) {
    m.name == "computemesh-lab-export.json" || exists i :: 0 <= i < |files| && EntryFor(m, files[i])
  }

  ghost predicate NameThere(members: seq<Member>, name: string) {
    exists k :: 0 <= k < |members| && members[k].name == name
  }

  /** Which entries an archive may and must have. */
  ghost predicate MembersSpec(lib: Library, members: seq<Member>, files: seq<Record>) {
    && |members| <= 10_001 && Declared(members) <= 268_435_456
    && (forall i, j :: 0 <= i < j < |members| ==> members[i].name != members[j].name)
    && NameThere(members, "computemesh-lab-export.json")
    && (forall i :: 0 <= i < |files| ==> NameThere(members, "evidence/" + files[i].path))
    && (forall k :: 0 <= k < |members| ==>
          PathSpec(lib, members[k].name) && !members[k].encrypted && !members[k].link && Expected(files, members[k]))
  }

  lemma NameExactly(path: string)
    ensures MemberName(path) == "evidence/" + path && MANIFEST_NAME == "computemesh-lab-export.json"
  {
    assert "evidence/" == FOLDER + ['/'];
    assert FOLDER + ['/'] + path == (FOLDER + ['/']) + path;
  }

  lemma {:induction false} SizeForExactly(files: seq<Record>, m: Member)
    requires DistinctPaths(files)
    ensures SizeFor(files, m.name) == Some(m.size) <==> exists i :: 0 <= i < |files| && EntryFor(m, files[i])
  {
    if files != [] {
      var n := |files| - 1;
      SizeForExactly(files[..n], m);
      NameExactly(files[n].path);
      if i :| 0 <= i < n && EntryFor(m, files[..n][i]) {
        assert EntryFor(m, files[i]);
      }
      if i :| 0 <= i < |files| && EntryFor(m, files[i]) {
        NameExactly(files[i].path);
        if i < n {
          assert EntryFor(m, files[..n][i]);
          if MemberName(files[n].path) == m.name {
            MemberNameInjective(files[n].path, files[i].path);
          }
        }
      }
    }
  }

  lemma MemberExactly(lib: Library, files: seq<Record>, m: Member)
    requires DistinctPaths(files)
    ensures MemberOk(lib, files, m) <==>
      PathSpec(lib, m.name) && !m.encrypted && !m.link && Expected(files, m)
  {
    PathExactly(lib, m.name);
    SizeForExactly(files, m);
  }

  lemma NamesExactly(members: seq<Member>, files: seq<Record>)
    requires forall k :: 0 <= k < |members| ==> Expected(files, members[k])
    ensures Names(members) == ExpectedNames(files) <==>
      && NameThere(members, "computemesh-lab-export.json")
      && (forall i :: 0 <= i < |files| ==> NameThere(members, "evidence/" + files[i].path))
  {
    forall i | 0 <= i < |files|
      ensures MemberName(files[i].path) == "evidence/" + files[i].path
    {
      NameExactly(files[i].path);
    }
    forall name: string
      ensures name in Names(members) <==> NameThere(members, name)
    {
      if m :| m in members && m.name == name {
        var k :| 0 <= k < |members| && members[k] == m;
      }
    }
    forall k | 0 <= k < |members|
      ensures members[k].name in ExpectedNames(files)
    {
      if members[k].name != MANIFEST_NAME {
        var i :| 0 <= i < |files| && EntryFor(members[k], files[i]);
        assert files[i] in files;
      }
    }
    if NameThere(members, "computemesh-lab-export.json")
      && forall i :: 0 <= i < |files| ==> NameThere(members, "evidence/" + files[i].path)
    {
      forall name | name in ExpectedNames(files)
        ensures name in Names(members)
      {
        if name != MANIFEST_NAME {
          var r :| r in files && name == MemberName(r.path);
          var i :| 0 <= i < |files| && files[i] == r;
        }
      }
    }
    if Names(members) == ExpectedNames(files) {
      forall i | 0 <= i < |files|
        ensures NameThere(members, "evidence/" + files[i].path)
      {
        assert files[i] in files;
        assert MemberName(files[i].path) in ExpectedNames(files);
      }
      assert MANIFEST_NAME in ExpectedNames(files);
    }
  }

  lemma MembersExactly(lib: Library, members: seq<Member>, files: seq<Record>)
    requires DistinctPaths(files)
    ensures MembersOk(lib, members, files) <==> MembersSpec(lib, members, files)
  {
    forall k | 0 <= k < |members|
      ensures MemberOk(lib, files, members[k]) <==>
        PathSpec(lib, members[k].name) && !members[k].encrypted && !members[k].link && Expected(files, members[k])
    {
      MemberExactly(lib, files, members[k]);
    }
    DeclaredExactly(members);
    if AllOk(lib, members, files) || forall k :: 0 <= k < |members| ==> Expected(files, members[k]) {
      NamesExactly(members, files);
    }
  }

  // ---------------------------------------------------------------------- contents

  /** The bytes of the record's entry. */
  ghost predicate DataFor(members: seq<Member>, r: Record, data: Bytes) {
    exists k :: 0 <= k < |members| && members[k].name == "evidence/" + r.path && members[k].data == data
  }

  predicate True(lib: Library, r: Record, data: Bytes) {
    |data| == r.size && lib.sha256(data) == r.sha256
  }

  /** No file is where another one needs a directory. */
  ghost predicate NoneInside(files: seq<Record>) {
    forall i, j :: 0 <= i < |files| && 0 <= j < |files| ==> !(files[i].path + "/" <= files[j].path)
  }

  /** The files of the archive are those of the manifest and can all be written. */
  ghost predicate ContentsSpec(lib: Library, members: seq<Member>, files: seq<Record>) {
    && NoneInside(files)
    && forall i :: 0 <= i < |files| ==> Delivered(lib, members, files[i])
  }

  ghost predicate Delivered(lib: Library, members: seq<Member>, r: Record) {
    exists data :: DataFor(members, r, data) && True(lib, r, data)
  }

  lemma DataExactly(lib: Library, members: seq<Member>, files: seq<Record>, i: nat)
    requires MembersOk(lib, members, files) && i < |files|
    ensures forall data :: DataFor(members, files[i], data) <==> data == DataOf(members, files[i].path)
  {
    NameExactly(files[i].path);
    var name := MemberName(files[i].path);
    assert files[i] in files;
    assert name in ExpectedNames(files);
    var m :| m in members && m.name == name;
    var k :| 0 <= k < |members| && members[k] == m;
    FindsTheMember(members, k);
  }

  lemma NestedExactly(p: string, q: string)
    ensures Ancestor(p, q) <==> p + "/" <= q
  {
    if Ancestor(p, q) {
      assert q == q[..|p|] + q[|p|..] && q[|p|..][0] == '/';
      assert (p + "/") == q[..|p| + 1];
    }
    if p + "/" <= q {
      assert q[|p|] == (p + "/")[|p|] && q[..|p|] == (p + "/")[..|p|];
    }
  }

  lemma InsideExactly(files: seq<Record>)
    ensures NoneNested(files) <==> NoneInside(files)
  {
    forall i, j | 0 <= i < |files| && 0 <= j < |files|
      ensures Ancestor(files[i].path, files[j].path) <==> files[i].path + "/" <= files[j].path
    {
      NestedExactly(files[i].path, files[j].path);
    }
  }

  lemma DeliveredExactly(lib: Library, members: seq<Member>, files: seq<Record>, i: nat)
    requires MembersOk(lib, members, files) && i < |files|
    ensures ContentOk(lib, members, files[i]) <==> Delivered(lib, members, files[i])
  {
    DataExactly(lib, members, files, i);
    assert DataFor(members, files[i], DataOf(members, files[i].path));
  }

  lemma ContentsExactly(lib: Library, members: seq<Member>, files: seq<Record>)
    requires MembersOk(lib, members, files)
    ensures ContentsOk(lib, members, files) <==> ContentsSpec(lib, members, files)
  {
    InsideExactly(files);
    forall i | 0 <= i < |files|
      ensures ContentOk(lib, members, files[i]) <==> Delivered(lib, members, files[i])
    {
      DeliveredExactly(lib, members, files, i);
    }
  }

  /** The directory holds exactly the files of the records. */
  ghost predicate HoldsSpec(lib: Library, evidence: Tree, files: seq<Record>) {
    && (forall p :: p in evidence ==> exists i :: 0 <= i < |files| && files[i].path == p)
    && (forall i :: 0 <= i < |files| ==>
          && files[i].path in evidence && evidence[files[i].path].File?
          && True(lib, files[i], evidence[files[i].path].data))
  }

  /** A directory that is there already is this export's: its manifest differs at most in the time
      of creation. */
  ghost predicate SameExport(lib: Library, there: Imported, m: Manifest) {
    && there.manifest.Some? && there.evidence.Some? && HoldsSpec(lib, there.evidence.value, m.files)
    && exists created ::
         lib.decode(there.manifest.value) == Some(m.(createdAt := created))
         && ManifestSpec(lib, m.(createdAt := created))
  }

  lemma HoldsExactly(lib: Library, evidence: Tree, files: seq<Record>)
    ensures Holds(lib, evidence, files) <==> HoldsSpec(lib, evidence, files)
  {
    forall p: string
      ensures p in Paths(files) <==> exists i :: 0 <= i < |files| && files[i].path == p
    {
      if i :| 0 <= i < |files| && files[i].path == p {
        assert files[i] in files;
      }
    }
  }

  lemma MatchesExactly(lib: Library, there: Imported, m: Manifest)
    ensures Matches(lib, there, m) <==> SameExport(lib, there, m)
  {
    if there.evidence.Some? {
      HoldsExactly(lib, there.evidence.value, m.files);
    }
    if there.manifest.Some? && lib.decode(there.manifest.value).Some? {
      var found := lib.decode(there.manifest.value).value;
      ManifestExactly(lib, found);
      assert SameIdentity(found, m) ==> found == m.(createdAt := found.createdAt);
    }
  }

  // ------------------------------------------------------------------------ import

  /** A readable archive with this manifest and the entries it calls for. */
  ghost predicate Readable(lib: Library, archive: Archive, m: Manifest) {
    && !archive.link && 1 <= archive.size <= 268_435_456
    && (exists k :: ManifestAt(lib, archive.members, k, m)) && MembersSpec(lib, archive.members, m.files)
  }

  /** The new directory: the manifest and, under each record's path, the bytes of its entry. */
  ghost predicate WrittenSpec(lib: Library, members: seq<Member>, m: Manifest, there: Imported) {
    && there.manifest == Some(lib.encode(m)) && there.evidence.Some?
    && (forall p :: p in there.evidence.value ==> exists i :: 0 <= i < |m.files| && m.files[i].path == p)
    && (forall i :: 0 <= i < |m.files| ==>
          && m.files[i].path in there.evidence.value && there.evidence.value[m.files[i].path].File?
          && DataFor(members, m.files[i], there.evidence.value[m.files[i].path].data))
  }

  ghost predicate Acceptable(lib: Library, root: Root, archive: Archive, m: Manifest) {
    && Readable(lib, archive, m)
    && if (m.nodeId, m.exportId) in root then SameExport(lib, root[(m.nodeId, m.exportId)], m)
       else ContentsSpec(lib, archive.members, m.files)
  }

  /** What an accepted import answers and leaves. */
  ghost predicate Leaves(lib: Library, root: Root, members: seq<Member>, m: Manifest, receipt: Receipt, after: Root) {
    var key := (m.nodeId, m.exportId);
    && receipt == Receipt(m.exportId, m.nodeId, m.revision, |m.files|)
    && if key in root then after == root
       else key in after && after == root[key := after[key]] && WrittenSpec(lib, members, m, after[key])
  }

  /** Which answer an import gives. */
  ghost predicate ImportSpec(lib: Library, root: Root, archive: Archive, outcome: Option<(Receipt, Root)>) {
    match outcome
    case None => forall m :: !Acceptable(lib, root, archive, m)
    case Some(done) => exists m ::
      Acceptable(lib, root, archive, m) && Leaves(lib, root, archive.members, m, done.0, done.1)
  }

  lemma WrittenExactly(lib: Library, members: seq<Member>, m: Manifest)
    requires MembersOk(lib, members, m.files)
    ensures WrittenSpec(lib, members, m, Written(lib, members, m))
  {
    forall i | 0 <= i < |m.files|
      ensures m.files[i].path in Paths(m.files)
      ensures DataFor(members, m.files[i], DataOf(members, m.files[i].path))
    {
      assert m.files[i] in m.files;
      DataExactly(lib, members, m.files, i);
    }
    forall p | p in Paths(m.files)
      ensures exists i :: 0 <= i < |m.files| && m.files[i].path == p
    {
      var r :| r in m.files && r.path == p;
    }
  }

  lemma ManifestIsOne(lib: Library, members: seq<Member>, j: int, m: Manifest, k: int, n: Manifest)
    requires ManifestAt(lib, members, j, m) && ManifestAt(lib, members, k, n)
    ensures m == n
  {
  }

  /** The manifest that is found is the one. */
  lemma FoundManifest(lib: Library, members: seq<Member>, m: Manifest)
    ensures ManifestIn(lib, members) == Some(m) <==> exists k :: ManifestAt(lib, members, k, m)
    ensures ManifestIn(lib, members) == Some(m) ==> DistinctPaths(m.files)
  {
    ManifestInExactly(lib, members);
    var found := ManifestIn(lib, members);
    if k :| ManifestAt(lib, members, k, m) {
      if found.Some? {
        var j :| ManifestAt(lib, members, j, found.value);
        ManifestIsOne(lib, members, j, found.value, k, m);
      }
    }
  }

  lemma ReadableExactly(lib: Library, archive: Archive, m: Manifest)
    ensures Readable(lib, archive, m) <==>
      && !archive.link && 1 <= archive.size <= 268_435_456
      && ManifestIn(lib, archive.members) == Some(m) && MembersOk(lib, archive.members, m.files)
  {
    FoundManifest(lib, archive.members, m);
    if ManifestIn(lib, archive.members) == Some(m) {
      MembersExactly(lib, archive.members, m.files);
    }
  }

  lemma ContentExactly(lib: Library, root: Root, members: seq<Member>, m: Manifest)
    requires MembersOk(lib, members, m.files)
    ensures KeyOf(m) in root ==> (SameExport(lib, root[KeyOf(m)], m) <==> Matches(lib, root[KeyOf(m)], m))
    ensures ContentsSpec(lib, members, m.files) <==> ContentsOk(lib, members, m.files)
  {
    if KeyOf(m) in root {
      MatchesExactly(lib, root[KeyOf(m)], m);
    }
    ContentsExactly(lib, members, m.files);
  }

  lemma RefusedExactly(lib: Library, root: Root, archive: Archive, m: Manifest)
    requires Outcome(lib, root, archive).None?
    ensures !Acceptable(lib, root, archive, m)
  {
    ReadableExactly(lib, archive, m);
    if Readable(lib, archive, m) {
      ContentExactly(lib, root, archive.members, m);
    }
  }

  lemma AcceptedExactly(lib: Library, root: Root, archive: Archive)
    requires Outcome(lib, root, archive).Some?
    ensures ManifestIn(lib, archive.members).Some?
    ensures var m, done := ManifestIn(lib, archive.members).value, Outcome(lib, root, archive).value;
      Acceptable(lib, root, archive, m) && Leaves(lib, root, archive.members, m, done.0, done.1)
  {
    var m := ManifestIn(lib, archive.members).value;
    ReadableExactly(lib, archive, m);
    ContentExactly(lib, root, archive.members, m);
    WrittenExactly(lib, archive.members, m);
  }

  /** An import gives the answer that the archive and the root call for. */
  lemma ImportExactly(lib: Library, root: Root, archive: Archive)
    ensures ImportSpec(lib, root, archive, Outcome(lib, root, archive))
  {
    if Outcome(lib, root, archive).Some? {
      AcceptedExactly(lib, root, archive);
    } else {
      forall m: Manifest {
        RefusedExactly(lib, root, archive, m);
      }
    }
  }

  // ------------------------------------------------------------------------ export

  ghost predicate EndsInJson(path: string) {
    exists stem :: path == stem + ".json"
  }

  lemma JsonExactly(path: string)
    ensures IsJson(path) <==> EndsInJson(path)
  {
    if IsJson(path) {
      assert path == path[..|path| - 5] + ".json";
    }
  }

  /** A JSON file of the tree whose content is taken for a profile or a benchmark. */
  ghost predicate EvidenceFile(lib: Library, tree: Tree, path: string) {
    && path in tree && EndsInJson(path) && tree[path].File?
    && (lib.recognise(tree[path].data).Profile? || lib.recognise(tree[path].data).Benchmark?)
  }

  /** The records of exactly the evidence, in ascending order, with true digests and sizes. */
  ghost predicate ListingSpec(lib: Library, tree: Tree, files: seq<Record>) {
    && Ascending(files)
    && (forall i :: 0 <= i < |files| ==>
          && EvidenceFile(lib, tree, files[i].path)
          && files[i].sha256 == lib.sha256(tree[files[i].path].data) && files[i].size == |tree[files[i].path].data|)
    && (forall p :: EvidenceFile(lib, tree, p) ==> exists i :: 0 <= i < |files| && files[i].path == p)
  }

  /** Every JSON file can be loaded, and there are not too many. */
  ghost predicate ScanSpec(lib: Library, tree: Tree) {
    && |set p | p in tree && EndsInJson(p)| <= 10_000
    && forall p :: p in tree && EndsInJson(p) ==>
         tree[p].File? && 1 <= |tree[p].data| <= 16_777_216 && !lib.recognise(tree[p].data).Refused?
  }

  /** A JSON file that is a profile of this node and revision. */
  ghost predicate ProfileFile(lib: Library, tree: Tree, p: string, nodeId: string, revision: int) {
    && p in tree && EndsInJson(p) && tree[p].File?
    && lib.recognise(tree[p].data) == Profile(nodeId, revision)
  }

  ghost predicate ProfilesSpec(lib: Library, tree: Tree, nodeId: string, revision: int) {
    && (exists p :: ProfileFile(lib, tree, p, nodeId, revision))
    && forall p, id, rev :: ProfileFile(lib, tree, p, id, rev) ==> id == nodeId && rev <= revision
  }

  /** When a node is exported, and as what. */
  ghost predicate ExportSpec(lib: Library, tree: Tree, m: Manifest, a: Archive) {
    && NodeIdSpec(lib, m.nodeId) && m.revision > 0 && ScanSpec(lib, tree)
    && ProfilesSpec(lib, tree, m.nodeId, m.revision)
    && (forall p :: EvidenceFile(lib, tree, p) ==> PathSpec(lib, p))
    && ListingSpec(lib, tree, m.files) && SizeSum(m.files) <= 268_435_456
    && m.version == 1 && m.exportId == lib.exportId(m.nodeId, m.revision, m.files)
    && ArchiveSpec(lib, tree, m, a)
  }

  predicate ManifestEntry(manifest: Bytes, entry: Member) {
    entry == Member("computemesh-lab-export.json", |manifest|, manifest, false, false)
  }

  predicate FileEntry(tree: Tree, path: string, entry: Member) {
    && path in tree && tree[path].File?
    && entry == Member("evidence/" + path, |tree[path].data|, tree[path].data, false, false)
  }

  /** The manifest first, then each file under its prefixed name. */
  ghost predicate ArchiveSpec(lib: Library, tree: Tree, m: Manifest, a: Archive) {
    && !a.link && a.size == lib.packed(a.members) <= 268_435_456 && |lib.encode(m)| <= 2_097_152
    && |a.members| == 1 + |m.files| && ManifestEntry(lib.encode(m), a.members[0])
    && forall k :: 0 <= k < |m.files| ==> FileEntry(tree, m.files[k].path, a.members[k + 1])
  }

  lemma EvidenceExactly(lib: Library, tree: Tree, p: string)
    ensures IsEvidence(lib, tree, p) <==> EvidenceFile(lib, tree, p)
    ensures forall id, rev ::
      ProfileFile(lib, tree, p, id, rev) <==>
      IsProfile(lib, tree, p) && lib.recognise(tree[p].data) == Profile(id, rev)
  {
    JsonExactly(p);
  }

  lemma ListingExactly(lib: Library, tree: Tree, files: seq<Record>)
    ensures Listing(lib, tree, files) <==> ListingSpec(lib, tree, files)
  {
    AscendingExactly(files);
    forall p: string
      ensures IsEvidence(lib, tree, p) <==> EvidenceFile(lib, tree, p)
    {
      EvidenceExactly(lib, tree, p);
    }
    if Listing(lib, tree, files) {
      assert forall i :: 0 <= i < |files| ==> files[i] in files;
      forall p | EvidenceFile(lib, tree, p)
        ensures exists i :: 0 <= i < |files| && files[i].path == p
      {
        assert RecordOf(lib, tree, p) in files;
      }
    }
    if ListingSpec(lib, tree, files) {
      forall r: Record
        ensures r in files <==> IsEvidence(lib, tree, r.path) && r == RecordOf(lib, tree, r.path)
      {
      }
    }
  }

  lemma ScanExactly(lib: Library, tree: Tree)
    ensures Scannable(lib, tree) <==> ScanSpec(lib, tree)
  {
    forall p: string
      ensures IsJson(p) <==> EndsInJson(p)
    {
      JsonExactly(p);
    }
    assert Candidates(tree) == set p | p in tree && EndsInJson(p);
  }

  lemma ProfilesExactly(lib: Library, tree: Tree, nodeId: string, revision: int)
    ensures ProfilesAgree(lib, tree, nodeId, revision) <==> ProfilesSpec(lib, tree, nodeId, revision)
  {
    forall p: string {
      EvidenceExactly(lib, tree, p);
    }
    if ProfilesAgree(lib, tree, nodeId, revision) {
      var p :| IsProfile(lib, tree, p) && lib.recognise(tree[p].data).revision == revision;
      assert ProfileFile(lib, tree, p, nodeId, revision);
    }
    if ProfilesSpec(lib, tree, nodeId, revision) {
      forall p | IsProfile(lib, tree, p)
        ensures lib.recognise(tree[p].data).nodeId == nodeId && lib.recognise(tree[p].data).revision <= revision
      {
        var kind := lib.recognise(tree[p].data);
        assert ProfileFile(lib, tree, p, kind.nodeId, kind.revision);
      }
    }
  }

  lemma CollectableExactly(lib: Library, tree: Tree, nodeId: string, revision: int, files: seq<Record>)
    requires Listing(lib, tree, files)
    ensures Collectable(lib, tree, nodeId, revision) <==>
      && NodeIdSpec(lib, nodeId) && revision > 0 && ScanSpec(lib, tree) && ProfilesSpec(lib, tree, nodeId, revision)
      && (forall p :: EvidenceFile(lib, tree, p) ==> PathSpec(lib, p)) && SizeSum(files) <= 268_435_456
  {
    ScanExactly(lib, tree);
    ProfilesExactly(lib, tree, nodeId, revision);
    PathsExactly(lib, tree);
    TotalExactly(lib, tree, files);
  }

  lemma PathsExactly(lib: Library, tree: Tree)
    ensures (forall p :: IsEvidence(lib, tree, p) ==> SafePath(lib, p)) <==>
            (forall p :: EvidenceFile(lib, tree, p) ==> PathSpec(lib, p))
  {
    forall p: string
      ensures IsEvidence(lib, tree, p) <==> EvidenceFile(lib, tree, p)
      ensures SafePath(lib, p) <==> PathSpec(lib, p)
    {
      EvidenceExactly(lib, tree, p);
      PathExactly(lib, p);
    }
  }

  lemma TotalExactly(lib: Library, tree: Tree, files: seq<Record>)
    requires Listing(lib, tree, files)
    ensures (forall other :: Listing(lib, tree, other) ==> Total(other) <= MAX_TOTAL_BYTES) <==>
            SizeSum(files) <= 268_435_456
  {
    SizeSumExactly(files);
    forall other | Listing(lib, tree, other)
      ensures other == files
    {
      ListingUnique(lib, tree, other, files);
    }
  }

  lemma FileEntryExactly(tree: Tree, path: string, entry: Member)
    requires path in tree && tree[path].File?
    ensures FileEntry(tree, path, entry) <==> entry == EvidenceMember(tree, path)
  {
    NameExactly(path);
  }

  lemma ManifestEntryExactly(lib: Library, m: Manifest, entry: Member)
    ensures ManifestEntry(lib.encode(m), entry) <==> entry == ManifestMember(lib, m)
  {
    NameExactly("");
  }

  lemma EntriesExactly(lib: Library, tree: Tree, m: Manifest, members: seq<Member>)
    requires Listing(lib, tree, m.files) && |members| == 1 + |m.files|
    ensures members == Members(lib, tree, m) <==>
      && ManifestEntry(lib.encode(m), members[0])
      && forall k :: 0 <= k < |m.files| ==> FileEntry(tree, m.files[k].path, members[k + 1])
  {
    var all := Members(lib, tree, m);
    ManifestEntryExactly(lib, m, members[0]);
    forall k | 0 <= k < |m.files|
      ensures FileEntry(tree, m.files[k].path, members[k + 1]) <==> members[k + 1] == all[k + 1]
    {
      ListingIsListed(lib, tree, m.files, k);
      FileEntryExactly(tree, m.files[k].path, members[k + 1]);
    }
    assert members == all <==> forall k :: 0 <= k < |all| ==> members[k] == all[k];
    assert forall k :: 0 < k < |all| ==> members[k] == members[(k - 1) + 1];
  }

  lemma ArchiveExactly(lib: Library, tree: Tree, m: Manifest, a: Archive)
    requires Listing(lib, tree, m.files)
    ensures ArchiveSpec(lib, tree, m, a) <==>
      && |lib.encode(m)| <= MAX_MANIFEST_BYTES && a.size <= MAX_ARCHIVE_BYTES
      && a == Archive(lib.packed(Members(lib, tree, m)), false, Members(lib, tree, m))
  {
    if |a.members| == 1 + |m.files| {
      EntriesExactly(lib, tree, m, a.members);
    }
  }

  /** An export is what the tree calls for. */
  lemma ExportExactly(lib: Library, tree: Tree, m: Manifest, a: Archive)
    ensures IsExport(lib, tree, m, a) <==> ExportSpec(lib, tree, m, a)
  {
    ListingExactly(lib, tree, m.files);
    if Listing(lib, tree, m.files) {
      CollectableExactly(lib, tree, m.nodeId, m.revision, m.files);
      ArchiveExactly(lib, tree, m, a);
    }
  }
}
