/**
 Importing an export archive (setup/evidence_transfer.py): reading and checking it, extracting
 its evidence, verifying a directory that is there already.

 The import root maps (node id, export id) to an imported directory. A directory appears with
 its final rename, so an import that fails leaves the root as it was.
 */
module EvidenceImport {
  import opened Basics
  import opened EvidenceTransfer

  /** An import directory; either part may be missing or damaged on disk. */
  datatype Imported = Imported(manifest: Option<Bytes>, evidence: Option<Tree>)

  type Root = map<(string, string), Imported>

  datatype Receipt = Receipt(exportId: string, nodeId: string, revision: int, count: int)

  function ReceiptOf(m: Manifest): Receipt {
    Receipt(m.exportId, m.nodeId, m.revision, |m.files|)
  }

  function KeyOf(m: Manifest): (string, string) {
    (m.nodeId, m.exportId)
  }

  // ------------------------------------------------- the archive's members

  /** `ZipFile.getinfo`: the last entry of that name. */
  function FindMember(members: seq<Member>, name: string): (r: Option<Member>)
    ensures r.Some? ==> r.value in members && r.value.name == name
    ensures r.None? ==> forall k :: 0 <= k < |members| ==> members[k].name != name
  {
    if members == [] then None
    else
      var last := members[|members| - 1];
      if last.name == name then Some(last) else FindMember(members[..|members| - 1], name)
  }

  predicate DistinctNames(members: seq<Member>) {
    forall i, j :: 0 <= i < j < |members| ==> members[i].name != members[j].name
  }

  lemma FindsTheMember(members: seq<Member>, k: nat)
    requires DistinctNames(members) && k < |members|
    ensures FindMember(members, members[k].name) == Some(members[k])
  {
  }

  ghost function ManifestIn(lib: Library, members: seq<Member>): Option<Manifest> {
    var found := FindMember(members, MANIFEST_NAME);
    if found.None? then None
    else
      var info := found.value;
      if info.encrypted || info.size > MAX_MANIFEST_BYTES || info.link || |info.data| != info.size then None
      else
        var m := lib.decode(info.data);
        if m.Some? && ManifestOk(lib, m.value) then m else None
  }

  method ReadArchiveManifest(lib: Library, members: seq<Member>) returns (r: Option<Manifest>)
    ensures r == ManifestIn(lib, members)
  {
    var found := FindMember(members, MANIFEST_NAME);
    if found.None? {
      return None;
    }
    var info := found.value;
    if info.encrypted || info.size > MAX_MANIFEST_BYTES || info.link || |info.data| != info.size {
      return None;
    }
    var m := lib.decode(info.data);
    if m.None? {
      return None;
    }
    var ok := ValidateManifest(lib, m.value);
    r := if ok then m else None;
  }

  function ExpectedNames(files: seq<Record>): set<string> {
    {MANIFEST_NAME} + set r | r in files :: MemberName(r.path)
  }

  function Names(members: seq<Member>): set<string> {
    set m | m in members :: m.name
  }

  /** The size the manifest gives for an archive name. */
  function SizeFor(files: seq<Record>, name: string): Option<int> {
    if files == [] then None
    else
      var n := |files| - 1;
      if MemberName(files[n].path) == name then Some(files[n].size) else SizeFor(files[..n], name)
  }

  lemma {:induction false} SizeForIsSize(files: seq<Record>, name: string)
    requires SizeFor(files, name).Some? && forall k :: 0 <= k < |files| ==> files[k].size >= 0
    ensures SizeFor(files, name).value >= 0
  {
    var n := |files| - 1;
    if MemberName(files[n].path) != name {
      SizeForIsSize(files[..n], name);
    }
  }

  /** What one entry adds to the running total. */
  function Weight(m: Member): int {
    if m.name == MANIFEST_NAME then 0 else m.size
  }

  function MemberTotal(members: seq<Member>): int {
    if members == [] then 0
    else MemberTotal(members[..|members| - 1]) + Weight(members[|members| - 1])
  }

  predicate MemberOk(lib: Library, files: seq<Record>, m: Member) {
    && SafePath(lib, m.name) && !m.encrypted && !m.link
    && (m.name != MANIFEST_NAME ==> SizeFor(files, m.name) == Some(m.size))
  }

  predicate AllOk(lib: Library, members: seq<Member>, files: seq<Record>) {
    forall k :: 0 <= k < |members| ==> MemberOk(lib, files, members[k])
  }

  predicate MembersOk(lib: Library, members: seq<Member>, files: seq<Record>) {
    && |members| <= MAX_FILES + 1
    && DistinctNames(members)
    && Names(members) == ExpectedNames(files)
    && AllOk(lib, members, files)
    && MemberTotal(members) <= MAX_TOTAL_BYTES
  }

  lemma {:induction false} MemberTotalGrows(members: seq<Member>, k: nat)
    requires k <= |members| && forall i :: k <= i < |members| ==> Weight(members[i]) >= 0
    ensures MemberTotal(members[..k]) <= MemberTotal(members)
    decreases |members|
  {
    if k == |members| {
      assert members[..k] == members;
    } else {
      var n := |members| - 1;
      assert members[..n][..k] == members[..k];
      MemberTotalGrows(members[..n], k);
    }
  }

  lemma WeightsArePositive(lib: Library, files: seq<Record>, m: Member)
    requires MemberOk(lib, files, m) && forall k :: 0 <= k < |files| ==> files[k].size >= 0
    ensures Weight(m) >= 0
  {
    if m.name != MANIFEST_NAME {
      SizeForIsSize(files, m.name);
    }
  }

  lemma PastTheLimit(lib: Library, members: seq<Member>, files: seq<Record>, k: nat)
    requires k <= |members| && AllOk(lib, members, files) && forall i :: 0 <= i < |files| ==> files[i].size >= 0
    ensures MemberTotal(members[..k]) <= MemberTotal(members)
  {
    forall i | k <= i < |members|
      ensures Weight(members[i]) >= 0
    {
      WeightsArePositive(lib, files, members[i]);
    }
    MemberTotalGrows(members, k);
  }

  lemma MemberTotalSnoc(members: seq<Member>, k: nat)
    requires k < |members|
    ensures MemberTotal(members[..k + 1]) == MemberTotal(members[..k]) + Weight(members[k])
  {
    assert members[..k + 1][..k] == members[..k];
  }

  /** The loop over the entries, with the running total. */
  method CheckMembers(lib: Library, members: seq<Member>, files: seq<Record>) returns (ok: bool)
    requires forall k :: 0 <= k < |files| ==> files[k].size >= 0
    ensures ok <==> AllOk(lib, members, files) && MemberTotal(members) <= MAX_TOTAL_BYTES
  {
    var total := 0;
    for k := 0 to |members|
      invariant forall i :: 0 <= i < k ==> MemberOk(lib, files, members[i])
      invariant total == MemberTotal(members[..k]) && total <= MAX_TOTAL_BYTES
    {
      var info := members[k];
      if !MemberOk(lib, files, info) {
        return false;
      }
      MemberTotalSnoc(members, k);
      total := total + Weight(info);
      if total > MAX_TOTAL_BYTES {
        if AllOk(lib, members, files) {
          PastTheLimit(lib, members, files, k + 1);
        }
        return false;
      }
    }
    assert members[..|members|] == members;
    ok := true;
  }

  method ValidateArchiveMembers(lib: Library, members: seq<Member>, files: seq<Record>) returns (ok: bool)
    requires forall k :: 0 <= k < |files| ==> files[k].size >= 0
    ensures ok <==> MembersOk(lib, members, files)
  {
    if |members| > MAX_FILES + 1 || !DistinctNames(members) || Names(members) != ExpectedNames(files) {
      return false;
    }
    ok := CheckMembers(lib, members, files);
  }

  // ----------------------------------------------------------- extraction

  /** `p` would have to be a directory for `q` to exist. */
  predicate Ancestor(p: string, q: string) {
    |p| < |q| && q[|p|] == '/' && q[..|p|] == p
  }

  ghost predicate NoneNested(files: seq<Record>) {
    forall i, j :: 0 <= i < |files| && 0 <= j < |files| ==> !Ancestor(files[i].path, files[j].path)
  }

  function DataOf(members: seq<Member>, path: string): Bytes {
    var found := FindMember(members, MemberName(path));
    if found.Some? then found.value.data else []
  }

  predicate ContentOk(lib: Library, members: seq<Member>, r: Record) {
    |DataOf(members, r.path)| == r.size && lib.sha256(DataOf(members, r.path)) == r.sha256
  }

  ghost predicate ContentsOk(lib: Library, members: seq<Member>, files: seq<Record>) {
    (forall k :: 0 <= k < |files| ==> ContentOk(lib, members, files[k])) && NoneNested(files)
  }

  function Unpacked(members: seq<Member>, files: seq<Record>): Tree {
    map p | p in Paths(files) :: File(DataOf(members, p))
  }

  /** The copy of one entry in pieces of a mebibyte, which stops when the manifest's size is passed. */
  method CopyMember(data: Bytes, size: int) returns (r: Option<Bytes>)
    requires size >= 0
    ensures r == if |data| == size then Some(data) else None
  {
    var sink: Bytes := [];
    var written := 0;
    while written < |data|
      invariant 0 <= written <= |data| && written <= size && sink == data[..written]
    {
      var next := Min(written + 1_048_576, |data|);
      var chunk := data[written..next];
      written := written + |chunk|;
      if written > size {
        return None;
      }
      sink := sink + chunk;
    }
    assert data[..|data|] == data;
    r := if written != size then None else Some(sink);
  }

  /** A file cannot be created below another file, nor in place of a directory. */
  predicate Blocked(written: Tree, path: string) {
    exists p :: p in written && (Ancestor(p, path) || Ancestor(path, p))
  }

  lemma NestingGrows(members: seq<Member>, files: seq<Record>, k: nat)
    requires k < |files| && NoneNested(files[..k])
    ensures Blocked(Unpacked(members, files[..k]), files[k].path) ==> !NoneNested(files)
    ensures !Blocked(Unpacked(members, files[..k]), files[k].path) ==> NoneNested(files[..k + 1])
  {
  }

  lemma UnpackedSnoc(members: seq<Member>, files: seq<Record>, k: nat)
    requires k < |files|
    ensures Unpacked(members, files[..k + 1]) ==
      Unpacked(members, files[..k])[files[k].path := File(DataOf(members, files[k].path))]
  {
  }

  /** The extraction loop accepts exactly archives whose contents are those of the manifest. */
  method ExtractEvidence(lib: Library, members: seq<Member>, files: seq<Record>) returns (r: Option<Tree>)
    requires forall k :: 0 <= k < |files| ==> files[k].size >= 0
    ensures r.Some? <==> ContentsOk(lib, members, files)
    ensures r.Some? ==> r.value == Unpacked(members, files)
  {
    var written: Tree := map[];
    for k := 0 to |files|
      invariant written == Unpacked(members, files[..k])
      invariant NoneNested(files[..k])
      invariant forall i :: 0 <= i < k ==> ContentOk(lib, members, files[i])
    {
      var item := files[k];
      NestingGrows(members, files, k);
      UnpackedSnoc(members, files, k);
      if Blocked(written, item.path) {
        return None;
      }
      var data := CopyMember(DataOf(members, item.path), item.size);
      if data.None? || lib.sha256(data.value) != item.sha256 {
        assert !ContentOk(lib, members, item);
        return None;
      }
      written := written[item.path := File(data.value)];
    }
    assert files[..|files|] == files;
    r := Some(written);
  }

  // ------------------------------------------------- an existing directory

  predicate SameIdentity(a: Manifest, b: Manifest) {
    && a.version == b.version && a.exportId == b.exportId && a.nodeId == b.nodeId
    && a.revision == b.revision && a.files == b.files
  }

  predicate EntryOk(lib: Library, evidence: Tree, r: Record) {
    r.path in evidence && evidence[r.path].File?
    && |evidence[r.path].data| == r.size && lib.sha256(evidence[r.path].data) == r.sha256
  }

  /** The tree holds exactly the manifest's paths, with its sizes and hashes. */
  ghost predicate Holds(lib: Library, evidence: Tree, files: seq<Record>) {
    evidence.Keys == Paths(files) && forall k :: 0 <= k < |files| ==> EntryOk(lib, evidence, files[k])
  }

  ghost predicate Matches(lib: Library, there: Imported, m: Manifest) {
    && there.manifest.Some? && there.evidence.Some?
    && lib.decode(there.manifest.value).Some?
    && ManifestOk(lib, lib.decode(there.manifest.value).value)
    && SameIdentity(lib.decode(there.manifest.value).value, m)
    && Holds(lib, there.evidence.value, m.files)
  }

  method VerifyImportTree(lib: Library, there: Imported, m: Manifest) returns (ok: bool)
    ensures ok <==> Matches(lib, there, m)
  {
    if there.manifest.None? || there.evidence.None? {
      return false;
    }
    var existing := lib.decode(there.manifest.value);
    if existing.None? {
      return false;
    }
    var valid := ValidateManifest(lib, existing.value);
    if !valid || !SameIdentity(existing.value, m) {
      return false;
    }
    var evidence := there.evidence.value;
    if exists p :: p in evidence && evidence[p].Link? {
      var p :| p in evidence && evidence[p].Link?;
      LinksAreRefused(lib, evidence, m.files, p);
      return false;
    }
    if evidence.Keys != Paths(m.files) {
      return false;
    }
    for k := 0 to |m.files|
      invariant forall i :: 0 <= i < k ==> EntryOk(lib, evidence, m.files[i])
    {
      var item := m.files[k];
      assert item.path in Paths(m.files);
      var data := evidence[item.path].data;
      if |data| != item.size || lib.sha256(data) != item.sha256 {
        return false;
      }
    }
    ok := true;
  }

  lemma LinksAreRefused(lib: Library, evidence: Tree, files: seq<Record>, p: string)
    requires p in evidence && evidence[p].Link?
    ensures !Holds(lib, evidence, files)
  {
  }

  // ------------------------------------------------------------ the import

  /** The outcome of an import: a receipt and the new root, or a refusal. */
  ghost function Outcome(lib: Library, root: Root, archive: Archive): Option<(Receipt, Root)> {
    if archive.link || !(1 <= archive.size <= MAX_ARCHIVE_BYTES) then None
    else
      var found := ManifestIn(lib, archive.members);
      if found.None? || !MembersOk(lib, archive.members, found.value.files) then None
      else
        var m := found.value;
        if KeyOf(m) in root then
          if Matches(lib, root[KeyOf(m)], m) then Some((ReceiptOf(m), root)) else None
        else if ContentsOk(lib, archive.members, m.files) then
          Some((ReceiptOf(m), root[KeyOf(m) := Written(lib, archive.members, m)]))
        else None
  }

  function Written(lib: Library, members: seq<Member>, m: Manifest): Imported {
    Imported(Some(lib.encode(m)), Some(Unpacked(members, m.files)))
  }

  class ImportRoot {
    var imports: Root

    constructor ()
      ensures imports == map[]
    {
      imports := map[];
    }

    /** A refusal changes nothing; an acceptance changes at most the archive's own directory. */
    method ImportNodeExport(lib: Library, archive: Archive) returns (r: Option<Receipt>)
      modifies this
      ensures match Outcome(lib, old(imports), archive)
              case None => r == None && imports == old(imports)
              case Some(done) => r == Some(done.0) && imports == done.1
    {
      if archive.link || !(1 <= archive.size <= MAX_ARCHIVE_BYTES) {
        return None;
      }
      var found := ReadArchiveManifest(lib, archive.members);
      if found.None? {
        return None;
      }
      var m := found.value;
      assert forall k :: 0 <= k < |m.files| ==> RecordOk(lib, m.files[k]);
      var listed := ValidateArchiveMembers(lib, archive.members, m.files);
      if !listed {
        return None;
      }
      var key := KeyOf(m);
      if key in imports {
        var same := VerifyImportTree(lib, imports[key], m);
        return if same then Some(ReceiptOf(m)) else None;
      }
      var evidence := ExtractEvidence(lib, archive.members, m.files);
      if evidence.None? {
        return None;
      }
      imports := imports[key := Imported(Some(lib.encode(m)), Some(evidence.value))];
      r := Some(ReceiptOf(m));
    }
  }
}
