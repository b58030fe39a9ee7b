// The inventory of the bytes GitHub serves for a release, and the checks that
// compare it with the upload manifest, the build handoff and the publish receipt.
module RemoteInventory {
  import opened Common
  import opened Ordering
  import opened ReleaseAssets

  const SCHEMA_VERSION := 1
  const KIND := "m80_release_remote_asset_inventory"
  const BUILD_HANDOFF_NAME := "m80-release-build.json"

  /** An asset as GitHub's release metadata describes it. */
  datatype RemoteRow = RemoteRow(id: int, name: string, size: int, url: string, createdAt: Stamp, updatedAt: Stamp)

  datatype InventoryRow = InventoryRow(id: int, asset: Asset, url: string, createdAt: Stamp, updatedAt: Stamp)

  datatype Inventory = Inventory(
    schemaVersion: int,
    kind: string,
    releaseTag: string,
    releaseId: int,
    generatedAt: Stamp,
    rows: seq<InventoryRow>)

  datatype ReleaseMeta = ReleaseMeta(tag: string, id: int)

  predicate SafeString(s: string) {
    NonBlank(s) && forall i :: 0 <= i < |s| ==> s[i] >= ' ' && s[i] as int != 127
  }

  predicate EndsWith(s: string, suffix: string) {
    |suffix| <= |s| && s[|s| - |suffix|..] == suffix
  }

  predicate DownloadUrlOk(url: string, tag: string, name: string) {
    SafeString(url) && StartsWith(url, "https://") && EndsWith(url, "/releases/download/" + tag + "/" + name)
  }

  predicate RemoteRowOk(r: RemoteRow, tag: string) {
    && IsDistName(r.name)
    && r.id > 0
    && r.size >= 0
    && DownloadUrlOk(r.url, tag, r.name)
    && r.createdAt.parses
    && r.updatedAt.parses
  }

  predicate RemoteRowsOk(rows: seq<RemoteRow>, tag: string) {
    && (forall i :: 0 <= i < |rows| ==> RemoteRowOk(rows[i], tag))
    && NamesAndIdsDistinct(rows)
  }

  function RemoteByName(rows: seq<RemoteRow>): map<string, RemoteRow> {
    if rows == [] then map[]
    else RemoteByName(rows[..|rows| - 1])[rows[|rows| - 1].name := rows[|rows| - 1]]
  }

  lemma {:induction false} RemoteByNameEntries(rows: seq<RemoteRow>)
    ensures forall n :: n in RemoteByName(rows) ==> RemoteByName(rows)[n] in rows && RemoteByName(rows)[n].name == n
    ensures forall i :: 0 <= i < |rows| ==> rows[i].name in RemoteByName(rows)
  {
    if rows != [] {
      RemoteByNameEntries(rows[..|rows| - 1]);
    }
  }

  function RowNames(rows: seq<RemoteRow>): (names: seq<string>)
    ensures |names| == |rows|
    ensures forall i :: 0 <= i < |rows| ==> names[i] == rows[i].name
  {
    Project(rows, (r: RemoteRow) => r.name)
  }

  function RowIds(rows: seq<RemoteRow>): (ids: seq<int>)
    ensures |ids| == |rows|
    ensures forall i :: 0 <= i < |rows| ==> ids[i] == rows[i].id
  {
    Project(rows, (r: RemoteRow) => r.id)
  }

  predicate NamesAndIdsDistinct(rows: seq<RemoteRow>) {
    Distinct(RowNames(rows)) && Distinct(RowIds(rows))
  }

  lemma {:induction false} RemoteByNameKeys(rows: seq<RemoteRow>)
    ensures forall n :: n in RemoteByName(rows) <==> n in RowNames(rows)
  {
    if rows != [] {
      var front := rows[..|rows| - 1];
      RemoteByNameKeys(front);
      assert RowNames(rows) == RowNames(front) + [rows[|rows| - 1].name];
    }
  }

  lemma DistinctRowsSnoc(rows: seq<RemoteRow>, r: RemoteRow)
    ensures NamesAndIdsDistinct(rows + [r]) <==>
              NamesAndIdsDistinct(rows) && r.name !in RowNames(rows) && r.id !in RowIds(rows)
  {
    assert RowNames(rows + [r]) == RowNames(rows) + [r.name];
    assert RowIds(rows + [r]) == RowIds(rows) + [r.id];
    DistinctSnoc(RowNames(rows), r.name);
    DistinctSnoc(RowIds(rows), r.id);
  }

  predicate RowsPass(rows: seq<RemoteRow>, rowOk: RemoteRow -> bool) {
    (forall r :: r in rows ==> rowOk(r)) && NamesAndIdsDistinct(rows)
  }

  lemma RowsPassSnoc(rows: seq<RemoteRow>, r: RemoteRow, rowOk: RemoteRow -> bool)
    ensures RowsPass(rows + [r], rowOk) <==>
              RowsPass(rows, rowOk) && rowOk(r) && r.name !in RowNames(rows) && r.id !in RowIds(rows)
  {
    DistinctRowsSnoc(rows, r);
    assert forall x :: x in rows + [r] <==> x in rows || x == r;
  }

  lemma {:induction false} RowsPassPrefix(rows: seq<RemoteRow>, n: nat, rowOk: RemoteRow -> bool)
    requires n <= |rows| && RowsPass(rows, rowOk)
    ensures RowsPass(rows[..n], rowOk)
    decreases |rows|
  {
    if n < |rows| {
      var front := rows[..|rows| - 1];
      assert rows == front + [rows[|rows| - 1]];
      RowsPassSnoc(front, rows[|rows| - 1], rowOk);
      RowsPassPrefix(front, n, rowOk);
      assert rows[..n] == front[..n];
    } else {
      assert rows[..n] == rows;
    }
  }

  /** The loop of `remote_assets_by_name`: the dictionary and the set of ids under
      construction detect duplicates. The checks on one row come in as `rowOk`. */
  method IndexRows(rows: seq<RemoteRow>, rowOk: RemoteRow -> bool) returns (result: Option<map<string, RemoteRow>>)
    ensures result == if RowsPass(rows, rowOk) then Some(RemoteByName(rows)) else None
  {
    var byName: map<string, RemoteRow> := map[];
    var ids: set<int> := {};
    for n := 0 to |rows|
      invariant byName == RemoteByName(rows[..n])
      invariant forall x :: x in ids <==> x in RowIds(rows[..n])
      invariant RowsPass(rows[..n], rowOk)
    {
      var row := rows[n];
      assert rows[..n + 1] == rows[..n] + [row] && rows[..n + 1][..n] == rows[..n];
      assert RowIds(rows[..n + 1]) == RowIds(rows[..n]) + [row.id];
      RemoteByNameKeys(rows[..n]);
      RowsPassSnoc(rows[..n], row, rowOk);
      if !rowOk(row) || row.name in byName || row.id in ids {
        if RowsPass(rows, rowOk) {
          RowsPassPrefix(rows, n + 1, rowOk);
        }
        return None;
      }
      byName := byName[row.name := row];
      ids := ids + {row.id};
    }
    assert rows[..|rows|] == rows;
    result := Some(byName);
  }

  /** `remote_assets_by_name` */
  method RemoteAssetsByName(rows: seq<RemoteRow>, tag: string) returns (result: Option<map<string, RemoteRow>>)
    ensures result == if RemoteRowsOk(rows, tag) then Some(RemoteByName(rows)) else None
  {
    result := IndexRows(rows, r => RemoteRowOk(r, tag));
    assert (forall r :: r in rows ==> RemoteRowOk(r, tag)) <==>
           (forall i :: 0 <= i < |rows| ==> RemoteRowOk(rows[i], tag));
  }

  // ------------------------------------------------------------ building

  /** The downloaded bytes and GitHub's own size agree with the manifest row. */
  predicate BytesMatch(sha: Digest, files: map<string, Bytes>, a: Asset, remote: RemoteRow) {
    && a.name in files
    && |files[a.name]| == a.size
    && remote.size == a.size
    && sha(files[a.name]) == a.sha256
  }

  function RowFor(a: Asset, remote: RemoteRow): InventoryRow {
    InventoryRow(remote.id, a, remote.url, remote.createdAt, remote.updatedAt)
  }

  predicate Buildable(sha: Digest, files: map<string, Bytes>, m: Manifest, tag: string, meta: ReleaseMeta, remote: seq<RemoteRow>)
  {
    && ManifestOk(m, tag)
    && meta.tag == tag
    && meta.id > 0
    && RemoteRowsOk(remote, tag)
    && RemoteByName(remote).Keys == NameSet(m.assets)
    && forall i :: 0 <= i < |m.assets| ==>
         m.assets[i].name in RemoteByName(remote) &&
         BytesMatch(sha, files, m.assets[i], RemoteByName(remote)[m.assets[i].name])
  }

  function RowsFor(assets: seq<Asset>, byName: map<string, RemoteRow>): (rows: seq<InventoryRow>)
    requires forall i :: 0 <= i < |assets| ==> assets[i].name in byName
    ensures |rows| == |assets|
    ensures forall i :: 0 <= i < |assets| ==> rows[i] == RowFor(assets[i], byName[assets[i].name])
  {
    seq(|assets|, i requires 0 <= i < |assets| => RowFor(assets[i], byName[assets[i].name]))
  }

  lemma SortedNamesKnown(m: Manifest, byName: map<string, RemoteRow>)
    requires byName.Keys == NameSet(m.assets) && Distinct(AssetNames(m.assets))
    ensures forall i :: 0 <= i < |Sort(m.assets, AssetLe)| ==> Sort(m.assets, AssetLe)[i].name in byName
  {
    SortedAssets(m.assets);
    var sorted := Sort(m.assets, AssetLe);
    forall i | 0 <= i < |sorted| ensures sorted[i].name in byName {
      assert sorted[i] in m.assets;
      var j :| 0 <= j < |m.assets| && m.assets[j] == sorted[i];
      assert AssetNames(m.assets)[j] in NameSet(m.assets);
    }
  }

  /** `build_inventory` */
  function BuildInventory(sha: Digest, files: map<string, Bytes>, m: Manifest, tag: string, meta: ReleaseMeta,
                          remote: seq<RemoteRow>, generatedAt: Stamp): Option<Inventory>
  {
    if !Buildable(sha, files, m, tag, meta, remote) then None
    else
      SortedNamesKnown(m, RemoteByName(remote));
      Some(Inventory(SCHEMA_VERSION, KIND, tag, meta.id, generatedAt,
                     RowsFor(Sort(m.assets, AssetLe), RemoteByName(remote))))
  }

  function AssetsOf(rows: seq<InventoryRow>): (assets: seq<Asset>)
    ensures |assets| == |rows|
    ensures forall i :: 0 <= i < |rows| ==> assets[i] == rows[i].asset
  {
    Project(rows, (r: InventoryRow) => r.asset)
  }

  /** The rows of a built inventory are the manifest's assets in name order. */
  lemma BuiltRows(sha: Digest, files: map<string, Bytes>, m: Manifest, tag: string, meta: ReleaseMeta,
                  remote: seq<RemoteRow>, generatedAt: Stamp)
    requires Buildable(sha, files, m, tag, meta, remote)
    ensures AssetsOf(BuildInventory(sha, files, m, tag, meta, remote, generatedAt).value.rows) == Sort(m.assets, AssetLe)
    ensures ByName(AssetsOf(BuildInventory(sha, files, m, tag, meta, remote, generatedAt).value.rows)) == ByName(m.assets)
  {
    SortedAssets(m.assets);
    SameMembersSameDictionary(Sort(m.assets, AssetLe), m.assets);
  }

  // ------------------------------------------------------------ verifying

  predicate InventoryRowOk(r: InventoryRow) {
    && AssetOk(r.asset)
    && r.id > 0
    && SafeString(r.url)
    && r.createdAt.parses
    && r.updatedAt.parses
  }

  /** `normalized_inventory_assets` raises nothing */
  predicate InventoryRowsOk(rows: seq<InventoryRow>) {
    && (forall i :: 0 <= i < |rows| ==> InventoryRowOk(rows[i]))
    && (forall i, j :: 0 <= i < j < |rows| ==> rows[i].asset.name != rows[j].asset.name && rows[i].id != rows[j].id)
  }

  predicate InventoryRowLe(a: InventoryRow, b: InventoryRow) {
    AssetLe(a.asset, b.asset)
  }

  datatype Identity = Identity(id: int, asset: Asset, url: string)

  function Identities(rows: seq<InventoryRow>): (ids: seq<Identity>)
    ensures |ids| == |rows|
    ensures forall i :: 0 <= i < |rows| ==> ids[i] == Identity(rows[i].id, rows[i].asset, rows[i].url)
  {
    Project(rows, (r: InventoryRow) => Identity(r.id, r.asset, r.url))
  }

  /** `asset_identity_rows`: timestamps are left out of the comparison. */
  function IdentityRows(rows: seq<InventoryRow>): seq<Identity> {
    Identities(Sort(rows, InventoryRowLe))
  }

  /** `verify_inventory` */
  predicate VerifyInventory(sha: Digest, files: map<string, Bytes>, m: Manifest, tag: string, meta: ReleaseMeta,
                            remote: seq<RemoteRow>, inv: Inventory)
  {
    && inv.schemaVersion == SCHEMA_VERSION
    && inv.kind == KIND
    && inv.releaseTag == tag
    && inv.generatedAt.parses
    && var expected := BuildInventory(sha, files, m, tag, meta, remote, inv.generatedAt);
    && expected.Some?
    && inv.releaseId == expected.value.releaseId
    && InventoryRowsOk(inv.rows)
    && InventoryRowsOk(expected.value.rows)
    && IdentityRows(inv.rows) == IdentityRows(expected.value.rows)
  }

  lemma BuiltRowsOk(sha: Digest, files: map<string, Bytes>, m: Manifest, tag: string, meta: ReleaseMeta,
                    remote: seq<RemoteRow>, generatedAt: Stamp)
    requires Buildable(sha, files, m, tag, meta, remote)
    ensures InventoryRowsOk(BuildInventory(sha, files, m, tag, meta, remote, generatedAt).value.rows)
  {
    var sorted, byName := Sort(m.assets, AssetLe), RemoteByName(remote);
    var rows := BuildInventory(sha, files, m, tag, meta, remote, generatedAt).value.rows;
    SortedAssets(m.assets);
    RemoteByNameEntries(remote);
    SortedNamesKnown(m, byName);
    forall i | 0 <= i < |rows| ensures InventoryRowOk(rows[i]) {
      assert sorted[i] in m.assets;
      assert byName[sorted[i].name] in remote;
      var k :| 0 <= k < |remote| && remote[k] == byName[sorted[i].name];
      assert RemoteRowOk(remote[k], tag);
    }
    forall i, j | 0 <= i < j < |rows|
      ensures rows[i].asset.name != rows[j].asset.name && rows[i].id != rows[j].id
    {
      assert AssetNames(sorted)[i] != AssetNames(sorted)[j];
      RemoteIdsDiffer(remote, tag, sorted[i].name, sorted[j].name);
    }
  }

  lemma RemoteIdsDiffer(remote: seq<RemoteRow>, tag: string, a: string, b: string)
    requires RemoteRowsOk(remote, tag) && a != b
    requires a in RemoteByName(remote) && b in RemoteByName(remote)
    ensures RemoteByName(remote)[a].id != RemoteByName(remote)[b].id
  {
    RemoteByNameEntries(remote);
    var i :| 0 <= i < |remote| && remote[i] == RemoteByName(remote)[a];
    var j :| 0 <= j < |remote| && remote[j] == RemoteByName(remote)[b];
    assert i != j;
    assert RowIds(remote)[i] != RowIds(remote)[j];
  }

  /** What `build_inventory` writes, `verify_inventory` accepts when the timestamp parses. */
  lemma BuiltInventoryVerifies(sha: Digest, files: map<string, Bytes>, m: Manifest, tag: string, meta: ReleaseMeta,
                               remote: seq<RemoteRow>, generatedAt: Stamp)
    requires Buildable(sha, files, m, tag, meta, remote)
    ensures var inv := BuildInventory(sha, files, m, tag, meta, remote, generatedAt).value;
            VerifyInventory(sha, files, m, tag, meta, remote, inv) <==> generatedAt.parses
  {
    BuiltRowsOk(sha, files, m, tag, meta, remote, generatedAt);
  }

  lemma InventoryRowLeTotal()
    ensures TotalPreorder(InventoryRowLe)
  {
    AssetLeTotal();
    forall a: InventoryRow, b: InventoryRow ensures InventoryRowLe(a, b) || InventoryRowLe(b, a) {
      assert AssetLe(a.asset, b.asset) || AssetLe(b.asset, a.asset);
    }
    forall a: InventoryRow, b: InventoryRow, c: InventoryRow | InventoryRowLe(a, b) && InventoryRowLe(b, c)
      ensures InventoryRowLe(a, c)
    {
      assert AssetLe(a.asset, b.asset) && AssetLe(b.asset, c.asset);
    }
  }

  /** Equal identity rows come from row lists with the same assets. */
  lemma IdentityRowsGiveAssets(a: seq<InventoryRow>, b: seq<InventoryRow>)
    requires IdentityRows(a) == IdentityRows(b)
    ensures forall x :: x in AssetsOf(a) ==> x in AssetsOf(b)
  {
    InventoryRowLeTotal();
    SortCorrect(a, InventoryRowLe);
    SortCorrect(b, InventoryRowLe);
    var sa, sb := Sort(a, InventoryRowLe), Sort(b, InventoryRowLe);
    forall x | x in AssetsOf(a) ensures x in AssetsOf(b) {
      var i :| 0 <= i < |a| && AssetsOf(a)[i] == x;
      assert a[i] in sa;
      var k :| 0 <= k < |sa| && sa[k] == a[i];
      assert Identities(sa)[k] == Identities(sb)[k];
      assert sb[k] in b;
      var j :| 0 <= j < |b| && b[j] == sb[k];
      assert AssetsOf(b)[j] == x;
    }
  }

  /** A verified inventory lists exactly the manifest's assets, and the bytes GitHub
      served carry the digest and the size the manifest states. */
  lemma VerifiedInventoryPinsBytes(sha: Digest, files: map<string, Bytes>, m: Manifest, tag: string, meta: ReleaseMeta,
                                   remote: seq<RemoteRow>, inv: Inventory)
    requires VerifyInventory(sha, files, m, tag, meta, remote, inv)
    ensures ByName(AssetsOf(inv.rows)) == ByName(m.assets)
    ensures forall i :: 0 <= i < |m.assets| ==>
              && m.assets[i].name in files
              && sha(files[m.assets[i].name]) == m.assets[i].sha256
              && |files[m.assets[i].name]| == m.assets[i].size
  {
    var expected := BuildInventory(sha, files, m, tag, meta, remote, inv.generatedAt).value;
    BuiltRows(sha, files, m, tag, meta, remote, inv.generatedAt);
    SortedAssets(m.assets);
    IdentityRowsGiveAssets(inv.rows, expected.rows);
    IdentityRowsGiveAssets(expected.rows, inv.rows);
    DistinctRowNames(inv.rows);
    SameMembersSameDictionary(AssetsOf(inv.rows), m.assets);
  }

  lemma DistinctRowNames(rows: seq<InventoryRow>)
    requires InventoryRowsOk(rows)
    ensures Distinct(AssetNames(AssetsOf(rows)))
  {
  }

  // ------------------------------------------------------------ rerun preflight

  datatype FileRef = FileRef(name: string, sha256: string, size: int)

  datatype Handoff = Handoff(schemaVersion: int, releaseTag: string, sourceCommit: string,
                             metadataName: string, metadataSha256: string)

  datatype Receipt = Receipt(
    schemaVersion: int,
    kind: string,
    decision: string,
    failureReason: Option<string>,
    releaseTag: string,
    commit: string,
    artifactManifest: FileRef,
    artifactManifestDigest: string,
    readinessDecision: FileRef,
    readinessDecisionDigest: string,
    laneIds: seq<string>,
    publicAssets: seq<Asset>)

  predicate IsCommit(s: string) {
    |s| == 40 && forall i :: 0 <= i < |s| ==> IsLowerHex(s[i])
  }

  predicate FileRefShape(f: FileRef) {
    IsDistName(f.name) && IsSha256Ref(f.sha256) && f.size >= 0
  }

  predicate HandoffOk(sha: Digest, files: map<string, Bytes>, h: Handoff, tag: string, commit: string,
                      inventory: map<string, Content>)
  {
    && h.schemaVersion == 1
    && h.releaseTag == tag
    && h.sourceCommit == commit
    && IsDistName(h.metadataName)
    && IsSha256Hex(h.metadataSha256)
    && h.metadataName in inventory
    && inventory[h.metadataName].sha256 == h.metadataSha256
    && BUILD_HANDOFF_NAME in inventory
    && BUILD_HANDOFF_NAME in files
    && |files[BUILD_HANDOFF_NAME]| == inventory[BUILD_HANDOFF_NAME].size
    && sha(files[BUILD_HANDOFF_NAME]) == inventory[BUILD_HANDOFF_NAME].sha256
  }

  /** `verify_publish_receipt` up to, but without, its closing loop. */
  predicate ReceiptOk(r: Receipt, manifestFile: FileRef, tag: string, commit: string, assets: seq<Asset>) {
    && r.schemaVersion == 4
    && r.kind == "m80_release_publish_decision"
    && r.decision == "approved"
    && r.failureReason.None?
    && r.releaseTag == tag
    && r.commit == commit
    && FileRefShape(r.artifactManifest)
    && r.artifactManifest.name == UPLOAD_MANIFEST_NAME
    && r.artifactManifest == manifestFile
    && r.artifactManifestDigest == manifestFile.sha256
    && FileRefShape(r.readinessDecision)
    && r.readinessDecisionDigest == r.readinessDecision.sha256
    && r.laneIds != []
    && (forall i :: 0 <= i < |r.laneIds| ==> r.laneIds[i] != "")
    && Distinct(r.laneIds)
    && AssetsOk(r.publicAssets)
    && Sort(r.publicAssets, AssetLe) == Sort(assets, AssetLe)
  }

  predicate Records(d: map<string, Content>, a: Asset) {
    a.name in d && d[a.name] == ContentOf(a)
  }

  /** The closing loop: every receipt asset against the inventory, field by field. */
  predicate ReceiptMatchesInventory(r: Receipt, inventory: map<string, Content>) {
    forall a :: a in r.publicAssets ==> Records(inventory, a)
  }

  /** `verify_rerun_preflight` up to, but without, the closing loop of the receipt check. */
  predicate PreflightBeforeLoop(sha: Digest, files: map<string, Bytes>, m: Manifest, tag: string, commit: string,
                                manifestFile: FileRef, inv: Inventory, h: Handoff, r: Receipt)
  {
    && IsCommit(commit)
    && ManifestOk(m, tag)
    && InventoryRowsOk(inv.rows)
    && var inventory := ByName(AssetsOf(inv.rows));
    && inventory.Keys == NameSet(m.assets)
    && (forall a :: a in m.assets ==> Records(inventory, a))
    && HandoffOk(sha, files, h, tag, commit, inventory)
    && ReceiptOk(r, manifestFile, tag, commit, m.assets)
  }

  predicate Preflight(sha: Digest, files: map<string, Bytes>, m: Manifest, tag: string, commit: string,
                      manifestFile: FileRef, inv: Inventory, h: Handoff, r: Receipt)
  {
    && PreflightBeforeLoop(sha, files, m, tag, commit, manifestFile, inv, h, r)
    && ReceiptMatchesInventory(r, ByName(AssetsOf(inv.rows)))
  }

  lemma EntryAgrees(assets: seq<Asset>, d: map<string, Content>, n: string)
    requires Distinct(AssetNames(assets)) && n in NameSet(assets) && n in d
    requires forall a :: a in assets ==> Records(d, a)
    ensures n in ByName(assets) && d[n] == ByName(assets)[n]
  {
    var i := NameIndex(assets, n);
    ByNameAt(assets, i);
    assert assets[i] in assets;
    assert Records(d, assets[i]);
  }

  lemma EntriesAgree(assets: seq<Asset>, d: map<string, Content>)
    requires Distinct(AssetNames(assets)) && d.Keys == NameSet(assets)
    requires forall a :: a in assets ==> Records(d, a)
    ensures d == ByName(assets)
  {
    ByNameKeys(assets);
    forall n | n in d ensures n in ByName(assets) && d[n] == ByName(assets)[n] {
      EntryAgrees(assets, d, n);
    }
  }

  /** A passed preflight makes manifest, inventory and receipt agree pairwise, and its
      closing loop can never be the check that fails. */
  lemma PreflightAgreement(sha: Digest, files: map<string, Bytes>, m: Manifest, tag: string, commit: string,
                           manifestFile: FileRef, inv: Inventory, h: Handoff, r: Receipt)
    requires PreflightBeforeLoop(sha, files, m, tag, commit, manifestFile, inv, h, r)
    ensures Preflight(sha, files, m, tag, commit, manifestFile, inv, h, r)
    ensures ByName(AssetsOf(inv.rows)) == ByName(m.assets)
    ensures ByName(r.publicAssets) == ByName(m.assets)
  {
    SortedAssets(m.assets);
    SortedAssets(r.publicAssets);
    SameMembersSameDictionary(r.publicAssets, m.assets);
    EntriesAgree(m.assets, ByName(AssetsOf(inv.rows)));
    forall a | a in r.publicAssets ensures Records(ByName(m.assets), a) {
      var i :| 0 <= i < |r.publicAssets| && r.publicAssets[i] == a;
      ByNameAt(r.publicAssets, i);
    }
  }
}
