// Exactly which rerun preflights pass: manifest, inventory and publish receipt name the same
// assets, and the build handoff is the published one.
module PreflightContent {
  import opened Common
  import opened Ordering
  import opened ReleaseAssets
  import opened RemoteInventory

  predicate SameAssets(a: seq<Asset>, b: seq<Asset>) {
    (forall x :: x in a ==> x in b) && forall x :: x in b ==> x in a
  }

  predicate NamesDiffer(assets: seq<Asset>) {
    forall i, j :: 0 <= i < j < |assets| ==> assets[i].name != assets[j].name
  }

  lemma NamesDifferExactly(assets: seq<Asset>)
    ensures NamesDiffer(assets) <==> Distinct(AssetNames(assets))
  {
    assert forall i :: 0 <= i < |assets| ==> AssetNames(assets)[i] == assets[i].name;
  }

  // ------------------------------------------------------------ one sorted list for one set of assets

  lemma SameHead(a: seq<Asset>, b: seq<Asset>)
    requires a != [] && b != [] && SortedBy(a, AssetLe) && SortedBy(b, AssetLe) && NamesDiffer(a) && SameAssets(a, b)
    ensures a[0] == b[0]
  {
    StringLeTotalOrder();
    assert a[0] in b && b[0] in a;
    var i :| 0 <= i < |b| && b[i] == a[0];
    var j :| 0 <= j < |a| && a[j] == b[0];
    assert i == 0 || AssetLe(b[0], b[i]);
    assert j == 0 || AssetLe(a[0], a[j]);
  }

  lemma HeadLeavesTail(a: seq<Asset>)
    requires a != [] && NamesDiffer(a)
    ensures NamesDiffer(a[1..]) && forall x :: x in a[1..] <==> x in a && x != a[0]
  {
    assert forall i :: 0 < i < |a| ==> a[i] != a[0] && a[i] == a[1..][i - 1];
  }

  lemma BothEmpty(a: seq<Asset>, b: seq<Asset>)
    requires SameAssets(a, b)
    ensures a == [] <==> b == []
  {
    assert a != [] ==> a[0] in b;
    assert b != [] ==> b[0] in a;
  }

  lemma {:induction false} SortedSame(a: seq<Asset>, b: seq<Asset>)
    requires SortedBy(a, AssetLe) && SortedBy(b, AssetLe) && NamesDiffer(a) && NamesDiffer(b) && SameAssets(a, b)
    ensures a == b
  {
    BothEmpty(a, b);
    if a != [] {
      SameHead(a, b);
      HeadLeavesTail(a);
      HeadLeavesTail(b);
      SortedSame(a[1..], b[1..]);
      assert a == [a[0]] + a[1..] && b == [b[0]] + b[1..];
    }
  }

  /** Sorted by name, two lists with distinct names are equal exactly when they have the same assets. */
  lemma SortedAlike(a: seq<Asset>, b: seq<Asset>)
    requires Distinct(AssetNames(a)) && Distinct(AssetNames(b))
    ensures Sort(a, AssetLe) == Sort(b, AssetLe) <==> SameAssets(a, b)
  {
    SortedAssets(a);
    SortedAssets(b);
    if SameAssets(a, b) {
      AssetLeTotal();
      SortCorrect(a, AssetLe);
      SortCorrect(b, AssetLe);
      NamesDifferExactly(Sort(a, AssetLe));
      NamesDifferExactly(Sort(b, AssetLe));
      SortedSame(Sort(a, AssetLe), Sort(b, AssetLe));
    }
  }

  // ------------------------------------------------------------ the inventory

  predicate UsableInventoryRow(row: InventoryRow) {
    row.id > 0 && SafeString(row.url) && row.createdAt.parses && row.updatedAt.parses
  }

  /** The inventory has one usable row for each asset of the manifest and no other. */
  predicate InventoryFits(rows: seq<InventoryRow>, assets: seq<Asset>) {
    && (forall row :: row in rows ==> UsableInventoryRow(row))
    && (forall i, j :: 0 <= i < j < |rows| ==> rows[i].asset.name != rows[j].asset.name && rows[i].id != rows[j].id)
    && SameAssets(AssetsOf(rows), assets)
  }

  /** The checks of the preflight on the inventory itself. */
  predicate InventoryPasses(rows: seq<InventoryRow>, assets: seq<Asset>) {
    && InventoryRowsOk(rows)
    && ByName(AssetsOf(rows)).Keys == NameSet(assets)
    && forall a :: a in assets ==> Records(ByName(AssetsOf(rows)), a)
  }

  lemma DictionaryRecords(assets: seq<Asset>)
    requires Distinct(AssetNames(assets))
    ensures forall a :: a in assets ==> Records(ByName(assets), a)
  {
    forall a | a in assets ensures Records(ByName(assets), a) {
      var i :| 0 <= i < |assets| && assets[i] == a;
      ByNameAt(assets, i);
    }
  }

  lemma RowsAsAssets(rows: seq<InventoryRow>)
    ensures forall row :: row in rows ==> row.asset in AssetsOf(rows)
    ensures forall i :: 0 <= i < |rows| ==> rows[i] in rows
  {
    forall row | row in rows ensures row.asset in AssetsOf(rows) {
      var i :| 0 <= i < |rows| && rows[i] == row;
      assert AssetsOf(rows)[i] == row.asset;
    }
  }

  lemma PassingFits(rows: seq<InventoryRow>, assets: seq<Asset>)
    requires AssetsOk(assets) && InventoryPasses(rows, assets)
    ensures InventoryFits(rows, assets)
  {
    DistinctRowNames(rows);
    EntriesAgree(assets, ByName(AssetsOf(rows)));
    SameDictionarySameMembers(AssetsOf(rows), assets);
  }

  lemma FittingPasses(rows: seq<InventoryRow>, assets: seq<Asset>)
    requires AssetsOk(assets) && InventoryFits(rows, assets)
    ensures InventoryPasses(rows, assets)
  {
    RowsAsAssets(rows);
    assert forall a :: a in assets ==> AssetOk(a);
    assert InventoryRowsOk(rows);
    DistinctRowNames(rows);
    SameMembersSameDictionary(AssetsOf(rows), assets);
    ByNameKeys(assets);
    DictionaryRecords(assets);
  }

  lemma InventoryPassesExactly(rows: seq<InventoryRow>, assets: seq<Asset>)
    requires AssetsOk(assets)
    ensures InventoryPasses(rows, assets) <==> InventoryFits(rows, assets)
    ensures InventoryFits(rows, assets) ==> ByName(AssetsOf(rows)) == ByName(assets)
  {
    if InventoryPasses(rows, assets) {
      PassingFits(rows, assets);
    }
    if InventoryFits(rows, assets) {
      FittingPasses(rows, assets);
      EntriesAgree(assets, ByName(AssetsOf(rows)));
    }
  }

  // ------------------------------------------------------------ the handoff

  predicate Publishes(assets: seq<Asset>, name: string, sha256: string) {
    exists a :: a in assets && a.name == name && a.sha256 == sha256
  }

  /** The handoff is for this tag and commit; the metadata it names is published with its digest; its
      own file was downloaded and is the published one. */
  predicate HandoffFits(sha: Digest, files: map<string, Bytes>, h: Handoff, tag: string, commit: string, assets: seq<Asset>) {
    && h.schemaVersion == 1 && h.releaseTag == tag && h.sourceCommit == commit
    && Publishes(assets, h.metadataName, h.metadataSha256)
    && "m80-release-build.json" in files
    && exists a :: a in assets && a.name == "m80-release-build.json" &&
                   sha(files[a.name]) == a.sha256 && |files[a.name]| == a.size
  }

  lemma NamedEntry(assets: seq<Asset>, n: string) returns (a: Asset)
    requires Distinct(AssetNames(assets)) && n in ByName(assets)
    ensures a in assets && a.name == n && ByName(assets)[n] == ContentOf(a)
  {
    ByNameKeys(assets);
    var i := NameIndex(assets, n);
    ByNameAt(assets, i);
    a := assets[i];
  }

  lemma HandoffExactly(sha: Digest, files: map<string, Bytes>, h: Handoff, tag: string, commit: string, assets: seq<Asset>)
    requires AssetsOk(assets)
    ensures HandoffOk(sha, files, h, tag, commit, ByName(assets)) <==> HandoffFits(sha, files, h, tag, commit, assets)
  {
    DictionaryRecords(assets);
    assert forall a :: a in assets ==> AssetOk(a);
    if HandoffOk(sha, files, h, tag, commit, ByName(assets)) {
      var a := NamedEntry(assets, h.metadataName);
      var b := NamedEntry(assets, BUILD_HANDOFF_NAME);
    }
  }

  // ------------------------------------------------------------ the receipt

  /** The receipt approved this tag and commit, names the manifest file by digest, and lists the
      manifest's assets, in any order. */
  predicate ReceiptFits(r: Receipt, manifestFile: FileRef, tag: string, commit: string, assets: seq<Asset>) {
    && r.schemaVersion == 4 && r.kind == "m80_release_publish_decision"
    && r.decision == "approved" && r.failureReason.None?
    && r.releaseTag == tag && r.commit == commit
    && r.artifactManifest == manifestFile && manifestFile.name == "m80-release-upload-manifest.json"
    && IsSha256Ref(manifestFile.sha256) && manifestFile.size >= 0
    && r.artifactManifestDigest == manifestFile.sha256
    && IsDistName(r.readinessDecision.name) && IsSha256Ref(r.readinessDecision.sha256) && r.readinessDecision.size >= 0
    && r.readinessDecisionDigest == r.readinessDecision.sha256
    && r.laneIds != [] && "" !in r.laneIds && Distinct(r.laneIds)
    && NamesDiffer(r.publicAssets) && SameAssets(r.publicAssets, assets)
  }

  lemma ManifestNameUsable()
    ensures IsDistName(UPLOAD_MANIFEST_NAME)
  {
  }

  lemma ReceiptExactly(r: Receipt, manifestFile: FileRef, tag: string, commit: string, assets: seq<Asset>)
    requires AssetsOk(assets)
    ensures ReceiptOk(r, manifestFile, tag, commit, assets) <==> ReceiptFits(r, manifestFile, tag, commit, assets)
  {
    ManifestNameUsable();
    NamesDifferExactly(r.publicAssets);
    assert forall a :: a in assets ==> AssetOk(a);
    assert forall i :: 0 <= i < |r.publicAssets| ==> r.publicAssets[i] in r.publicAssets;
    if Distinct(AssetNames(r.publicAssets)) {
      SortedAlike(r.publicAssets, assets);
    }
  }

  // ------------------------------------------------------------ the preflight

  /** The preflight passes exactly when the manifest is good, the inventory and the receipt list its
      assets and no other, and handoff and receipt are those of this tag, commit and manifest. */
  lemma PreflightExactly(sha: Digest, files: map<string, Bytes>, m: Manifest, tag: string, commit: string,
                         manifestFile: FileRef, inv: Inventory, h: Handoff, r: Receipt)
    ensures Preflight(sha, files, m, tag, commit, manifestFile, inv, h, r) <==>
            && |commit| == 40 && (forall c :: c in commit ==> IsLowerHex(c))
            && ManifestOk(m, tag)
            && InventoryFits(inv.rows, m.assets)
            && HandoffFits(sha, files, h, tag, commit, m.assets)
            && ReceiptFits(r, manifestFile, tag, commit, m.assets)
  {
    if ManifestOk(m, tag) {
      InventoryPassesExactly(inv.rows, m.assets);
      HandoffExactly(sha, files, h, tag, commit, m.assets);
      ReceiptExactly(r, manifestFile, tag, commit, m.assets);
      if PreflightBeforeLoop(sha, files, m, tag, commit, manifestFile, inv, h, r) {
        PreflightAgreement(sha, files, m, tag, commit, manifestFile, inv, h, r);
      }
    }
  }
}
