// What an inventory of a release says, when one can be made, and what its verification
// establishes, row by row.
module InventoryContent {
  import opened Common
  import opened Ordering
  import opened ReleaseAssets
  import opened RemoteInventory

  /** A row of GitHub's list that can be used for this tag. */
  predicate UsableRow(r: RemoteRow, tag: string) {
    && IsDistName(r.name)
    && r.id > 0
    && r.size >= 0
    && SafeString(r.url)
    && StartsWith(r.url, "https://") && EndsWith(r.url, "/releases/download/" + tag + "/" + r.name)
    && r.createdAt.parses && r.updatedAt.parses
  }

  /** No two rows share a name or an id. */
  predicate RowsDiffer(rows: seq<RemoteRow>) {
    forall i, j :: 0 <= i < j < |rows| ==> rows[i].name != rows[j].name && rows[i].id != rows[j].id
  }

  lemma RowsUsableExactly(rows: seq<RemoteRow>, tag: string)
    ensures RemoteRowsOk(rows, tag) <==> (forall r :: r in rows ==> UsableRow(r, tag)) && RowsDiffer(rows)
  {
    assert forall i :: 0 <= i < |rows| ==> RowNames(rows)[i] == rows[i].name && RowIds(rows)[i] == rows[i].id;
    assert forall i :: 0 <= i < |rows| ==> rows[i] in rows;
    assert forall r :: r in rows ==> (RemoteRowOk(r, tag) <==> UsableRow(r, tag));
  }

  /** The row listed under a name, when no name repeats. */
  lemma RowUnder(rows: seq<RemoteRow>, r: RemoteRow)
    requires RowsDiffer(rows) && r in rows
    ensures r.name in RemoteByName(rows) && RemoteByName(rows)[r.name] == r
  {
    RemoteByNameEntries(rows);
    var i :| 0 <= i < |rows| && rows[i] == r;
    assert rows[i].name in RemoteByName(rows);
    var other := RemoteByName(rows)[r.name];
    var j :| 0 <= j < |rows| && rows[j] == other;
  }

  predicate Listed(rows: seq<RemoteRow>, name: string) {
    exists r :: r in rows && r.name == name
  }

  predicate InManifest(m: Manifest, name: string) {
    exists a :: a in m.assets && a.name == name
  }

  lemma ListedExactly(rows: seq<RemoteRow>, name: string)
    ensures name in RemoteByName(rows) <==> Listed(rows, name)
  {
    RemoteByNameEntries(rows);
    if r :| r in rows && r.name == name {
      var i :| 0 <= i < |rows| && rows[i] == r;
    }
  }

  lemma InManifestExactly(m: Manifest, name: string)
    ensures name in NameSet(m.assets) <==> InManifest(m, name)
  {
    if name in NameSet(m.assets) {
      var i := NameIndex(m.assets, name);
      assert m.assets[i] in m.assets;
    }
    if a :| a in m.assets && a.name == name {
      var i :| 0 <= i < |m.assets| && m.assets[i] == a;
      assert AssetNames(m.assets)[i] == name;
    }
  }

  lemma SameNames(m: Manifest, remote: seq<RemoteRow>)
    ensures RemoteByName(remote).Keys == NameSet(m.assets) <==> forall n :: Listed(remote, n) <==> InManifest(m, n)
  {
    forall n
      ensures n in RemoteByName(remote) <==> Listed(remote, n)
      ensures n in NameSet(m.assets) <==> InManifest(m, n)
    {
      ListedExactly(remote, n);
      InManifestExactly(m, n);
    }
    if forall n :: Listed(remote, n) <==> InManifest(m, n) {
      assert forall n :: n in RemoteByName(remote).Keys <==> n in NameSet(m.assets);
    }
  }

  /** The downloaded file and GitHub's row of the same name both agree with the asset. */
  predicate Backed(sha: Digest, files: map<string, Bytes>, a: Asset, remote: seq<RemoteRow>) {
    && a.name in files
    && sha(files[a.name]) == a.sha256
    && |files[a.name]| == a.size
    && forall r :: r in remote && r.name == a.name ==> r.size == a.size
  }

  lemma BackedExactly(sha: Digest, files: map<string, Bytes>, a: Asset, remote: seq<RemoteRow>)
    requires RowsDiffer(remote) && Listed(remote, a.name)
    ensures a.name in RemoteByName(remote)
    ensures BytesMatch(sha, files, a, RemoteByName(remote)[a.name]) <==> Backed(sha, files, a, remote)
  {
    var r :| r in remote && r.name == a.name;
    RowUnder(remote, r);
    forall x | x in remote && x.name == a.name ensures x == r {
      RowUnder(remote, x);
    }
  }

  predicate RemoteFits(remote: seq<RemoteRow>, m: Manifest, tag: string) {
    && (forall r :: r in remote ==> UsableRow(r, tag))
    && RowsDiffer(remote)
    && (forall a :: a in m.assets ==> Listed(remote, a.name))
    && (forall r :: r in remote ==> InManifest(m, r.name))
  }

  lemma RemoteFitsExactly(remote: seq<RemoteRow>, m: Manifest, tag: string)
    ensures RemoteFits(remote, m, tag) <==> RemoteRowsOk(remote, tag) && RemoteByName(remote).Keys == NameSet(m.assets)
  {
    RowsUsableExactly(remote, tag);
    SameNames(m, remote);
    if forall n :: Listed(remote, n) <==> InManifest(m, n) {
      forall a | a in m.assets ensures Listed(remote, a.name) {
        assert InManifest(m, a.name);
      }
      forall r | r in remote ensures InManifest(m, r.name) {
        assert Listed(remote, r.name);
      }
    }
  }

  /** An inventory is made exactly when the manifest and the release are for this tag, GitHub's rows
      are usable and differ, they have exactly the manifest's names, and the file and the row of each
      asset agree with it. */
  lemma MadeExactly(sha: Digest, files: map<string, Bytes>, m: Manifest, tag: string, meta: ReleaseMeta,
                    remote: seq<RemoteRow>, generatedAt: Stamp)
    ensures BuildInventory(sha, files, m, tag, meta, remote, generatedAt).Some? <==>
            && ManifestOk(m, tag)
            && meta.tag == tag && meta.id > 0
            && RemoteFits(remote, m, tag)
            && (forall a :: a in m.assets ==> Backed(sha, files, a, remote))
  {
    RemoteFitsExactly(remote, m, tag);
    if RemoteFits(remote, m, tag) {
      AllBackedExactly(sha, files, m, remote);
    }
  }

  lemma AllBackedExactly(sha: Digest, files: map<string, Bytes>, m: Manifest, remote: seq<RemoteRow>)
    requires RowsDiffer(remote) && forall a :: a in m.assets ==> Listed(remote, a.name)
    ensures (forall i :: 0 <= i < |m.assets| ==>
               m.assets[i].name in RemoteByName(remote) &&
               BytesMatch(sha, files, m.assets[i], RemoteByName(remote)[m.assets[i].name])) <==>
            forall a :: a in m.assets ==> Backed(sha, files, a, remote)
  {
    forall i | 0 <= i < |m.assets|
      ensures m.assets[i] in m.assets && m.assets[i].name in RemoteByName(remote)
      ensures BytesMatch(sha, files, m.assets[i], RemoteByName(remote)[m.assets[i].name]) <==> Backed(sha, files, m.assets[i], remote)
    {
      assert m.assets[i] in m.assets;
      BackedExactly(sha, files, m.assets[i], remote);
    }
  }

  /** The row repeats GitHub's row of its asset's name. */
  predicate RowRepeats(row: InventoryRow, remote: seq<RemoteRow>) {
    exists r :: r in remote && r.name == row.asset.name && row.id == r.id && row.url == r.url &&
                row.createdAt == r.createdAt && row.updatedAt == r.updatedAt
  }

  lemma MadeRows(sha: Digest, files: map<string, Bytes>, m: Manifest, tag: string, meta: ReleaseMeta,
                 remote: seq<RemoteRow>, generatedAt: Stamp, inv: Inventory)
    requires BuildInventory(sha, files, m, tag, meta, remote, generatedAt) == Some(inv)
    ensures inv.schemaVersion == 1 && inv.kind == "m80_release_remote_asset_inventory"
    ensures inv.releaseTag == tag && inv.releaseId == meta.id && inv.generatedAt == generatedAt
    ensures AssetsOf(inv.rows) == Sort(m.assets, AssetLe)
    ensures forall i :: 0 <= i < |inv.rows| ==> RowRepeats(inv.rows[i], remote)
  {
    var sorted := Sort(m.assets, AssetLe);
    BuiltRows(sha, files, m, tag, meta, remote, generatedAt);
    SortedNamesKnown(m, RemoteByName(remote));
    RemoteByNameEntries(remote);
    forall i | 0 <= i < |inv.rows| ensures RowRepeats(inv.rows[i], remote) {
      assert inv.rows[i].asset == AssetsOf(inv.rows)[i] == sorted[i];
      var r := RemoteByName(remote)[sorted[i].name];
      assert r in remote && r.name == sorted[i].name;
    }
  }

  lemma NameOrder(assets: seq<Asset>, i: nat, j: nat)
    requires i < j < |Sort(assets, AssetLe)|
    ensures StringLe(Sort(assets, AssetLe)[i].name, Sort(assets, AssetLe)[j].name)
  {
    AssetLeTotal();
    SortCorrect(assets, AssetLe);
    assert AssetLe(Sort(assets, AssetLe)[i], Sort(assets, AssetLe)[j]);
  }

  /** What a made inventory says: what it was asked for, and the manifest's assets in name order, each
      with GitHub's id, address and timestamps for that name. */
  lemma MadeSays(sha: Digest, files: map<string, Bytes>, m: Manifest, tag: string, meta: ReleaseMeta,
                 remote: seq<RemoteRow>, generatedAt: Stamp, inv: Inventory)
    requires BuildInventory(sha, files, m, tag, meta, remote, generatedAt) == Some(inv)
    ensures inv.schemaVersion == 1 && inv.kind == "m80_release_remote_asset_inventory"
    ensures inv.releaseTag == tag && inv.releaseId == meta.id && inv.generatedAt == generatedAt
    ensures |inv.rows| == |m.assets|
    ensures forall a :: a in m.assets <==> a in AssetsOf(inv.rows)
    ensures forall i :: 0 <= i < |inv.rows| ==> RowRepeats(inv.rows[i], remote)
    ensures forall i, j :: 0 <= i < j < |inv.rows| ==> StringLe(inv.rows[i].asset.name, inv.rows[j].asset.name)
  {
    MadeRows(sha, files, m, tag, meta, remote, generatedAt, inv);
    SortedAssets(m.assets);
    forall i, j | 0 <= i < j < |inv.rows| ensures StringLe(inv.rows[i].asset.name, inv.rows[j].asset.name) {
      NameOrder(m.assets, i, j);
      assert AssetsOf(inv.rows)[i] == inv.rows[i].asset && AssetsOf(inv.rows)[j] == inv.rows[j].asset;
    }
  }

  // ------------------------------------------------------------ verification

  /** Equal identity rows come from row lists with the same ids, assets and addresses. */
  lemma SameIdentities(a: seq<InventoryRow>, b: seq<InventoryRow>, row: InventoryRow)
    requires IdentityRows(a) == IdentityRows(b) && row in a
    ensures exists other :: other in b && other.id == row.id && other.asset == row.asset && other.url == row.url
  {
    InventoryRowLeTotal();
    SortCorrect(a, InventoryRowLe);
    SortCorrect(b, InventoryRowLe);
    var sa, sb := Sort(a, InventoryRowLe), Sort(b, InventoryRowLe);
    var k :| 0 <= k < |sa| && sa[k] == row;
    assert Identities(sa)[k] == Identities(sb)[k];
    assert sb[k] in b;
  }

  /** A verified inventory is for this tag and this release, and each of its rows has the id and the
      address of GitHub's row of that name. */
  lemma VerifiedSays(sha: Digest, files: map<string, Bytes>, m: Manifest, tag: string, meta: ReleaseMeta,
                     remote: seq<RemoteRow>, inv: Inventory)
    requires VerifyInventory(sha, files, m, tag, meta, remote, inv)
    ensures inv.schemaVersion == 1 && inv.kind == "m80_release_remote_asset_inventory"
    ensures inv.releaseTag == tag && inv.releaseId == meta.id && inv.generatedAt.parses
    ensures forall row :: row in inv.rows ==>
              row.asset in m.assets &&
              exists r :: r in remote && r.name == row.asset.name && row.id == r.id && row.url == r.url
  {
    var made := BuildInventory(sha, files, m, tag, meta, remote, inv.generatedAt).value;
    MadeSays(sha, files, m, tag, meta, remote, inv.generatedAt, made);
    forall row | row in inv.rows
      ensures row.asset in m.assets
      ensures exists r :: r in remote && r.name == row.asset.name && row.id == r.id && row.url == r.url
    {
      SameIdentities(inv.rows, made.rows, row);
      var other :| other in made.rows && other.id == row.id && other.asset == row.asset && other.url == row.url;
      var i :| 0 <= i < |made.rows| && made.rows[i] == other;
      assert AssetsOf(made.rows)[i] == other.asset && RowRepeats(made.rows[i], remote);
    }
  }
}
