// Exactly which inventories verify, in whatever order they list their rows.
module InventoryVerdict {
  import opened Common
  import opened Ordering
  import opened ReleaseAssets
  import opened RemoteInventory
  import opened InventoryContent
  import opened PreflightContent

  /** The row has the id and the address of GitHub's row of its asset's name. */
  predicate RowAgrees(row: InventoryRow, remote: seq<RemoteRow>) {
    exists r :: r in remote && r.name == row.asset.name && row.id == r.id && row.url == r.url
  }

  predicate RowNamesDiffer(rows: seq<InventoryRow>) {
    forall i, j :: 0 <= i < j < |rows| ==> rows[i].asset.name != rows[j].asset.name
  }

  lemma SortedRowNamesDiffer(rows: seq<InventoryRow>)
    requires RowNamesDiffer(rows)
    ensures NamesDiffer(AssetsOf(Sort(rows, InventoryRowLe)))
  {
    InventoryRowLeTotal();
    var sorted := Sort(rows, InventoryRowLe);
    SortCorrect(rows, InventoryRowLe);
    assert Distinct(rows);
    SortKeepsDistinct(rows, InventoryRowLe);
    forall i, j | 0 <= i < j < |sorted| ensures AssetsOf(sorted)[i].name != AssetsOf(sorted)[j].name {
      assert sorted[i] in rows && sorted[j] in rows;
      var a :| 0 <= a < |rows| && rows[a] == sorted[i];
      var b :| 0 <= b < |rows| && rows[b] == sorted[j];
      assert a != b;
    }
  }

  lemma SortedRowAssets(rows: seq<InventoryRow>, assets: seq<Asset>)
    requires SameAssets(AssetsOf(rows), assets)
    ensures SortedBy(AssetsOf(Sort(rows, InventoryRowLe)), AssetLe)
    ensures SameAssets(AssetsOf(Sort(rows, InventoryRowLe)), assets)
    ensures forall row :: row in Sort(rows, InventoryRowLe) ==> row in rows
  {
    InventoryRowLeTotal();
    var sorted := Sort(rows, InventoryRowLe);
    SortCorrect(rows, InventoryRowLe);
    forall i, j | 0 <= i < j < |sorted| ensures AssetLe(AssetsOf(sorted)[i], AssetsOf(sorted)[j]) {
      assert InventoryRowLe(sorted[i], sorted[j]);
    }
    RowsAsAssets(rows);
    RowsAsAssets(sorted);
    forall x | x in AssetsOf(sorted) ensures x in assets {
      var i :| 0 <= i < |sorted| && AssetsOf(sorted)[i] == x;
      assert sorted[i] in rows;
    }
    forall x | x in assets ensures x in AssetsOf(sorted) {
      var i :| 0 <= i < |rows| && AssetsOf(rows)[i] == x;
      assert rows[i] in sorted;
    }
  }

  lemma OneRowPerName(remote: seq<RemoteRow>, a: RemoteRow, b: RemoteRow)
    requires RowsDiffer(remote) && a in remote && b in remote && a.name == b.name
    ensures a == b
  {
    RowUnder(remote, a);
    RowUnder(remote, b);
  }

  /** Two lists of rows for one set of assets that both agree with GitHub have the same identities. */
  lemma IdentitiesForced(a: seq<InventoryRow>, b: seq<InventoryRow>, assets: seq<Asset>, remote: seq<RemoteRow>)
    requires RowsDiffer(remote) && RowNamesDiffer(a) && RowNamesDiffer(b)
    requires SameAssets(AssetsOf(a), assets) && SameAssets(AssetsOf(b), assets)
    requires (forall row :: row in a ==> RowAgrees(row, remote)) && forall row :: row in b ==> RowAgrees(row, remote)
    ensures IdentityRows(a) == IdentityRows(b)
  {
    var sa, sb := Sort(a, InventoryRowLe), Sort(b, InventoryRowLe);
    SortedRowNamesDiffer(a);
    SortedRowNamesDiffer(b);
    SortedRowAssets(a, assets);
    SortedRowAssets(b, assets);
    SortedSame(AssetsOf(sa), AssetsOf(sb));
    forall k | 0 <= k < |sa| ensures Identities(sa)[k] == Identities(sb)[k] {
      assert AssetsOf(sa)[k] == AssetsOf(sb)[k] && RowAgrees(sa[k], remote) && RowAgrees(sb[k], remote);
      var x :| x in remote && x.name == sa[k].asset.name && sa[k].id == x.id && sa[k].url == x.url;
      var y :| y in remote && y.name == sb[k].asset.name && sb[k].id == y.id && sb[k].url == y.url;
      OneRowPerName(remote, x, y);
    }
  }

  /** What the verifier asks of an inventory, said without building another. */
  predicate Agrees(inv: Inventory, m: Manifest, tag: string, meta: ReleaseMeta, remote: seq<RemoteRow>) {
    && inv.schemaVersion == 1 && inv.kind == "m80_release_remote_asset_inventory"
    && inv.releaseTag == tag && inv.releaseId == meta.id && inv.generatedAt.parses
    && InventoryFits(inv.rows, m.assets)
    && forall row :: row in inv.rows ==> RowAgrees(row, remote)
  }

  lemma SameDictionaryFits(rows: seq<InventoryRow>, assets: seq<Asset>)
    requires InventoryRowsOk(rows) && Distinct(AssetNames(assets)) && ByName(AssetsOf(rows)) == ByName(assets)
    ensures InventoryFits(rows, assets)
  {
    DistinctRowNames(rows);
    SameDictionarySameMembers(AssetsOf(rows), assets);
    RowsAsAssets(rows);
  }

  lemma VerifiedRows(sha: Digest, files: map<string, Bytes>, m: Manifest, tag: string, meta: ReleaseMeta,
                     remote: seq<RemoteRow>, inv: Inventory)
    requires VerifyInventory(sha, files, m, tag, meta, remote, inv)
    ensures InventoryFits(inv.rows, m.assets)
  {
    VerifiedInventoryPinsBytes(sha, files, m, tag, meta, remote, inv);
    SameDictionaryFits(inv.rows, m.assets);
  }

  lemma VerifiedAgrees(sha: Digest, files: map<string, Bytes>, m: Manifest, tag: string, meta: ReleaseMeta,
                       remote: seq<RemoteRow>, inv: Inventory)
    requires VerifyInventory(sha, files, m, tag, meta, remote, inv)
    ensures Agrees(inv, m, tag, meta, remote)
  {
    VerifiedSays(sha, files, m, tag, meta, remote, inv);
    VerifiedRows(sha, files, m, tag, meta, remote, inv);
    forall row | row in inv.rows ensures RowAgrees(row, remote) {
    }
  }

  lemma MadeAgrees(sha: Digest, files: map<string, Bytes>, m: Manifest, tag: string, meta: ReleaseMeta,
                   remote: seq<RemoteRow>, at: Stamp, made: Inventory)
    requires BuildInventory(sha, files, m, tag, meta, remote, at) == Some(made)
    ensures InventoryRowsOk(made.rows) && SameAssets(AssetsOf(made.rows), m.assets)
    ensures forall row :: row in made.rows ==> RowAgrees(row, remote)
  {
    MadeSays(sha, files, m, tag, meta, remote, at, made);
    BuiltRowsOk(sha, files, m, tag, meta, remote, at);
    forall row | row in made.rows ensures RowAgrees(row, remote) {
      var i :| 0 <= i < |made.rows| && made.rows[i] == row;
      assert RowRepeats(made.rows[i], remote);
    }
  }

  lemma AgreeingRows(inv: Inventory, made: Inventory, m: Manifest, tag: string, meta: ReleaseMeta, remote: seq<RemoteRow>)
    requires Agrees(inv, m, tag, meta, remote) && AssetsOk(m.assets) && RowsDiffer(remote)
    requires InventoryRowsOk(made.rows) && SameAssets(AssetsOf(made.rows), m.assets)
    requires forall row :: row in made.rows ==> RowAgrees(row, remote)
    ensures InventoryRowsOk(inv.rows) && IdentityRows(inv.rows) == IdentityRows(made.rows)
  {
    FittingPasses(inv.rows, m.assets);
    IdentitiesForced(inv.rows, made.rows, m.assets, remote);
  }

  lemma AgreeingVerifies(sha: Digest, files: map<string, Bytes>, m: Manifest, tag: string, meta: ReleaseMeta,
                         remote: seq<RemoteRow>, inv: Inventory, made: Inventory)
    requires BuildInventory(sha, files, m, tag, meta, remote, inv.generatedAt) == Some(made)
    requires Agrees(inv, m, tag, meta, remote)
    ensures VerifyInventory(sha, files, m, tag, meta, remote, inv)
  {
    MadeAgrees(sha, files, m, tag, meta, remote, inv.generatedAt, made);
    RowsUsableExactly(remote, tag);
    AgreeingRows(inv, made, m, tag, meta, remote);
  }

  /** An inventory verifies exactly when one could be made of this release now, it names this tag and
      release, and it has one usable row for each asset of the manifest, in any order, with GitHub's id
      and address. Its timestamps need only parse. */
  lemma VerifiedExactly(sha: Digest, files: map<string, Bytes>, m: Manifest, tag: string, meta: ReleaseMeta,
                        remote: seq<RemoteRow>, inv: Inventory)
    ensures VerifyInventory(sha, files, m, tag, meta, remote, inv) <==>
            && ManifestOk(m, tag)
            && meta.tag == tag && meta.id > 0
            && RemoteFits(remote, m, tag)
            && (forall a :: a in m.assets ==> Backed(sha, files, a, remote))
            && Agrees(inv, m, tag, meta, remote)
  {
    var made := BuildInventory(sha, files, m, tag, meta, remote, inv.generatedAt);
    MadeExactly(sha, files, m, tag, meta, remote, inv.generatedAt);
    if VerifyInventory(sha, files, m, tag, meta, remote, inv) {
      VerifiedAgrees(sha, files, m, tag, meta, remote, inv);
    }
    if made.Some? && Agrees(inv, m, tag, meta, remote) {
      AgreeingVerifies(sha, files, m, tag, meta, remote, inv, made.value);
    }
  }
}
