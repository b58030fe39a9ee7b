// The promotion gate's verdicts, spelled out: which receipt is accepted, which inventory is, and
// what the decision names.
module PromotionContent {
  import opened Common
  import opened Versions
  import opened ReleaseAssets
  import opened RemoteInventory
  import opened LatestPromotion

  /** A receipt for exactly this promotion, approved, with its reasons. */
  predicate ReceiptFor(r: RollbackReceipt, target: string, highest: string, publishDigest: string, ledgerDigest: string) {
    && r.schemaVersion == 1
    && r.kind == "m80_release_latest_rollback_receipt"
    && r.decision == "approved"
    && r.releaseTag == target
    && r.highestTag == highest
    && r.publishDigest == publishDigest && IsSha256Ref(publishDigest)
    && r.ledgerDigest == ledgerDigest && IsSha256Ref(ledgerDigest)
    && NonBlank(r.reason)
    && NonBlank(r.actor)
    && NonBlank(r.generatedAt.text) && r.generatedAt.parses
  }

  predicate NewerListed(c: Case)
    requires IsStableTag(c.target)
  {
    exists t :: t in StableTags(c.releases) && VersionLt(VersionOf(c.target), VersionOf(t))
  }

  lemma NewerListedExactly(c: Case)
    requires IsStableTag(c.target)
    ensures NewerListed(c) <==>
              StableTags(c.releases) != [] && VersionLt(VersionOf(c.target), VersionOf(Highest(StableTags(c.releases))))
  {
  }

  /** A rollback is approved exactly when the inventory is accepted, something newer is listed, and
      the receipt is one for this promotion. */
  lemma RollbackExactly(c: Case)
    ensures Verdicts(c, RollbackApproved) <==>
            && IsStableTag(c.target)
            && InventoryAccepted(c.inventory, c.manifest, c.target)
            && NewerListed(c)
            && StableTags(c.releases) != []
            && c.receipt.Some?
            && ReceiptFor(c.receipt.value, c.target, Highest(StableTags(c.releases)), c.publishDigest, c.ledgerDigest)
  {
    if IsStableTag(c.target) {
      NewerListedExactly(c);
    }
  }

  /** The gate decides exactly for stable targets, and names the highest listed tag, or the target
      when none is listed. */
  lemma DecisionNamesHighest(c: Case)
    ensures BuildDecision(c).Some? <==> IsStableTag(c.target)
    ensures BuildDecision(c).Some? ==>
              BuildDecision(c).value.highestTag ==
              if StableTags(c.releases) == [] then c.target else Highest(StableTags(c.releases))
  {
  }

  /** Of two numbered releases, the gate refuses the older one while the newer is public, unless a
      receipt for exactly that is given. */
  lemma OlderIsRefused(c: Case, x: nat, y: nat, z: nat, x': nat, y': nat, z': nat)
    requires c.target == Tag(x, y, z) && ReleaseRow(Some(Tag(x', y', z')), false, false) in c.releases
    requires x < x' || (x == x' && (y < y' || (y == y' && z < z')))
    ensures !Verdicts(c, Approved) && (c.receipt.None? ==> Verdicts(c, Refused))
  {
    PrecedenceExactly(x, y, z, x', y', z');
    ApprovedExactly(c);
    assert Tag(x', y', z') in StableTags(c.releases);
    RollbackExactly(c);
    DecisionNamesHighest(c);
  }

  // ------------------------------------------------------------ the inventory

  predicate PlainAsset(a: Asset) {
    IsDistName(a.name) && NonBlank(a.kind) && IsSha256Hex(a.sha256) && a.size >= 0
  }

  predicate PlainRow(r: InventoryRow) {
    PlainAsset(r.asset) && r.id > 0 && r.createdAt.parses && r.updatedAt.parses
  }

  /** No two rows share a name or an id. */
  predicate RowsDiffer(rows: seq<InventoryRow>) {
    forall i, j :: 0 <= i < j < |rows| ==> rows[i].asset.name != rows[j].asset.name && rows[i].id != rows[j].id
  }

  predicate AssetsDiffer(assets: seq<Asset>) {
    forall i, j :: 0 <= i < j < |assets| ==> assets[i].name != assets[j].name
  }

  lemma MembersOf(rows: seq<InventoryRow>, a: Asset)
    ensures a in AssetsOf(rows) <==> exists r :: r in rows && r.asset == a
  {
    if a in AssetsOf(rows) {
      var i :| 0 <= i < |rows| && AssetsOf(rows)[i] == a;
      assert rows[i] in rows;
    }
    if r :| r in rows && r.asset == a {
      var i :| 0 <= i < |rows| && rows[i] == r;
      assert AssetsOf(rows)[i] == a;
    }
  }

  lemma RowsGoodExactly(rows: seq<InventoryRow>)
    ensures InventoryRowsGood(rows) <==> (forall r :: r in rows ==> PlainRow(r)) && RowsDiffer(rows)
  {
    assert forall i :: 0 <= i < |rows| ==> AssetNames(AssetsOf(rows))[i] == rows[i].asset.name && InventoryIds(rows)[i] == rows[i].id;
  }

  lemma ManifestGoodExactly(assets: seq<Asset>)
    ensures ManifestRowsGood(assets) <==> (forall a :: a in assets ==> PlainAsset(a)) && AssetsDiffer(assets)
  {
    assert forall i :: 0 <= i < |assets| ==> AssetNames(assets)[i] == assets[i].name;
  }

  /** The gate accepts an inventory exactly when it and the manifest are both for this tag, both
      lists are well formed without repeated names or ids, and they list the same assets. */
  lemma InventoryAcceptedExactly(inv: Inventory, m: Manifest, tag: string)
    ensures InventoryAccepted(inv, m, tag) <==>
            && m.releaseTag == tag && inv.releaseTag == tag
            && inv.kind == "m80_release_remote_asset_inventory"
            && (forall a :: a in m.assets ==> PlainAsset(a)) && AssetsDiffer(m.assets)
            && (forall r :: r in inv.rows ==> PlainRow(r)) && RowsDiffer(inv.rows)
            && (forall a :: a in m.assets <==> exists r :: r in inv.rows && r.asset == a)
  {
    RowsGoodExactly(inv.rows);
    ManifestGoodExactly(m.assets);
    forall a ensures a in AssetsOf(inv.rows) <==> exists r :: r in inv.rows && r.asset == a {
      MembersOf(inv.rows, a);
    }
    if ManifestRowsGood(m.assets) && InventoryRowsGood(inv.rows) {
      if ByName(AssetsOf(inv.rows)) == ByName(m.assets) {
        SameDictionarySameMembers(AssetsOf(inv.rows), m.assets);
      }
      if forall a :: a in AssetsOf(inv.rows) <==> a in m.assets {
        SameMembersSameDictionary(AssetsOf(inv.rows), m.assets);
      }
    }
  }
}
