// The gate in front of the `latest` pointer: compare the remote inventory with the
// upload manifest, find the highest public stable tag, approve, refuse, or accept a
// rollback receipt.
module LatestPromotion {
  import opened Common
  import opened Ordering
  import opened Versions
  import opened ReleaseAssets
  import opened RemoteInventory

  // ------------------------------------------------------------ the inventory check

  datatype Field = KindField | ShaField | SizeField

  datatype Complaint =
    | WrongTag
    | WrongKind
    | BadRow(index: nat)
    | RepeatedName(name: string)
    | RepeatedId(id: int)
    | BadTimestamp(index: nat)
    | MissingAssets(names: set<string>)
    | ExtraAssets(names: set<string>)
    | FieldMismatch(name: string, field: Field)

  /** `normalized_asset_row`; unlike the planner it asks for a kind that is not blank */
  predicate PromotableAsset(a: Asset) {
    IsDistName(a.name) && NonBlank(a.kind) && IsSha256Hex(a.sha256) && a.size >= 0
  }

  predicate PromotableRow(r: InventoryRow) {
    PromotableAsset(r.asset) && r.id > 0
  }

  predicate StampsParse(r: InventoryRow) {
    r.createdAt.parses && r.updatedAt.parses
  }

  predicate ManifestRowsGood(assets: seq<Asset>) {
    (forall a :: a in assets ==> PromotableAsset(a)) && Distinct(AssetNames(assets))
  }

  function InventoryIds(rows: seq<InventoryRow>): (ids: seq<int>)
    ensures |ids| == |rows|
    ensures forall i :: 0 <= i < |rows| ==> ids[i] == rows[i].id
  {
    Project(rows, (r: InventoryRow) => r.id)
  }

  predicate InventoryRowsGood(rows: seq<InventoryRow>) {
    && (forall r :: r in rows ==> PromotableRow(r) && StampsParse(r))
    && Distinct(AssetNames(AssetsOf(rows)))
    && Distinct(InventoryIds(rows))
  }

  lemma ManifestRowsSnoc(assets: seq<Asset>, a: Asset)
    ensures ManifestRowsGood(assets + [a]) <==>
              ManifestRowsGood(assets) && PromotableAsset(a) && a.name !in NameSet(assets)
  {
    assert AssetNames(assets + [a]) == AssetNames(assets) + [a.name];
    DistinctSnoc(AssetNames(assets), a.name);
    assert forall x :: x in assets + [a] <==> x in assets || x == a;
  }

  lemma InventoryRowsSnoc(rows: seq<InventoryRow>, r: InventoryRow)
    ensures InventoryRowsGood(rows + [r]) <==>
              && InventoryRowsGood(rows)
              && PromotableRow(r)
              && StampsParse(r)
              && r.asset.name !in NameSet(AssetsOf(rows))
              && r.id !in InventoryIds(rows)
  {
    assert AssetsOf(rows + [r]) == AssetsOf(rows) + [r.asset];
    assert AssetNames(AssetsOf(rows + [r])) == AssetNames(AssetsOf(rows)) + [r.asset.name];
    assert InventoryIds(rows + [r]) == InventoryIds(rows) + [r.id];
    DistinctSnoc(AssetNames(AssetsOf(rows)), r.asset.name);
    DistinctSnoc(InventoryIds(rows), r.id);
    assert forall x :: x in rows + [r] <==> x in rows || x == r;
  }

  /** `normalized_manifest_assets`: rows that fail are skipped and reported. */
  method NormalizedManifestAssets(m: Manifest, tag: string) returns (result: seq<Asset>, errors: seq<Complaint>)
    ensures errors == [] <==> m.releaseTag == tag && ManifestRowsGood(m.assets)
    ensures errors == [] ==> result == m.assets
  {
    errors := if m.releaseTag != tag then [WrongTag] else [];
    result := [];
    var seen: set<string> := {};
    for n := 0 to |m.assets|
      invariant errors == [] <==> m.releaseTag == tag && ManifestRowsGood(m.assets[..n])
      invariant errors == [] ==> result == m.assets[..n] && seen == NameSet(m.assets[..n])
    {
      var a := m.assets[n];
      assert m.assets[..n + 1] == m.assets[..n] + [a];
      ManifestRowsSnoc(m.assets[..n], a);
      if !PromotableAsset(a) {
        errors := errors + [BadRow(n)];
      } else {
        if a.name in seen {
          errors := errors + [RepeatedName(a.name)];
        }
        assert AssetNames(m.assets[..n + 1]) == AssetNames(m.assets[..n]) + [a.name];
        seen := seen + {a.name};
        result := result + [a];
      }
    }
    assert m.assets[..|m.assets|] == m.assets;
  }

  /** `normalized_inventory_assets` of the promotion gate */
  method NormalizedInventoryAssets(inv: Inventory, tag: string) returns (result: seq<Asset>, errors: seq<Complaint>)
    ensures errors == [] <==> inv.kind == KIND && inv.releaseTag == tag && InventoryRowsGood(inv.rows)
    ensures errors == [] ==> result == AssetsOf(inv.rows)
  {
    errors := if inv.kind != KIND then [WrongKind] else [];
    if inv.releaseTag != tag {
      errors := errors + [WrongTag];
    }
    result := [];
    var seenNames: set<string> := {};
    var seenIds: set<int> := {};
    for n := 0 to |inv.rows|
      invariant errors == [] <==> inv.kind == KIND && inv.releaseTag == tag && InventoryRowsGood(inv.rows[..n])
      invariant errors == [] ==> result == AssetsOf(inv.rows[..n]) && seenNames == NameSet(AssetsOf(inv.rows[..n]))
      invariant errors == [] ==> forall x :: x in seenIds <==> x in InventoryIds(inv.rows[..n])
    {
      var r := inv.rows[n];
      var before := inv.rows[..n];
      assert inv.rows[..n + 1] == before + [r];
      InventoryRowsSnoc(before, r);
      if !PromotableRow(r) {
        errors := errors + [BadRow(n)];
      } else {
        if r.asset.name in seenNames {
          errors := errors + [RepeatedName(r.asset.name)];
        }
        if r.id in seenIds {
          errors := errors + [RepeatedId(r.id)];
        }
        if !StampsParse(r) {
          errors := errors + [BadTimestamp(n)];
        }
        assert AssetsOf(before + [r]) == AssetsOf(before) + [r.asset];
        assert AssetNames(AssetsOf(before + [r])) == AssetNames(AssetsOf(before)) + [r.asset.name];
        assert InventoryIds(before + [r]) == InventoryIds(before) + [r.id];
        seenNames := seenNames + {r.asset.name};
        seenIds := seenIds + {r.id};
        result := result + [r.asset];
      }
    }
    assert inv.rows[..|inv.rows|] == inv.rows;
  }

  /** What the comparison of the two lists amounts to. */
  predicate InventoryAccepted(inv: Inventory, m: Manifest, tag: string) {
    && m.releaseTag == tag
    && ManifestRowsGood(m.assets)
    && inv.kind == KIND
    && inv.releaseTag == tag
    && InventoryRowsGood(inv.rows)
    && ByName(AssetsOf(inv.rows)) == ByName(m.assets)
  }

  /** The field-by-field comparison over the common names. */
  method CompareFields(manifest: map<string, Content>, inventory: map<string, Content>, names: seq<string>)
    returns (errors: seq<Complaint>)
    requires forall n :: n in names ==> n in manifest && n in inventory
    ensures errors == [] <==> forall n :: n in names ==> manifest[n] == inventory[n]
  {
    errors := [];
    for k := 0 to |names|
      invariant errors == [] <==> forall n :: n in names[..k] ==> manifest[n] == inventory[n]
    {
      var name := names[k];
      var expected, observed := manifest[name], inventory[name];
      assert names[..k + 1] == names[..k] + [name];
      if expected.kind != observed.kind {
        errors := errors + [FieldMismatch(name, KindField)];
      }
      if expected.sha256 != observed.sha256 {
        errors := errors + [FieldMismatch(name, ShaField)];
      }
      if expected.size != observed.size {
        errors := errors + [FieldMismatch(name, SizeField)];
      }
    }
    assert names[..|names|] == names;
  }

  /** The names of `names` that are keys of `d`, in order. */
  function CommonNames(names: seq<string>, d: map<string, Content>): (common: seq<string>)
    ensures forall n :: n in common <==> n in names && n in d
  {
    if names == [] then []
    else if names[0] in d then [names[0]] + CommonNames(names[1..], d)
    else CommonNames(names[1..], d)
  }

  /** `validate_remote_inventory`: no complaint exactly when both lists are well formed
      and their name-to-content dictionaries are equal. */
  method ValidateRemoteInventory(inv: Inventory, m: Manifest, tag: string) returns (errors: seq<Complaint>)
    ensures errors == [] <==> InventoryAccepted(inv, m, tag)
  {
    var manifestAssets, manifestErrors := NormalizedManifestAssets(m, tag);
    var inventoryAssets, inventoryErrors := NormalizedInventoryAssets(inv, tag);
    errors := manifestErrors + inventoryErrors;
    if errors != [] {
      return;
    }
    var manifest, inventory := ByName(manifestAssets), ByName(inventoryAssets);
    if manifest.Keys - inventory.Keys != {} {
      errors := errors + [MissingAssets(manifest.Keys - inventory.Keys)];
    }
    if inventory.Keys - manifest.Keys != {} {
      errors := errors + [ExtraAssets(inventory.Keys - manifest.Keys)];
    }
    var names := CommonNames(Sort(AssetNames(manifestAssets), StringLe), inventory);
    assert forall n :: n in names <==> n in manifest && n in inventory by {
      StringLeTotalOrder();
      SortCorrect(AssetNames(manifestAssets), StringLe);
      ByNameKeys(manifestAssets);
    }
    var mismatches := CompareFields(manifest, inventory, names);
    errors := errors + mismatches;
    DictionariesEqual(manifest, inventory, names);
  }

  lemma DictionariesEqual(a: map<string, Content>, b: map<string, Content>, common: seq<string>)
    requires forall n :: n in common <==> n in a && n in b
    ensures a == b <==>
            a.Keys - b.Keys == {} && b.Keys - a.Keys == {} && forall n :: n in common ==> a[n] == b[n]
  {
    if a.Keys - b.Keys == {} && b.Keys - a.Keys == {} && forall n :: n in common ==> a[n] == b[n] {
      assert forall n :: n in a.Keys ==> n !in a.Keys - b.Keys;
      assert forall n :: n in b.Keys ==> n !in b.Keys - a.Keys;
      assert a.Keys == b.Keys;
    }
  }

  lemma VerifiedRowsGood(rows: seq<InventoryRow>)
    requires InventoryRowsOk(rows)
    ensures InventoryRowsGood(rows) <==> forall a :: a in AssetsOf(rows) ==> NonBlank(a.kind)
  {
    assert forall i :: 0 <= i < |rows| ==> AssetsOf(rows)[i] == rows[i].asset && InventoryRowOk(rows[i]);
    assert forall r :: r in rows ==> (PromotableRow(r) && StampsParse(r) <==> NonBlank(r.asset.kind));
    assert forall r :: r in rows ==> r.asset in AssetsOf(rows) by {
      forall r | r in rows ensures r.asset in AssetsOf(rows) {
        var i :| 0 <= i < |rows| && rows[i] == r;
        assert AssetsOf(rows)[i] == r.asset;
      }
    }
    assert forall a :: a in AssetsOf(rows) ==> exists r :: r in rows && r.asset == a;
    DistinctRowNames(rows);
  }

  lemma CheckedManifestGood(assets: seq<Asset>)
    requires AssetsOk(assets)
    ensures ManifestRowsGood(assets) <==> forall a :: a in assets ==> NonBlank(a.kind)
  {
    assert forall a :: a in assets ==> AssetOk(a) && (PromotableAsset(a) <==> NonBlank(a.kind));
  }

  /** Every inventory built from the same manifest passes the gate, exactly when no asset
      kind of the manifest is blank. */
  lemma BuiltInventoryAccepted(sha: Digest, files: map<string, Bytes>, m: Manifest, tag: string, meta: ReleaseMeta,
                               remote: seq<RemoteRow>, generatedAt: Stamp)
    requires Buildable(sha, files, m, tag, meta, remote)
    ensures var inv := BuildInventory(sha, files, m, tag, meta, remote, generatedAt).value;
            InventoryAccepted(inv, m, tag) <==> forall a :: a in m.assets ==> NonBlank(a.kind)
  {
    var rows := BuildInventory(sha, files, m, tag, meta, remote, generatedAt).value.rows;
    BuiltRows(sha, files, m, tag, meta, remote, generatedAt);
    BuiltRowsOk(sha, files, m, tag, meta, remote, generatedAt);
    SortedAssets(m.assets);
    assert forall a :: a in AssetsOf(rows) <==> a in m.assets;
    VerifiedRowsGood(rows);
    CheckedManifestGood(m.assets);
  }

  // ------------------------------------------------------------ the release list

  /** A release as listed by GitHub, `tag` being the first usable of its name fields. */
  datatype ReleaseRow = ReleaseRow(tag: Option<string>, draft: bool, prerelease: bool)

  predicate IsPublicStable(r: ReleaseRow) {
    r.tag.Some? && IsStableTag(r.tag.value) && !r.draft && !r.prerelease
  }

  /** The keys of the dictionary `stable_public_tags` fills, in insertion order. */
  function StableTags(rows: seq<ReleaseRow>): (tags: seq<string>)
    ensures forall t :: t in tags <==> ReleaseRow(Some(t), false, false) in rows && IsStableTag(t)
  {
    if rows == [] then []
    else
      var front, last := StableTags(rows[..|rows| - 1]), rows[|rows| - 1];
      assert rows == rows[..|rows| - 1] + [last];
      if IsPublicStable(last) && last.tag.value !in front then front + [last.tag.value] else front
  }

  /** Earlier tags are listed earlier: some row of `tags[i]` comes before every row of `tags[j]`. */
  predicate InListOrder(rows: seq<ReleaseRow>, tags: seq<string>) {
    forall i, j :: 0 <= i < j < |tags| ==> ListedBefore(rows, tags[i], tags[j])
  }

  predicate ListedBefore(rows: seq<ReleaseRow>, a: string, b: string) {
    exists p :: 0 <= p < |rows| && rows[p] == ReleaseRow(Some(a), false, false) &&
                ReleaseRow(Some(b), false, false) !in rows[..p + 1]
  }

  lemma ListedBeforeSnoc(front: seq<ReleaseRow>, last: ReleaseRow, a: string, b: string)
    requires ListedBefore(front, a, b)
    ensures ListedBefore(front + [last], a, b)
  {
    var p :| 0 <= p < |front| && front[p] == ReleaseRow(Some(a), false, false) &&
             ReleaseRow(Some(b), false, false) !in front[..p + 1];
    assert (front + [last])[..p + 1] == front[..p + 1];
  }

  lemma NewTagIsLast(front: seq<ReleaseRow>, last: ReleaseRow, a: string)
    requires IsPublicStable(last) && last.tag.value !in StableTags(front) && a in StableTags(front)
    ensures ListedBefore(front + [last], a, last.tag.value)
  {
    var p :| 0 <= p < |front| && front[p] == ReleaseRow(Some(a), false, false);
    assert (front + [last])[..p + 1] == front[..p + 1];
  }

  /** The tags come once each, in the order in which the list first shows them. */
  lemma {:induction false} StableTagsInOrder(rows: seq<ReleaseRow>)
    ensures Distinct(StableTags(rows)) && InListOrder(rows, StableTags(rows))
  {
    if rows != [] {
      var front, last := rows[..|rows| - 1], rows[|rows| - 1];
      var before, tags := StableTags(front), StableTags(rows);
      assert rows == front + [last];
      StableTagsInOrder(front);
      forall i, j | 0 <= i < j < |tags| ensures tags[i] != tags[j] && ListedBefore(rows, tags[i], tags[j]) {
        assert tags[i] == before[i] && before[i] in before;
        if j < |before| {
          ListedBeforeSnoc(front, last, tags[i], tags[j]);
        } else {
          NewTagIsLast(front, last, tags[i]);
        }
      }
    }
  }

  /** `stable_public_tags` */
  method StablePublicTags(rows: seq<ReleaseRow>) returns (tags: seq<string>)
    ensures tags == StableTags(rows)
    ensures Distinct(tags) && InListOrder(rows, tags)
  {
    tags := [];
    for n := 0 to |rows|
      invariant tags == StableTags(rows[..n])
    {
      assert rows[..n + 1][..n] == rows[..n];
      var row := rows[n];
      if row.tag.None? || !IsStableTag(row.tag.value) || row.draft || row.prerelease {
        continue;
      }
      if row.tag.value !in tags {
        tags := tags + [row.tag.value];
      }
    }
    assert rows[..|rows|] == rows;
    StableTagsInOrder(rows);
  }

  /** `max(stable_tags, key=stable_tags.get)`: the first tag of the highest version */
  function Highest(tags: seq<string>): (tag: string)
    requires tags != [] && forall t :: t in tags ==> IsStableTag(t)
    ensures tag in tags
    ensures forall t :: t in tags ==> VersionLe(VersionOf(t), VersionOf(tag))
  {
    var last := tags[|tags| - 1];
    if |tags| == 1 then last
    else
      var front := tags[..|tags| - 1];
      assert tags == front + [last];
      var best := Highest(front);
      if VersionLt(VersionOf(best), VersionOf(last)) then last else best
  }

  predicate AllStable(tags: seq<string>) {
    forall t :: t in tags ==> IsStableTag(t)
  }

  /** Every tag before position `k` is below `version`. */
  predicate BelowBefore(tags: seq<string>, k: nat, version: Version)
    requires AllStable(tags) && k <= |tags|
  {
    forall t :: t in tags[..k] ==> VersionLt(VersionOf(t), version)
  }

  lemma HighestSnoc(front: seq<string>, last: string)
    requires front != [] && AllStable(front + [last])
    ensures AllStable(front)
    ensures var best := Highest(front);
            Highest(front + [last]) == if VersionLt(VersionOf(best), VersionOf(last)) then last else best
  {
    assert (front + [last])[..|front|] == front;
    assert forall t :: t in front ==> t in front + [last];
  }

  lemma VersionLtTransitive(a: Version, b: Version, c: Version)
    requires VersionLe(a, b) && VersionLt(b, c)
    ensures VersionLt(a, c)
  {
  }

  /** Of several spellings of the highest version, the first listed one is taken. */
  lemma {:induction false} HighestIsFirst(tags: seq<string>) returns (k: nat)
    requires tags != [] && AllStable(tags)
    ensures k < |tags| && tags[k] == Highest(tags) && BelowBefore(tags, k, VersionOf(tags[k]))
  {
    var front, last := tags[..|tags| - 1], tags[|tags| - 1];
    k := 0;
    if front != [] {
      assert tags == front + [last];
      HighestSnoc(front, last);
      k := HighestIsFirst(front);
      assert tags[..k] == front[..k];
      if VersionLt(VersionOf(Highest(front)), VersionOf(last)) {
        k := |front|;
        forall t | t in front ensures VersionLt(VersionOf(t), VersionOf(last)) {
          VersionLtTransitive(VersionOf(t), VersionOf(Highest(front)), VersionOf(last));
        }
      }
    }
  }

  function HighestOr(tags: seq<string>, target: string): (tag: string)
    requires IsStableTag(target) && forall t :: t in tags ==> IsStableTag(t)
    ensures IsStableTag(tag)
  {
    if tags == [] then target else Highest(tags)
  }

  // ------------------------------------------------------------ the decision

  const ROLLBACK_KIND := "m80_release_latest_rollback_receipt"

  datatype RollbackReceipt = RollbackReceipt(
    schemaVersion: int,
    kind: string,
    decision: string,
    releaseTag: string,
    highestTag: string,
    reason: string,
    actor: string,
    publishDigest: string,
    ledgerDigest: string,
    generatedAt: Stamp)

  /** `validate_rollback_receipt` finds nothing */
  predicate ReceiptValid(r: RollbackReceipt, target: string, highest: string, publishDigest: string, ledgerDigest: string) {
    && r.schemaVersion == 1
    && r.kind == ROLLBACK_KIND
    && r.decision == "approved"
    && r.releaseTag == target
    && r.highestTag == highest
    && NonBlank(r.reason)
    && NonBlank(r.actor)
    && NonBlank(r.generatedAt.text)
    && r.generatedAt.parses
    && r.publishDigest == publishDigest
    && r.ledgerDigest == ledgerDigest
    && IsSha256Ref(r.publishDigest)
    && IsSha256Ref(r.ledgerDigest)
  }

  datatype Verdict = Approved | RollbackApproved | Refused

  /** Everything the gate reads. */
  datatype Case = Case(
    target: string,
    releases: seq<ReleaseRow>,
    publishDigest: string,
    ledgerDigest: string,
    manifest: Manifest,
    inventory: Inventory,
    receipt: Option<RollbackReceipt>)

  datatype Decision = Decision(verdict: Verdict, highestTag: string)

  /** `build_decision`; `None` when the target is not a stable tag */
  function BuildDecision(c: Case): Option<Decision> {
    if !IsStableTag(c.target) then None
    else
      var highest := HighestOr(StableTags(c.releases), c.target);
      if !InventoryAccepted(c.inventory, c.manifest, c.target) then Some(Decision(Refused, highest))
      else if VersionLe(VersionOf(highest), VersionOf(c.target)) then Some(Decision(Approved, highest))
      else if c.receipt.None? then Some(Decision(Refused, highest))
      else if !ReceiptValid(c.receipt.value, c.target, highest, c.publishDigest, c.ledgerDigest) then
        Some(Decision(Refused, highest))
      else Some(Decision(RollbackApproved, highest))
  }

  predicate Moves(c: Case) {
    BuildDecision(c).Some? && !BuildDecision(c).value.verdict.Refused?
  }

  predicate Verdicts(c: Case, v: Verdict) {
    BuildDecision(c).Some? && BuildDecision(c).value.verdict == v
  }

  /** Approved exactly when the inventory is accepted and no public stable release is newer. */
  lemma ApprovedExactly(c: Case)
    requires IsStableTag(c.target)
    ensures Verdicts(c, Approved) <==>
            && InventoryAccepted(c.inventory, c.manifest, c.target)
            && forall t :: t in StableTags(c.releases) ==> VersionLe(VersionOf(t), VersionOf(c.target))
  {
  }

  /** Every move to a target older than some public stable release rests on a receipt that
      names this target, this highest tag, this publish decision and this proof ledger. */
  lemma LoweringNeedsReceipt(c: Case, newer: string)
    requires Moves(c) && newer in StableTags(c.releases) && VersionLt(VersionOf(c.target), VersionOf(newer))
    ensures Verdicts(c, RollbackApproved) && c.receipt.Some?
    ensures c.receipt.value.releaseTag == c.target
    ensures c.receipt.value.highestTag == Highest(StableTags(c.releases))
    ensures c.receipt.value.publishDigest == c.publishDigest && c.receipt.value.ledgerDigest == c.ledgerDigest
  {
  }

  /** One receipt authorises one promotion: two rollbacks it approves have the same target,
      highest tag, publish decision and ledger. */
  lemma ReceiptAuthorisesOne(a: Case, b: Case)
    requires Verdicts(a, RollbackApproved) && Verdicts(b, RollbackApproved) && a.receipt == b.receipt
    ensures a.target == b.target && a.publishDigest == b.publishDigest && a.ledgerDigest == b.ledgerDigest
    ensures BuildDecision(a).value.highestTag == BuildDecision(b).value.highestTag
  {
  }
}
