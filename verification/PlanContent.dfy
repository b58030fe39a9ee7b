// What a plan says: every field of every plan, in terms of the manifest and of the rows GitHub
// reported.
module PlanContent {
  import opened Common
  import opened Ordering
  import opened Versions
  import opened ReleaseAssets
  import opened PublicationPlan

  predicate InManifest(m: Manifest, name: string) {
    exists a :: a in m.assets && a.name == name
  }

  predicate OnGitHub(rows: seq<RemoteSize>, name: string) {
    exists r :: r in rows && r.name == name
  }

  /** The manifest and GitHub both have the name, with these two different sizes. */
  predicate SizesDiffer(m: Manifest, rows: seq<RemoteSize>, row: SizeMismatch) {
    && row.expected != row.observed
    && (exists a :: a in m.assets && a.name == row.name && a.size == row.expected)
    && RemoteSize(row.name, row.observed) in rows
  }

  /** The three lists of a plan are exactly the differences, each in name order and without repeats. */
  ghost predicate ListsTheDifferences(p: Plan, m: Manifest, rows: seq<RemoteSize>) {
    && (forall x :: x in p.missing <==> InManifest(m, x) && !OnGitHub(rows, x))
    && (forall x :: x in p.extra <==> OnGitHub(rows, x) && !InManifest(m, x))
    && (forall row :: row in p.mismatches <==> SizesDiffer(m, rows, row))
    && Distinct(p.missing) && SortedBy(p.missing, StringLe)
    && Distinct(p.extra) && SortedBy(p.extra, StringLe)
    && Distinct(MismatchNames(p.mismatches)) && SortedBy(MismatchNames(p.mismatches), StringLe)
  }

  predicate CountsBoth(p: Plan, m: Manifest, rows: seq<RemoteSize>) {
    p.expectedCount == |m.assets| && p.observedCount == |rows|
  }

  // ------------------------------------------------------------ the dictionary of sizes

  lemma {:induction false} SizesFound(rows: seq<RemoteSize>, r: RemoteSize)
    requires Distinct(RemoteNames(rows)) && r in rows
    ensures r.name in Sizes(rows) && Sizes(rows)[r.name] == r.size
  {
    var front, last := rows[..|rows| - 1], rows[|rows| - 1];
    assert rows == front + [last];
    assert RemoteNames(rows) == RemoteNames(front) + [last.name];
    DistinctSnoc(RemoteNames(front), last.name);
    if r != last {
      assert r in front;
      NamedInFront(front, r);
      SizesFound(front, r);
    }
  }

  lemma NamedInFront(rows: seq<RemoteSize>, r: RemoteSize)
    requires r in rows
    ensures r.name in RemoteNames(rows)
  {
    var i :| 0 <= i < |rows| && rows[i] == r;
    assert RemoteNames(rows)[i] == r.name;
  }

  lemma NamesOnGitHub(rows: seq<RemoteSize>, name: string)
    ensures name in Sizes(rows) <==> OnGitHub(rows, name)
  {
    SizesKeys(rows);
    if name in Sizes(rows) {
      var i :| 0 <= i < |rows| && RemoteNames(rows)[i] == name;
      assert rows[i] in rows;
    }
    if r :| r in rows && r.name == name {
      NamedInFront(rows, r);
    }
  }

  lemma NamesInManifest(m: Manifest, name: string)
    ensures name in NameSet(m.assets) <==> InManifest(m, name)
  {
    if name in NameSet(m.assets) {
      var i := NameIndex(m.assets, name);
      assert m.assets[i] in m.assets;
    }
    if a :| a in m.assets && a.name == name {
      var i :| 0 <= i < |m.assets| && m.assets[i] == a;
      assert AssetNames(m.assets)[i] == name;
    }
  }

  lemma {:induction false} SizesCount(rows: seq<RemoteSize>)
    requires Distinct(RemoteNames(rows))
    ensures |Sizes(rows)| == |rows|
  {
    if rows != [] {
      var front, last := rows[..|rows| - 1], rows[|rows| - 1];
      assert RemoteNames(rows) == RemoteNames(front) + [last.name];
      DistinctSnoc(RemoteNames(front), last.name);
      SizesKeys(front);
      SizesCount(front);
      assert Sizes(rows).Keys == Sizes(front).Keys + {last.name};
    }
  }

  lemma SizesKnown(rows: seq<RemoteSize>, name: string)
    requires Distinct(RemoteNames(rows)) && name in Sizes(rows)
    ensures RemoteSize(name, Sizes(rows)[name]) in rows
  {
    NamesOnGitHub(rows, name);
    var r :| r in rows && r.name == name;
    SizesFound(rows, r);
  }

  // ------------------------------------------------------------ the lists

  lemma NamesListed(m: Manifest, rows: seq<RemoteSize>)
    requires AssetsOk(m.assets) && RemoteOk(rows)
    ensures forall x :: x in Missing(m.assets, Sizes(rows)) <==> InManifest(m, x) && !OnGitHub(rows, x)
    ensures forall x :: x in Extra(m.assets, rows) <==> OnGitHub(rows, x) && !InManifest(m, x)
  {
    NameDifferencesExact(m.assets, rows);
    forall x
      ensures x in Missing(m.assets, Sizes(rows)) <==> InManifest(m, x) && !OnGitHub(rows, x)
      ensures x in Extra(m.assets, rows) <==> OnGitHub(rows, x) && !InManifest(m, x)
    {
      NamesOnGitHub(rows, x);
      NamesInManifest(m, x);
    }
  }

  lemma MismatchListed(m: Manifest, rows: seq<RemoteSize>, row: SizeMismatch)
    requires AssetsOk(m.assets) && RemoteOk(rows)
    ensures row in Mismatches(m.assets, Sizes(rows)) <==> SizesDiffer(m, rows, row)
  {
    var sizes := Sizes(rows);
    MismatchesExact(m.assets, rows);
    if row in Mismatches(m.assets, sizes) {
      var a :| a in m.assets && Differs(a, sizes) && row == SizeMismatch(a.name, a.size, sizes[a.name]);
      SizesKnown(rows, a.name);
    }
    if SizesDiffer(m, rows, row) {
      var a :| a in m.assets && a.name == row.name && a.size == row.expected;
      SizesFound(rows, RemoteSize(row.name, row.observed));
      assert Differs(a, sizes);
    }
  }

  lemma {:induction false} MismatchNamesSorted(assets: seq<Asset>, sizes: map<string, int>)
    requires SortedBy(assets, AssetLe)
    ensures SortedBy(MismatchNames(MismatchRows(assets, sizes)), StringLe)
  {
    if assets != [] {
      var rest := MismatchRows(assets[1..], sizes);
      SortedTail(assets, AssetLe);
      MismatchNamesSorted(assets[1..], sizes);
      if Differs(assets[0], sizes) {
        MismatchRowsExact(assets[1..], sizes);
        forall x | x in MismatchNames(rest) ensures StringLe(assets[0].name, x) {
          var i :| 0 <= i < |rest| && MismatchNames(rest)[i] == x;
          assert rest[i] in rest;
          var a :| a in assets[1..] && Differs(a, sizes) && rest[i] == SizeMismatch(a.name, a.size, sizes[a.name]);
          assert AssetLe(assets[0], a);
        }
        SortedCons(assets[0].name, MismatchNames(rest), StringLe);
        assert MismatchNames(MismatchRows(assets, sizes)) == [assets[0].name] + MismatchNames(rest);
      }
    }
  }

  lemma MismatchesInOrder(assets: seq<Asset>, sizes: map<string, int>)
    ensures SortedBy(MismatchNames(Mismatches(assets, sizes)), StringLe)
  {
    AssetLeTotal();
    SortCorrect(assets, AssetLe);
    MismatchNamesSorted(Sort(assets, AssetLe), sizes);
  }

  lemma RefusalLists(m: Manifest, meta: Metadata, tag: string, generatedAt: Stamp)
    requires BuildPlan(m, meta, tag, generatedAt).Raised?
    ensures meta.Existing? && AssetsOk(m.assets) && RemoteOk(meta.assets)
    ensures var p := BuildPlan(m, meta, tag, generatedAt).plan;
            && p.missing == Missing(m.assets, Sizes(meta.assets))
            && p.extra == Extra(m.assets, meta.assets)
            && p.mismatches == Mismatches(m.assets, Sizes(meta.assets))
  {
  }

  /** Every refusal carries the exact differences and both counts. */
  lemma RefusalSays(m: Manifest, meta: Metadata, tag: string, generatedAt: Stamp)
    requires BuildPlan(m, meta, tag, generatedAt).Raised?
    ensures meta.Existing?
    ensures ListsTheDifferences(BuildPlan(m, meta, tag, generatedAt).plan, m, meta.assets)
    ensures CountsBoth(BuildPlan(m, meta, tag, generatedAt).plan, m, meta.assets)
  {
    RefusalLists(m, meta, tag, generatedAt);
    NamesListed(m, meta.assets);
    NameDifferencesExact(m.assets, meta.assets);
    MismatchesExact(m.assets, meta.assets);
    MismatchesInOrder(m.assets, Sizes(meta.assets));
    forall row ensures row in Mismatches(m.assets, Sizes(meta.assets)) <==> SizesDiffer(m, meta.assets, row) {
      MismatchListed(m, meta.assets, row);
    }
    SizesCount(meta.assets);
  }

  /** Its state and its recovery follow the draft flag, then the prerelease flag. */
  lemma RefusalState(m: Manifest, meta: Metadata, tag: string, generatedAt: Stamp)
    requires BuildPlan(m, meta, tag, generatedAt).Raised?
    ensures meta.Existing?
    ensures var p := BuildPlan(m, meta, tag, generatedAt).plan;
            && p.releaseTag == tag && p.generatedAt == generatedAt && p.action == FailManualRecoveryRequired
            && (meta.draft ==> p.state == StateDraft && p.recovery == Some(DeleteDraft))
            && (!meta.draft && meta.prerelease ==> p.state == StatePrerelease && p.recovery == Some(RepairPrerelease))
            && (!meta.draft && !meta.prerelease ==> p.state == StatePublic && p.recovery == Some(DeleteOrRetag))
  {
  }

  /** A plan that is returned lists no difference, and there is none. */
  lemma ReturnedSays(m: Manifest, meta: Metadata, tag: string, generatedAt: Stamp)
    requires BuildPlan(m, meta, tag, generatedAt).Returned?
    ensures var p := BuildPlan(m, meta, tag, generatedAt).plan;
            && p.releaseTag == tag && p.generatedAt == generatedAt && p.recovery == None
            && p.missing == [] && p.extra == [] && p.mismatches == []
            && (meta.Absent? ==> p.action == CreateDraftUploadPublish && p.state == StateAbsent && CountsBoth(p, m, []))
            && (meta.Existing? ==>
                  && p.action == ValidateExistingPublicRelease && p.state == StatePublic
                  && CountsBoth(p, m, meta.assets) && ListsTheDifferences(p, m, meta.assets))
  {
    if meta.Existing? {
      SizesCount(meta.assets);
      NamesListed(m, meta.assets);
      forall row ensures !SizesDiffer(m, meta.assets, row) {
        MismatchListed(m, meta.assets, row);
      }
    }
  }

  /** The planner makes no plan exactly when the tag is not stable, the manifest is not one for this
      tag, or GitHub reports another tag or unusable rows. */
  lemma RejectedExactly(m: Manifest, meta: Metadata, tag: string, generatedAt: Stamp)
    ensures BuildPlan(m, meta, tag, generatedAt).Rejected? <==>
            || !IsStableTag(tag)
            || m.releaseTag != tag
            || !AssetsOk(m.assets)
            || (meta.Existing? && (meta.tag != tag || !RemoteOk(meta.assets)))
  {
  }

  /** The verifier accepts one plan only: the one the planner makes now, with the same timestamp. */
  lemma VerifiedPlanIsThePlan(p: Plan, m: Manifest, meta: Metadata, tag: string)
    ensures VerifyPlan(p, m, meta, tag) <==>
            && p.generatedAt.parses
            && !BuildPlan(m, meta, tag, p.generatedAt).Rejected?
            && p == BuildPlan(m, meta, tag, p.generatedAt).plan
  {
    if p.generatedAt.parses && !BuildPlan(m, meta, tag, p.generatedAt).Rejected? {
      EveryPlanVerifies(m, meta, tag, p.generatedAt);
    }
  }
}
