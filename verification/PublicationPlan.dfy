// The fail-closed publication planner: create a draft, validate what is already
// public, or refuse.
module PublicationPlan {
  import opened Common
  import opened Ordering
  import opened Versions
  import opened ReleaseAssets

  datatype RemoteSize = RemoteSize(name: string, size: int)

  /** GitHub's view of the release before publication; `Absent` is the empty object. */
  datatype Metadata =
    | Absent
    | Existing(tag: string, draft: bool, prerelease: bool, assets: seq<RemoteSize>)

  datatype Action = CreateDraftUploadPublish | ValidateExistingPublicRelease | FailManualRecoveryRequired
  datatype ReleaseState = StateAbsent | StateDraft | StatePrerelease | StatePublic
  datatype Recovery = DeleteDraft | RepairPrerelease | DeleteOrRetag
  datatype SizeMismatch = SizeMismatch(name: string, expected: int, observed: int)

  datatype Plan = Plan(
    releaseTag: string,
    generatedAt: Stamp,
    action: Action,
    state: ReleaseState,
    expectedCount: nat,
    observedCount: nat,
    missing: seq<string>,
    extra: seq<string>,
    mismatches: seq<SizeMismatch>,
    recovery: Option<Recovery>)

  /** How `build_plan` ends: a failed requirement, a plan, or a plan carried by an error. */
  datatype Outcome = Rejected | Returned(plan: Plan) | Raised(plan: Plan)

  // ------------------------------------------------------------ remote sizes

  function RemoteNames(rows: seq<RemoteSize>): (names: seq<string>)
    ensures |names| == |rows|
    ensures forall i :: 0 <= i < |rows| ==> names[i] == rows[i].name
  {
    Project(rows, (r: RemoteSize) => r.name)
  }

  predicate RemoteOk(rows: seq<RemoteSize>) {
    && (forall i :: 0 <= i < |rows| ==> IsDistName(rows[i].name) && rows[i].size >= 0)
    && Distinct(RemoteNames(rows))
  }

  /** The dictionary filled by `metadata_assets`. */
  function Sizes(rows: seq<RemoteSize>): map<string, int> {
    if rows == [] then map[]
    else
      var last := rows[|rows| - 1];
      Sizes(rows[..|rows| - 1])[last.name := last.size]
  }

  lemma {:induction false} SizesKeys(rows: seq<RemoteSize>)
    ensures forall x :: x in Sizes(rows) <==> x in RemoteNames(rows)
  {
    if rows != [] {
      var front := rows[..|rows| - 1];
      SizesKeys(front);
      assert RemoteNames(rows) == RemoteNames(front) + [rows[|rows| - 1].name];
    }
  }

  /** `metadata_assets` as the loop it is: the dictionary under construction also
      detects duplicate names. */
  method MetadataAssets(rows: seq<RemoteSize>) returns (result: Option<map<string, int>>)
    ensures result == if RemoteOk(rows) then Some(Sizes(rows)) else None
  {
    var sizes: map<string, int> := map[];
    for n := 0 to |rows|
      invariant sizes == Sizes(rows[..n])
      invariant forall i :: 0 <= i < n ==> IsDistName(rows[i].name) && rows[i].size >= 0
      invariant forall i, j :: 0 <= i < j < n ==> rows[i].name != rows[j].name
    {
      var row := rows[n];
      SizesKeys(rows[..n]);
      assert rows[..n + 1][..n] == rows[..n];
      if !IsDistName(row.name) || row.size < 0 {
        return None;
      }
      if row.name in sizes {
        var i :| 0 <= i < n && RemoteNames(rows[..n])[i] == row.name;
        assert RemoteNames(rows)[i] == RemoteNames(rows)[n];
        return None;
      }
      assert forall i :: 0 <= i < n ==> RemoteNames(rows[..n])[i] == rows[i].name;
      sizes := sizes[row.name := row.size];
    }
    assert rows[..|rows|] == rows;
    result := Some(sizes);
  }

  // ------------------------------------------------------------ differences

  /** The names of `xs` that are not in `known`, in order. */
  function Without(xs: seq<string>, known: set<string>): seq<string> {
    if xs == [] then []
    else if xs[0] in known then Without(xs[1..], known)
    else [xs[0]] + Without(xs[1..], known)
  }

  lemma {:induction false} WithoutMembers(xs: seq<string>, known: set<string>)
    ensures forall x :: x in Without(xs, known) <==> x in xs && x !in known
    ensures Distinct(xs) ==> Distinct(Without(xs, known))
  {
    if xs != [] {
      WithoutMembers(xs[1..], known);
      assert xs == [xs[0]] + xs[1..];
      if Distinct(xs) {
        assert xs[0] !in xs[1..];
        assert Distinct(xs[1..]);
      }
    }
  }

  function Missing(assets: seq<Asset>, sizes: map<string, int>): seq<string> {
    Sort(Without(AssetNames(assets), sizes.Keys), StringLe)
  }

  function Extra(assets: seq<Asset>, rows: seq<RemoteSize>): seq<string> {
    Sort(Without(RemoteNames(rows), NameSet(assets)), StringLe)
  }

  predicate Differs(a: Asset, sizes: map<string, int>) {
    a.name in sizes && a.size != sizes[a.name]
  }

  function MismatchRows(assets: seq<Asset>, sizes: map<string, int>): seq<SizeMismatch> {
    if assets == [] then []
    else
      var rest := MismatchRows(assets[1..], sizes);
      if Differs(assets[0], sizes) then [SizeMismatch(assets[0].name, assets[0].size, sizes[assets[0].name])] + rest
      else rest
  }

  function Mismatches(assets: seq<Asset>, sizes: map<string, int>): seq<SizeMismatch> {
    MismatchRows(Sort(assets, AssetLe), sizes)
  }

  function MismatchNames(rows: seq<SizeMismatch>): (names: seq<string>)
    ensures |names| == |rows|
    ensures forall i :: 0 <= i < |rows| ==> names[i] == rows[i].name
  {
    Project(rows, (r: SizeMismatch) => r.name)
  }

  // ------------------------------------------------------------ the planner

  /** `build_plan` */
  function BuildPlan(m: Manifest, meta: Metadata, tag: string, generatedAt: Stamp): Outcome {
    if !IsStableTag(tag) || !ManifestOk(m, tag) then Rejected
    else if meta.Absent? then
      Returned(Plan(tag, generatedAt, CreateDraftUploadPublish, StateAbsent, |m.assets|, 0, [], [], [], None))
    else if meta.tag != tag || !RemoteOk(meta.assets) then Rejected
    else
      var sizes := Sizes(meta.assets);
      var missing := Missing(m.assets, sizes);
      var extra := Extra(m.assets, meta.assets);
      var mismatches := Mismatches(m.assets, sizes);
      var refusal := Plan(tag, generatedAt, FailManualRecoveryRequired, StateDraft, |m.assets|, |sizes|,
                          missing, extra, mismatches, Some(DeleteDraft));
      if meta.draft then Raised(refusal)
      else if meta.prerelease then Raised(refusal.(state := StatePrerelease, recovery := Some(RepairPrerelease)))
      else if missing != [] || extra != [] || mismatches != [] then
        Raised(refusal.(state := StatePublic, recovery := Some(DeleteOrRetag)))
      else
        Returned(Plan(tag, generatedAt, ValidateExistingPublicRelease, StatePublic, |m.assets|, |sizes|,
                      [], [], [], None))
  }

  predicate NameListOk(names: seq<string>) {
    (forall i :: 0 <= i < |names| ==> IsDistName(names[i])) && Distinct(names)
  }

  predicate MismatchListOk(rows: seq<SizeMismatch>) {
    && (forall i :: 0 <= i < |rows| ==> IsDistName(rows[i].name) && rows[i].expected >= 0 && rows[i].observed >= 0)
    && Distinct(MismatchNames(rows))
  }

  /** `require_name_list` */
  method CheckNameList(names: seq<string>) returns (ok: bool)
    ensures ok <==> NameListOk(names)
  {
    var seen: set<string> := {};
    for n := 0 to |names|
      invariant seen == set i | 0 <= i < n :: names[i]
      invariant NameListOk(names[..n])
    {
      if !IsDistName(names[n]) || names[n] in seen {
        return false;
      }
      seen := seen + {names[n]};
    }
    assert names[..|names|] == names;
    ok := true;
  }

  /** `verify_plan` */
  predicate VerifyPlan(p: Plan, m: Manifest, meta: Metadata, tag: string) {
    && p.releaseTag == tag
    && p.generatedAt.parses
    && NameListOk(p.missing)
    && NameListOk(p.extra)
    && MismatchListOk(p.mismatches)
    && var rebuilt := BuildPlan(m, meta, tag, p.generatedAt);
    && !rebuilt.Rejected?
    && rebuilt.plan == p
  }

  // ------------------------------------------------------------ theorems

  /** The missing and extra lists hold exactly the names on one side only, once each, in
      order. */
  lemma NameDifferencesExact(assets: seq<Asset>, rows: seq<RemoteSize>)
    requires AssetsOk(assets) && RemoteOk(rows)
    ensures var missing, extra := Missing(assets, Sizes(rows)), Extra(assets, rows);
            && (forall x :: x in missing <==> x in NameSet(assets) && x !in Sizes(rows))
            && (forall x :: x in extra <==> x in Sizes(rows) && x !in NameSet(assets))
            && NameListOk(missing) && NameListOk(extra)
            && SortedBy(missing, StringLe) && SortedBy(extra, StringLe)
  {
    StringLeTotalOrder();
    SizesKeys(rows);
    var names, remote := AssetNames(assets), RemoteNames(rows);
    WithoutMembers(names, Sizes(rows).Keys);
    WithoutMembers(remote, NameSet(assets));
    SortCorrect(Without(names, Sizes(rows).Keys), StringLe);
    SortCorrect(Without(remote, NameSet(assets)), StringLe);
    SortKeepsDistinct(Without(names, Sizes(rows).Keys), StringLe);
    SortKeepsDistinct(Without(remote, NameSet(assets)), StringLe);
    assert forall x :: x in names <==> x in NameSet(assets);
    assert forall x :: x in names ==> IsDistName(x);
    assert forall x :: x in remote ==> IsDistName(x);
    var missing, extra := Missing(assets, Sizes(rows)), Extra(assets, rows);
    assert forall i :: 0 <= i < |missing| ==> missing[i] in missing;
    assert forall i :: 0 <= i < |extra| ==> extra[i] in extra;
  }

  lemma {:induction false} MismatchRowsExact(assets: seq<Asset>, sizes: map<string, int>)
    ensures forall r :: r in MismatchRows(assets, sizes) <==>
              exists a :: a in assets && Differs(a, sizes) && r == SizeMismatch(a.name, a.size, sizes[a.name])
  {
    if assets != [] {
      var head, tail := assets[0], assets[1..];
      assert assets == [head] + tail;
      assert forall a :: a in assets <==> a == head || a in tail;
      MismatchRowsExact(tail, sizes);
    }
  }

  lemma DistinctNamesTail(assets: seq<Asset>)
    requires assets != [] && Distinct(AssetNames(assets))
    ensures Distinct(AssetNames(assets[1..]))
    ensures forall a :: a in assets[1..] ==> a.name != assets[0].name
  {
    assert AssetNames(assets) == [assets[0].name] + AssetNames(assets[1..]);
    forall a | a in assets[1..] ensures a.name != assets[0].name {
      var k :| 0 <= k < |assets[1..]| && assets[1..][k] == a;
      assert AssetNames(assets)[0] != AssetNames(assets)[k + 1];
    }
  }

  lemma NotAmongMismatches(assets: seq<Asset>, sizes: map<string, int>, name: string)
    requires forall a :: a in assets ==> a.name != name
    ensures name !in MismatchNames(MismatchRows(assets, sizes))
  {
    var rows := MismatchRows(assets, sizes);
    MismatchRowsExact(assets, sizes);
    forall i | 0 <= i < |rows| ensures MismatchNames(rows)[i] != name {
      assert rows[i] in rows;
    }
  }

  lemma {:induction false} MismatchNamesDistinct(assets: seq<Asset>, sizes: map<string, int>)
    requires Distinct(AssetNames(assets))
    ensures Distinct(MismatchNames(MismatchRows(assets, sizes)))
  {
    if assets != [] {
      var rest := MismatchRows(assets[1..], sizes);
      DistinctNamesTail(assets);
      MismatchNamesDistinct(assets[1..], sizes);
      if Differs(assets[0], sizes) {
        assert MismatchNames(MismatchRows(assets, sizes)) == [assets[0].name] + MismatchNames(rest);
        NotAmongMismatches(assets[1..], sizes, assets[0].name);
        DistinctCons(assets[0].name, MismatchNames(rest));
      }
    }
  }

  /** The mismatch list holds exactly the common names whose sizes differ, with both sizes. */
  lemma MismatchesExact(assets: seq<Asset>, rows: seq<RemoteSize>)
    requires AssetsOk(assets) && RemoteOk(rows)
    ensures var sizes := Sizes(rows);
            && (forall r :: r in Mismatches(assets, sizes) <==>
                  exists a :: a in assets && Differs(a, sizes) && r == SizeMismatch(a.name, a.size, sizes[a.name]))
            && MismatchListOk(Mismatches(assets, sizes))
  {
    var sizes := Sizes(rows);
    var list := Mismatches(assets, sizes);
    SortedAssets(assets);
    MismatchRowsExact(Sort(assets, AssetLe), sizes);
    MismatchNamesDistinct(Sort(assets, AssetLe), sizes);
    SizesNonNegative(rows);
    forall i | 0 <= i < |list| ensures IsDistName(list[i].name) && list[i].expected >= 0 && list[i].observed >= 0 {
      assert list[i] in list;
      var a :| a in assets && Differs(a, sizes) && list[i] == SizeMismatch(a.name, a.size, sizes[a.name]);
    }
  }

  lemma {:induction false} SizesNonNegative(rows: seq<RemoteSize>)
    requires forall i :: 0 <= i < |rows| ==> rows[i].size >= 0
    ensures forall x :: x in Sizes(rows) ==> Sizes(rows)[x] >= 0
  {
    if rows != [] {
      SizesNonNegative(rows[..|rows| - 1]);
    }
  }

  /** Every plan the planner returns or raises verifies, exactly when its timestamp parses. */
  lemma EveryPlanVerifies(m: Manifest, meta: Metadata, tag: string, generatedAt: Stamp)
    requires !BuildPlan(m, meta, tag, generatedAt).Rejected?
    ensures VerifyPlan(BuildPlan(m, meta, tag, generatedAt).plan, m, meta, tag) <==> generatedAt.parses
  {
    if meta.Existing? {
      NameDifferencesExact(m.assets, meta.assets);
      MismatchesExact(m.assets, meta.assets);
    }
  }

  /** Remote and manifest agree on every name and every size. */
  predicate SameNamesAndSizes(assets: seq<Asset>, sizes: map<string, int>) {
    && sizes.Keys == NameSet(assets)
    && forall i :: 0 <= i < |assets| ==> assets[i].name in sizes && sizes[assets[i].name] == assets[i].size
  }

  lemma NoNameDifferencesExactly(assets: seq<Asset>, rows: seq<RemoteSize>)
    requires AssetsOk(assets) && RemoteOk(rows)
    ensures Missing(assets, Sizes(rows)) == [] && Extra(assets, rows) == [] <==> NameSet(assets) == Sizes(rows).Keys
  {
    NameDifferencesExact(assets, rows);
    var missing, extra := Missing(assets, Sizes(rows)), Extra(assets, rows);
    assert |missing| > 0 ==> missing[0] in missing;
    assert |extra| > 0 ==> extra[0] in extra;
  }

  lemma NoMismatchesExactly(assets: seq<Asset>, rows: seq<RemoteSize>)
    requires AssetsOk(assets) && RemoteOk(rows)
    ensures Mismatches(assets, Sizes(rows)) == [] <==> forall a :: a in assets ==> !Differs(a, Sizes(rows))
  {
    var sizes := Sizes(rows);
    MismatchesExact(assets, rows);
    var mismatches := Mismatches(assets, sizes);
    assert forall a :: a in assets && Differs(a, sizes) ==>
        SizeMismatch(a.name, a.size, sizes[a.name]) in mismatches;
    assert |mismatches| > 0 ==> mismatches[0] in mismatches;
  }

  lemma NoDifferencesExactly(assets: seq<Asset>, rows: seq<RemoteSize>)
    requires AssetsOk(assets) && RemoteOk(rows)
    ensures var sizes := Sizes(rows);
            Missing(assets, sizes) == [] && Extra(assets, rows) == [] && Mismatches(assets, sizes) == [] <==>
              SameNamesAndSizes(assets, sizes)
  {
    var sizes := Sizes(rows);
    NoNameDifferencesExactly(assets, rows);
    NoMismatchesExactly(assets, rows);
    assert forall i :: 0 <= i < |assets| ==> assets[i] in assets && AssetNames(assets)[i] in NameSet(assets);
  }

  /** The planner's decision, by cases a reader can check without the lists: it creates
      only when nothing is there, validates only a public release that agrees in every
      name and size, and refuses everything else. */
  lemma DecisionExactly(m: Manifest, meta: Metadata, tag: string, generatedAt: Stamp)
    requires IsStableTag(tag) && ManifestOk(m, tag)
    requires meta.Existing? ==> meta.tag == tag && RemoteOk(meta.assets)
    ensures var outcome := BuildPlan(m, meta, tag, generatedAt);
            && !outcome.Rejected?
            && (outcome.plan.action == CreateDraftUploadPublish <==> meta.Absent?)
            && (outcome.plan.action == ValidateExistingPublicRelease <==>
                  meta.Existing? && !meta.draft && !meta.prerelease && SameNamesAndSizes(m.assets, Sizes(meta.assets)))
            && (outcome.Raised? <==> outcome.plan.action == FailManualRecoveryRequired)
            && (outcome.Raised? <==> outcome.plan.recovery.Some?)
  {
    if meta.Existing? {
      NoDifferencesExactly(m.assets, meta.assets);
    }
  }

  /** The release a completed create plan leaves behind. */
  function Completed(m: Manifest, tag: string): Metadata {
    Existing(tag, false, false,
             seq(|m.assets|, i requires 0 <= i < |m.assets| => RemoteSize(m.assets[i].name, m.assets[i].size)))
  }

  lemma {:induction false} SizesAt(rows: seq<RemoteSize>, i: nat)
    requires Distinct(RemoteNames(rows)) && i < |rows|
    ensures rows[i].name in Sizes(rows) && Sizes(rows)[rows[i].name] == rows[i].size
  {
    var n := |rows| - 1;
    if i < n {
      var front := rows[..n];
      assert Distinct(RemoteNames(front)) by {
        forall a, b | 0 <= a < b < |front| ensures RemoteNames(front)[a] != RemoteNames(front)[b] {
          assert RemoteNames(rows)[a] != RemoteNames(rows)[b];
        }
      }
      SizesAt(front, i);
      assert RemoteNames(rows)[i] != RemoteNames(rows)[n];
    }
  }

  /** Re-planning on what a completed create plan produced asks only for validation. */
  lemma ReplanAfterCreate(m: Manifest, tag: string, first: Stamp, second: Stamp)
    requires BuildPlan(m, Absent, tag, first).Returned?
    ensures var again := BuildPlan(m, Completed(m, tag), tag, second);
            again.Returned? && again.plan.action == ValidateExistingPublicRelease
  {
    var rows := Completed(m, tag).assets;
    assert RemoteNames(rows) == AssetNames(m.assets);
    SizesKeys(rows);
    forall i | 0 <= i < |m.assets|
      ensures m.assets[i].name in Sizes(rows) && Sizes(rows)[m.assets[i].name] == m.assets[i].size
    {
      SizesAt(rows, i);
    }
    assert Sizes(rows).Keys == NameSet(m.assets);
    DecisionExactly(m, Completed(m, tag), tag, second);
  }
}
