// The upload manifest of an assembled release: its rows, computed from the files on disk and from
// the integrity subjects, and what becomes of them when the manifest itself is written there.
module UploadManifest {
  import opened Common
  import opened Ordering
  import opened ReleaseAssets
  import opened Packager

  /** The files of the distribution directory. */
  type Dist = map<string, Bytes>

  function RowFor(sha: Digest, dist: Dist, name: string, kind: string): Asset
    requires name in dist
  {
    Asset(name, kind, sha(dist[name]), |dist[name]|)
  }

  predicate ProofsPresent(dist: Dist) {
    forall n :: n in CORE_PROOFS ==> n in dist
  }

  /** The integrity predicate and the two files that attest it, after the subjects. */
  function ProofRows(sha: Digest, dist: Dist): seq<Asset>
    requires ProofsPresent(dist)
  {
    assert INTEGRITY_NAME == CORE_PROOFS[0] && ATTESTATION_BUNDLE_NAME == CORE_PROOFS[1] &&
           ATTESTATION_METADATA_NAME == CORE_PROOFS[2];
    [RowFor(sha, dist, INTEGRITY_NAME, "release-integrity-predicate"),
     RowFor(sha, dist, ATTESTATION_BUNDLE_NAME, "github-artifact-attestation-bundle"),
     RowFor(sha, dist, ATTESTATION_METADATA_NAME, "release-attestation-metadata")]
  }

  /** A subject that is well formed and describes the file on disk. */
  predicate SubjectOk(sha: Digest, dist: Dist, a: Asset) {
    AssetOk(a) && a.name in dist && sha(dist[a.name]) == a.sha256 && |dist[a.name]| == a.size
  }

  predicate SubjectsOk(sha: Digest, dist: Dist, subjects: seq<Asset>) {
    (forall a :: a in subjects ==> SubjectOk(sha, dist, a)) && Distinct(AssetNames(subjects))
  }

  lemma SubjectsSnoc(sha: Digest, dist: Dist, front: seq<Asset>, a: Asset)
    ensures SubjectsOk(sha, dist, front + [a]) <==>
              SubjectsOk(sha, dist, front) && SubjectOk(sha, dist, a) && a.name !in NameSet(front)
    ensures NameSet(front + [a]) == NameSet(front) + {a.name}
  {
    assert AssetNames(front + [a]) == AssetNames(front) + [a.name];
    assert forall x :: x in front + [a] <==> x in front || x == a;
    DistinctSnoc(AssetNames(front), a.name);
  }

  lemma {:induction false} SubjectsPrefix(sha: Digest, dist: Dist, subjects: seq<Asset>, n: nat)
    requires n <= |subjects| && SubjectsOk(sha, dist, subjects)
    ensures SubjectsOk(sha, dist, subjects[..n])
    decreases |subjects|
  {
    if n < |subjects| {
      var front := subjects[..|subjects| - 1];
      assert subjects == front + [subjects[|subjects| - 1]];
      SubjectsSnoc(sha, dist, front, subjects[|subjects| - 1]);
      SubjectsPrefix(sha, dist, front, n);
      assert front[..n] == subjects[..n];
    } else {
      assert subjects[..n] == subjects;
    }
  }

  /** What `expected_public_assets` returns, or nothing when it refuses. */
  function Expected(sha: Digest, dist: Dist, subjects: seq<Asset>): Option<seq<Asset>> {
    if SubjectsOk(sha, dist, subjects) && ProofsPresent(dist) then Some(subjects + ProofRows(sha, dist)) else None
  }

  /** `expected_public_assets`: a pass over the subjects with the names seen so far, each checked
      against its file, then the three proof rows, which need no duplicate check. */
  method ExpectedPublicAssets(sha: Digest, dist: Dist, subjects: seq<Asset>) returns (result: Option<seq<Asset>>)
    ensures result == Expected(sha, dist, subjects)
  {
    var rows: seq<Asset> := [];
    var seen: set<string> := {};
    for n := 0 to |subjects|
      invariant rows == subjects[..n] && SubjectsOk(sha, dist, rows) && seen == NameSet(rows)
    {
      var a := subjects[n];
      assert subjects[..n + 1] == rows + [a];
      SubjectsSnoc(sha, dist, rows, a);
      if a.name in seen || !SubjectOk(sha, dist, a) {
        if SubjectsOk(sha, dist, subjects) {
          SubjectsPrefix(sha, dist, subjects, n + 1);
        }
        return None;
      }
      seen := seen + {a.name};
      rows := rows + [a];
    }
    assert rows == subjects;
    if INTEGRITY_NAME !in dist || ATTESTATION_BUNDLE_NAME !in dist || ATTESTATION_METADATA_NAME !in dist {
      assert CORE_PROOFS[0] in CORE_PROOFS && CORE_PROOFS[1] in CORE_PROOFS && CORE_PROOFS[2] in CORE_PROOFS;
      return None;
    }
    result := Some(rows + ProofRows(sha, dist));
  }

  /** The part of `verify_manifest` about public assets: the listed rows are those expected now. */
  predicate PublicRowsVerify(sha: Digest, dist: Dist, subjects: seq<Asset>, listed: seq<Asset>) {
    var expected := Expected(sha, dist, subjects);
    expected.Some? && AssetsOk(listed) && ByName(listed) == ByName(expected.value)
  }

  // ------------------------------------------------------------ from assembly to manifest

  /** The subjects of the integrity material, made from the files on disk. */
  function TupleSubjects(sha: Digest, dist: Dist, xs: seq<TupleArtifact>): seq<Asset>
    requires forall n :: n in TupleNames(xs) ==> n in dist
  {
    if xs == [] then []
    else
      var front, last := xs[..|xs| - 1], xs[|xs| - 1];
      assert last.bundle in TupleNames(xs) && last.metadata in TupleNames(xs);
      TupleSubjects(sha, dist, front) +
      [RowFor(sha, dist, last.bundle, "release-bundle"), RowFor(sha, dist, last.metadata, "bundle-metadata")]
  }

  predicate AllPresent(dist: Dist, names: seq<string>) {
    forall n :: n in names ==> n in dist
  }

  function CoreSubjects(sha: Digest, dist: Dist): seq<Asset>
    requires AllPresent(dist, CORE_SUBJECTS)
  {
    assert INSTALL_NAME == CORE_SUBJECTS[0] && ASSET_INDEX_NAME == CORE_SUBJECTS[1] &&
           SELECTOR_NAME == CORE_SUBJECTS[2] && BUILD_MANIFEST_NAME == CORE_SUBJECTS[3];
    [RowFor(sha, dist, INSTALL_NAME, "installer"),
     RowFor(sha, dist, ASSET_INDEX_NAME, "asset-index"),
     RowFor(sha, dist, SELECTOR_NAME, "bootstrap-selector"),
     RowFor(sha, dist, BUILD_MANIFEST_NAME, "build-manifest")]
  }

  /** A row that describes its file. */
  predicate RowDescribes(sha: Digest, dist: Dist, a: Asset) {
    a.kind != "" && a.name in dist && a.sha256 == sha(dist[a.name]) && a.size == |dist[a.name]|
  }

  predicate AllDescribe(sha: Digest, dist: Dist, rows: seq<Asset>) {
    forall a :: a in rows ==> RowDescribes(sha, dist, a)
  }

  lemma {:induction false} TupleSubjectNames(sha: Digest, dist: Dist, xs: seq<TupleArtifact>)
    requires forall n :: n in TupleNames(xs) ==> n in dist
    ensures AssetNames(TupleSubjects(sha, dist, xs)) == TupleNames(xs)
    ensures AllDescribe(sha, dist, TupleSubjects(sha, dist, xs))
  {
    if xs != [] {
      var front, last := xs[..|xs| - 1], xs[|xs| - 1];
      assert last.bundle in TupleNames(xs) && last.metadata in TupleNames(xs);
      TupleSubjectNames(sha, dist, front);
      RowsConcat(sha, dist, TupleSubjects(sha, dist, front),
                 [RowFor(sha, dist, last.bundle, "release-bundle"), RowFor(sha, dist, last.metadata, "bundle-metadata")]);
    }
  }

  function Subjects(sha: Digest, dist: Dist, assets: seq<TupleArtifact>): seq<Asset>
    requires AllPresent(dist, PublicNames(assets))
  {
    SubjectsPresent(dist, assets);
    TupleSubjects(sha, dist, assets) + CoreSubjects(sha, dist)
  }

  lemma SubjectsPresent(dist: Dist, assets: seq<TupleArtifact>)
    requires AllPresent(dist, PublicNames(assets))
    ensures AllPresent(dist, TupleNames(assets)) && AllPresent(dist, CORE_SUBJECTS) && ProofsPresent(dist)
  {
    assert forall n :: n in TupleNames(assets) ==> n in PublicNames(assets);
    assert forall n :: n in CORE_SUBJECTS ==> n in PublicNames(assets);
    assert forall n :: n in CORE_PROOFS ==> n in PublicNames(assets);
  }

  /** The rows of the manifest carry the public names in order, and each describes its file. */
  lemma ManifestRows(sha: Digest, dist: Dist, assets: seq<TupleArtifact>)
    requires AllPresent(dist, PublicNames(assets))
    ensures ProofsPresent(dist)
    ensures var rows := Subjects(sha, dist, assets) + ProofRows(sha, dist);
            AssetNames(rows) == PublicNames(assets) && AllDescribe(sha, dist, rows)
  {
    SubjectsPresent(dist, assets);
    TupleSubjectNames(sha, dist, assets);
    FixedRows(sha, dist);
    var tuples, core, proofs := TupleSubjects(sha, dist, assets), CoreSubjects(sha, dist), ProofRows(sha, dist);
    RowsConcat(sha, dist, tuples, core);
    RowsConcat(sha, dist, tuples + core, proofs);
  }

  lemma FixedRows(sha: Digest, dist: Dist)
    requires AllPresent(dist, CORE_SUBJECTS) && ProofsPresent(dist)
    ensures AssetNames(CoreSubjects(sha, dist)) == CORE_SUBJECTS && AllDescribe(sha, dist, CoreSubjects(sha, dist))
    ensures AssetNames(ProofRows(sha, dist)) == CORE_PROOFS && AllDescribe(sha, dist, ProofRows(sha, dist))
  {
  }

  lemma RowsConcat(sha: Digest, dist: Dist, a: seq<Asset>, b: seq<Asset>)
    requires AllDescribe(sha, dist, a) && AllDescribe(sha, dist, b)
    ensures AllDescribe(sha, dist, a + b) && AssetNames(a + b) == AssetNames(a) + AssetNames(b)
  {
    assert forall x :: x in a + b <==> x in a || x in b;
  }

  lemma DescribedRowsOk(sha: Digest, dist: Dist, rows: seq<Asset>)
    requires AllDescribe(sha, dist, rows) && Distinct(AssetNames(rows))
    requires forall n :: n in AssetNames(rows) ==> IsDistName(n)
    requires forall b :: IsSha256Hex(sha(b))
    ensures AssetsOk(rows) && SubjectsOk(sha, dist, rows)
  {
    forall i | 0 <= i < |rows| ensures SubjectOk(sha, dist, rows[i]) {
      assert rows[i] in rows && RowDescribes(sha, dist, rows[i]);
      assert AssetNames(rows)[i] in AssetNames(rows);
    }
  }

  lemma InstallNameUsable()
    ensures IsDistName(INSTALL_NAME)
  {
  }

  lemma IndexNameUsable()
    ensures IsDistName(ASSET_INDEX_NAME)
  {
  }

  lemma SelectorNameUsable()
    ensures IsDistName(SELECTOR_NAME)
  {
  }

  lemma BuildNameUsable()
    ensures IsDistName(BUILD_MANIFEST_NAME)
  {
  }

  lemma IntegrityNameUsable()
    ensures IsDistName(INTEGRITY_NAME)
  {
  }

  lemma AttestationNameUsable()
    ensures IsDistName(ATTESTATION_BUNDLE_NAME)
  {
  }

  lemma MetadataNameUsable()
    ensures IsDistName(ATTESTATION_METADATA_NAME)
  {
  }

  lemma CoreNamesUsable(n: string)
    requires n in Core()
    ensures IsDistName(n)
  {
    InstallNameUsable();
    IndexNameUsable();
    SelectorNameUsable();
    BuildNameUsable();
    IntegrityNameUsable();
    AttestationNameUsable();
    MetadataNameUsable();
    CoreNamesDistinct();
  }

  lemma PublicNamesUsable(default: TupleArtifact, extras: seq<TupleArtifact>)
    requires forall n :: n in TupleNames([default] + extras) ==> IsDistName(n)
    ensures forall n :: n in PublicNames(Sort([default] + extras, ArtifactLe)) ==> IsDistName(n)
  {
    var all := [default] + extras;
    var assets := Sort(all, ArtifactLe);
    UniqueUnderSort(all);
    TupleNamesMembers(all);
    TupleNamesMembers(assets);
    NamesInParts(assets);
    forall n | n in PublicNames(assets) ensures IsDistName(n) {
      if n in Core() {
        CoreNamesUsable(n);
      } else {
        assert n in TupleNames(assets) && n in TupleNames(all);
      }
    }
  }

  /** From any accepted assembly whose files are on disk the upload manifest is built, with the
      public names in order, and both the planner and the inventory accept it. */
  lemma AssemblyGivesManifest(sha: Digest, dist: Dist, default: TupleArtifact, extras: seq<TupleArtifact>, tag: string)
    requires Assembles([default] + extras)
    requires AllPresent(dist, PublicNames(Sort([default] + extras, ArtifactLe)))
    requires forall n :: n in TupleNames([default] + extras) ==> IsDistName(n)
    requires forall b :: IsSha256Hex(sha(b))
    ensures var assets := Sort([default] + extras, ArtifactLe);
            var expected := Expected(sha, dist, Subjects(sha, dist, assets));
            && expected.Some?
            && AssetNames(expected.value) == PublicNames(assets)
            && |expected.value| == 9 + 2 * |extras|
            && ManifestOk(Manifest(tag, expected.value), tag)
  {
    var assets := Sort([default] + extras, ArtifactLe);
    AssembledNamesDistinct(default, extras);
    PublicNamesUsable(default, extras);
    ManifestRows(sha, dist, assets);
    var subjects, proofs := Subjects(sha, dist, assets), ProofRows(sha, dist);
    var rows := subjects + proofs;
    DescribedRowsOk(sha, dist, rows);
    assert AssetNames(rows)[..|subjects|] == AssetNames(subjects);
    assert forall a :: a in subjects ==> a in rows;
  }

  /** Every row of the manifest has the kind that goes with its place: bundles, their metadata, the
      four core subjects and the three proofs. */
  lemma ManifestKinds(sha: Digest, dist: Dist, assets: seq<TupleArtifact>, a: TupleArtifact)
    requires AllPresent(dist, PublicNames(assets)) && a in assets
    ensures ProofsPresent(dist)
    ensures var rows := Subjects(sha, dist, assets) + ProofRows(sha, dist);
            && HasRow(rows, a.bundle, "release-bundle")
            && HasRow(rows, a.metadata, "bundle-metadata")
            && HasRow(rows, "install.sh", "installer")
            && HasRow(rows, "m80-release-assets.json", "asset-index")
            && HasRow(rows, "m80-bootstrap-selector.tsv", "bootstrap-selector")
            && HasRow(rows, "m80-release-build.json", "build-manifest")
            && HasRow(rows, "m80-release-integrity.json", "release-integrity-predicate")
            && HasRow(rows, "m80-release-integrity.attestation.jsonl", "github-artifact-attestation-bundle")
            && HasRow(rows, "m80-release-attestation.json", "release-attestation-metadata")
  {
    SubjectsPresent(dist, assets);
    TupleKinds(sha, dist, assets, a);
    var tuples, core, proofs := TupleSubjects(sha, dist, assets), CoreSubjects(sha, dist), ProofRows(sha, dist);
    CoreKinds(sha, dist);
    RowsKept(tuples, core, proofs);
  }

  predicate HasRow(rows: seq<Asset>, name: string, kind: string) {
    exists r :: r in rows && r.name == name && r.kind == kind
  }

  lemma RowsKept(a: seq<Asset>, b: seq<Asset>, c: seq<Asset>)
    ensures forall name, kind :: HasRow(a, name, kind) || HasRow(b, name, kind) || HasRow(c, name, kind) ==>
              HasRow(a + b + c, name, kind)
  {
    assert forall r :: r in a || r in b || r in c ==> r in a + b + c;
  }

  lemma CoreKinds(sha: Digest, dist: Dist)
    requires AllPresent(dist, CORE_SUBJECTS) && ProofsPresent(dist)
    ensures var core := CoreSubjects(sha, dist);
            && HasRow(core, "install.sh", "installer")
            && HasRow(core, "m80-release-assets.json", "asset-index")
            && HasRow(core, "m80-bootstrap-selector.tsv", "bootstrap-selector")
            && HasRow(core, "m80-release-build.json", "build-manifest")
    ensures var proofs := ProofRows(sha, dist);
            && HasRow(proofs, "m80-release-integrity.json", "release-integrity-predicate")
            && HasRow(proofs, "m80-release-integrity.attestation.jsonl", "github-artifact-attestation-bundle")
            && HasRow(proofs, "m80-release-attestation.json", "release-attestation-metadata")
  {
    var core, proofs := CoreSubjects(sha, dist), ProofRows(sha, dist);
    assert core[0] in core && core[1] in core && core[2] in core && core[3] in core;
    assert proofs[0] in proofs && proofs[1] in proofs && proofs[2] in proofs;
  }

  lemma {:induction false} TupleKinds(sha: Digest, dist: Dist, xs: seq<TupleArtifact>, a: TupleArtifact)
    requires AllPresent(dist, TupleNames(xs)) && a in xs
    ensures HasRow(TupleSubjects(sha, dist, xs), a.bundle, "release-bundle")
    ensures HasRow(TupleSubjects(sha, dist, xs), a.metadata, "bundle-metadata")
  {
    var front, last := xs[..|xs| - 1], xs[|xs| - 1];
    var rows := TupleSubjects(sha, dist, xs);
    assert last.bundle in TupleNames(xs) && last.metadata in TupleNames(xs);
    var own := [RowFor(sha, dist, last.bundle, "release-bundle"), RowFor(sha, dist, last.metadata, "bundle-metadata")];
    assert rows == TupleSubjects(sha, dist, front) + own;
    assert own[0] in rows && own[1] in rows;
    if a != last {
      assert xs == front + [last];
      TupleKinds(sha, dist, front, a);
    }
  }

  // ------------------------------------------------------------ writing the manifest next to the files

  lemma ManifestNameIsNoProof()
    ensures UPLOAD_MANIFEST_NAME !in CORE_PROOFS
  {
    assert |UPLOAD_MANIFEST_NAME| == 32 && |INTEGRITY_NAME| == 26;
    assert |ATTESTATION_BUNDLE_NAME| == 39 && |ATTESTATION_METADATA_NAME| == 28;
  }

  lemma ProofRowsUnaffected(sha: Digest, dist: Dist, written: Bytes)
    requires ProofsPresent(dist)
    ensures ProofsPresent(dist[UPLOAD_MANIFEST_NAME := written])
    ensures ProofRows(sha, dist[UPLOAD_MANIFEST_NAME := written]) == ProofRows(sha, dist)
  {
    ManifestNameIsNoProof();
    assert CORE_PROOFS[0] in CORE_PROOFS && CORE_PROOFS[1] in CORE_PROOFS && CORE_PROOFS[2] in CORE_PROOFS;
  }

  /** The manifest is written into the directory it describes and verified there: this passes
      exactly when no subject has the manifest's own name, or the written text happens to have the
      digest and the size of the file it replaced. */
  lemma WrittenManifestVerifiesExactly(sha: Digest, dist: Dist, subjects: seq<Asset>, written: Bytes)
    requires Expected(sha, dist, subjects).Some? && AssetsOk(Expected(sha, dist, subjects).value)
    ensures PublicRowsVerify(sha, dist[UPLOAD_MANIFEST_NAME := written], subjects, Expected(sha, dist, subjects).value) <==>
              (UPLOAD_MANIFEST_NAME in NameSet(subjects) ==>
                 && UPLOAD_MANIFEST_NAME in dist
                 && sha(written) == sha(dist[UPLOAD_MANIFEST_NAME])
                 && |written| == |dist[UPLOAD_MANIFEST_NAME]|)
  {
    var after := dist[UPLOAD_MANIFEST_NAME := written];
    ProofRowsUnaffected(sha, dist, written);
    if UPLOAD_MANIFEST_NAME in NameSet(subjects) {
      var i := NameIndex(subjects, UPLOAD_MANIFEST_NAME);
      assert subjects[i] in subjects && SubjectOk(sha, dist, subjects[i]);
      assert SubjectsOk(sha, after, subjects) ==> SubjectOk(sha, after, subjects[i]);
    }
    forall a | a in subjects ensures a.name in NameSet(subjects) {
      var i :| 0 <= i < |subjects| && subjects[i] == a;
      assert AssetNames(subjects)[i] == a.name;
    }
  }
}
