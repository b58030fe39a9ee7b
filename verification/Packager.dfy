// From release tuples to public asset names: assembly, integrity subjects, upload
// manifest and the stable channel's required set.
module Packager {
  import opened Common
  import opened Ordering
  import opened ReleaseAssets

  /** A bundle with its metadata sidecar, keyed by operating system, architecture and image kind. */
  datatype TupleArtifact = TupleArtifact(bundle: string, metadata: string, os: string, arch: string, imageKind: string)

  const BUNDLE_NAME := "m80-linux-x86_64.tar.gz"
  const METADATA_NAME := "m80-linux-x86_64.bundle.json"
  const INSTALL_NAME := "install.sh"
  const ASSET_INDEX_NAME := "m80-release-assets.json"
  const SELECTOR_NAME := "m80-bootstrap-selector.tsv"
  const BUILD_MANIFEST_NAME := "m80-release-build.json"
  const INTEGRITY_NAME := "m80-release-integrity.json"
  const ATTESTATION_BUNDLE_NAME := "m80-release-integrity.attestation.jsonl"
  const ATTESTATION_METADATA_NAME := "m80-release-attestation.json"

  /** Core files that are integrity subjects, then the three that prove them. */
  const CORE_SUBJECTS: seq<string> := [INSTALL_NAME, ASSET_INDEX_NAME, SELECTOR_NAME, BUILD_MANIFEST_NAME]
  const CORE_PROOFS: seq<string> := [INTEGRITY_NAME, ATTESTATION_BUNDLE_NAME, ATTESTATION_METADATA_NAME]

  function Core(): seq<string> {
    CORE_SUBJECTS + CORE_PROOFS
  }

  const REQUIRED_PUBLIC_ASSETS: set<string> := {
    BUNDLE_NAME, METADATA_NAME, INSTALL_NAME, ASSET_INDEX_NAME, SELECTOR_NAME, BUILD_MANIFEST_NAME, INTEGRITY_NAME,
    ATTESTATION_BUNDLE_NAME, ATTESTATION_METADATA_NAME
  }

  function Key(a: TupleArtifact): seq<string> {
    [a.os, a.arch, a.imageKind]
  }

  /** The dist names of some tuples, bundle before metadata. */
  function TupleNames(xs: seq<TupleArtifact>): seq<string> {
    if xs == [] then []
    else TupleNames(xs[..|xs| - 1]) + [xs[|xs| - 1].bundle, xs[|xs| - 1].metadata]
  }

  function Keys(xs: seq<TupleArtifact>): (keys: seq<seq<string>>)
    ensures |keys| == |xs|
    ensures forall i :: 0 <= i < |xs| ==> keys[i] == Key(xs[i])
  {
    Project(xs, Key)
  }

  lemma TupleNamesSnoc(xs: seq<TupleArtifact>, x: TupleArtifact)
    ensures TupleNames(xs + [x]) == TupleNames(xs) + [x.bundle, x.metadata]
    ensures Keys(xs + [x]) == Keys(xs) + [Key(x)]
  {
    assert (xs + [x])[..|xs|] == xs;
  }

  lemma {:induction false} TupleNamesMembers(xs: seq<TupleArtifact>)
    ensures forall n :: n in TupleNames(xs) <==> exists a :: a in xs && (n == a.bundle || n == a.metadata)
    ensures |TupleNames(xs)| == 2 * |xs|
  {
    if xs != [] {
      var front, last := xs[..|xs| - 1], xs[|xs| - 1];
      TupleNamesMembers(front);
      assert xs == front + [last];
      assert forall a :: a in xs <==> a in front || a == last;
    }
  }

  // ------------------------------------------------------------ assembly

  predicate NamesFree(a: TupleArtifact, taken: set<string>) {
    a.bundle !in taken && a.metadata !in taken
  }

  /** Each tuple's names are free of the core names and of the names before it. */
  predicate Reservable(xs: seq<TupleArtifact>) {
    xs == [] ||
    (var front, last := xs[..|xs| - 1], xs[|xs| - 1];
     Reservable(front) && NamesFree(last, Reserved(front)))
  }

  function Reserved(xs: seq<TupleArtifact>): set<string> {
    (set n | n in Core()) + (set n | n in TupleNames(xs))
  }

  lemma ReservableSnoc(xs: seq<TupleArtifact>, x: TupleArtifact)
    ensures Reservable(xs + [x]) <==> Reservable(xs) && NamesFree(x, Reserved(xs))
    ensures Reserved(xs + [x]) == Reserved(xs) + {x.bundle, x.metadata}
  {
    assert (xs + [x])[..|xs|] == xs;
    TupleNamesSnoc(xs, x);
  }

  lemma {:induction false} ReservablePrefix(xs: seq<TupleArtifact>, n: nat)
    requires n <= |xs| && Reservable(xs)
    ensures Reservable(xs[..n])
    decreases |xs|
  {
    if n < |xs| {
      ReservablePrefix(xs[..|xs| - 1], n);
      assert xs[..|xs| - 1][..n] == xs[..n];
    } else {
      assert xs[..n] == xs;
    }
  }

  predicate Compatible(a: TupleArtifact, b: TupleArtifact) {
    && Key(a) != Key(b)
    && a.bundle != b.bundle && a.bundle != b.metadata
    && a.metadata != b.bundle && a.metadata != b.metadata
  }

  /** No tuple key and no dist name occurs twice. */
  predicate Unique(xs: seq<TupleArtifact>) {
    && Distinct(xs)
    && (forall a :: a in xs ==> a.bundle != a.metadata)
    && forall a, b :: a in xs && b in xs && a != b ==> Compatible(a, b)
  }

  lemma UniqueSnoc(xs: seq<TupleArtifact>, x: TupleArtifact)
    ensures Unique(xs + [x]) <==>
            && Unique(xs)
            && x.bundle != x.metadata
            && Key(x) !in Keys(xs)
            && x.bundle !in TupleNames(xs) && x.metadata !in TupleNames(xs)
  {
    var all := xs + [x];
    TupleNamesMembers(xs);
    assert forall a :: a in all <==> a in xs || a == x;
    assert forall k :: k in Keys(xs) <==> exists a :: a in xs && Key(a) == k by {
      forall a | a in xs ensures Key(a) in Keys(xs) {
        var i :| 0 <= i < |xs| && xs[i] == a;
        assert Keys(xs)[i] == Key(a);
      }
    }
    assert Distinct(all) <==> Distinct(xs) && x !in xs by {
      assert forall i :: 0 <= i < |xs| ==> all[i] == xs[i];
      assert all[|xs|] == x;
    }
    if Unique(xs) && x.bundle != x.metadata && Key(x) !in Keys(xs) && x.bundle !in TupleNames(xs) && x.metadata !in TupleNames(xs) {
      assert forall a :: a in xs ==> Compatible(a, x) && Compatible(x, a);
    }
    if Unique(all) {
      assert x in all;
      assert forall a :: a in xs ==> a in all && a != x && Compatible(a, x);
    }
  }

  /** `require_unique_tuple_artifacts` */
  method RequireUnique(xs: seq<TupleArtifact>) returns (ok: bool)
    ensures ok <==> Unique(xs)
  {
    var seenTuples: set<seq<string>> := {};
    var seenNames: set<string> := {};
    for n := 0 to |xs|
      invariant Unique(xs[..n])
      invariant forall k :: k in seenTuples <==> k in Keys(xs[..n])
      invariant forall m :: m in seenNames <==> m in TupleNames(xs[..n])
    {
      var x := xs[n];
      assert xs[..n + 1] == xs[..n] + [x];
      UniqueSnoc(xs[..n], x);
      TupleNamesSnoc(xs[..n], x);
      if Key(x) in seenTuples || x.bundle in seenNames || x.metadata in seenNames || x.metadata == x.bundle {
        if Unique(xs) {
          UniquePrefix(xs, n + 1);
        }
        return false;
      }
      seenTuples := seenTuples + {Key(x)};
      seenNames := seenNames + {x.bundle} + {x.metadata};
    }
    assert xs[..|xs|] == xs;
    ok := true;
  }

  lemma UniquePrefix(xs: seq<TupleArtifact>, n: nat)
    requires n <= |xs| && Unique(xs)
    ensures Unique(xs[..n])
  {
    assert forall a :: a in xs[..n] ==> a in xs;
  }

  predicate ArtifactLe(a: TupleArtifact, b: TupleArtifact) {
    TupleLe(Key(a), Key(b))
  }

  lemma ArtifactLeTotal()
    ensures TotalPreorder(ArtifactLe)
  {
    TupleLeTotalOrder();
    forall a: TupleArtifact, b: TupleArtifact ensures ArtifactLe(a, b) || ArtifactLe(b, a) {
      assert TupleLe(Key(a), Key(b)) || TupleLe(Key(b), Key(a));
    }
    forall a: TupleArtifact, b: TupleArtifact, c: TupleArtifact | ArtifactLe(a, b) && ArtifactLe(b, c)
      ensures ArtifactLe(a, c)
    {
      assert TupleLe(Key(a), Key(b)) && TupleLe(Key(b), Key(c));
    }
  }

  /** Uniqueness does not depend on the order of the tuples. */
  lemma UniqueUnderSort(xs: seq<TupleArtifact>)
    ensures Unique(Sort(xs, ArtifactLe)) <==> Unique(xs)
    ensures forall a :: a in Sort(xs, ArtifactLe) <==> a in xs
    ensures |Sort(xs, ArtifactLe)| == |xs|
  {
    ArtifactLeTotal();
    SortCorrect(xs, ArtifactLe);
    var ys := Sort(xs, ArtifactLe);
    if Distinct(xs) {
      SortKeepsDistinct(xs, ArtifactLe);
    }
    if Distinct(ys) && !Distinct(xs) {
      var i, j :| 0 <= i < j < |xs| && xs[i] == xs[j];
      DuplicateCounts(xs, i, j);
      CountOfDistinct(ys, xs[i]);
    }
  }

  /** Sorted tuples are ordered by operating system, then architecture, then image kind. */
  lemma TuplesInOrder(xs: seq<TupleArtifact>, i: nat, j: nat)
    requires i < j < |Sort(xs, ArtifactLe)|
    ensures var a, b := Sort(xs, ArtifactLe)[i], Sort(xs, ArtifactLe)[j];
            TupleLe([a.os, a.arch, a.imageKind], [b.os, b.arch, b.imageKind])
  {
    ArtifactLeTotal();
    SortCorrect(xs, ArtifactLe);
    assert ArtifactLe(Sort(xs, ArtifactLe)[i], Sort(xs, ArtifactLe)[j]);
  }

  /** What assembly accepts: names outside the core, and every key and name once. */
  predicate Assembles(all: seq<TupleArtifact>) {
    (forall n :: n in TupleNames(all) ==> n !in Core()) && Unique(all)
  }

  /** `assemble_tuple_artifacts`: reserve the names one tuple at a time, sort, check again. */
  method AssembleTuples(default: TupleArtifact, extras: seq<TupleArtifact>) returns (result: Option<seq<TupleArtifact>>)
    ensures result == if Assembles([default] + extras) then Some(Sort([default] + extras, ArtifactLe)) else None
  {
    var all := [default] + extras;
    var reserved: set<string> := set n | n in Core();
    for n := 0 to |all|
      invariant Reservable(all[..n])
      invariant reserved == Reserved(all[..n])
    {
      assert all[..n + 1] == all[..n] + [all[n]];
      ReservableSnoc(all[..n], all[n]);
      if !NamesFree(all[n], reserved) {
        if Assembles(all) {
          AssembledIsReservable(all);
          ReservablePrefix(all, n + 1);
        }
        return None;
      }
      reserved := reserved + {all[n].bundle, all[n].metadata};
    }
    assert all[..|all|] == all;
    ReservableNamesOutsideCore(all);
    UniqueUnderSort(all);
    var sorted := Sort(all, ArtifactLe);
    var ok := RequireUnique(sorted);
    result := if ok then Some(sorted) else None;
  }

  lemma {:induction false} AssemblesSnoc(front: seq<TupleArtifact>, last: TupleArtifact)
    requires Assembles(front + [last])
    ensures Assembles(front) && NamesFree(last, Reserved(front))
  {
    TupleNamesSnoc(front, last);
    UniqueSnoc(front, last);
    var names := TupleNames(front + [last]);
    assert last.bundle in names && last.metadata in names;
    assert forall n :: n in TupleNames(front) ==> n in names;
  }

  lemma {:induction false} AssembledIsReservable(xs: seq<TupleArtifact>)
    requires Assembles(xs)
    ensures Reservable(xs)
  {
    if xs != [] {
      var front, last := xs[..|xs| - 1], xs[|xs| - 1];
      assert xs == front + [last];
      AssemblesSnoc(front, last);
      AssembledIsReservable(front);
      ReservableSnoc(front, last);
    }
  }

  lemma {:induction false} ReservableNamesOutsideCore(xs: seq<TupleArtifact>)
    requires Reservable(xs)
    ensures forall n :: n in TupleNames(xs) ==> n !in Core()
  {
    if xs != [] {
      ReservableNamesOutsideCore(xs[..|xs| - 1]);
    }
  }

  // ------------------------------------------------------------ later checks

  lemma {:induction false} UniqueNames(xs: seq<TupleArtifact>)
    requires Unique(xs)
    ensures Distinct(TupleNames(xs))
  {
    if xs != [] {
      var front, last := xs[..|xs| - 1], xs[|xs| - 1];
      assert xs == front + [last];
      UniqueSnoc(front, last);
      TupleNamesSnoc(front, last);
      UniqueNames(front);
      DistinctConcat(TupleNames(front), [last.bundle, last.metadata]);
    }
  }

  lemma DistinctConcat(a: seq<string>, b: seq<string>)
    requires Distinct(a) && Distinct(b) && forall x :: x in a ==> x !in b
    ensures Distinct(a + b)
  {
    var c := a + b;
    forall i, j | 0 <= i < j < |c| ensures c[i] != c[j] {
      if i < |a| && |a| <= j {
        assert c[i] in a && c[j] in b;
      }
    }
  }

  lemma CoreNamesDistinct()
    ensures Distinct(Core()) && |Core()| == 7
    ensures forall n :: n in Core() <==> n in CORE_SUBJECTS || n in CORE_PROOFS
  {
    assert |INSTALL_NAME| == 10 && |ASSET_INDEX_NAME| == 23 && |SELECTOR_NAME| == 26 && |BUILD_MANIFEST_NAME| == 22;
    assert |INTEGRITY_NAME| == 26 && |ATTESTATION_BUNDLE_NAME| == 39 && |ATTESTATION_METADATA_NAME| == 28;
    assert SELECTOR_NAME[4] == 'b' && INTEGRITY_NAME[4] == 'r';
  }

  /** The integrity subjects of an asset index: the tuples' names, then the core subjects. */
  function SubjectNames(assets: seq<TupleArtifact>): seq<string> {
    TupleNames(assets) + CORE_SUBJECTS
  }

  /** The public asset names of the upload manifest. */
  function PublicNames(assets: seq<TupleArtifact>): seq<string> {
    SubjectNames(assets) + CORE_PROOFS
  }

  /** The duplicate check of `release_integrity_subject_kinds`: one pass over the names with those
      seen so far. */
  method CollectNames(names: seq<string>) returns (seen: Option<set<string>>)
    ensures seen == if Distinct(names) then Some(set n | n in names) else None
  {
    var found: set<string> := {};
    for k := 0 to |names|
      invariant forall n :: n in found <==> n in names[..k]
      invariant forall i, j :: 0 <= i < j < k ==> names[i] != names[j]
    {
      if names[k] in found {
        var i :| 0 <= i < k && names[..k][i] == names[k];
        assert names[i] == names[k];
        return None;
      }
      found := found + {names[k]};
      assert names[..k + 1] == names[..k] + [names[k]];
    }
    assert names[..|names|] == names;
    assert found == set n | n in names;
    seen := Some(found);
  }

  /** For any number of extra tuples that assembly accepts, no later duplicate check fires, and
      the manifest has exactly nine public names and two for each extra tuple. */
  lemma {:induction false} AssembledNamesDistinct(default: TupleArtifact, extras: seq<TupleArtifact>)
    requires Assembles([default] + extras)
    ensures var assets := Sort([default] + extras, ArtifactLe);
            && Distinct(SubjectNames(assets))
            && Distinct(PublicNames(assets))
            && |PublicNames(assets)| == 9 + 2 * |extras|
  {
    var all := [default] + extras;
    var assets := Sort(all, ArtifactLe);
    UniqueUnderSort(all);
    UniqueNames(assets);
    TupleNamesMembers(all);
    TupleNamesMembers(assets);
    CoreNamesDistinct();
    assert forall n :: n in TupleNames(assets) ==> n in TupleNames(all);
    DistinctConcat(TupleNames(assets), Core());
    NamesInParts(assets);
  }

  lemma NamesInParts(assets: seq<TupleArtifact>)
    ensures PublicNames(assets) == TupleNames(assets) + Core()
    ensures |Core()| == 7 && SubjectNames(assets) == PublicNames(assets)[..|TupleNames(assets)| + 4]
  {
  }

  lemma RequiredAreDefaultOrCore(n: string)
    requires n in REQUIRED_PUBLIC_ASSETS
    ensures n == BUNDLE_NAME || n == METADATA_NAME || n in Core()
  {
    CoreNamesDistinct();
    assert CORE_SUBJECTS[0] in CORE_SUBJECTS && CORE_SUBJECTS[1] in CORE_SUBJECTS && CORE_SUBJECTS[2] in CORE_SUBJECTS &&
           CORE_SUBJECTS[3] in CORE_SUBJECTS;
    assert CORE_PROOFS[0] in CORE_PROOFS && CORE_PROOFS[1] in CORE_PROOFS && CORE_PROOFS[2] in CORE_PROOFS;
  }

  /** The public names include every asset the stable channel requires. */
  lemma RequiredAssetsArePublic(default: TupleArtifact, extras: seq<TupleArtifact>, n: string)
    requires Assembles([default] + extras) && n in REQUIRED_PUBLIC_ASSETS
    requires default.bundle == BUNDLE_NAME && default.metadata == METADATA_NAME
    ensures n in PublicNames(Sort([default] + extras, ArtifactLe))
  {
    var all := [default] + extras;
    var assets := Sort(all, ArtifactLe);
    UniqueUnderSort(all);
    assert default in all;
    TupleNamesMembers(assets);
    RequiredAreDefaultOrCore(n);
    assert PublicNames(assets) == TupleNames(assets) + Core();
  }

  // ------------------------------------------------------------ workflow-only names

  /** Whatever names the manifest declares workflow-only, a public name is among them exactly when
      a tuple was given one of them: assembly does not reserve these names. */
  lemma WorkflowNamesLeakExactly(all: seq<TupleArtifact>, workflowOnly: set<string>)
    requires forall n :: n in workflowOnly ==> n !in Core()
    ensures (exists n :: n in PublicNames(Sort(all, ArtifactLe)) && n in workflowOnly) <==>
              exists a :: a in all && (a.bundle in workflowOnly || a.metadata in workflowOnly)
  {
    var assets := Sort(all, ArtifactLe);
    UniqueUnderSort(all);
    TupleNamesMembers(assets);
    CoreNamesDistinct();
    assert PublicNames(assets) == TupleNames(assets) + Core();
    if exists n :: n in PublicNames(assets) && n in workflowOnly {
      var n :| n in PublicNames(assets) && n in workflowOnly;
      assert n in TupleNames(assets);
      var a :| a in assets && (n == a.bundle || n == a.metadata);
      assert a in all;
    }
    if a :| a in all && (a.bundle in workflowOnly || a.metadata in workflowOnly) {
      assert a in assets;
      assert a.bundle in TupleNames(assets) && a.metadata in TupleNames(assets);
      assert a.bundle in PublicNames(assets) && a.metadata in PublicNames(assets);
    }
  }

  /** Such an assembly is accepted: an extra tuple may take the upload manifest's own name. */
  lemma ManifestNameCanBeTaken()
    ensures var default := TupleArtifact(BUNDLE_NAME, METADATA_NAME, "linux", "x86_64", "minimal");
            var extra := TupleArtifact(UPLOAD_MANIFEST_NAME, "extra.bundle.json", "linux", "aarch64", "minimal");
            Assembles([default] + [extra])
  {
    var default := TupleArtifact(BUNDLE_NAME, METADATA_NAME, "linux", "x86_64", "minimal");
    var extra := TupleArtifact(UPLOAD_MANIFEST_NAME, "extra.bundle.json", "linux", "aarch64", "minimal");
    assert |BUNDLE_NAME| == 23 && |METADATA_NAME| == 28 && |UPLOAD_MANIFEST_NAME| == 32 && |"extra.bundle.json"| == 17;
    assert |INSTALL_NAME| == 10 && |ASSET_INDEX_NAME| == 23 && |SELECTOR_NAME| == 26 && |BUILD_MANIFEST_NAME| == 22;
    assert |INTEGRITY_NAME| == 26 && |ATTESTATION_BUNDLE_NAME| == 39 && |ATTESTATION_METADATA_NAME| == 28;
    assert BUNDLE_NAME[4] == 'l' && ASSET_INDEX_NAME[4] == 'r';
    assert METADATA_NAME[4] == 'l' && ATTESTATION_METADATA_NAME[4] == 'r';
    assert |"x86_64"| == 6 && |"aarch64"| == 7;
    CoreNamesDistinct();
    TupleNamesMembers([default] + [extra]);
    assert Key(default)[1] != Key(extra)[1];
    assert Compatible(default, extra) && Compatible(extra, default);
    assert forall a :: a in [default] + [extra] <==> a == default || a == extra;
  }
}
