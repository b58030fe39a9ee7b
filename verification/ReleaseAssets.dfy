// Assets of a release as the upload manifest lists them.
module ReleaseAssets {
  import opened Common
  import opened Ordering

  const UPLOAD_MANIFEST_NAME := "m80-release-upload-manifest.json"

  /** SHA-256 of a file as lower-case hexadecimal text. */
  type Digest = Bytes -> string

  predicate IsDistChar(c: char) {
    'A' <= c <= 'Z' || 'a' <= c <= 'z' || '0' <= c <= '9' || c == '.' || c == '_' || c == '+' || c == '-'
  }

  /** a flat file name, accepted by `require_dist_name` */
  predicate IsDistName(s: string) {
    s != "" && s != "." && s != ".." && forall i :: 0 <= i < |s| ==> IsDistChar(s[i])
  }

  /** A timestamp text together with whether `parse_timestamp` accepts it. */
  datatype Stamp = Stamp(text: string, parses: bool)

  /** One public asset of the upload manifest. */
  datatype Asset = Asset(name: string, kind: string, sha256: string, size: int)

  datatype Manifest = Manifest(releaseTag: string, assets: seq<Asset>)

  /** What identifies the content of an asset. */
  datatype Content = Content(kind: string, sha256: string, size: int)

  function ContentOf(a: Asset): Content {
    Content(a.kind, a.sha256, a.size)
  }

  function AssetNames(assets: seq<Asset>): (names: seq<string>)
    ensures |names| == |assets|
    ensures forall i :: 0 <= i < |assets| ==> names[i] == assets[i].name
  {
    Project(assets, (a: Asset) => a.name)
  }

  function NameSet(assets: seq<Asset>): set<string> {
    set n | n in AssetNames(assets)
  }

  predicate AssetOk(a: Asset) {
    IsDistName(a.name) && a.kind != "" && IsSha256Hex(a.sha256) && a.size >= 0
  }

  /** Every row is well formed and no name occurs twice. */
  predicate AssetsOk(assets: seq<Asset>) {
    && (forall i :: 0 <= i < |assets| ==> AssetOk(assets[i]))
    && Distinct(AssetNames(assets))
  }

  predicate ManifestOk(m: Manifest, tag: string) {
    m.releaseTag == tag && AssetsOk(m.assets)
  }

  /** A manifest is accepted exactly when it is for this tag, its rows have a flat name, a kind, a
      digest and a size, and no name occurs twice. */
  lemma ManifestExactly(m: Manifest, tag: string)
    ensures ManifestOk(m, tag) <==>
            && m.releaseTag == tag
            && (forall a :: a in m.assets ==> IsDistName(a.name) && a.kind != "" && IsSha256Hex(a.sha256) && a.size >= 0)
            && (forall i, j :: 0 <= i < j < |m.assets| ==> m.assets[i].name != m.assets[j].name)
  {
    assert forall i :: 0 <= i < |m.assets| ==> m.assets[i] in m.assets;
  }

  /** `manifest_public_assets` of the planner and `normalized_manifest_assets` of the
      inventory: one pass with the set of names seen so far. */
  method CheckedAssets(m: Manifest, tag: string) returns (result: Option<seq<Asset>>)
    ensures result == if ManifestOk(m, tag) then Some(m.assets) else None
    ensures result.Some? <==>
            && m.releaseTag == tag
            && (forall a :: a in m.assets ==> IsDistName(a.name) && a.kind != "" && IsSha256Hex(a.sha256) && a.size >= 0)
            && (forall i, j :: 0 <= i < j < |m.assets| ==> m.assets[i].name != m.assets[j].name)
  {
    ManifestExactly(m, tag);
    if m.releaseTag != tag {
      return None;
    }
    var seen: set<string> := {};
    for n := 0 to |m.assets|
      invariant seen == set i | 0 <= i < n :: m.assets[i].name
      invariant forall i :: 0 <= i < n ==> AssetOk(m.assets[i])
      invariant forall i, j :: 0 <= i < j < n ==> m.assets[i].name != m.assets[j].name
    {
      var a := m.assets[n];
      if !AssetOk(a) {
        return None;
      }
      if a.name in seen {
        var i :| 0 <= i < n && m.assets[i].name == a.name;
        assert AssetNames(m.assets)[i] == AssetNames(m.assets)[n];
        return None;
      }
      seen := seen + {a.name};
    }
    result := Some(m.assets);
  }

  /** The name-to-content dictionary of a list of assets; later rows win. */
  function ByName(assets: seq<Asset>): map<string, Content> {
    if assets == [] then map[]
    else
      var last := assets[|assets| - 1];
      ByName(assets[..|assets| - 1])[last.name := ContentOf(last)]
  }

  lemma {:induction false} ByNameKeys(assets: seq<Asset>)
    ensures ByName(assets).Keys == NameSet(assets)
  {
    if assets != [] {
      var front := assets[..|assets| - 1];
      ByNameKeys(front);
      assert AssetNames(assets) == AssetNames(front) + [assets[|assets| - 1].name];
    }
  }

  lemma NameIndex(assets: seq<Asset>, n: string) returns (i: nat)
    requires n in NameSet(assets)
    ensures i < |assets| && assets[i].name == n
  {
    i :| 0 <= i < |assets| && AssetNames(assets)[i] == n;
  }

  /** With distinct names each row is found under its name. */
  lemma {:induction false} ByNameAt(assets: seq<Asset>, i: nat)
    requires Distinct(AssetNames(assets)) && i < |assets|
    ensures assets[i].name in ByName(assets) && ByName(assets)[assets[i].name] == ContentOf(assets[i])
  {
    var n := |assets| - 1;
    if i < n {
      var front := assets[..n];
      assert Distinct(AssetNames(front)) by {
        forall a, b | 0 <= a < b < |front| ensures AssetNames(front)[a] != AssetNames(front)[b] {
          assert AssetNames(assets)[a] != AssetNames(assets)[b];
        }
      }
      ByNameAt(front, i);
      assert AssetNames(assets)[i] != AssetNames(assets)[n];
    }
  }

  /** Lists of assets with distinct names and the same members have one dictionary. */
  lemma SameMembersSameDictionary(a: seq<Asset>, b: seq<Asset>)
    requires Distinct(AssetNames(a)) && Distinct(AssetNames(b))
    requires forall x :: x in a <==> x in b
    ensures ByName(a) == ByName(b)
  {
    ByNameKeys(a);
    ByNameKeys(b);
    MembersGiveEntries(a, b);
    MembersGiveEntries(b, a);
    assert ByName(a).Keys == ByName(b).Keys;
  }

  lemma MembersGiveEntries(a: seq<Asset>, b: seq<Asset>)
    requires Distinct(AssetNames(a)) && Distinct(AssetNames(b))
    requires forall x :: x in a ==> x in b
    ensures forall n :: n in ByName(a) ==> n in ByName(b) && ByName(a)[n] == ByName(b)[n]
  {
    ByNameKeys(a);
    forall n | n in ByName(a) ensures n in ByName(b) && ByName(a)[n] == ByName(b)[n] {
      var i := NameIndex(a, n);
      ByNameAt(a, i);
      assert a[i] in b;
      var j :| 0 <= j < |b| && b[j] == a[i];
      ByNameAt(b, j);
    }
  }

  /** One dictionary means the same members. */
  lemma SameDictionarySameMembers(a: seq<Asset>, b: seq<Asset>)
    requires Distinct(AssetNames(a)) && Distinct(AssetNames(b))
    requires ByName(a) == ByName(b)
    ensures forall x :: x in a <==> x in b
  {
    EntriesGiveMembers(a, b);
    EntriesGiveMembers(b, a);
  }

  lemma EntriesGiveMembers(a: seq<Asset>, b: seq<Asset>)
    requires Distinct(AssetNames(a)) && Distinct(AssetNames(b))
    requires ByName(a) == ByName(b)
    ensures forall x :: x in a ==> x in b
  {
    ByNameKeys(b);
    forall x | x in a ensures x in b {
      var i :| 0 <= i < |a| && a[i] == x;
      ByNameAt(a, i);
      assert x.name in NameSet(b);
      var j := NameIndex(b, x.name);
      ByNameAt(b, j);
      assert b[j] == x;
    }
  }

  predicate AssetLe(a: Asset, b: Asset) {
    StringLe(a.name, b.name)
  }

  lemma AssetLeTotal()
    ensures TotalPreorder(AssetLe)
  {
    StringLeTotalOrder();
    forall a: Asset, b: Asset ensures AssetLe(a, b) || AssetLe(b, a) {
      assert StringLe(a.name, b.name) || StringLe(b.name, a.name);
    }
    forall a: Asset, b: Asset, c: Asset | AssetLe(a, b) && AssetLe(b, c) ensures AssetLe(a, c) {
      assert StringLe(a.name, b.name) && StringLe(b.name, c.name);
    }
  }

  /** Sorting by name keeps the members and the distinctness of names. */
  lemma SortedAssets(assets: seq<Asset>)
    requires Distinct(AssetNames(assets))
    ensures Distinct(AssetNames(Sort(assets, AssetLe)))
    ensures forall a :: a in Sort(assets, AssetLe) <==> a in assets
    ensures |Sort(assets, AssetLe)| == |assets|
  {
    AssetLeTotal();
    var sorted := Sort(assets, AssetLe);
    SortCorrect(assets, AssetLe);
    assert Distinct(assets) by {
      forall i, j | 0 <= i < j < |assets| ensures assets[i] != assets[j] {
        assert AssetNames(assets)[i] != AssetNames(assets)[j];
      }
    }
    SortKeepsDistinct(assets, AssetLe);
    forall i, j | 0 <= i < j < |sorted| ensures AssetNames(sorted)[i] != AssetNames(sorted)[j] {
      assert sorted[i] in assets && sorted[j] in assets;
      var a :| 0 <= a < |assets| && assets[a] == sorted[i];
      var b :| 0 <= b < |assets| && assets[b] == sorted[j];
      assert a != b;
      assert AssetNames(assets)[a] != AssetNames(assets)[b];
    }
  }
}
