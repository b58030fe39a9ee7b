// What the steps of publication do to a release: when it appears, when it becomes public, and
// that nothing of it is overwritten.
module ProtocolContent {
  import opened Common
  import opened ReleaseAssets
  import opened Versions
  import opened PublicationPlan
  import opened RemoteInventory
  import opened InventoryContent
  import opened LatestPromotion
  import opened Protocol

  predicate IsPublic(s: State, tag: string) {
    tag in s.releases && !s.releases[tag].draft
  }

  /** A release becomes public exactly by the publication of a job's own draft that serves every
      asset of the manifest. */
  lemma BecomesPublicExactly(sha: Digest, s: State, e: Event, tag: string)
    ensures !IsPublic(s, tag) && IsPublic(Apply(sha, s, e), tag) <==>
              && e == Publish(tag)
              && tag in s.jobs && s.jobs[tag].phase.Uploading?
              && tag in s.releases && s.releases[tag].draft
              && ServesManifest(sha, s.releases[tag].assets, s.jobs[tag].manifest)
  {
    if tag != e.tag {
      OtherTagsUntouched(sha, s, e, tag);
    }
  }

  /** A release appears exactly when a job with a create plan makes its draft, and then as an empty
      draft. */
  lemma AppearsExactly(sha: Digest, s: State, e: Event, tag: string)
    ensures tag !in s.releases && tag in Apply(sha, s, e).releases <==>
              e.CreateDraft? && e.tag == tag && tag in s.jobs && s.jobs[tag].phase.Creating? && tag !in s.releases
    ensures tag !in s.releases && tag in Apply(sha, s, e).releases ==>
              Apply(sha, s, e).releases[tag] == Release(e.id, true, false, [])
  {
    if tag != e.tag {
      OtherTagsUntouched(sha, s, e, tag);
    }
  }

  /** A job gets a create plan exactly when no release is there, tag and manifest are good and the
      plan's timestamp parses. */
  lemma CreatingExactly(sha: Digest, s: State, e: Event, tag: string)
    ensures && (tag in s.jobs ==> !s.jobs[tag].phase.Creating?)
            && tag in Apply(sha, s, e).jobs && Apply(sha, s, e).jobs[tag].phase.Creating? <==>
              && e.MakePlan? && e.tag == tag && e.at.parses
              && tag in s.jobs && s.jobs[tag].phase.Fresh?
              && tag !in s.releases && IsStableTag(tag) && ManifestOk(s.jobs[tag].manifest, tag)
  {
    if tag != e.tag {
      OtherTagsUntouched(sha, s, e, tag);
    }
  }

  // ------------------------------------------------------------ how a job gets on

  predicate In(s: State, tag: string, phase: Phase -> bool) {
    tag in s.jobs && phase(s.jobs[tag].phase)
  }

  /** This event brings the job of the tag into a phase in which it was not. */
  predicate Enters(sha: Digest, s: State, e: Event, tag: string, phase: Phase -> bool) {
    !In(s, tag, phase) && In(Apply(sha, s, e), tag, phase)
  }

  /** A job comes to a public release exactly by publishing its own draft, or by planning on a public
      release that already has the manifest's names and sizes. */
  lemma PublicExactly(sha: Digest, s: State, e: Event, tag: string)
    ensures Enters(sha, s, e, tag, (phase: Phase) => phase.Public?) <==>
              && tag in s.jobs && tag in s.releases && e.tag == tag
              && var m, r := s.jobs[tag].manifest, s.releases[tag];
                 || (e.Publish? && s.jobs[tag].phase.Uploading? && ServesManifest(sha, r.assets, m))
                 || (&& e.MakePlan? && e.at.parses && s.jobs[tag].phase.Fresh?
                     && IsStableTag(tag) && ManifestOk(m, tag) && RemoteOk(SizesOf(r.assets))
                     && !r.draft && !r.prerelease && SameNamesAndSizes(m.assets, Sizes(SizesOf(r.assets))))
  {
    if tag != e.tag {
      OtherTagsUntouched(sha, s, e, tag);
    } else if e.MakePlan? && tag in s.jobs && IsStableTag(tag) && ManifestOk(s.jobs[tag].manifest, tag) {
      if tag in s.releases && RemoteOk(SizesOf(s.releases[tag].assets)) {
        DecisionExactly(s.jobs[tag].manifest, MetadataOf(s, tag), tag, e.at);
      }
    }
  }

  /** A job has downloaded its release exactly when it asks for a public one that serves the manifest,
      and then it holds the served bytes of the manifest's names. */
  lemma DownloadedExactly(sha: Digest, s: State, e: Event, tag: string)
    ensures Enters(sha, s, e, tag, (phase: Phase) => phase.Downloaded?) <==>
              && e == Download(tag) && tag in s.jobs && s.jobs[tag].phase.Public? && tag in s.releases
              && ServesManifest(sha, s.releases[tag].assets, s.jobs[tag].manifest)
    ensures Enters(sha, s, e, tag, (phase: Phase) => phase.Downloaded?) ==>
              var files, served := Apply(sha, s, e).jobs[tag].phase.files, Served(s.releases[tag].assets);
              && files.Keys == NameSet(s.jobs[tag].manifest.assets)
              && forall n :: n in files ==> n in served && files[n] == served[n]
  {
    if tag != e.tag {
      OtherTagsUntouched(sha, s, e, tag);
    } else if tag in s.jobs && tag in s.releases && ServesManifest(sha, s.releases[tag].assets, s.jobs[tag].manifest) {
      NamesServed(sha, s.releases[tag].assets, s.jobs[tag].manifest);
    }
  }

  lemma NamesServed(sha: Digest, assets: seq<RemoteAsset>, m: Manifest)
    requires ServesManifest(sha, assets, m)
    ensures FilesOf(assets, m).Keys == NameSet(m.assets)
  {
    forall n | n in NameSet(m.assets) ensures n in Served(assets) {
      var i := NameIndex(m.assets, n);
      assert m.assets[i] in m.assets;
    }
  }

  lemma InventoryTaken(sha: Digest, s: State, e: Event, tag: string)
    ensures Enters(sha, s, e, tag, (phase: Phase) => phase.Inventoried?) <==>
              && e.TakeInventory? && e.tag == tag && e.at.parses
              && tag in s.jobs && s.jobs[tag].phase.Downloaded? && tag in s.releases
              && InventoryFor(sha, s, tag, e.at).Some?
  {
    if tag != e.tag {
      OtherTagsUntouched(sha, s, e, tag);
    }
  }

  /** It has its inventory exactly when its files and GitHub's list of this moment both fit the
      manifest and the timestamp parses. */
  lemma InventoriedExactly(sha: Digest, s: State, e: Event, tag: string)
    ensures Enters(sha, s, e, tag, (phase: Phase) => phase.Inventoried?) <==>
              && e.TakeInventory? && e.tag == tag && e.at.parses
              && tag in s.jobs && s.jobs[tag].phase.Downloaded? && tag in s.releases && s.releases[tag].id > 0
              && ManifestOk(s.jobs[tag].manifest, tag)
              && RemoteFits(RowsOf(s.releases[tag].assets), s.jobs[tag].manifest, tag)
              && forall a :: a in s.jobs[tag].manifest.assets ==>
                   Backed(sha, s.jobs[tag].phase.files, a, RowsOf(s.releases[tag].assets))
  {
    InventoryTaken(sha, s, e, tag);
    if e.TakeInventory? && e.tag == tag && tag in s.jobs && s.jobs[tag].phase.Downloaded? && tag in s.releases {
      var r := s.releases[tag];
      MadeExactly(sha, s.jobs[tag].phase.files, s.jobs[tag].manifest, tag, ReleaseMeta(tag, r.id), RowsOf(r.assets), e.at);
    }
  }

  /** It is cleared exactly when it created the release and the gate lets its case move, and `latest`
      comes to its tag exactly when a cleared job asks for it while the release is there. */
  lemma LatestExactly(sha: Digest, s: State, e: Event, tag: string)
    ensures Enters(sha, s, e, tag, (phase: Phase) => phase.Cleared?) <==>
              && e.Decide? && e.tag == tag && tag in s.jobs && s.jobs[tag].phase.Inventoried? && s.jobs[tag].phase.creating
              && Moves(Case(tag, e.input.releases, e.input.publishDigest, e.input.ledgerDigest, s.jobs[tag].manifest,
                            s.jobs[tag].phase.inventory, e.input.receipt))
    ensures s.latest != Some(tag) && Apply(sha, s, e).latest == Some(tag) <==>
              s.latest != Some(tag) && e == MarkLatest(tag) && tag in s.releases && In(s, tag, (phase: Phase) => phase.Cleared?)
  {
    if tag != e.tag {
      OtherTagsUntouched(sha, s, e, tag);
    }
  }

  // ------------------------------------------------------------ nothing is overwritten

  /** Somebody outside the jobs deletes the release of this tag or replaces its assets. */
  predicate Outside(e: Event, tag: string) {
    e.tag == tag && (e.OperatorDelete? || e.Replace?)
  }

  /** Whatever the release served before, it still serves. */
  predicate StillServed(s: State, s': State, tag: string) {
    tag in s.releases ==>
      && tag in s'.releases
      && forall n :: n in Served(s.releases[tag].assets) ==>
           && n in Served(s'.releases[tag].assets)
           && Served(s'.releases[tag].assets)[n] == Served(s.releases[tag].assets)[n]
  }

  lemma ServedWith(assets: seq<RemoteAsset>, asset: RemoteAsset)
    ensures Served(assets + [asset]) == Served(assets)[asset.row.name := asset.bytes]
  {
    assert (assets + [asset])[..|assets|] == assets;
  }

  /** An upload under a new name adds that name; one under a name that is already there stops the
      job and leaves the release as it was. */
  lemma UploadExactly(sha: Digest, s: State, tag: string, asset: RemoteAsset)
    requires tag in s.jobs && s.jobs[tag].phase.Uploading? && tag in s.releases
    ensures var s', served := Apply(sha, s, Upload(tag, asset)), Served(s.releases[tag].assets);
            && tag in s'.jobs && tag in s'.releases
            && (s'.jobs[tag].phase.Stopped? <==> asset.row.name in served)
            && Served(s'.releases[tag].assets) ==
               (if asset.row.name in served then served else served[asset.row.name := asset.bytes])
  {
    ServedWith(s.releases[tag].assets, asset);
  }

  lemma OnlyUploadsStore(sha: Digest, s: State, e: Event, tag: string)
    requires !Outside(e, tag) && !e.Upload? && tag in s.releases
    ensures tag in Apply(sha, s, e).releases && Apply(sha, s, e).releases[tag].assets == s.releases[tag].assets
  {
    if tag != e.tag {
      OtherTagsUntouched(sha, s, e, tag);
    }
  }

  /** No step of any job takes an asset away or overwrites it. */
  lemma StepOverwritesNothing(sha: Digest, s: State, e: Event, tag: string)
    requires !Outside(e, tag)
    ensures StillServed(s, Apply(sha, s, e), tag)
  {
    if tag in s.releases {
      if !e.Upload? {
        OnlyUploadsStore(sha, s, e, tag);
      } else if tag != e.tag {
        OtherTagsUntouched(sha, s, e, tag);
      } else if tag in s.jobs && s.jobs[tag].phase.Uploading? {
        UploadExactly(sha, s, tag, e.asset);
      }
    }
  }

  /** Over every run, whatever the jobs do and wherever they crash, what a release once served it
      serves unchanged, until somebody outside deletes it or replaces its assets. */
  lemma {:induction false} RunOverwritesNothing(sha: Digest, s: State, events: seq<Event>, j: nat, k: nat, tag: string)
    requires j <= k <= |events| && forall m :: j <= m < k ==> !Outside(events[m], tag)
    ensures StillServed(StateAt(sha, s, events, j), StateAt(sha, s, events, k), tag)
    decreases k
  {
    if j < k {
      RunOverwritesNothing(sha, s, events, j, k - 1, tag);
      NextState(sha, s, events, k - 1);
      StepOverwritesNothing(sha, StateAt(sha, s, events, k - 1), events[k - 1], tag);
    }
  }
}
