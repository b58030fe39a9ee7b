// The other half of the protocol's contract: its gates do not stop an undisturbed job.
module ProtocolProgress {
  import opened Common
  import opened Versions
  import opened ReleaseAssets
  import opened RemoteInventory
  import opened LatestPromotion
  import opened Protocol

  function Uploads(tag: string, assets: seq<RemoteAsset>): (events: seq<Event>)
    ensures |events| == |assets|
    ensures forall i :: 0 <= i < |assets| ==> events[i] == Upload(tag, assets[i])
  {
    Project(assets, (a: RemoteAsset) => Upload(tag, a))
  }

  lemma {:induction false} ServedKeys(assets: seq<RemoteAsset>)
    ensures forall n :: n in Served(assets) <==> exists a :: a in assets && a.row.name == n
  {
    if assets != [] {
      var front, last := assets[..|assets| - 1], assets[|assets| - 1];
      ServedKeys(front);
      assert assets == front + [last];
      assert forall a :: a in assets <==> a in front || a == last;
    }
  }

  predicate NamesDiffer(assets: seq<RemoteAsset>) {
    forall i, j :: 0 <= i < j < |assets| ==> assets[i].row.name != assets[j].row.name
  }

  lemma FirstNameIsNew(have: seq<RemoteAsset>, assets: seq<RemoteAsset>)
    requires assets != [] && NamesDiffer(have + assets)
    ensures assets[0].row.name !in Served(have)
  {
    var all := have + assets;
    ServedKeys(have);
    forall a | a in have ensures a.row.name != assets[0].row.name {
      var i :| 0 <= i < |have| && have[i] == a;
      assert all[i] == a && all[|have|] == assets[0];
    }
  }

  /** Uploading assets with distinct names into the job's draft stores them in order. */
  lemma {:induction false} UploadsStore(sha: Digest, s: State, tag: string, assets: seq<RemoteAsset>)
    requires tag in s.jobs && s.jobs[tag].phase == Uploading && tag in s.releases
    requires NamesDiffer(s.releases[tag].assets + assets)
    ensures Run(sha, s, Uploads(tag, assets)) ==
            s.(releases := s.releases[tag := s.releases[tag].(assets := s.releases[tag].assets + assets)])
    decreases |assets|
  {
    var have := s.releases[tag].assets;
    if assets == [] {
      assert have + assets == have;
    } else {
      var all := have + assets;
      FirstNameIsNew(have, assets);
      var s' := Apply(sha, s, Upload(tag, assets[0]));
      assert s'.releases[tag].assets + assets[1..] == all;
      assert Uploads(tag, assets)[1..] == Uploads(tag, assets[1..]);
      UploadsStore(sha, s', tag, assets[1..]);
    }
  }

  lemma {:induction false} ReportedSizes(assets: seq<RemoteAsset>)
    requires forall a :: a in assets ==> a.row.size == |a.bytes|
    ensures forall n :: n in Served(assets) ==>
              n in RemoteByName(RowsOf(assets)) && RemoteByName(RowsOf(assets))[n].size == |Served(assets)[n]|
  {
    if assets != [] {
      var front := assets[..|assets| - 1];
      assert forall a :: a in front ==> a in assets;
      ReportedSizes(front);
      assert RowsOf(assets)[..|assets| - 1] == RowsOf(front);
      assert assets[|assets| - 1] in assets;
    }
  }

  /** GitHub stored and reports exactly what the manifest lists. */
  predicate Honest(sha: Digest, m: Manifest, tag: string, assets: seq<RemoteAsset>) {
    && ServesExactly(sha, assets, m)
    && RemoteRowsOk(RowsOf(assets), tag)
    && forall a :: a in assets ==> a.row.size == |a.bytes|
  }

  lemma HonestIsBuildable(sha: Digest, m: Manifest, tag: string, id: int, assets: seq<RemoteAsset>)
    requires Honest(sha, m, tag, assets) && ManifestOk(m, tag) && id > 0
    ensures Buildable(sha, Served(assets), m, tag, ReleaseMeta(tag, id), RowsOf(assets))
  {
    ServedNames(assets);
    ReportedSizes(assets);
    forall i | 0 <= i < |m.assets|
      ensures m.assets[i].name in RemoteByName(RowsOf(assets))
      ensures BytesMatch(sha, Served(assets), m.assets[i], RemoteByName(RowsOf(assets))[m.assets[i].name])
    {
      assert m.assets[i] in m.assets;
    }
  }

  lemma HonestNamesDiffer(assets: seq<RemoteAsset>, tag: string)
    requires RemoteRowsOk(RowsOf(assets), tag)
    ensures NamesDiffer(assets)
  {
    forall i, j | 0 <= i < j < |assets| ensures assets[i].row.name != assets[j].row.name {
      assert RowNames(RowsOf(assets))[i] != RowNames(RowsOf(assets))[j];
    }
  }

  lemma RunCons(sha: Digest, s: State, e: Event, rest: seq<Event>)
    ensures Run(sha, s, [e] + rest) == Run(sha, Apply(sha, s, e), rest)
  {
    assert ([e] + rest)[1..] == rest;
  }

  function Opening(tag: string, m: Manifest, id: int, at: Stamp): seq<Event> {
    [Begin(tag, m)] + ([MakePlan(tag, at)] + [CreateDraft(tag, id)])
  }

  lemma OpeningCreatesDraft(sha: Digest, s: State, m: Manifest, tag: string, id: int, at: Stamp)
    requires tag !in s.jobs && tag !in s.releases
    requires IsStableTag(tag) && ManifestOk(m, tag) && at.parses
    ensures var end := Run(sha, s, Opening(tag, m, id, at));
            && tag in end.jobs && end.jobs[tag] == Job(m, Uploading)
            && tag in end.releases && end.releases[tag] == Release(id, true, false, [])
  {
    var s1 := Apply(sha, s, Begin(tag, m));
    var s2 := Apply(sha, s1, MakePlan(tag, at));
    RunCons(sha, s, Begin(tag, m), [MakePlan(tag, at)] + [CreateDraft(tag, id)]);
    RunCons(sha, s1, MakePlan(tag, at), [CreateDraft(tag, id)]);
    RunOne(sha, s2, CreateDraft(tag, id));
    assert s2.jobs[tag] == Job(m, Creating);
  }

  function Publication(tag: string, m: Manifest, id: int, assets: seq<RemoteAsset>, at: Stamp): seq<Event> {
    Opening(tag, m, id, at) + (Uploads(tag, assets) + [Publish(tag)])
  }

  lemma UploadsAndPublish(sha: Digest, s: State, m: Manifest, tag: string, id: int, assets: seq<RemoteAsset>)
    requires tag in s.jobs && s.jobs[tag] == Job(m, Uploading)
    requires tag in s.releases && s.releases[tag] == Release(id, true, false, [])
    requires NamesDiffer(assets) && ServesExactly(sha, assets, m)
    ensures var end := Run(sha, s, Uploads(tag, assets) + [Publish(tag)]);
            && tag in end.jobs && end.jobs[tag] == Job(m, Public(true))
            && tag in end.releases && end.releases[tag] == Release(id, false, false, assets)
  {
    assert s.releases[tag].assets + assets == assets;
    UploadsStore(sha, s, tag, assets);
    var uploaded := Run(sha, s, Uploads(tag, assets));
    RunConcat(sha, s, Uploads(tag, assets), [Publish(tag)]);
    RunOne(sha, uploaded, Publish(tag));
    assert uploaded.releases[tag] == Release(id, true, false, assets);
  }

  /** The first half of an undisturbed job leaves a public release with the given assets. */
  lemma UndisturbedPublication(sha: Digest, s: State, m: Manifest, tag: string, id: int, assets: seq<RemoteAsset>, at: Stamp)
    requires tag !in s.jobs && tag !in s.releases
    requires IsStableTag(tag) && ManifestOk(m, tag) && at.parses && Honest(sha, m, tag, assets)
    ensures var end := Run(sha, s, Publication(tag, m, id, assets, at));
            && tag in end.jobs && end.jobs[tag] == Job(m, Public(true))
            && tag in end.releases && end.releases[tag] == Release(id, false, false, assets)
  {
    OpeningCreatesDraft(sha, s, m, tag, id, at);
    HonestNamesDiffer(assets, tag);
    UploadsAndPublish(sha, Run(sha, s, Opening(tag, m, id, at)), m, tag, id, assets);
    RunConcat(sha, s, Opening(tag, m, id, at), Uploads(tag, assets) + [Publish(tag)]);
  }

  /** An honest release is downloaded in full. */
  lemma UndisturbedDownload(sha: Digest, s: State, m: Manifest, tag: string, assets: seq<RemoteAsset>)
    requires tag in s.jobs && s.jobs[tag] == Job(m, Public(true))
    requires tag in s.releases && s.releases[tag].assets == assets && ServesExactly(sha, assets, m)
    ensures Apply(sha, s, Download(tag)) == SetPhase(s, tag, Downloaded(true, Served(assets)))
  {
    assert FilesOf(assets, m) == Served(assets);
  }

  lemma BuildableIsInventoried(sha: Digest, s: State, tag: string, at: Stamp)
    requires tag in s.jobs && s.jobs[tag].phase.Downloaded? && tag in s.releases && at.parses
    requires InventoryFor(sha, s, tag, at).Some?
    ensures Apply(sha, s, TakeInventory(tag, at)) ==
            SetPhase(s, tag, Inventoried(s.jobs[tag].phase.creating, InventoryFor(sha, s, tag, at).value))
  {
  }

  /** Downloading the release and taking its inventory. */
  function Inspecting(tag: string, at: Stamp): seq<Event> {
    [Download(tag)] + [TakeInventory(tag, at)]
  }

  lemma {:induction false} RunTwo(sha: Digest, s: State, a: Event, b: Event)
    ensures Run(sha, s, [a] + [b]) == Apply(sha, Apply(sha, s, a), b)
  {
    RunConcat(sha, s, [a], [b]);
    RunOne(sha, s, a);
    RunOne(sha, Apply(sha, s, a), b);
  }

  /** The job of this tag created its release and has an inventory that the gate accepts. */
  predicate Promotable(s: State, tag: string) {
    && tag in s.jobs && tag in s.releases
    && s.jobs[tag].phase.Inventoried? && s.jobs[tag].phase.creating
    && InventoryAccepted(s.jobs[tag].phase.inventory, s.jobs[tag].manifest, tag)
  }

  lemma {:induction false} UndisturbedInventory(sha: Digest, s: State, m: Manifest, tag: string, id: int,
                                                assets: seq<RemoteAsset>, at: Stamp)
    requires tag in s.jobs && s.jobs[tag] == Job(m, Public(true))
    requires tag in s.releases && s.releases[tag] == Release(id, false, false, assets) && id > 0
    requires ManifestOk(m, tag) && at.parses && Honest(sha, m, tag, assets)
    requires forall a :: a in m.assets ==> NonBlank(a.kind)
    ensures Promotable(Run(sha, s, Inspecting(tag, at)), tag)
  {
    var downloaded := Apply(sha, s, Download(tag));
    UndisturbedDownload(sha, s, m, tag, assets);
    HonestIsBuildable(sha, m, tag, id, assets);
    BuiltInventoryAccepted(sha, Served(assets), m, tag, ReleaseMeta(tag, id), RowsOf(assets), at);
    BuildableIsInventoried(sha, downloaded, tag, at);
    RunTwo(sha, s, Download(tag), TakeInventory(tag, at));
  }

  /** With a public release that GitHub serves and reports honestly, the inventory is taken and
      the gate approves. */
  lemma {:induction false} UndisturbedDecision(sha: Digest, s: State, m: Manifest, tag: string, id: int,
                                               assets: seq<RemoteAsset>, at: Stamp, input: GateInput)
    requires tag in s.jobs && s.jobs[tag] == Job(m, Public(true))
    requires tag in s.releases && s.releases[tag] == Release(id, false, false, assets) && id > 0
    requires IsStableTag(tag) && ManifestOk(m, tag) && at.parses && Honest(sha, m, tag, assets)
    requires forall a :: a in m.assets ==> NonBlank(a.kind)
    requires forall t :: t in StableTags(input.releases) ==> VersionLe(VersionOf(t), VersionOf(tag))
    ensures var after := Run(sha, s, Asking(tag, at, input));
            MovesLatest(after, MarkLatest(tag)) && Verdicts(DecidedCase(after, MarkLatest(tag)), Approved)
  {
    var taken := Run(sha, s, Inspecting(tag, at));
    RunConcat(sha, s, Inspecting(tag, at), [Decide(tag, input)]);
    RunOne(sha, taken, Decide(tag, input));
    UndisturbedInventory(sha, s, m, tag, id, assets, at);
    AcceptedJobCleared(sha, taken, tag, input);
  }

  lemma AcceptedJobCleared(sha: Digest, s: State, tag: string, input: GateInput)
    requires Promotable(s, tag) && IsStableTag(tag)
    requires forall t :: t in StableTags(input.releases) ==> VersionLe(VersionOf(t), VersionOf(tag))
    ensures var after := Apply(sha, s, Decide(tag, input));
            MovesLatest(after, MarkLatest(tag)) && Verdicts(DecidedCase(after, MarkLatest(tag)), Approved)
  {
    ApprovedExactly(CaseFor(s, tag, input));
  }

  function Asking(tag: string, at: Stamp, input: GateInput): seq<Event> {
    Inspecting(tag, at) + [Decide(tag, input)]
  }

  /** A whole job: publication, inventory and decision, and the move. */
  function WholeJob(tag: string, m: Manifest, id: int, assets: seq<RemoteAsset>, at: Stamp, input: GateInput): seq<Event> {
    Publication(tag, m, id, assets, at) + (Asking(tag, at, input) + [MarkLatest(tag)])
  }

  /** The gates let an undisturbed job through: when the tag is new, GitHub keeps what was
      uploaded, no kind is blank and no newer stable release is public, `latest` moves. */
  lemma {:induction false} UndisturbedJobPromotes(sha: Digest, s: State, m: Manifest, tag: string, id: int, assets: seq<RemoteAsset>,
                               at: Stamp, input: GateInput)
    requires tag !in s.jobs && tag !in s.releases && id > 0
    requires IsStableTag(tag) && ManifestOk(m, tag) && at.parses && Honest(sha, m, tag, assets)
    requires forall a :: a in m.assets ==> NonBlank(a.kind)
    requires forall t :: t in StableTags(input.releases) ==> VersionLe(VersionOf(t), VersionOf(tag))
    ensures Run(sha, s, WholeJob(tag, m, id, assets, at, input)).latest == Some(tag)
  {
    var public := Run(sha, s, Publication(tag, m, id, assets, at));
    UndisturbedPublication(sha, s, m, tag, id, assets, at);
    UndisturbedDecision(sha, public, m, tag, id, assets, at, input);
    RunInThree(sha, s, Publication(tag, m, id, assets, at), Asking(tag, at, input), MarkLatest(tag));
    MoveSetsLatest(sha, Run(sha, public, Asking(tag, at, input)), tag);
  }

  lemma {:induction false} RunInThree(sha: Digest, s: State, a: seq<Event>, b: seq<Event>, e: Event)
    ensures Run(sha, s, a + (b + [e])) == Apply(sha, Run(sha, Run(sha, s, a), b), e)
  {
    RunConcat(sha, s, a, b + [e]);
    RunConcat(sha, Run(sha, s, a), b, [e]);
    RunOne(sha, Run(sha, Run(sha, s, a), b), e);
  }

  lemma MoveSetsLatest(sha: Digest, s: State, tag: string)
    requires MovesLatest(s, MarkLatest(tag))
    ensures Apply(sha, s, MarkLatest(tag)).latest == Some(tag)
  {
  }

  lemma {:induction false} RunTouchesOneTag(sha: Digest, s: State, events: seq<Event>, tag: string, other: string)
    requires other != tag && forall e :: e in events ==> e.tag == tag
    ensures var s' := Run(sha, s, events);
            && (other in s'.jobs <==> other in s.jobs)
            && (other in s.jobs ==> s'.jobs[other] == s.jobs[other])
            && (other in s'.releases <==> other in s.releases)
            && (other in s.releases ==> s'.releases[other] == s.releases[other])
    decreases |events|
  {
    if events != [] {
      assert events[0] in events;
      assert forall e :: e in events[1..] ==> e in events;
      OtherTagsUntouched(sha, s, events[0], other);
      RunTouchesOneTag(sha, Apply(sha, s, events[0]), events[1..], tag, other);
    }
  }
}
