// Publication as a transition system: protected jobs, at most one per tag, that plan,
// create a draft, upload, publish, take the inventory, ask the promotion gate and move
// `latest`, with crashes between any two steps, and with people outside who may delete
// releases and replace stored assets at any time. What an upload stores is up to the
// environment; the gates have to notice.
module Protocol {
  import opened Common
  import opened ReleaseAssets
  import opened PublicationPlan
  import opened RemoteInventory
  import opened LatestPromotion

  /** An asset as GitHub keeps it: what its API reports, and the bytes it serves. */
  datatype RemoteAsset = RemoteAsset(row: RemoteRow, bytes: Bytes)

  datatype Release = Release(id: int, draft: bool, prerelease: bool, assets: seq<RemoteAsset>)

  /** Where a job stands. `creating` remembers which action its plan chose; a cleared job has
      been told by the gate, on the case it decided, to move `latest`. */
  datatype Phase =
    | Fresh
    | Creating
    | Uploading
    | Public(creating: bool)
    | Downloaded(creating: bool, files: map<string, Bytes>)
    | Inventoried(creating: bool, inventory: Inventory)
    | Cleared(decided: Case)
    | Stopped

  datatype Job = Job(manifest: Manifest, phase: Phase)

  datatype State = State(releases: map<string, Release>, jobs: map<string, Job>, latest: Option<string>)

  /** What the promotion gate is given besides the job's own files. */
  datatype GateInput = GateInput(
    releases: seq<ReleaseRow>,
    publishDigest: string,
    ledgerDigest: string,
    receipt: Option<RollbackReceipt>)

  datatype Event =
    | Begin(tag: string, manifest: Manifest)
    | MakePlan(tag: string, at: Stamp)
    | CreateDraft(tag: string, id: int)
    | Upload(tag: string, asset: RemoteAsset)
    | Publish(tag: string)
    | Download(tag: string)
    | TakeInventory(tag: string, at: Stamp)
    | Decide(tag: string, input: GateInput)
    | MarkLatest(tag: string)
    | Crash(tag: string)
    | OperatorDelete(tag: string)
    | Replace(tag: string, assets: seq<RemoteAsset>)

  // ------------------------------------------------------------ what GitHub reports

  function RowsOf(assets: seq<RemoteAsset>): (rows: seq<RemoteRow>)
    ensures |rows| == |assets|
    ensures forall i :: 0 <= i < |assets| ==> rows[i] == assets[i].row
  {
    Project(assets, (a: RemoteAsset) => a.row)
  }

  function SizesOf(assets: seq<RemoteAsset>): (sizes: seq<RemoteSize>)
    ensures |sizes| == |assets|
    ensures forall i :: 0 <= i < |assets| ==> sizes[i] == RemoteSize(assets[i].row.name, assets[i].row.size)
  {
    Project(assets, (a: RemoteAsset) => RemoteSize(a.row.name, a.row.size))
  }

  /** The bytes served under each name. */
  function Served(assets: seq<RemoteAsset>): map<string, Bytes> {
    if assets == [] then map[]
    else Served(assets[..|assets| - 1])[assets[|assets| - 1].row.name := assets[|assets| - 1].bytes]
  }

  function MetadataOf(s: State, tag: string): Metadata {
    if tag !in s.releases then Absent
    else
      var r := s.releases[tag];
      Existing(tag, r.draft, r.prerelease, SizesOf(r.assets))
  }

  /** Under each name of the manifest the release serves bytes with the manifest's digest and
      size. It may serve other names as well. */
  predicate ServesManifest(sha: Digest, assets: seq<RemoteAsset>, m: Manifest) {
    var served := Served(assets);
    forall a :: a in m.assets ==>
      a.name in served && sha(served[a.name]) == a.sha256 && |served[a.name]| == a.size
  }

  predicate ServesNames(assets: seq<RemoteAsset>, m: Manifest) {
    Served(assets).Keys == NameSet(m.assets)
  }

  /** The release serves exactly the assets of the manifest: the same names, and under each
      name bytes with the manifest's digest and size. */
  predicate ServesExactly(sha: Digest, assets: seq<RemoteAsset>, m: Manifest) {
    ServesManifest(sha, assets, m) && ServesNames(assets, m)
  }

  // ------------------------------------------------------------ the steps

  function SetPhase(s: State, tag: string, phase: Phase): State
    requires tag in s.jobs
  {
    s.(jobs := s.jobs[tag := s.jobs[tag].(phase := phase)])
  }

  function PlanStep(s: State, tag: string, at: Stamp): State
    requires tag in s.jobs && s.jobs[tag].phase == Fresh
  {
    var outcome := BuildPlan(s.jobs[tag].manifest, MetadataOf(s, tag), tag, at);
    if !outcome.Returned? || !at.parses then SetPhase(s, tag, Stopped)
    else if outcome.plan.action == CreateDraftUploadPublish then SetPhase(s, tag, Creating)
    else SetPhase(s, tag, Public(false))
  }

  function CreateStep(s: State, tag: string, id: int): State
    requires tag in s.jobs && s.jobs[tag].phase == Creating
  {
    if tag in s.releases then SetPhase(s, tag, Stopped)
    else SetPhase(s, tag, Uploading).(releases := s.releases[tag := Release(id, true, false, [])])
  }

  function UploadStep(s: State, tag: string, asset: RemoteAsset): State
    requires tag in s.jobs && s.jobs[tag].phase == Uploading
  {
    if tag !in s.releases || asset.row.name in Served(s.releases[tag].assets) then SetPhase(s, tag, Stopped)
    else
      var r := s.releases[tag];
      s.(releases := s.releases[tag := r.(assets := r.assets + [asset])])
  }

  /** The draft is downloaded by the manifest's names and checked, then published; an asset with
      another name goes unseen here. */
  function PublishStep(sha: Digest, s: State, tag: string): State
    requires tag in s.jobs && s.jobs[tag].phase == Uploading
  {
    if tag !in s.releases || !ServesManifest(sha, s.releases[tag].assets, s.jobs[tag].manifest) then
      SetPhase(s, tag, Stopped)
    else
      SetPhase(s, tag, Public(true)).(releases := s.releases[tag := s.releases[tag].(draft := false)])
  }

  /** The public release is downloaded by the manifest's names and checked against it. */
  function DownloadStep(sha: Digest, s: State, tag: string): State
    requires tag in s.jobs && s.jobs[tag].phase.Public?
  {
    var job := s.jobs[tag];
    if tag !in s.releases || !ServesManifest(sha, s.releases[tag].assets, job.manifest) then SetPhase(s, tag, Stopped)
    else SetPhase(s, tag, Downloaded(job.phase.creating, FilesOf(s.releases[tag].assets, job.manifest)))
  }

  /** What a download by the manifest's names brings. */
  function FilesOf(assets: seq<RemoteAsset>, m: Manifest): map<string, Bytes> {
    map n | n in Served(assets) && n in NameSet(m.assets) :: Served(assets)[n]
  }

  /** The inventory of the downloaded files against the asset list of this moment. */
  function InventoryFor(sha: Digest, s: State, tag: string, at: Stamp): Option<Inventory>
    requires tag in s.jobs && s.jobs[tag].phase.Downloaded? && tag in s.releases
  {
    var r := s.releases[tag];
    BuildInventory(sha, s.jobs[tag].phase.files, s.jobs[tag].manifest, tag, ReleaseMeta(tag, r.id), RowsOf(r.assets), at)
  }

  function InventoryStep(sha: Digest, s: State, tag: string, at: Stamp): State
    requires tag in s.jobs && s.jobs[tag].phase.Downloaded?
  {
    if tag !in s.releases || InventoryFor(sha, s, tag, at).None? || !at.parses then SetPhase(s, tag, Stopped)
    else SetPhase(s, tag, Inventoried(s.jobs[tag].phase.creating, InventoryFor(sha, s, tag, at).value))
  }

  function CaseFor(s: State, tag: string, input: GateInput): Case
    requires tag in s.jobs && s.jobs[tag].phase.Inventoried?
  {
    Case(tag, input.releases, input.publishDigest, input.ledgerDigest, s.jobs[tag].manifest,
         s.jobs[tag].phase.inventory, input.receipt)
  }

  /** Listing the releases and asking the gate. Only a job that created the release asks. */
  function DecideStep(s: State, tag: string, input: GateInput): State
    requires tag in s.jobs && s.jobs[tag].phase.Inventoried?
  {
    var c := CaseFor(s, tag, input);
    SetPhase(s, tag, if s.jobs[tag].phase.creating && Moves(c) then Cleared(c) else Stopped)
  }

  /** This event moves `latest` to its tag: `gh release edit --latest` on a release that is there. */
  predicate MovesLatest(s: State, e: Event) {
    e.MarkLatest? && e.tag in s.jobs && s.jobs[e.tag].phase.Cleared? && e.tag in s.releases
  }

  /** The case on which the gate cleared the move. */
  function DecidedCase(s: State, e: Event): Case
    requires MovesLatest(s, e)
  {
    s.jobs[e.tag].phase.decided
  }

  /** One step; an event that is not enabled changes nothing. */
  function Apply(sha: Digest, s: State, e: Event): State {
    match e
    case Begin(tag, manifest) =>
      if tag in s.jobs then s else s.(jobs := s.jobs[tag := Job(manifest, Fresh)])
    case MakePlan(tag, at) =>
      if tag in s.jobs && s.jobs[tag].phase == Fresh then PlanStep(s, tag, at) else s
    case CreateDraft(tag, id) =>
      if tag in s.jobs && s.jobs[tag].phase == Creating then CreateStep(s, tag, id) else s
    case Upload(tag, asset) =>
      if tag in s.jobs && s.jobs[tag].phase == Uploading then UploadStep(s, tag, asset) else s
    case Publish(tag) =>
      if tag in s.jobs && s.jobs[tag].phase == Uploading then PublishStep(sha, s, tag) else s
    case Download(tag) =>
      if tag in s.jobs && s.jobs[tag].phase.Public? then DownloadStep(sha, s, tag) else s
    case TakeInventory(tag, at) =>
      if tag in s.jobs && s.jobs[tag].phase.Downloaded? then InventoryStep(sha, s, tag, at) else s
    case Decide(tag, input) =>
      if tag in s.jobs && s.jobs[tag].phase.Inventoried? then DecideStep(s, tag, input) else s
    case MarkLatest(tag) =>
      if MovesLatest(s, e) then SetPhase(s, tag, Stopped).(latest := Some(tag))
      else if tag in s.jobs && s.jobs[tag].phase.Cleared? then SetPhase(s, tag, Stopped)
      else s
    case Crash(tag) =>
      s.(jobs := s.jobs - {tag})
    case OperatorDelete(tag) =>
      s.(releases := s.releases - {tag}, latest := if s.latest == Some(tag) then None else s.latest)
    case Replace(tag, assets) =>
      if tag in s.releases then s.(releases := s.releases[tag := s.releases[tag].(assets := assets)]) else s
  }

  function Run(sha: Digest, s: State, events: seq<Event>): State
    decreases |events|
  {
    if events == [] then s else Run(sha, Apply(sha, s, events[0]), events[1..])
  }

  lemma {:induction false} RunConcat(sha: Digest, s: State, a: seq<Event>, b: seq<Event>)
    ensures Run(sha, s, a + b) == Run(sha, Run(sha, s, a), b)
    decreases |a|
  {
    if a == [] {
      assert a + b == b;
    } else {
      assert (a + b)[0] == a[0] && (a + b)[1..] == a[1..] + b;
      RunConcat(sha, Apply(sha, s, a[0]), a[1..], b);
    }
  }

  lemma RunOne(sha: Digest, s: State, e: Event)
    ensures Run(sha, s, [e]) == Apply(sha, s, e)
  {
    assert [e][1..] == [];
  }

  /** The state before step `k` of a run. */
  function StateAt(sha: Digest, s: State, events: seq<Event>, k: nat): State
    requires k <= |events|
  {
    Run(sha, s, events[..k])
  }

  lemma NextState(sha: Digest, s: State, events: seq<Event>, k: nat)
    requires k < |events|
    ensures StateAt(sha, s, events, k + 1) == Apply(sha, StateAt(sha, s, events, k), events[k])
  {
    assert events[..k + 1] == events[..k] + [events[k]];
    RunConcat(sha, s, events[..k], [events[k]]);
    RunOne(sha, StateAt(sha, s, events, k), events[k]);
  }

  // ------------------------------------------------------------ safety

  predicate PastInventory(phase: Phase) {
    phase.Inventoried? || phase.Cleared?
  }

  predicate PastDownload(phase: Phase) {
    phase.Downloaded? || PastInventory(phase)
  }

  function InventoryOf(phase: Phase): Inventory
    requires PastInventory(phase)
  {
    if phase.Inventoried? then phase.inventory else phase.decided.inventory
  }

  /** Past publication a job's release, while it exists, is public and not a prerelease. */
  predicate FlagsOk(s: State, tag: string) {
    tag in s.jobs && tag in s.releases ==>
      var phase, release := s.jobs[tag].phase, s.releases[tag];
      && (phase.Uploading? ==> !release.prerelease)
      && (phase.Public? || PastDownload(phase) ==> !release.draft && !release.prerelease)
  }

  /** Past the inventory, the inventory says what the manifest says. */
  predicate InventoryOk(s: State, tag: string) {
    tag in s.jobs && PastInventory(s.jobs[tag].phase) ==>
      ByName(AssetsOf(InventoryOf(s.jobs[tag].phase).rows)) == ByName(s.jobs[tag].manifest.assets)
  }

  /** Past the download the release, while it exists, serves the manifest; past the inventory it
      serves no other name. */
  predicate ExactOk(sha: Digest, s: State, tag: string) {
    tag in s.jobs && tag in s.releases ==>
      var job, assets := s.jobs[tag], s.releases[tag].assets;
      && (PastDownload(job.phase) ==> ServesManifest(sha, assets, job.manifest))
      && (PastInventory(job.phase) ==> ServesNames(assets, job.manifest))
  }

  /** The job of this tag has downloaded its release. */
  predicate Committed(s: State, tag: string) {
    tag in s.jobs && PastDownload(s.jobs[tag].phase)
  }

  /** Somebody replaces the assets of a release that its job has downloaded. */
  predicate LateReplacement(s: State, e: Event, tag: string) {
    e.Replace? && e.tag == tag && Committed(s, tag) && tag in s.releases
  }

  lemma {:induction false} ServedNames(assets: seq<RemoteAsset>)
    ensures Served(assets).Keys == RemoteByName(RowsOf(assets)).Keys
  {
    if assets != [] {
      var front := assets[..|assets| - 1];
      ServedNames(front);
      assert RowsOf(assets)[..|assets| - 1] == RowsOf(front);
    }
  }

  /** An inventory can only be built of a release whose asset list has the manifest's names, and
      then lists the manifest. */
  lemma InventoryMeansManifest(sha: Digest, s: State, tag: string, at: Stamp)
    requires tag in s.jobs && s.jobs[tag].phase.Downloaded? && tag in s.releases
    requires InventoryFor(sha, s, tag, at).Some?
    ensures ServesNames(s.releases[tag].assets, s.jobs[tag].manifest)
    ensures ByName(AssetsOf(InventoryFor(sha, s, tag, at).value.rows)) == ByName(s.jobs[tag].manifest.assets)
  {
    var r, m := s.releases[tag], s.jobs[tag].manifest;
    ServedNames(r.assets);
    BuiltRows(sha, s.jobs[tag].phase.files, m, tag, ReleaseMeta(tag, r.id), RowsOf(r.assets), at);
  }

  /** A validate plan is only made for a public release. */
  lemma ValidatePlanMeansPublic(s: State, tag: string, at: Stamp)
    requires tag in s.jobs
    requires var outcome := BuildPlan(s.jobs[tag].manifest, MetadataOf(s, tag), tag, at);
             outcome.Returned? && outcome.plan.action != CreateDraftUploadPublish
    ensures tag in s.releases && !s.releases[tag].draft && !s.releases[tag].prerelease
  {
  }

  /** A step of one job leaves the job and the release of every other tag alone. */
  lemma OtherTagsUntouched(sha: Digest, s: State, e: Event, tag: string)
    requires tag != e.tag
    ensures var s' := Apply(sha, s, e);
            && (tag in s'.jobs <==> tag in s.jobs)
            && (tag in s.jobs ==> s'.jobs[tag] == s.jobs[tag])
            && (tag in s'.releases <==> tag in s.releases)
            && (tag in s.releases ==> s'.releases[tag] == s.releases[tag])
  {
  }

  /** Every step keeps a tag's release as public as its job's phase says. */
  lemma StepKeepsFlags(sha: Digest, s: State, e: Event, tag: string)
    requires FlagsOk(s, tag)
    ensures FlagsOk(Apply(sha, s, e), tag)
  {
    if tag != e.tag {
      OtherTagsUntouched(sha, s, e, tag);
    } else if e.MakePlan? && tag in s.jobs && s.jobs[tag].phase == Fresh {
      var outcome := BuildPlan(s.jobs[tag].manifest, MetadataOf(s, tag), tag, e.at);
      if outcome.Returned? && outcome.plan.action != CreateDraftUploadPublish {
        ValidatePlanMeansPublic(s, tag, e.at);
      }
    }
  }

  lemma Committing(sha: Digest, s: State, e: Event, tag: string)
    requires !Committed(s, tag) && Committed(Apply(sha, s, e), tag)
    ensures e == Download(tag) && tag in s.jobs && s.jobs[tag].phase.Public? && Apply(sha, s, e) == DownloadStep(sha, s, tag)
  {
    if tag != e.tag {
      OtherTagsUntouched(sha, s, e, tag);
    }
  }

  /** While a job is committed only a replacement changes the assets of its release. */
  lemma CommittedKeepsAssets(sha: Digest, s: State, e: Event, tag: string)
    requires Committed(s, tag) && !(e.Replace? && e.tag == tag) && tag in Apply(sha, s, e).releases
    ensures tag in s.releases && Apply(sha, s, e).releases[tag].assets == s.releases[tag].assets
  {
    if tag != e.tag {
      OtherTagsUntouched(sha, s, e, tag);
    }
  }

  lemma CommittedKeepsManifest(sha: Digest, s: State, e: Event, tag: string)
    requires Committed(s, tag) && Committed(Apply(sha, s, e), tag)
    ensures Apply(sha, s, e).jobs[tag].manifest == s.jobs[tag].manifest
    ensures PastInventory(Apply(sha, s, e).jobs[tag].phase) ==>
              || PastInventory(s.jobs[tag].phase)
              || (e.TakeInventory? && e.tag == tag && s.jobs[tag].phase.Downloaded? && tag in s.releases &&
                  InventoryFor(sha, s, tag, e.at).Some?)
  {
    if tag != e.tag {
      OtherTagsUntouched(sha, s, e, tag);
    }
  }

  /** Every step of every job, every crash, deletion and replacement keeps a tag's release exact,
      except a replacement after that tag's download. */
  lemma StepKeepsExact(sha: Digest, s: State, e: Event, tag: string)
    requires ExactOk(sha, s, tag) && !LateReplacement(s, e, tag)
    ensures ExactOk(sha, Apply(sha, s, e), tag)
  {
    var after := Apply(sha, s, e);
    if Committed(after, tag) && tag in after.releases {
      if !Committed(s, tag) {
        Committing(sha, s, e, tag);
      } else {
        if !(e.Replace? && e.tag == tag) {
          CommittedKeepsAssets(sha, s, e, tag);
        }
        CommittedKeepsManifest(sha, s, e, tag);
        if PastInventory(after.jobs[tag].phase) && !PastInventory(s.jobs[tag].phase) {
          InventoryMeansManifest(sha, s, tag, e.at);
        }
      }
    }
  }

  /** Where the inventory of a job past its inventory comes from. */
  lemma InventoryBefore(sha: Digest, s: State, e: Event, tag: string)
    requires tag in Apply(sha, s, e).jobs && PastInventory(Apply(sha, s, e).jobs[tag].phase)
    ensures tag in s.jobs && Apply(sha, s, e).jobs[tag].manifest == s.jobs[tag].manifest
    ensures var inventory := InventoryOf(Apply(sha, s, e).jobs[tag].phase);
            || (PastInventory(s.jobs[tag].phase) && InventoryOf(s.jobs[tag].phase) == inventory)
            || (e.TakeInventory? && e.tag == tag && s.jobs[tag].phase.Downloaded? && tag in s.releases &&
                InventoryFor(sha, s, tag, e.at) == Some(inventory))
  {
    if tag != e.tag {
      OtherTagsUntouched(sha, s, e, tag);
    }
  }

  lemma StepKeepsInventory(sha: Digest, s: State, e: Event, tag: string)
    requires InventoryOk(s, tag)
    ensures InventoryOk(Apply(sha, s, e), tag)
  {
    var after := Apply(sha, s, e);
    if tag in after.jobs && PastInventory(after.jobs[tag].phase) {
      InventoryBefore(sha, s, e, tag);
      if !PastInventory(s.jobs[tag].phase) {
        InventoryMeansManifest(sha, s, tag, e.at);
      }
    }
  }

  lemma {:induction false} RunKeepsFlags(sha: Digest, s: State, events: seq<Event>, k: nat, tag: string)
    requires FlagsOk(s, tag) && k <= |events|
    ensures FlagsOk(StateAt(sha, s, events, k), tag)
  {
    if k == 0 {
      assert events[..0] == [];
    } else {
      RunKeepsFlags(sha, s, events, k - 1, tag);
      NextState(sha, s, events, k - 1);
      StepKeepsFlags(sha, StateAt(sha, s, events, k - 1), events[k - 1], tag);
    }
  }

  lemma {:induction false} RunKeepsInventory(sha: Digest, s: State, events: seq<Event>, k: nat, tag: string)
    requires InventoryOk(s, tag) && k <= |events|
    ensures InventoryOk(StateAt(sha, s, events, k), tag)
  {
    if k == 0 {
      assert events[..0] == [];
    } else {
      RunKeepsInventory(sha, s, events, k - 1, tag);
      NextState(sha, s, events, k - 1);
      StepKeepsInventory(sha, StateAt(sha, s, events, k - 1), events[k - 1], tag);
    }
  }

  /** From step `j` to step `k` the job of this tag stays past its download: it is one job. */
  predicate CommittedThrough(sha: Digest, s: State, events: seq<Event>, j: nat, k: nat, tag: string)
    requires k <= |events|
  {
    forall m :: j <= m <= k ==> Committed(StateAt(sha, s, events, m), tag)
  }

  /** At step `j` somebody replaces the assets of the release that the job at step `k` had already
      downloaded. */
  predicate ReplacedUnder(sha: Digest, s: State, events: seq<Event>, j: nat, k: nat, tag: string)
    requires j < k <= |events|
  {
    LateReplacement(StateAt(sha, s, events, j), events[j], tag) && CommittedThrough(sha, s, events, j, k, tag)
  }

  lemma ReplacedLonger(sha: Digest, s: State, events: seq<Event>, j: nat, k: nat, tag: string)
    requires j < k < |events| && ReplacedUnder(sha, s, events, j, k, tag)
    requires Committed(StateAt(sha, s, events, k + 1), tag)
    ensures ReplacedUnder(sha, s, events, j, k + 1, tag)
  {
  }

  /** In every run a committed job's release is exact, or was replaced under that very job. */
  lemma {:induction false} ExactOrReplaced(sha: Digest, s: State, events: seq<Event>, k: nat, tag: string)
    requires ExactOk(sha, s, tag) && !Committed(s, tag) && k <= |events|
    ensures ExactOk(sha, StateAt(sha, s, events, k), tag) || exists j :: 0 <= j < k && ReplacedUnder(sha, s, events, j, k, tag)
  {
    if k == 0 {
      assert events[..0] == [];
    } else {
      var before, after, e := StateAt(sha, s, events, k - 1), StateAt(sha, s, events, k), events[k - 1];
      ExactOrReplaced(sha, s, events, k - 1, tag);
      NextState(sha, s, events, k - 1);
      if Committed(after, tag) {
        if !Committed(before, tag) {
          Committing(sha, before, e, tag);
          assert ExactOk(sha, before, tag);
          StepKeepsExact(sha, before, e, tag);
        } else if LateReplacement(before, e, tag) {
          assert ReplacedUnder(sha, s, events, k - 1, k, tag);
        } else if ExactOk(sha, before, tag) {
          StepKeepsExact(sha, before, e, tag);
        } else {
          var j :| 0 <= j < k - 1 && ReplacedUnder(sha, s, events, j, k - 1, tag);
          ReplacedLonger(sha, s, events, j, k - 1, tag);
        }
      }
    }
  }

  /** No step between the two replaces the assets of this tag. */
  predicate NoReplacement(events: seq<Event>, from: int, to: int, tag: string)
    requires 0 <= from && to <= |events|
  {
    forall m :: from <= m < to ==> !(events[m].Replace? && events[m].tag == tag)
  }

  lemma ReplaceStores(sha: Digest, s: State, e: Event, tag: string)
    requires LateReplacement(s, e, tag)
    ensures tag in Apply(sha, s, e).releases && Apply(sha, s, e).releases[tag].assets == e.assets
  {
  }

  /** What was put there last under a committed job is what is there. */
  lemma {:induction false} LastReplacementStays(sha: Digest, s: State, events: seq<Event>, j: nat, k: nat, tag: string)
    requires j < k <= |events| && ReplacedUnder(sha, s, events, j, k, tag) && NoReplacement(events, j + 1, k, tag)
    ensures var after := StateAt(sha, s, events, k);
            tag in after.releases ==> after.releases[tag].assets == events[j].assets
    decreases k
  {
    var before := StateAt(sha, s, events, k - 1);
    NextState(sha, s, events, k - 1);
    if j == k - 1 {
      ReplaceStores(sha, before, events[j], tag);
    } else {
      assert ReplacedUnder(sha, s, events, j, k - 1, tag);
      LastReplacementStays(sha, s, events, j, k - 1, tag);
      assert Committed(before, tag);
      if tag in StateAt(sha, s, events, k).releases {
        CommittedKeepsAssets(sha, before, events[k - 1], tag);
      }
    }
  }

  /** What is certain at the moment `latest` moves: the release is public, and the inventory the
      gate saw says what the manifest says. */
  predicate MoveIsPublic(sha: Digest, s: State, e: Event)
    requires MovesLatest(s, e)
  {
    var after := Apply(sha, s, e);
    && after.latest == Some(e.tag)
    && e.tag in after.releases
    && !after.releases[e.tag].draft
    && !after.releases[e.tag].prerelease
    && ByName(AssetsOf(DecidedCase(s, e).inventory.rows)) == ByName(s.jobs[e.tag].manifest.assets)
  }

  /** The release also serves exactly the manifest. */
  predicate MoveIsExact(sha: Digest, s: State, e: Event)
    requires MovesLatest(s, e)
  {
    ServesExactly(sha, Apply(sha, s, e).releases[e.tag].assets, s.jobs[e.tag].manifest)
  }

  /** From any state of GitHub without running jobs, in every run and at every moment at which
      `latest` moves, the release it moves to is public and serves exactly the manifest, unless
      somebody replaced its assets after this job had downloaded them. */
  lemma LatestMovesOnlyToExactReleases(sha: Digest, s: State, events: seq<Event>, k: nat)
    requires s.jobs == map[]
    requires k < |events| && MovesLatest(StateAt(sha, s, events, k), events[k])
    ensures MoveIsPublic(sha, StateAt(sha, s, events, k), events[k])
    ensures || MoveIsExact(sha, StateAt(sha, s, events, k), events[k])
            || exists j :: 0 <= j < k && ReplacedUnder(sha, s, events, j, k, events[k].tag)
  {
    RunKeepsFlags(sha, s, events, k, events[k].tag);
    RunKeepsInventory(sha, s, events, k, events[k].tag);
    ExactOrReplaced(sha, s, events, k, events[k].tag);
  }

  /** After the last such replacement, the move is to an exact release exactly when what was put
      there serves the manifest. */
  lemma ReplacedMoveIsExactExactly(sha: Digest, s: State, events: seq<Event>, j: nat, k: nat)
    requires j < k < |events| && MovesLatest(StateAt(sha, s, events, k), events[k])
    requires ReplacedUnder(sha, s, events, j, k, events[k].tag) && NoReplacement(events, j + 1, k, events[k].tag)
    ensures MoveIsExact(sha, StateAt(sha, s, events, k), events[k]) <==>
              ServesExactly(sha, events[j].assets, StateAt(sha, s, events, k).jobs[events[k].tag].manifest)
  {
    LastReplacementStays(sha, s, events, j, k, events[k].tag);
  }

  /** The exception is real: after the gate has cleared a job, nothing looks at the assets again. */
  lemma LateReplacementUnnoticed(sha: Digest, s: State, tag: string, assets: seq<RemoteAsset>)
    requires MovesLatest(s, MarkLatest(tag))
    ensures var after := Run(sha, s, [Replace(tag, assets)] + [MarkLatest(tag)]);
            after.latest == Some(tag) && tag in after.releases && after.releases[tag].assets == assets
  {
    var replaced := Apply(sha, s, Replace(tag, assets));
    RunConcat(sha, s, [Replace(tag, assets)], [MarkLatest(tag)]);
    RunOne(sha, s, Replace(tag, assets));
    RunOne(sha, replaced, MarkLatest(tag));
  }

  /** `latest` changes to a tag only through such a move. */
  lemma OnlyPromotionMovesLatest(sha: Digest, s: State, e: Event)
    requires Apply(sha, s, e).latest != s.latest
    ensures MovesLatest(s, e) || (e.OperatorDelete? && Apply(sha, s, e).latest == None)
  {
  }

  // ------------------------------------------------------------ a crash after publication

  /** The release exists and no job can still create it. */
  predicate Stranded(s: State, tag: string) {
    && tag in s.releases
    && (tag in s.jobs ==>
          var phase := s.jobs[tag].phase;
          && !phase.Uploading?
          && (phase.Public? ==> !phase.creating)
          && (phase.Downloaded? ==> !phase.creating)
          && (phase.Inventoried? ==> !phase.creating)
          && !phase.Cleared?)
  }

  lemma StrandedStep(sha: Digest, s: State, e: Event, tag: string)
    requires Stranded(s, tag)
    ensures e != OperatorDelete(tag) ==> Stranded(Apply(sha, s, e), tag)
    ensures !(MovesLatest(s, e) && e.tag == tag)
  {
  }

  lemma {:induction false} StaysStranded(sha: Digest, s: State, events: seq<Event>, tag: string, k: nat)
    requires Stranded(s, tag) && k <= |events| && OperatorDelete(tag) !in events[..k]
    ensures Stranded(StateAt(sha, s, events, k), tag)
  {
    if k == 0 {
      assert events[..0] == [];
    } else {
      assert events[k - 1] == events[..k][k - 1];
      assert forall e :: e in events[..k - 1] ==> e in events[..k];
      StaysStranded(sha, s, events, tag, k - 1);
      NextState(sha, s, events, k - 1);
      StrandedStep(sha, StateAt(sha, s, events, k - 1), events[k - 1], tag);
    }
  }

  /** Once a release exists without the job that created it (a crash after the draft was
      created or published), no rerun ever moves `latest` to it until an operator deletes it. */
  lemma StrandedReleaseNeverBecomesLatest(sha: Digest, s: State, events: seq<Event>, tag: string, k: nat)
    requires Stranded(s, tag)
    requires k < |events| && OperatorDelete(tag) !in events[..k]
    ensures !(MovesLatest(StateAt(sha, s, events, k), events[k]) && events[k].tag == tag)
  {
    StaysStranded(sha, s, events, tag, k);
    StrandedStep(sha, StateAt(sha, s, events, k), events[k], tag);
  }

  lemma CrashStrands(sha: Digest, s: State, tag: string)
    requires tag in s.releases
    ensures Stranded(Apply(sha, s, Crash(tag)), tag)
  {
  }
}
