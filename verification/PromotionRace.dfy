// Listing the releases and moving `latest` are two steps, and the workflow serialises jobs only
// tag by tag. Between the two steps another job can get through.
module PromotionRace {
  import opened Common
  import opened Versions
  import opened ReleaseAssets
  import opened LatestPromotion
  import opened Protocol
  import opened PromotionOrder
  import opened ProtocolProgress

  lemma WholeJobIsOneTag(tag: string, m: Manifest, id: int, assets: seq<RemoteAsset>, at: Stamp, input: GateInput)
    ensures forall e :: e in WholeJob(tag, m, id, assets, at, input) ==> e.tag == tag
    ensures forall e :: e in Publication(tag, m, id, assets, at) ==> e.tag == tag
  {
    assert forall e :: e in Uploads(tag, assets) ==> e.tag == tag;
    assert forall e :: e in Opening(tag, m, id, at) ==> e.tag == tag;
    assert forall e :: e in Asking(tag, at, input) ==> e.tag == tag;
  }

  /** On the honest list of the moment the newer job asks, nothing is above it. */
  lemma NewerJobIsHighest(sha: Digest, s: State, low: string, high: string, m: Manifest, id: int,
                          assets: seq<RemoteAsset>, at: Stamp, rows: seq<ReleaseRow>)
    requires IsStableTag(low) && IsStableTag(high) && VersionLt(VersionOf(low), VersionOf(high))
    requires forall t :: IsPublic(s, t) ==> VersionLe(VersionOf(t), VersionOf(low))
    requires HonestList(Run(sha, s, Publication(high, m, id, assets, at)), rows)
    ensures forall t :: t in StableTags(rows) ==> VersionLe(VersionOf(t), VersionOf(high))
  {
    var public := Run(sha, s, Publication(high, m, id, assets, at));
    WholeJobIsOneTag(high, m, id, assets, at, GateInput([], "", "", None));
    forall t | t in StableTags(rows) ensures VersionLe(VersionOf(t), VersionOf(high)) {
      assert IsPublic(public, t);
      if t != high {
        RunTouchesOneTag(sha, s, Publication(high, m, id, assets, at), high, t);
        assert IsPublic(s, t);
      }
    }
  }

  /** A whole newer job runs after the older one was cleared, on the honest list of its moment. */
  lemma {:induction false} NewerJobRuns(sha: Digest, s: State, low: string, high: string, m: Manifest, id: int,
                                        assets: seq<RemoteAsset>, at: Stamp, input: GateInput)
    requires MovesLatest(s, MarkLatest(low)) && IsStableTag(low)
    requires forall t :: IsPublic(s, t) ==> VersionLe(VersionOf(t), VersionOf(low))
    requires high !in s.jobs && high !in s.releases && id > 0
    requires IsStableTag(high) && VersionLt(VersionOf(low), VersionOf(high))
    requires ManifestOk(m, high) && at.parses && Honest(sha, m, high, assets)
    requires forall a :: a in m.assets ==> NonBlank(a.kind)
    requires HonestList(Run(sha, s, Publication(high, m, id, assets, at)), input.releases)
    ensures var after := Run(sha, s, WholeJob(high, m, id, assets, at, input));
            && after.latest == Some(high)
            && MovesLatest(after, MarkLatest(low))
            && DecidedCase(after, MarkLatest(low)) == DecidedCase(s, MarkLatest(low))
  {
    NewerJobIsHighest(sha, s, low, high, m, id, assets, at, input.releases);
    UndisturbedJobPromotes(sha, s, m, high, id, assets, at, input);
    WholeJobIsOneTag(high, m, id, assets, at, input);
    RunTouchesOneTag(sha, s, WholeJob(high, m, id, assets, at, input), high, low);
  }

  lemma DecidingChangesOneJob(sha: Digest, s: State, tag: string, input: GateInput)
    requires tag in s.jobs
    ensures var after := Apply(sha, s, Decide(tag, input));
            after.releases == s.releases && after.jobs.Keys == s.jobs.Keys
  {
  }

  /** The race: an older job asks the gate on an honest list; a whole newer job runs, also on an
      honest list; then the older job moves `latest` down. Both decisions were plain approvals. */
  lemma {:induction false} RaceLowers(sha: Digest, s: State, low: string, lowInput: GateInput, high: string, m: Manifest, id: int,
                   assets: seq<RemoteAsset>, at: Stamp, highInput: GateInput)
    requires Promotable(s, low) && IsStableTag(low)
    requires forall t :: IsPublic(s, t) ==> VersionLe(VersionOf(t), VersionOf(low))
    requires high !in s.jobs && high !in s.releases && id > 0
    requires IsStableTag(high) && VersionLt(VersionOf(low), VersionOf(high))
    requires ManifestOk(m, high) && at.parses && Honest(sha, m, high, assets)
    requires forall a :: a in m.assets ==> NonBlank(a.kind)
    requires HonestList(s, lowInput.releases)
    requires HonestList(Run(sha, Apply(sha, s, Decide(low, lowInput)), Publication(high, m, id, assets, at)), highInput.releases)
    ensures var decided := Apply(sha, s, Decide(low, lowInput));
            var before := Run(sha, decided, WholeJob(high, m, id, assets, at, highInput));
            && before.latest == Some(high)
            && MovesLatest(before, MarkLatest(low))
            && Verdicts(DecidedCase(before, MarkLatest(low)), Approved)
            && Apply(sha, before, MarkLatest(low)).latest == Some(low)
  {
    var decided := Apply(sha, s, Decide(low, lowInput));
    AcceptedJobCleared(sha, s, low, lowInput);
    DecidingChangesOneJob(sha, s, low, lowInput);
    NewerJobRuns(sha, decided, low, high, m, id, assets, at, highInput);
    MoveSetsLatest(sha, Run(sha, decided, WholeJob(high, m, id, assets, at, highInput)), low);
  }

  // ------------------------------------------------------------ the whole run

  /** What one undisturbed job publishes. */
  datatype Shipment = Shipment(tag: string, manifest: Manifest, id: int, assets: seq<RemoteAsset>, at: Stamp)

  predicate Sound(sha: Digest, j: Shipment) {
    && IsStableTag(j.tag) && ManifestOk(j.manifest, j.tag) && j.id > 0 && j.at.parses
    && Honest(sha, j.manifest, j.tag, j.assets)
    && forall a :: a in j.manifest.assets ==> NonBlank(a.kind)
  }

  function Shipping(j: Shipment): seq<Event> {
    Publication(j.tag, j.manifest, j.id, j.assets, j.at)
  }

  /** Publishing a shipment and taking its inventory. */
  function Preparing(j: Shipment): seq<Event> {
    Shipping(j) + Inspecting(j.tag, j.at)
  }

  lemma {:induction false} Prepared(sha: Digest, s: State, j: Shipment)
    requires Sound(sha, j) && j.tag !in s.jobs && j.tag !in s.releases
    ensures Promotable(Run(sha, s, Preparing(j)), j.tag)
  {
    var public := Run(sha, s, Shipping(j));
    UndisturbedPublication(sha, s, j.manifest, j.tag, j.id, j.assets, j.at);
    UndisturbedInventory(sha, public, j.manifest, j.tag, j.id, j.assets, j.at);
    RunConcat(sha, s, Shipping(j), Inspecting(j.tag, j.at));
  }

  lemma {:induction false} PreparingIsOneTag(sha: Digest, s: State, j: Shipment, other: string)
    requires other != j.tag
    ensures var after := Run(sha, s, Preparing(j));
            && (other in after.jobs <==> other in s.jobs)
            && (other in after.releases <==> other in s.releases)
            && (IsPublic(after, other) <==> IsPublic(s, other))
  {
    WholeJobIsOneTag(j.tag, j.manifest, j.id, j.assets, j.at, GateInput([], "", "", None));
    assert forall e :: e in Preparing(j) ==> e.tag == j.tag;
    RunTouchesOneTag(sha, s, Preparing(j), j.tag, other);
  }

  /** From any state without jobs in which nothing newer than `low` is public: the older job
      publishes, takes its inventory and asks; the newer one runs from start to end; the older one
      moves. Every list is honest, and `latest` ends below where it was. */
  lemma {:induction false} RaceFromIdle(sha: Digest, s: State, low: Shipment, lowInput: GateInput,
                                        high: Shipment, highInput: GateInput)
    requires s.jobs == map[] && low.tag !in s.releases && high.tag !in s.releases
    requires Sound(sha, low) && Sound(sha, high) && VersionLt(VersionOf(low.tag), VersionOf(high.tag))
    requires forall t :: IsPublic(s, t) ==> VersionLe(VersionOf(t), VersionOf(low.tag))
    requires HonestList(Run(sha, s, Preparing(low)), lowInput.releases)
    requires HonestList(Run(sha, Apply(sha, Run(sha, s, Preparing(low)), Decide(low.tag, lowInput)), Shipping(high)),
                        highInput.releases)
    ensures var asked := Apply(sha, Run(sha, s, Preparing(low)), Decide(low.tag, lowInput));
            var before := Run(sha, asked, WholeJob(high.tag, high.manifest, high.id, high.assets, high.at, highInput));
            && before.latest == Some(high.tag)
            && MovesLatest(before, MarkLatest(low.tag))
            && Verdicts(DecidedCase(before, MarkLatest(low.tag)), Approved)
            && Apply(sha, before, MarkLatest(low.tag)).latest == Some(low.tag)
  {
    var prepared := Run(sha, s, Preparing(low));
    Prepared(sha, s, low);
    PreparingIsOneTag(sha, s, low, high.tag);
    forall t | IsPublic(prepared, t) ensures VersionLe(VersionOf(t), VersionOf(low.tag)) {
      if t != low.tag {
        PreparingIsOneTag(sha, s, low, t);
      }
    }
    RaceLowers(sha, prepared, low.tag, lowInput, high.tag, high.manifest, high.id, high.assets, high.at, highInput);
  }
}
