// `latest` is not to move to an older release while a newer stable one is public. The gate sees
// the list of one moment, so this can fail, but only through a publication in between.
module PromotionWindow {
  import opened Common
  import opened Versions
  import opened ReleaseAssets
  import opened LatestPromotion
  import opened Protocol
  import opened PromotionOrder
  import opened ProtocolProgress
  import opened PromotionRace

  /** The job that is cleared at step `k` asked the gate at step `d`, and has been cleared since. */
  predicate DecidedAt(sha: Digest, s: State, events: seq<Event>, d: nat, k: nat, tag: string)
    requires d < k <= |events|
  {
    var asked := StateAt(sha, s, events, d);
    && events[d].Decide? && events[d].tag == tag
    && tag in asked.jobs && asked.jobs[tag].phase.Inventoried?
    && forall m :: d < m <= k ==> ClearedFor(StateAt(sha, s, events, m), tag, CaseFor(asked, tag, events[d].input))
  }

  predicate ClearedFor(s: State, tag: string, c: Case) {
    tag in s.jobs && s.jobs[tag].phase == Cleared(c)
  }

  lemma DecidedLonger(sha: Digest, s: State, events: seq<Event>, d: nat, k: nat, tag: string)
    requires d < k < |events| && DecidedAt(sha, s, events, d, k, tag)
    requires tag in StateAt(sha, s, events, k).jobs && tag in StateAt(sha, s, events, k + 1).jobs
    requires StateAt(sha, s, events, k + 1).jobs[tag] == StateAt(sha, s, events, k).jobs[tag]
    ensures DecidedAt(sha, s, events, d, k + 1, tag)
  {
    assert ClearedFor(StateAt(sha, s, events, k), tag, CaseFor(StateAt(sha, s, events, d), tag, events[d].input));
  }

  lemma DecidedJustNow(sha: Digest, s: State, events: seq<Event>, d: nat, tag: string)
    requires d < |events| && events[d].Decide? && events[d].tag == tag
    requires var asked := StateAt(sha, s, events, d);
             && tag in asked.jobs && asked.jobs[tag].phase.Inventoried?
             && StateAt(sha, s, events, d + 1) == DecideStep(asked, tag, events[d].input)
             && ClearedJob(StateAt(sha, s, events, d + 1), tag)
    ensures DecidedAt(sha, s, events, d, d + 1, tag)
  {
    assert ClearedFor(StateAt(sha, s, events, d + 1), tag, CaseFor(StateAt(sha, s, events, d), tag, events[d].input));
  }

  /** Every cleared job of a run has such a step. */
  lemma {:induction false} ClearedSince(sha: Digest, s: State, events: seq<Event>, k: nat, tag: string) returns (d: nat)
    requires !ClearedJob(s, tag) && k <= |events| && ClearedJob(StateAt(sha, s, events, k), tag)
    ensures d < k && DecidedAt(sha, s, events, d, k, tag)
  {
    assert events[..0] == [];
    assert k > 0;
    var before := StateAt(sha, s, events, k - 1);
    NextState(sha, s, events, k - 1);
    ClearedBefore(sha, before, events[k - 1], tag);
    if ClearedJob(before, tag) {
      d := ClearedSince(sha, s, events, k - 1, tag);
      DecidedLonger(sha, s, events, d, k - 1, tag);
    } else {
      d := k - 1;
      DecidedJustNow(sha, s, events, d, tag);
    }
  }

  lemma BecomesPublic(sha: Digest, s: State, e: Event, t: string)
    requires !IsPublic(s, t) && IsPublic(Apply(sha, s, e), t)
    ensures e == Publish(t)
  {
    if t != e.tag {
      OtherTagsUntouched(sha, s, e, t);
    }
  }

  /** A release that is public later and was not earlier was published in between. */
  lemma {:induction false} PublishedSince(sha: Digest, s: State, events: seq<Event>, d: nat, k: nat, t: string) returns (p: nat)
    requires d <= k <= |events| && !IsPublic(StateAt(sha, s, events, d), t) && IsPublic(StateAt(sha, s, events, k), t)
    ensures d <= p < k && events[p] == Publish(t) && !IsPublic(StateAt(sha, s, events, p), t)
    decreases k
  {
    var before := StateAt(sha, s, events, k - 1);
    if IsPublic(before, t) {
      p := PublishedSince(sha, s, events, d, k - 1, t);
    } else {
      NextState(sha, s, events, k - 1);
      BecomesPublic(sha, before, events[k - 1], t);
      p := k - 1;
    }
  }

  /** Every time the gate is asked in the first `k` steps, its list is honest. */
  ghost predicate HonestUntil(sha: Digest, s: State, events: seq<Event>, k: nat)
    requires k <= |events|
  {
    forall j :: 0 <= j < k && events[j].Decide? ==> HonestList(StateAt(sha, s, events, j), events[j].input.releases)
  }

  /** Between the decision of the job that moves at step `k` and that move, `t` was published. */
  predicate PublishedInWindow(sha: Digest, s: State, events: seq<Event>, k: nat, tag: string, t: string)
    requires k <= |events|
  {
    exists d, p :: 0 <= d < p < k && DecidedAt(sha, s, events, d, k, tag) && events[p] == Publish(t)
  }

  /** On an honest list nothing public at the decision is above an approved target. */
  lemma NothingNewerAtDecision(s: State, tag: string, input: GateInput, t: string)
    requires tag in s.jobs && s.jobs[tag].phase.Inventoried? && Verdicts(CaseFor(s, tag, input), Approved)
    requires HonestList(s, input.releases) && IsPublic(s, t)
    ensures VersionLe(VersionOf(t), VersionOf(tag))
  {
    ApprovedExactly(CaseFor(s, tag, input));
    assert t in StableTags(input.releases);
  }

  /** With honest lists, at every approved move of every run each public stable release above the
      target was published between that job's decision and its move. */
  lemma NewerReleaseCameBetween(sha: Digest, s: State, events: seq<Event>, k: nat, t: string)
    requires s.jobs == map[] && k < |events| && HonestUntil(sha, s, events, k)
    requires MovesLatest(StateAt(sha, s, events, k), events[k])
    requires Verdicts(DecidedCase(StateAt(sha, s, events, k), events[k]), Approved)
    requires IsPublic(StateAt(sha, s, events, k), t)
    requires IsStableTag(events[k].tag) && VersionLt(VersionOf(events[k].tag), VersionOf(t))
    ensures PublishedInWindow(sha, s, events, k, events[k].tag, t)
  {
    var tag := events[k].tag;
    var d := ClearedSince(sha, s, events, k, tag);
    var asked := StateAt(sha, s, events, d);
    assert ClearedFor(StateAt(sha, s, events, k), tag, CaseFor(asked, tag, events[d].input));
    if IsPublic(asked, t) {
      NothingNewerAtDecision(asked, tag, events[d].input, t);
    }
    var p := PublishedSince(sha, s, events, d, k, t);
  }

  // ------------------------------------------------------------ a run in which it happens

  /** The older job is prepared and asks; the newer one publishes, and has not asked; the older one
      moves. */
  function Overtaken(low: Shipment, input: GateInput, high: Shipment): seq<Event> {
    Preparing(low) + ([Decide(low.tag, input)] + (Shipping(high) + [MarkLatest(low.tag)]))
  }

  lemma NoQuestions(j: Shipment, e: Event)
    requires e in Preparing(j) || e in Shipping(j)
    ensures !e.Decide?
  {
    assert forall x :: x in Uploads(j.tag, j.assets) ==> !x.Decide?;
    assert forall x :: x in Opening(j.tag, j.manifest, j.id, j.at) ==> !x.Decide?;
    assert forall x :: x in Inspecting(j.tag, j.at) ==> !x.Decide?;
  }

  lemma OneQuestion(low: Shipment, input: GateInput, high: Shipment, k: nat)
    requires k < |Overtaken(low, input, high)| && k != |Preparing(low)|
    ensures !Overtaken(low, input, high)[k].Decide?
  {
    var events, a, b := Overtaken(low, input, high), Preparing(low), Shipping(high);
    if k < |a| {
      assert events[k] in a;
      NoQuestions(low, events[k]);
    } else if k < |a| + 1 + |b| {
      assert events[k] == b[k - |a| - 1] && events[k] in b;
      NoQuestions(high, events[k]);
    }
  }

  lemma {:induction false} OnlyOneJob(sha: Digest, s: State, j: Shipment)
    requires s.jobs == map[] && Sound(sha, j) && j.tag !in s.releases
    ensures !SomeCleared(Run(sha, s, Preparing(j)))
  {
    var after := Run(sha, s, Preparing(j));
    Prepared(sha, s, j);
    forall tag | tag in after.jobs ensures !after.jobs[tag].phase.Cleared? {
      if tag != j.tag {
        PreparingIsOneTag(sha, s, j, tag);
      }
    }
  }

  /** The run keeps the discipline of `SerialRunsLowerOnlyOnPurpose`: honest lists, one promotion at
      a time. */
  lemma {:induction false} OvertakenIsSerial(sha: Digest, s: State, low: Shipment, input: GateInput, high: Shipment, k: nat)
    requires s.jobs == map[] && Sound(sha, low) && low.tag !in s.releases
    requires HonestList(Run(sha, s, Preparing(low)), input.releases)
    requires k < |Overtaken(low, input, high)|
    ensures SerialStep(StateAt(sha, s, Overtaken(low, input, high), k), Overtaken(low, input, high)[k])
  {
    var events := Overtaken(low, input, high);
    if k == |Preparing(low)| {
      assert events[..k] == Preparing(low);
      OnlyOneJob(sha, s, low);
    } else {
      OneQuestion(low, input, high, k);
    }
  }

  lemma {:induction false} ShippedUnder(sha: Digest, s: State, low: string, high: Shipment)
    requires MovesLatest(s, MarkLatest(low)) && low != high.tag
    requires Sound(sha, high) && high.tag !in s.jobs && high.tag !in s.releases
    ensures var after := Run(sha, s, Shipping(high));
            MovesLatest(after, MarkLatest(low)) && IsPublic(after, high.tag)
  {
    UndisturbedPublication(sha, s, high.manifest, high.tag, high.id, high.assets, high.at);
    WholeJobIsOneTag(high.tag, high.manifest, high.id, high.assets, high.at, GateInput([], "", "", None));
    RunTouchesOneTag(sha, s, Shipping(high), high.tag, low);
  }

  lemma {:induction false} AskedAlone(sha: Digest, s: State, low: Shipment, input: GateInput)
    requires s.jobs == map[] && Sound(sha, low) && low.tag !in s.releases
    requires forall t :: IsPublic(s, t) ==> VersionLe(VersionOf(t), VersionOf(low.tag))
    requires HonestList(Run(sha, s, Preparing(low)), input.releases)
    ensures MovesLatest(Apply(sha, Run(sha, s, Preparing(low)), Decide(low.tag, input)), MarkLatest(low.tag))
  {
    var prepared := Run(sha, s, Preparing(low));
    Prepared(sha, s, low);
    forall t | t in StableTags(input.releases) ensures VersionLe(VersionOf(t), VersionOf(low.tag)) {
      assert IsPublic(prepared, t);
      if t != low.tag {
        PreparingIsOneTag(sha, s, low, t);
      }
    }
    AcceptedJobCleared(sha, prepared, low.tag, input);
  }

  lemma {:induction false} OvertakenRun(sha: Digest, s: State, low: Shipment, input: GateInput, high: Shipment)
    ensures var asked := Apply(sha, Run(sha, s, Preparing(low)), Decide(low.tag, input));
            Run(sha, s, Overtaken(low, input, high)) == Apply(sha, Run(sha, asked, Shipping(high)), MarkLatest(low.tag))
  {
    var prepared := Run(sha, s, Preparing(low));
    var asked := Apply(sha, prepared, Decide(low.tag, input));
    RunConcat(sha, s, Preparing(low), [Decide(low.tag, input)] + (Shipping(high) + [MarkLatest(low.tag)]));
    RunCons(sha, prepared, Decide(low.tag, input), Shipping(high) + [MarkLatest(low.tag)]);
    RunConcat(sha, asked, Shipping(high), [MarkLatest(low.tag)]);
    RunOne(sha, Run(sha, asked, Shipping(high)), MarkLatest(low.tag));
  }

  lemma MarkingKeepsReleases(sha: Digest, s: State, tag: string)
    ensures Apply(sha, s, MarkLatest(tag)).releases == s.releases
  {
  }

  lemma {:induction false} OvertakenEnds(sha: Digest, s: State, low: Shipment, input: GateInput, high: Shipment)
    requires s.jobs == map[] && low.tag !in s.releases && high.tag !in s.releases && low.tag != high.tag
    requires Sound(sha, low) && Sound(sha, high)
    requires forall t :: IsPublic(s, t) ==> VersionLe(VersionOf(t), VersionOf(low.tag))
    requires HonestList(Run(sha, s, Preparing(low)), input.releases)
    ensures var end := Run(sha, s, Overtaken(low, input, high));
            end.latest == Some(low.tag) && IsPublic(end, high.tag)
  {
    var prepared := Run(sha, s, Preparing(low));
    var asked := Apply(sha, prepared, Decide(low.tag, input));
    AskedAlone(sha, s, low, input);
    PreparingIsOneTag(sha, s, low, high.tag);
    DecidingChangesOneJob(sha, prepared, low.tag, input);
    ShippedUnder(sha, asked, low.tag, high);
    MoveSetsLatest(sha, Run(sha, asked, Shipping(high)), low.tag);
    MarkingKeepsReleases(sha, Run(sha, asked, Shipping(high)), low.tag);
    OvertakenRun(sha, s, low, input, high);
  }

  /** From any state without jobs in which nothing newer than `low` is public, a serial run on an
      honest list ends with `latest` at the older tag while the newer one is public. */
  lemma {:induction false} SerialMoveBelowNewer(sha: Digest, s: State, low: Shipment, input: GateInput, high: Shipment)
    requires s.jobs == map[] && low.tag !in s.releases && high.tag !in s.releases
    requires Sound(sha, low) && Sound(sha, high) && VersionLt(VersionOf(low.tag), VersionOf(high.tag))
    requires forall t :: IsPublic(s, t) ==> VersionLe(VersionOf(t), VersionOf(low.tag))
    requires HonestList(Run(sha, s, Preparing(low)), input.releases)
    ensures var events := Overtaken(low, input, high);
            && Run(sha, s, events).latest == Some(low.tag)
            && IsPublic(Run(sha, s, events), high.tag)
            && forall k :: 0 <= k < |events| ==> SerialStep(StateAt(sha, s, events, k), events[k])
  {
    var events := Overtaken(low, input, high);
    OvertakenEnds(sha, s, low, input, high);
    forall k | 0 <= k < |events| ensures SerialStep(StateAt(sha, s, events, k), events[k]) {
      OvertakenIsSerial(sha, s, low, input, high, k);
    }
  }
}
