// The order of versions that `latest` goes through: which lists of releases protect it, what
// explains every step that lowers it, and when no step does.
module PromotionOrder {
  import opened Common
  import opened Versions
  import opened ReleaseAssets
  import opened RemoteInventory
  import opened LatestPromotion
  import opened Protocol

  // ------------------------------------------------------------ which lists protect a pointer

  /** The list shows a public stable release at or above `latest`; an empty list protects only
      the lowest version. */
  predicate Covers(rows: seq<ReleaseRow>, latest: string)
    requires IsStableTag(latest)
  {
    var tags := StableTags(rows);
    if tags == [] then VersionOf(latest) == ZERO
    else exists t :: t in tags && VersionLe(VersionOf(latest), VersionOf(t))
  }

  /** Shown this list, the gate approves no target below `latest`, whatever else it is given. */
  ghost predicate Protects(rows: seq<ReleaseRow>, latest: string)
    requires IsStableTag(latest)
  {
    forall c :: Verdicts(c, Approved) && c.releases == rows ==> VersionLe(VersionOf(latest), VersionOf(c.target))
  }

  lemma CoveredApproval(c: Case, latest: string)
    requires IsStableTag(latest) && Covers(c.releases, latest) && Verdicts(c, Approved)
    ensures VersionLe(VersionOf(latest), VersionOf(c.target))
  {
    ApprovedExactly(c);
  }

  /** The lowest target that this list lets through: its highest tag, or anything at all. */
  function LowestApproved(rows: seq<ReleaseRow>): string {
    var tags := StableTags(rows);
    if tags == [] then "v0.0.0" else Highest(tags)
  }

  /** On a list that does not cover the pointer, that target is below the pointer and is approved
      with any manifest and inventory that agree. */
  lemma UncoveredApproval(c: Case, latest: string)
    requires IsStableTag(latest) && !Covers(c.releases, latest)
    requires c.target == LowestApproved(c.releases) && InventoryAccepted(c.inventory, c.manifest, c.target)
    ensures Verdicts(c, Approved) && VersionLt(VersionOf(c.target), VersionOf(latest))
  {
    ZeroTag();
    ApprovedExactly(c);
  }

  function EmptyCase(target: string, rows: seq<ReleaseRow>): Case {
    Case(target, rows, "", "", Manifest(target, []), Inventory(SCHEMA_VERSION, KIND, target, 1, Stamp("", true), []), None)
  }

  lemma EmptyCaseAccepted(target: string, rows: seq<ReleaseRow>)
    ensures var c := EmptyCase(target, rows); InventoryAccepted(c.inventory, c.manifest, target)
  {
  }

  /** Exactly which lists protect a pointer. */
  lemma ProtectsExactly(rows: seq<ReleaseRow>, latest: string)
    requires IsStableTag(latest)
    ensures Protects(rows, latest) <==> Covers(rows, latest)
  {
    if Covers(rows, latest) {
      forall c | Verdicts(c, Approved) && c.releases == rows ensures VersionLe(VersionOf(latest), VersionOf(c.target)) {
        CoveredApproval(c, latest);
      }
    } else {
      var c := EmptyCase(LowestApproved(rows), rows);
      EmptyCaseAccepted(LowestApproved(rows), rows);
      UncoveredApproval(c, latest);
    }
  }

  // ------------------------------------------------------------ what a cleared job was cleared for

  /** Every cleared job was cleared for its own tag, by a decision that moves. */
  predicate DecisionsInv(s: State) {
    forall tag :: tag in s.jobs && s.jobs[tag].phase.Cleared? ==>
      s.jobs[tag].phase.decided.target == tag && Moves(s.jobs[tag].phase.decided)
  }

  lemma StepKeepsDecisions(sha: Digest, s: State, e: Event)
    requires DecisionsInv(s)
    ensures DecisionsInv(Apply(sha, s, e))
  {
    var s' := Apply(sha, s, e);
    forall tag | tag in s'.jobs && s'.jobs[tag].phase.Cleared?
      ensures s'.jobs[tag].phase.decided.target == tag && Moves(s'.jobs[tag].phase.decided)
    {
      if tag != e.tag {
        OtherTagsUntouched(sha, s, e, tag);
      }
    }
  }

  lemma {:induction false} RunKeepsDecisions(sha: Digest, s: State, events: seq<Event>, k: nat)
    requires DecisionsInv(s) && k <= |events|
    ensures DecisionsInv(StateAt(sha, s, events, k))
  {
    if k == 0 {
      assert events[..0] == [];
    } else {
      RunKeepsDecisions(sha, s, events, k - 1);
      NextState(sha, s, events, k - 1);
      StepKeepsDecisions(sha, StateAt(sha, s, events, k - 1), events[k - 1]);
    }
  }

  // ------------------------------------------------------------ every lowering is explained

  /** `after` is the same pointer or one to a version at least as high. */
  predicate NotLower(before: Option<string>, after: Option<string>) {
    before.Some? && IsStableTag(before.value) ==>
      after.Some? && IsStableTag(after.value) && VersionLe(VersionOf(before.value), VersionOf(after.value))
  }

  predicate DeletesLatest(s: State, e: Event) {
    e.OperatorDelete? && s.latest == Some(e.tag)
  }

  /** The gate approved a rollback on a receipt for exactly this target, highest tag, publish
      decision and proof ledger. */
  predicate Receipted(c: Case) {
    && Verdicts(c, RollbackApproved)
    && c.receipt.Some?
    && c.receipt.value.releaseTag == c.target
    && StableTags(c.releases) != []
    && c.receipt.value.highestTag == Highest(StableTags(c.releases))
    && c.receipt.value.publishDigest == c.publishDigest
    && c.receipt.value.ledgerDigest == c.ledgerDigest
  }

  /** The list the gate was shown does not cover what `latest` is at the move. */
  predicate MovesUncovered(s: State, e: Event) {
    && MovesLatest(s, e)
    && s.latest.Some? && IsStableTag(s.latest.value)
    && !Covers(DecidedCase(s, e).releases, s.latest.value)
  }

  lemma MoveIsApprovedOrReceipted(c: Case)
    requires Moves(c)
    ensures IsStableTag(c.target) && (Verdicts(c, Approved) || Receipted(c))
  {
  }

  lemma StepExplained(sha: Digest, s: State, e: Event)
    requires DecisionsInv(s)
    ensures || NotLower(s.latest, Apply(sha, s, e).latest)
            || DeletesLatest(s, e)
            || (MovesLatest(s, e) && Receipted(DecidedCase(s, e)))
            || MovesUncovered(s, e)
  {
    if MovesLatest(s, e) {
      var c := DecidedCase(s, e);
      MoveIsApprovedOrReceipted(c);
      if s.latest.Some? && IsStableTag(s.latest.value) && Verdicts(c, Approved) {
        if Covers(c.releases, s.latest.value) {
          CoveredApproval(c, s.latest.value);
        }
      }
    }
  }

  /** In every run, every step that lowers `latest` deletes its release, or carries a receipt for
      exactly that promotion, or moves on a list that does not cover the pointer. */
  lemma EveryLoweringExplained(sha: Digest, s: State, events: seq<Event>, k: nat)
    requires s.jobs == map[] && k < |events|
    ensures var before, e := StateAt(sha, s, events, k), events[k];
            || NotLower(before.latest, StateAt(sha, s, events, k + 1).latest)
            || DeletesLatest(before, e)
            || (MovesLatest(before, e) && Receipted(DecidedCase(before, e)))
            || MovesUncovered(before, e)
  {
    RunKeepsDecisions(sha, s, events, k);
    NextState(sha, s, events, k);
    StepExplained(sha, StateAt(sha, s, events, k), events[k]);
  }

  /** In every run, a move the gate approved without a receipt leaves `latest` at a version that
      no listed release is above. */
  lemma ApprovedMoveReachesMaximum(sha: Digest, s: State, events: seq<Event>, k: nat)
    requires s.jobs == map[] && k < |events| && MovesLatest(StateAt(sha, s, events, k), events[k])
    requires Verdicts(DecidedCase(StateAt(sha, s, events, k), events[k]), Approved)
    ensures var c := DecidedCase(StateAt(sha, s, events, k), events[k]);
            var latest := StateAt(sha, s, events, k + 1).latest;
            && latest.Some? && IsStableTag(latest.value)
            && forall t :: t in StableTags(c.releases) ==> VersionLe(VersionOf(t), VersionOf(latest.value))
  {
    RunKeepsDecisions(sha, s, events, k);
    NextState(sha, s, events, k);
    ApprovedExactly(DecidedCase(StateAt(sha, s, events, k), events[k]));
  }

  // ------------------------------------------------------------ runs that never lower it

  /** A move is approved on a list that covers `latest`, and nobody deletes the latest release. */
  predicate OrderlyStep(s: State, e: Event) {
    && !DeletesLatest(s, e)
    && !MovesUncovered(s, e)
    && (MovesLatest(s, e) ==> Verdicts(DecidedCase(s, e), Approved))
  }

  lemma NotLowerTransitive(a: Option<string>, b: Option<string>, c: Option<string>)
    requires NotLower(a, b) && NotLower(b, c)
    ensures NotLower(a, c)
  {
  }

  /** Over every run of such steps `latest` never goes to a lower version. Receipts may lie about,
      and releases other than the latest may be deleted. */
  lemma {:induction false} LatestNeverLowers(sha: Digest, s: State, events: seq<Event>, k: nat)
    requires s.jobs == map[] && k <= |events|
    requires forall j :: 0 <= j < k ==> OrderlyStep(StateAt(sha, s, events, j), events[j])
    ensures NotLower(s.latest, StateAt(sha, s, events, k).latest)
  {
    if k == 0 {
      assert events[..0] == [];
    } else {
      LatestNeverLowers(sha, s, events, k - 1);
      var before := StateAt(sha, s, events, k - 1);
      EveryLoweringExplained(sha, s, events, k - 1);
      NotLowerTransitive(s.latest, before.latest, StateAt(sha, s, events, k).latest);
    }
  }

  // ------------------------------------------------------------ one promotion at a time

  predicate IsPublic(s: State, tag: string) {
    tag in s.releases && IsStableTag(tag) && !s.releases[tag].draft && !s.releases[tag].prerelease
  }

  /** The list shows exactly the public stable releases of this moment. */
  ghost predicate HonestList(s: State, rows: seq<ReleaseRow>) {
    forall t :: t in StableTags(rows) <==> IsPublic(s, t)
  }

  predicate SomeCleared(s: State) {
    exists tag :: tag in s.jobs && s.jobs[tag].phase.Cleared?
  }

  /** The gate is asked on an honest list, and only while no other job is between its decision
      and its move. */
  ghost predicate SerialStep(s: State, e: Event) {
    e.Decide? ==> HonestList(s, e.input.releases) && !SomeCleared(s)
  }

  predicate LatestPublic(s: State) {
    s.latest.Some? ==> IsPublic(s, s.latest.value)
  }

  predicate ClearedJob(s: State, tag: string) {
    tag in s.jobs && s.jobs[tag].phase.Cleared?
  }

  /** At most one job is cleared, and its list covers `latest`, which is public. */
  ghost predicate OrderInv(s: State) {
    && DecisionsInv(s)
    && (forall tag :: FlagsOk(s, tag))
    && LatestPublic(s)
    && (forall a, b :: ClearedJob(s, a) && ClearedJob(s, b) ==> a == b)
    && (forall tag :: ClearedJob(s, tag) && s.latest.Some? ==>
          Covers(s.jobs[tag].phase.decided.releases, s.latest.value))
  }

  lemma StepKeepsLatestPublic(sha: Digest, s: State, e: Event)
    requires LatestPublic(s) && FlagsOk(s, e.tag) && DecisionsInv(s)
    ensures LatestPublic(Apply(sha, s, e))
  {
    if MovesLatest(s, e) {
      MoveIsApprovedOrReceipted(DecidedCase(s, e));
    }
  }

  /** A job newly cleared on an honest list has a list that covers `latest`. */
  lemma ClearedOnHonestList(s: State, tag: string, input: GateInput)
    requires tag in s.jobs && s.jobs[tag].phase.Inventoried? && DecideStep(s, tag, input).jobs[tag].phase.Cleared?
    requires LatestPublic(s) && HonestList(s, input.releases) && s.latest.Some?
    ensures Covers(DecideStep(s, tag, input).jobs[tag].phase.decided.releases, s.latest.value)
  {
    assert s.latest.value in StableTags(input.releases);
  }

  /** Where a job that is cleared after a step comes from. */
  lemma ClearedBefore(sha: Digest, s: State, e: Event, tag: string)
    requires ClearedJob(Apply(sha, s, e), tag)
    ensures || (ClearedJob(s, tag) && Apply(sha, s, e).jobs[tag] == s.jobs[tag] && !(MovesLatest(s, e) && e.tag == tag))
            || (e.Decide? && e.tag == tag && tag in s.jobs && s.jobs[tag].phase.Inventoried? &&
                Apply(sha, s, e) == DecideStep(s, tag, e.input))
  {
    if tag != e.tag {
      OtherTagsUntouched(sha, s, e, tag);
    }
  }

  lemma SerialStepKeepsCleared(sha: Digest, s: State, e: Event, tag: string)
    requires OrderInv(s) && SerialStep(s, e) && ClearedJob(Apply(sha, s, e), tag)
    ensures ClearedJob(s, tag) || (e.Decide? && e.tag == tag && !SomeCleared(s))
    ensures Apply(sha, s, e).latest.Some? ==>
              && LatestPublic(s) && Apply(sha, s, e).latest == s.latest
              && Covers(Apply(sha, s, e).jobs[tag].phase.decided.releases, s.latest.value)
  {
    ClearedBefore(sha, s, e, tag);
    if MovesLatest(s, e) {
      assert ClearedJob(s, e.tag);
    } else if Apply(sha, s, e).latest != s.latest {
      OnlyPromotionMovesLatest(sha, s, e);
    } else if e.Decide? && e.tag == tag && s.latest.Some? && !ClearedJob(s, tag) {
      ClearedOnHonestList(s, tag, e.input);
    }
  }

  lemma SerialStepKeepsOrder(sha: Digest, s: State, e: Event)
    requires OrderInv(s) && SerialStep(s, e)
    ensures OrderInv(Apply(sha, s, e))
    ensures !MovesUncovered(s, e)
  {
    var s' := Apply(sha, s, e);
    StepKeepsDecisions(sha, s, e);
    StepKeepsLatestPublic(sha, s, e);
    forall tag ensures FlagsOk(s', tag) {
      StepKeepsFlags(sha, s, e, tag);
    }
    forall tag | ClearedJob(s', tag) && s'.latest.Some?
      ensures Covers(s'.jobs[tag].phase.decided.releases, s'.latest.value)
    {
      SerialStepKeepsCleared(sha, s, e, tag);
    }
    forall a, b | ClearedJob(s', a) && ClearedJob(s', b) ensures a == b {
      SerialStepKeepsCleared(sha, s, e, a);
      SerialStepKeepsCleared(sha, s, e, b);
    }
    if MovesLatest(s, e) {
      assert ClearedJob(s, e.tag);
    }
  }

  lemma {:induction false} SerialRunKeepsOrder(sha: Digest, s: State, events: seq<Event>, k: nat)
    requires OrderInv(s) && k <= |events|
    requires forall j :: 0 <= j < k ==> SerialStep(StateAt(sha, s, events, j), events[j])
    ensures OrderInv(StateAt(sha, s, events, k))
  {
    if k == 0 {
      assert events[..0] == [];
    } else {
      SerialRunKeepsOrder(sha, s, events, k - 1);
      NextState(sha, s, events, k - 1);
      SerialStepKeepsOrder(sha, StateAt(sha, s, events, k - 1), events[k - 1]);
    }
  }

  /** With honest lists and one promotion at a time, the only steps of any run that lower `latest`
      are a deletion of its release and a rollback with a receipt for exactly that promotion. */
  lemma SerialRunsLowerOnlyOnPurpose(sha: Digest, s: State, events: seq<Event>, k: nat)
    requires s.jobs == map[] && LatestPublic(s) && k < |events|
    requires forall j :: 0 <= j <= k ==> SerialStep(StateAt(sha, s, events, j), events[j])
    ensures var before, e := StateAt(sha, s, events, k), events[k];
            || NotLower(before.latest, StateAt(sha, s, events, k + 1).latest)
            || DeletesLatest(before, e)
            || (MovesLatest(before, e) && Receipted(DecidedCase(before, e)))
  {
    SerialRunKeepsOrder(sha, s, events, k);
    SerialStepKeepsOrder(sha, StateAt(sha, s, events, k), events[k]);
    EveryLoweringExplained(sha, s, events, k);
  }
}
