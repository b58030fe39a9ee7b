// The readiness decision that merges lane receipts, and the publish receipt's check of
// it: what one script writes, the other has to accept.
module Readiness {
  import opened Common
  import opened Ordering

  const HOSTLESS_LANE := "hostless-quickstart"
  const PUBLIC_ACCESS_LANE := "public-access-latest"
  const PRE_UPLOAD := "pre-upload"

  datatype Status = Passed | Warning | Failed | Stale | Absent | Unauthenticated | WrongSubstrate
  datatype Effect = Satisfies | Warns | Blocks

  datatype Lane = Lane(id: string, publishBlocking: bool, allowedSubstrates: seq<string>)
  datatype Stage = Stage(id: string, requiredLanes: seq<string>)
  datatype Config = Config(stages: seq<Stage>, lanes: seq<Lane>)

  /** A lane receipt; `status` is `None` for a state the taxonomy does not know. */
  datatype LaneReceipt = LaneReceipt(
    laneId: string,
    status: Option<Status>,
    releaseTag: string,
    commit: string,
    runId: Option<string>,
    substrateKind: string,
    fixture: bool,
    usedAuth: bool,
    digest: string)

  /** A `--receipt lane_id=path` argument with the receipt found there. */
  datatype Argument = Argument(laneId: string, receipt: LaneReceipt)

  datatype Summary = Summary(laneId: string, status: Status, effect: Effect, fixture: bool, digest: string)

  datatype Decision = Decision(
    stage: string,
    releaseTag: string,
    commit: string,
    runId: Option<string>,
    requiredLanes: seq<string>,
    laneStatus: seq<Summary>,
    blocking: seq<string>)

  /** `lanes_by_id`: the last lane of a name wins */
  function FindLane(lanes: seq<Lane>, id: string): (lane: Option<Lane>)
    ensures lane.Some? ==> lane.value in lanes && lane.value.id == id
  {
    if lanes == [] then None
    else if lanes[|lanes| - 1].id == id then Some(lanes[|lanes| - 1])
    else FindLane(lanes[..|lanes| - 1], id)
  }

  /** `required_lane_ids` */
  function FindStage(stages: seq<Stage>, id: string): Option<Stage> {
    if stages == [] then None
    else if stages[0].id == id then Some(stages[0])
    else FindStage(stages[1..], id)
  }

  function StatusEffect(s: Status): Effect {
    if s == Passed then Satisfies else if s == Warning then Warns else Blocks
  }

  predicate NeedsRealSubstrate(lane: Lane) {
    lane.publishBlocking && lane.allowedSubstrates != ["hostless"]
  }

  /** `summarize_lane` */
  function Summarize(lane: Lane, r: LaneReceipt, tag: string, commit: string, runId: Option<string>): Option<Summary> {
    if && r.laneId == lane.id
       && r.status.Some?
       && r.releaseTag == tag
       && r.commit == commit
       && (runId.Some? && r.runId.Some? ==> r.runId == runId)
       && r.substrateKind in lane.allowedSubstrates
       && (NeedsRealSubstrate(lane) ==> !r.fixture)
       && (lane.id == PUBLIC_ACCESS_LANE ==> !r.usedAuth)
       && IsSha256Ref(r.digest)
    then
      var effect := if lane.publishBlocking && r.status.value != Passed then Blocks else StatusEffect(r.status.value);
      Some(Summary(lane.id, r.status.value, effect, r.fixture, r.digest))
    else None
  }

  function Ids(args: seq<Argument>): (ids: seq<string>)
    ensures |ids| == |args|
    ensures forall i :: 0 <= i < |args| ==> ids[i] == args[i].laneId
  {
    Project(args, (a: Argument) => a.laneId)
  }

  /** `parse_receipt_args` accepts the arguments. */
  predicate ArgumentsOk(args: seq<Argument>) {
    (forall a :: a in args ==> a.laneId != "") && Distinct(Ids(args))
  }

  function SummaryOf(config: Config, a: Argument, tag: string, commit: string, runId: Option<string>): Option<Summary> {
    var lane := FindLane(config.lanes, a.laneId);
    if lane.None? then None else Summarize(lane.value, a.receipt, tag, commit, runId)
  }

  predicate ArgumentLe(a: Argument, b: Argument) {
    StringLe(a.laneId, b.laneId)
  }

  predicate AllSummarized(config: Config, args: seq<Argument>, tag: string, commit: string, runId: Option<string>) {
    forall a :: a in args ==> SummaryOf(config, a, tag, commit, runId).Some?
  }

  function Summaries(config: Config, args: seq<Argument>, tag: string, commit: string, runId: Option<string>): (rows: seq<Summary>)
    requires AllSummarized(config, args, tag, commit, runId)
    ensures |rows| == |args|
    ensures forall i :: 0 <= i < |args| ==> rows[i] == SummaryOf(config, args[i], tag, commit, runId).value
  {
    seq(|args|, i requires 0 <= i < |args| => SummaryOf(config, args[i], tag, commit, runId).value)
  }

  /** The lanes whose rows block, in order. */
  function BlockingIds(rows: seq<Summary>): seq<string> {
    if rows == [] then []
    else
      var front, last := BlockingIds(rows[..|rows| - 1]), rows[|rows| - 1];
      if last.effect == Blocks then front + [last.laneId] else front
  }

  lemma {:induction false} BlockingSnoc(rows: seq<Summary>, row: Summary)
    ensures BlockingIds(rows + [row]) == BlockingIds(rows) + (if row.effect == Blocks then [row.laneId] else [])
  {
    assert (rows + [row])[..|rows|] == rows;
  }

  /** A lane is listed as blocking exactly when a row of it blocks. */
  lemma {:induction false} BlockingExactly(rows: seq<Summary>)
    ensures forall id :: id in BlockingIds(rows) <==> exists row :: row in rows && row.laneId == id && row.effect == Blocks
    ensures BlockingIds(rows) == [] <==> forall row :: row in rows ==> row.effect != Blocks
  {
    if rows != [] {
      var front, last := rows[..|rows| - 1], rows[|rows| - 1];
      assert rows == front + [last];
      assert forall row :: row in rows <==> row in front || row == last;
      BlockingExactly(front);
    }
  }

  /** The loop of `build_decision`: the summaries and the blocking lanes, or a failed check. */
  method SummarizeLanes(config: Config, args: seq<Argument>, tag: string, commit: string, runId: Option<string>)
    returns (result: Option<(seq<Summary>, seq<string>)>)
    ensures result.Some? <==> AllSummarized(config, args, tag, commit, runId)
    ensures result.Some? ==> result.value.0 == Summaries(config, args, tag, commit, runId)
    ensures result.Some? ==> result.value.1 == BlockingIds(result.value.0)
    ensures result.Some? ==>
              (result.value.1 == [] <==> forall s :: s in Summaries(config, args, tag, commit, runId) ==> s.effect != Blocks)
  {
    var summaries: seq<Summary> := [];
    var blocking: seq<string> := [];
    for n := 0 to |args|
      invariant AllSummarized(config, args[..n], tag, commit, runId)
      invariant summaries == Summaries(config, args[..n], tag, commit, runId)
      invariant blocking == BlockingIds(summaries)
    {
      assert args[n] in args;
      var summary := SummaryOf(config, args[n], tag, commit, runId);
      if summary.None? {
        return None;
      }
      assert args[..n + 1] == args[..n] + [args[n]];
      BlockingSnoc(summaries, summary.value);
      summaries := summaries + [summary.value];
      if summary.value.effect == Blocks {
        blocking := blocking + [args[n].laneId];
      }
    }
    assert args[..|args|] == args;
    BlockingExactly(summaries);
    result := Some((summaries, blocking));
  }

  /** the distinct members of a list */
  function Dedup(xs: seq<string>): (r: seq<string>)
    ensures forall x :: x in r <==> x in xs
    ensures Distinct(r)
  {
    if xs == [] then []
    else
      var front, last := Dedup(xs[..|xs| - 1]), xs[|xs| - 1];
      assert xs == xs[..|xs| - 1] + [last];
      if last in front then front else front + [last]
  }

  /** Every check of `build_decision` passes; in particular no lane blocks. */
  predicate Decidable(config: Config, args: seq<Argument>, stage: string, tag: string, commit: string, runId: Option<string>)
  {
    && ArgumentsOk(args)
    && FindStage(config.stages, stage).Some?
    && (forall id :: id in FindStage(config.stages, stage).value.requiredLanes ==> id in Ids(args))
    && var sorted := Sort(args, ArgumentLe);
    && AllSummarized(config, sorted, tag, commit, runId)
    && forall s :: s in Summaries(config, sorted, tag, commit, runId) ==> s.effect != Blocks
  }

  /** `build_decision` */
  function BuildDecision(config: Config, args: seq<Argument>, stage: string, tag: string, commit: string,
                         runId: Option<string>): Option<Decision>
  {
    if !Decidable(config, args, stage, tag, commit, runId) then None
    else
      Some(Decision(stage, tag, commit, runId,
                    Sort(Dedup(FindStage(config.stages, stage).value.requiredLanes), StringLe),
                    Summaries(config, Sort(args, ArgumentLe), tag, commit, runId), []))
  }

  // ------------------------------------------------------------ the consumer

  function RowIds(rows: seq<Summary>): (ids: seq<string>)
    ensures |ids| == |rows|
    ensures forall i :: 0 <= i < |rows| ==> ids[i] == rows[i].laneId
  {
    Project(rows, (r: Summary) => r.laneId)
  }

  predicate RowSatisfies(rows: seq<Summary>, id: string) {
    exists s :: s in rows && s.laneId == id && s.status == Passed && s.effect == Satisfies &&
                (id != HOSTLESS_LANE ==> !s.fixture)
  }

  /** `verify_readiness_decision_receipt` */
  predicate PublishReceiptAccepts(d: Decision, tag: string, commit: string, runId: string) {
    && d.stage == PRE_UPLOAD
    && d.releaseTag == tag
    && d.commit == commit
    && d.runId == Some(runId)
    && d.requiredLanes != []
    && (forall id :: id in d.requiredLanes ==> id != "")
    && Distinct(d.requiredLanes)
    && (forall s :: s in d.laneStatus ==> s.laneId != "")
    && Distinct(RowIds(d.laneStatus))
    && (forall id :: id in d.requiredLanes ==> RowSatisfies(d.laneStatus, id))
    && d.blocking == []
  }

  // ------------------------------------------------------------ producer meets consumer

  lemma ArgumentLeTotal()
    ensures TotalPreorder(ArgumentLe)
  {
    StringLeTotalOrder();
    forall a: Argument, b: Argument ensures ArgumentLe(a, b) || ArgumentLe(b, a) {
      assert StringLe(a.laneId, b.laneId) || StringLe(b.laneId, a.laneId);
    }
    forall a: Argument, b: Argument, c: Argument | ArgumentLe(a, b) && ArgumentLe(b, c) ensures ArgumentLe(a, c) {
      assert StringLe(a.laneId, b.laneId) && StringLe(b.laneId, c.laneId);
    }
  }

  lemma SortedArguments(args: seq<Argument>)
    requires Distinct(Ids(args))
    ensures Distinct(Ids(Sort(args, ArgumentLe)))
    ensures forall a :: a in Sort(args, ArgumentLe) <==> a in args
  {
    ArgumentLeTotal();
    var sorted := Sort(args, ArgumentLe);
    SortCorrect(args, ArgumentLe);
    assert Distinct(args) by {
      forall i, j | 0 <= i < j < |args| ensures args[i] != args[j] {
        assert Ids(args)[i] != Ids(args)[j];
      }
    }
    SortKeepsDistinct(args, ArgumentLe);
    forall i, j | 0 <= i < j < |sorted| ensures Ids(sorted)[i] != Ids(sorted)[j] {
      assert sorted[i] in args && sorted[j] in args;
      var a :| 0 <= a < |args| && args[a] == sorted[i];
      var b :| 0 <= b < |args| && args[b] == sorted[j];
      assert a != b;
      assert Ids(args)[a] != Ids(args)[b];
    }
  }

  /** The summaries carry the ids of their arguments. */
  lemma SummariesKeepIds(config: Config, args: seq<Argument>, tag: string, commit: string, runId: Option<string>)
    requires AllSummarized(config, args, tag, commit, runId)
    ensures RowIds(Summaries(config, args, tag, commit, runId)) == Ids(args)
  {
    var rows := Summaries(config, args, tag, commit, runId);
    forall i | 0 <= i < |args| ensures rows[i].laneId == args[i].laneId {
      assert args[i] in args;
    }
  }

  lemma RowOf(config: Config, args: seq<Argument>, tag: string, commit: string, runId: Option<string>, a: Argument)
    requires AllSummarized(config, args, tag, commit, runId) && a in args
    ensures SummaryOf(config, a, tag, commit, runId).value in Summaries(config, args, tag, commit, runId)
  {
    var i :| 0 <= i < |args| && args[i] == a;
    assert Summaries(config, args, tag, commit, runId)[i] == SummaryOf(config, a, tag, commit, runId).value;
  }

  lemma UniqueRow(rows: seq<Summary>, a: Summary, b: Summary)
    requires Distinct(RowIds(rows)) && a in rows && b in rows && a.laneId == b.laneId
    ensures a == b
  {
    var i :| 0 <= i < |rows| && rows[i] == a;
    var j :| 0 <= j < |rows| && rows[j] == b;
    assert RowIds(rows)[i] == RowIds(rows)[j];
  }

  /** The receipts of the required lanes passed, on a real substrate except for the hostless lane. */
  predicate RequiredReceiptsReal(config: Config, args: seq<Argument>, stage: string)
    requires FindStage(config.stages, stage).Some?
  {
    forall a :: a in args && a.laneId in FindStage(config.stages, stage).value.requiredLanes ==>
      a.receipt.status == Some(Passed) && (a.laneId != HOSTLESS_LANE ==> !a.receipt.fixture)
  }

  /** A required lane satisfies the consumer exactly when its receipt passed and is real. */
  lemma LaneSatisfiesExactly(config: Config, args: seq<Argument>, tag: string, commit: string, runId: Option<string>, a: Argument)
    requires AllSummarized(config, args, tag, commit, runId) && Distinct(Ids(args)) && a in args
    ensures RowSatisfies(Summaries(config, args, tag, commit, runId), a.laneId) <==>
              a.receipt.status == Some(Passed) && (a.laneId != HOSTLESS_LANE ==> !a.receipt.fixture)
  {
    var rows := Summaries(config, args, tag, commit, runId);
    var own := SummaryOf(config, a, tag, commit, runId).value;
    RowOf(config, args, tag, commit, runId, a);
    SummariesKeepIds(config, args, tag, commit, runId);
    assert own.laneId == a.laneId;
    if RowSatisfies(rows, a.laneId) {
      var s :| s in rows && s.laneId == a.laneId && s.status == Passed && s.effect == Satisfies &&
               (a.laneId != HOSTLESS_LANE ==> !s.fixture);
      UniqueRow(rows, s, own);
    }
  }

  /** Every pre-upload decision is accepted by the publish receipt's check, exactly when the stage
      requires some lane and the required receipts passed on a real substrate. */
  lemma DecisionAcceptedExactly(config: Config, args: seq<Argument>, tag: string, commit: string, runId: string, d: Decision)
    requires BuildDecision(config, args, PRE_UPLOAD, tag, commit, Some(runId)) == Some(d)
    ensures PublishReceiptAccepts(d, tag, commit, runId) <==>
            && FindStage(config.stages, PRE_UPLOAD).value.requiredLanes != []
            && RequiredReceiptsReal(config, args, PRE_UPLOAD)
  {
    var required := FindStage(config.stages, PRE_UPLOAD).value.requiredLanes;
    var sorted := Sort(args, ArgumentLe);
    SortedArguments(args);
    SummariesKeepIds(config, sorted, tag, commit, Some(runId));
    StringLeTotalOrder();
    SortCorrect(Dedup(required), StringLe);
    SortKeepsDistinct(Dedup(required), StringLe);
    SameEmptiness(d.requiredLanes, required);
    assert forall id :: id in Ids(args) ==> id != "";
    RowIdsNonEmpty(d.laneStatus, sorted);
    forall a | a in args
      ensures RowSatisfies(d.laneStatus, a.laneId) <==>
                a.receipt.status == Some(Passed) && (a.laneId != HOSTLESS_LANE ==> !a.receipt.fixture)
    {
      LaneSatisfiesExactly(config, sorted, tag, commit, Some(runId), a);
    }
    RequiredHaveArguments(args, required);
  }

  lemma RequiredHaveArguments(args: seq<Argument>, required: seq<string>)
    requires forall id :: id in required ==> id in Ids(args)
    ensures forall id :: id in required ==> exists a :: a in args && a.laneId == id
  {
    forall id | id in required ensures exists a :: a in args && a.laneId == id {
      var i :| 0 <= i < |args| && Ids(args)[i] == id;
      assert args[i] in args;
    }
  }

  lemma RowIdsNonEmpty(rows: seq<Summary>, args: seq<Argument>)
    requires RowIds(rows) == Ids(args) && forall a :: a in args ==> a.laneId != ""
    ensures forall s :: s in rows ==> s.laneId != ""
  {
    forall s | s in rows ensures s.laneId != "" {
      var i :| 0 <= i < |rows| && rows[i] == s;
      assert RowIds(rows)[i] == Ids(args)[i];
      assert args[i] in args;
    }
  }

  lemma SameEmptiness(a: seq<string>, b: seq<string>)
    requires forall x :: x in a <==> x in b
    ensures a == [] <==> b == []
  {
    assert |a| > 0 ==> a[0] in a;
    assert |b| > 0 ==> b[0] in b;
  }

  /** The lanes configured so that acceptance is certain: every required lane blocks publication,
      and only the hostless lane allows exactly the hostless substrate. */
  predicate ConfigPromises(config: Config, stage: string) {
    && FindStage(config.stages, stage).Some?
    && FindStage(config.stages, stage).value.requiredLanes != []
    && forall id :: id in FindStage(config.stages, stage).value.requiredLanes ==>
         var lane := FindLane(config.lanes, id);
         lane.Some? ==> lane.value.publishBlocking && (id != HOSTLESS_LANE ==> lane.value.allowedSubstrates != ["hostless"])
  }

  /** With such a configuration every pre-upload decision is accepted. */
  lemma PromisedConfigAccepted(config: Config, args: seq<Argument>, tag: string, commit: string, runId: string, d: Decision)
    requires BuildDecision(config, args, PRE_UPLOAD, tag, commit, Some(runId)) == Some(d)
    requires ConfigPromises(config, PRE_UPLOAD)
    ensures PublishReceiptAccepts(d, tag, commit, runId)
  {
    var required := FindStage(config.stages, PRE_UPLOAD).value.requiredLanes;
    var sorted := Sort(args, ArgumentLe);
    SortedArguments(args);
    forall a | a in args && a.laneId in required
      ensures a.receipt.status == Some(Passed) && (a.laneId != HOSTLESS_LANE ==> !a.receipt.fixture)
    {
      assert a in sorted;
      RowOf(config, sorted, tag, commit, Some(runId), a);
      assert SummaryOf(config, a, tag, commit, Some(runId)).value in d.laneStatus;
    }
    DecisionAcceptedExactly(config, args, tag, commit, runId, d);
  }
}
