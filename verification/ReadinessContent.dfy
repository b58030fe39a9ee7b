// Which receipts a readiness decision rests on, and what the decision says of each.
module ReadinessContent {
  import opened Common
  import opened Ordering
  import opened Readiness

  predicate LastLane(lanes: seq<Lane>, id: string, k: int) {
    0 <= k < |lanes| && lanes[k].id == id && forall j :: k < j < |lanes| ==> lanes[j].id != id
  }

  /** The configuration's lane of this name: the last one listed. */
  predicate Configured(config: Config, id: string, lane: Lane) {
    exists k :: 0 <= k < |config.lanes| && LastLane(config.lanes, id, k) && config.lanes[k] == lane
  }

  predicate FirstStage(stages: seq<Stage>, id: string, k: int) {
    0 <= k < |stages| && stages[k].id == id && forall j :: 0 <= j < k ==> stages[j].id != id
  }

  /** The configuration's stage of this name: the first one listed. */
  predicate StageNamed(config: Config, id: string, stage: Stage) {
    exists k :: 0 <= k < |config.stages| && FirstStage(config.stages, id, k) && config.stages[k] == stage
  }

  /** A receipt for this lane, this tag and this commit, from this run where both name one, on an
      allowed substrate, real where it has to be, without credentials on the public-access lane, with
      a digest, and passed, or with a mere warning on a lane that does not block. */
  predicate ReceiptFits(lane: Lane, r: LaneReceipt, id: string, tag: string, commit: string, runId: Option<string>) {
    && r.laneId == id
    && r.releaseTag == tag
    && r.commit == commit
    && (runId.Some? && r.runId.Some? ==> r.runId.value == runId.value)
    && r.substrateKind in lane.allowedSubstrates
    && (lane.publishBlocking && lane.allowedSubstrates != ["hostless"] ==> !r.fixture)
    && (id == "public-access-latest" ==> !r.usedAuth)
    && IsSha256Ref(r.digest)
    && (r.status == Some(Passed) || (r.status == Some(Warning) && !lane.publishBlocking))
  }

  predicate ArgumentFits(config: Config, a: Argument, tag: string, commit: string, runId: Option<string>) {
    exists lane :: lane in config.lanes && Configured(config, a.laneId, lane) &&
                   ReceiptFits(lane, a.receipt, a.laneId, tag, commit, runId)
  }

  lemma {:induction false} FoundLane(lanes: seq<Lane>, id: string) returns (k: int)
    ensures FindLane(lanes, id).Some? ==> LastLane(lanes, id, k) && lanes[k] == FindLane(lanes, id).value
    ensures FindLane(lanes, id).None? ==> forall j :: 0 <= j < |lanes| ==> lanes[j].id != id
  {
    k := |lanes| - 1;
    if lanes != [] && lanes[k].id != id {
      var front := lanes[..k];
      assert forall j :: 0 <= j < |front| ==> front[j] == lanes[j];
      k := FoundLane(front, id);
    }
  }

  lemma ConfiguredLane(config: Config, id: string, lane: Lane)
    ensures FindLane(config.lanes, id) == Some(lane) <==> Configured(config, id, lane)
  {
    var k := FoundLane(config.lanes, id);
  }

  lemma {:induction false} FoundStage(stages: seq<Stage>, id: string) returns (k: int)
    ensures FindStage(stages, id).Some? ==> FirstStage(stages, id, k) && stages[k] == FindStage(stages, id).value
    ensures FindStage(stages, id).None? ==> forall j :: 0 <= j < |stages| ==> stages[j].id != id
  {
    k := 0;
    if stages != [] && stages[0].id != id {
      var rest := stages[1..];
      var i := FoundStage(rest, id);
      assert forall j :: 1 <= j < |stages| ==> stages[j] == rest[j - 1];
      k := i + 1;
    }
  }

  lemma NamedStage(config: Config, id: string, stage: Stage)
    ensures FindStage(config.stages, id) == Some(stage) <==> StageNamed(config, id, stage)
  {
    var k := FoundStage(config.stages, id);
  }

  /** An argument gives a row that does not block exactly when its receipt fits its lane. */
  lemma RowExactly(config: Config, a: Argument, tag: string, commit: string, runId: Option<string>)
    ensures (SummaryOf(config, a, tag, commit, runId).Some? && SummaryOf(config, a, tag, commit, runId).value.effect != Blocks) <==>
              ArgumentFits(config, a, tag, commit, runId)
  {
    var found := FindLane(config.lanes, a.laneId);
    if found.Some? {
      ConfiguredLane(config, a.laneId, found.value);
      assert found.value in config.lanes;
    }
    if lane :| lane in config.lanes && Configured(config, a.laneId, lane) &&
               ReceiptFits(lane, a.receipt, a.laneId, tag, commit, runId)
    {
      ConfiguredLane(config, a.laneId, lane);
    }
  }

  lemma DecidableRows(config: Config, args: seq<Argument>, tag: string, commit: string, runId: Option<string>)
    requires Distinct(Ids(args))
    ensures (var sorted := Sort(args, ArgumentLe);
             && AllSummarized(config, sorted, tag, commit, runId)
             && forall s :: s in Summaries(config, sorted, tag, commit, runId) ==> s.effect != Blocks) <==>
            forall a :: a in args ==> ArgumentFits(config, a, tag, commit, runId)
  {
    var sorted := Sort(args, ArgumentLe);
    SortedArguments(args);
    forall a | a in args
      ensures ArgumentFits(config, a, tag, commit, runId) <==>
              SummaryOf(config, a, tag, commit, runId).Some? && SummaryOf(config, a, tag, commit, runId).value.effect != Blocks
    {
      RowExactly(config, a, tag, commit, runId);
    }
    if AllSummarized(config, sorted, tag, commit, runId) {
      var rows := Summaries(config, sorted, tag, commit, runId);
      forall a | a in args ensures SummaryOf(config, a, tag, commit, runId).value in rows {
        RowOf(config, sorted, tag, commit, runId, a);
      }
      forall s | s in rows ensures exists a :: a in args && s == SummaryOf(config, a, tag, commit, runId).value {
        var i :| 0 <= i < |rows| && rows[i] == s;
        assert sorted[i] in sorted;
      }
    }
  }

  /** Each required lane of the stage has an argument. */
  predicate RequiredGiven(config: Config, args: seq<Argument>, stage: string) {
    exists st :: st in config.stages && StageNamed(config, stage, st) &&
                 forall id :: id in st.requiredLanes ==> exists a :: a in args && a.laneId == id
  }

  lemma RequiredExactly(config: Config, args: seq<Argument>, stage: string)
    ensures (FindStage(config.stages, stage).Some? &&
             forall id :: id in FindStage(config.stages, stage).value.requiredLanes ==> id in Ids(args)) <==>
            RequiredGiven(config, args, stage)
  {
    forall id ensures id in Ids(args) <==> exists a :: a in args && a.laneId == id {
      if id in Ids(args) {
        var i :| 0 <= i < |args| && Ids(args)[i] == id;
        assert args[i] in args;
      }
      if a :| a in args && a.laneId == id {
        var i :| 0 <= i < |args| && args[i] == a;
        assert Ids(args)[i] == id;
      }
    }
    var found := FindStage(config.stages, stage);
    if found.Some? {
      NamedStage(config, stage, found.value);
      assert found.value in config.stages;
    }
    if st :| st in config.stages && StageNamed(config, stage, st) &&
             forall id :: id in st.requiredLanes ==> exists a :: a in args && a.laneId == id
    {
      NamedStage(config, stage, st);
    }
  }

  /** A decision is made exactly when the stage is known and each of its lanes has an argument, no
      lane is named twice, and every receipt fits its lane, this tag, this commit and this run. */
  lemma DecisionMadeExactly(config: Config, args: seq<Argument>, stage: string, tag: string, commit: string,
                            runId: Option<string>)
    ensures BuildDecision(config, args, stage, tag, commit, runId).Some? <==>
            && (forall a :: a in args ==> a.laneId != "")
            && (forall i, j :: 0 <= i < j < |args| ==> args[i].laneId != args[j].laneId)
            && RequiredGiven(config, args, stage)
            && (forall a :: a in args ==> ArgumentFits(config, a, tag, commit, runId))
  {
    RequiredExactly(config, args, stage);
    assert Distinct(Ids(args)) <==> forall i, j :: 0 <= i < j < |args| ==> args[i].laneId != args[j].laneId;
    if Distinct(Ids(args)) {
      DecidableRows(config, args, tag, commit, runId);
    }
  }

  /** The row repeats its receipt: lane, status, fixture flag and digest; it satisfies when the
      receipt passed and warns when it warned. */
  predicate RowRepeats(row: Summary, a: Argument) {
    && row.laneId == a.laneId
    && Some(row.status) == a.receipt.status
    && row.fixture == a.receipt.fixture
    && row.digest == a.receipt.digest
    && (row.effect == Satisfies <==> row.status == Passed)
    && (row.effect == Warns <==> row.status == Warning)
  }

  /** What a decision says: what it was asked for, the required lanes in order, and one row for each
      argument in the order of the lanes' names. */
  lemma DecisionSays(config: Config, args: seq<Argument>, stage: string, tag: string, commit: string,
                     runId: Option<string>, d: Decision)
    requires BuildDecision(config, args, stage, tag, commit, runId) == Some(d)
    ensures d.stage == stage && d.releaseTag == tag && d.commit == commit && d.runId == runId && d.blocking == []
    ensures |d.laneStatus| == |args|
    ensures forall a :: a in args ==> exists row :: row in d.laneStatus && RowRepeats(row, a)
    ensures forall i, j :: 0 <= i < j < |d.laneStatus| ==> StringLe(d.laneStatus[i].laneId, d.laneStatus[j].laneId)
    ensures Distinct(d.requiredLanes) && SortedBy(d.requiredLanes, StringLe)
    ensures forall id, st :: StageNamed(config, stage, st) ==> (id in d.requiredLanes <==> id in st.requiredLanes)
  {
    var sorted := Sort(args, ArgumentLe);
    SortedArguments(args);
    ArgumentLeTotal();
    SortCorrect(args, ArgumentLe);
    DecisionMadeExactly(config, args, stage, tag, commit, runId);
    forall a | a in args ensures exists row :: row in d.laneStatus && RowRepeats(row, a) {
      RowExactly(config, a, tag, commit, runId);
      RowOf(config, sorted, tag, commit, runId, a);
      assert RowRepeats(SummaryOf(config, a, tag, commit, runId).value, a);
    }
    SummariesKeepIds(config, sorted, tag, commit, runId);
    forall i, j | 0 <= i < j < |d.laneStatus| ensures StringLe(d.laneStatus[i].laneId, d.laneStatus[j].laneId) {
      assert RowIds(d.laneStatus)[i] == Ids(sorted)[i] && RowIds(d.laneStatus)[j] == Ids(sorted)[j];
      assert ArgumentLe(sorted[i], sorted[j]);
    }
    RequiredInOrder(config, stage, d);
  }

  lemma RequiredInOrder(config: Config, stage: string, d: Decision)
    requires FindStage(config.stages, stage).Some?
    requires d.requiredLanes == Sort(Dedup(FindStage(config.stages, stage).value.requiredLanes), StringLe)
    ensures Distinct(d.requiredLanes) && SortedBy(d.requiredLanes, StringLe)
    ensures forall id, st :: StageNamed(config, stage, st) ==> (id in d.requiredLanes <==> id in st.requiredLanes)
  {
    var required := Dedup(FindStage(config.stages, stage).value.requiredLanes);
    StringLeTotalOrder();
    SortCorrect(required, StringLe);
    SortKeepsDistinct(required, StringLe);
    forall id, st | StageNamed(config, stage, st) ensures id in d.requiredLanes <==> id in st.requiredLanes {
      NamedStage(config, stage, st);
    }
  }

  // ------------------------------------------------------------ the consumer

  /** A required lane has a row that passed and satisfies, and is no fixture unless it is the
      hostless lane. */
  predicate LaneShown(d: Decision, id: string) {
    exists row :: row in d.laneStatus && row.laneId == id && row.status == Passed && row.effect == Satisfies &&
                  (row.fixture ==> id == "hostless-quickstart")
  }

  /** The publish receipt accepts a decision exactly when it is a pre-upload one for this tag, commit
      and run, without blocking lanes, whose required lanes are named once each and all shown. */
  lemma AcceptedExactly(d: Decision, tag: string, commit: string, runId: string)
    ensures PublishReceiptAccepts(d, tag, commit, runId) <==>
            && d.stage == "pre-upload" && d.releaseTag == tag && d.commit == commit && d.runId == Some(runId)
            && d.blocking == []
            && d.requiredLanes != [] && "" !in d.requiredLanes && Distinct(d.requiredLanes)
            && (forall row :: row in d.laneStatus ==> row.laneId != "")
            && (forall i, j :: 0 <= i < j < |d.laneStatus| ==> d.laneStatus[i].laneId != d.laneStatus[j].laneId)
            && (forall id :: id in d.requiredLanes ==> LaneShown(d, id))
  {
    assert Distinct(RowIds(d.laneStatus)) <==>
        forall i, j :: 0 <= i < j < |d.laneStatus| ==> d.laneStatus[i].laneId != d.laneStatus[j].laneId;
    forall id ensures RowSatisfies(d.laneStatus, id) <==> LaneShown(d, id) {
    }
  }
}
