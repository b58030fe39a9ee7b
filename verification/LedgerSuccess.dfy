// Runs of appends in which nothing fails: what the requests have to be, each on its own, for every
// attempt to be appended.
module LedgerSuccess {
  import opened Common
  import opened Paths
  import opened Ledger
  import opened LedgerTamper
  import opened LedgerAppend
  import opened LedgerRuns

  /** The artifact root as if it had no ledger: on it, no usable path is the ledger's. */
  function Root(files: map<string, Bytes>, ledgerPath: string): World {
    World(files, ledgerPath, Missing)
  }

  /** What a request has to be, given the files beside the ledger and nothing else: a usable proof of
      this tag, a usable verifier result, logs that exist and differ, and install names without a
      backslash. */
  predicate RequestSound(c: Codec, files: map<string, Bytes>, ledgerPath: string, q: Request, tag: string) {
    var root := Root(files, ledgerPath);
    && IsPositiveIntString(q.workflowRunId)
    && NonBlank(q.runner)
    && q.logs != [] && Distinct(q.logs)
    && (forall i :: 0 <= i < |q.logs| ==> NamesFile(c, root, q.logs[i]))
    && ProofUsable(c, root, q)
    && VerifierUsable(c, root, q)
    && var proof := ReadProofAt(c, root, q.proof).value;
    && proof.tag == tag
    && '\\' !in FileName(proof.activePointer)
    && '\\' !in FileName(proof.defaultProfile)
  }

  // ------------------------------------------------------------ from the root to a root with a ledger

  lemma SameFile(c: Codec, w: World, path: string)
    requires Lookup(c, Root(w.files, w.ledgerPath), path).Some?
    ensures path != w.ledgerPath && Lookup(c, w, path) == Lookup(c, Root(w.files, w.ledgerPath), path)
  {
  }

  lemma SoundProofUsable(c: Codec, w: World, q: Request)
    requires ProofUsable(c, Root(w.files, w.ledgerPath), q)
    ensures ProofUsable(c, w, q) && q.proof != w.ledgerPath
    ensures ReadProofAt(c, w, q.proof) == ReadProofAt(c, Root(w.files, w.ledgerPath), q.proof)
  {
    SameFile(c, w, q.proof);
  }

  lemma SoundVerifierUsable(c: Codec, w: World, q: Request)
    requires ProofUsable(c, Root(w.files, w.ledgerPath), q) && VerifierUsable(c, Root(w.files, w.ledgerPath), q)
    ensures ProofUsable(c, w, q) && VerifierUsable(c, w, q) && q.verifierResult != w.ledgerPath
    ensures ReadVerifierAt(c, w, q.verifierResult).value.bundleMetadata.path != w.ledgerPath
  {
    var root := Root(w.files, w.ledgerPath);
    SoundProofUsable(c, w, q);
    SameFile(c, w, q.proof);
    SameFile(c, w, q.verifierResult);
    SameFile(c, w, ReadVerifierAt(c, root, q.verifierResult).value.bundleMetadata.path);
  }

  /** A sound request is ready on any ledger that verifies, is well formed but for that ledger's own
      records and last line, and its record does not name the ledger. */
  lemma SoundIsReady(c: Codec, w: World, q: Request, tag: string)
    requires RequestSound(c, w.files, w.ledgerPath, q, tag) && Opening(c, w).Some?
    ensures Ready(c, w, q)
    ensures w.ledgerPath !in ReferencedPaths(NewPayload(c, w, q))
    ensures NewPayload(c, w, q).releaseTag == tag
    ensures q.tag.Some? ==> q.tag.value == tag
  {
    SoundProofUsable(c, w, q);
    SoundVerifierUsable(c, w, q);
    forall i | 0 <= i < |q.logs| ensures NamesFile(c, w, q.logs[i]) && q.logs[i] != w.ledgerPath {
      SameFile(c, w, q.logs[i]);
    }
    if w.ledgerPath in ReferencedPaths(NewPayload(c, w, q)) {
      NewReferences(c, w, q, w.ledgerPath);
    }
  }

  // ------------------------------------------------------------ one attempt

  /** The ledger verifies, ends on a fresh line, does not name itself, and has one tag. */
  predicate Healthy(c: Codec, w: World, tag: string) {
    && Opening(c, w).Some?
    && EndsOnFreshLine(w.file)
    && LedgerUnreferenced(Opening(c, w).value, w.ledgerPath)
    && EarlierTagsMatch(Opening(c, w).value, Some(tag))
  }

  lemma HealthyIsWellFormed(c: Codec, w: World, q: Request, tag: string)
    requires Healthy(c, w, tag) && RequestSound(c, w.files, w.ledgerPath, q, tag)
    ensures Ready(c, w, q) && WellFormedRequest(c, w, q) && EarlierTagsMatch(Opening(c, w).value, q.tag)
  {
    SoundIsReady(c, w, q, tag);
    SoundProofUsable(c, w, q);
  }

  lemma RecordsSnoc(existing: seq<Record>, r: Record, ledgerPath: string, tag: string)
    requires LedgerUnreferenced(existing, ledgerPath) && EarlierTagsMatch(existing, Some(tag))
    requires ledgerPath !in ReferencedPaths(r.payload) && r.payload.releaseTag == tag
    ensures LedgerUnreferenced(existing + [r], ledgerPath) && EarlierTagsMatch(existing + [r], Some(tag))
  {
    var all := existing + [r];
    assert all[|existing|] == r;
    assert forall i :: 0 <= i < |existing| ==> all[i] == existing[i];
  }

  /** On a healthy ledger a sound request is appended, and the ledger stays healthy. */
  lemma AttemptAppends(c: Codec, w: World, q: Request, tag: string)
    requires DigestsWellFormed(c) && Healthy(c, w, tag) && RequestSound(c, w.files, w.ledgerPath, q, tag)
    requires Ready(c, w, q) ==> CollisionFree(c, w, q)
    ensures Ready(c, w, q) && AppendStep(c, w, q) == (Written(c, w, q).file, Appended)
    ensures Opening(c, Written(c, w, q)) == Some(Opening(c, w).value + [NewRecord(c, w, q)])
    ensures Healthy(c, Written(c, w, q), tag)
  {
    HealthyIsWellFormed(c, w, q, tag);
    ClosingVerifyExactly(c, w, q);
    OpensAfterwards(c, w, q);
    SoundIsReady(c, w, q, tag);
    RecordsSnoc(Opening(c, w).value, NewRecord(c, w, q), w.ledgerPath, tag);
  }

  // ------------------------------------------------------------ new files between attempts

  /** Files may be added, none is changed or removed. */
  predicate Extends(files: map<string, Bytes>, more: map<string, Bytes>) {
    forall path :: path in files ==> path in more && more[path] == files[path]
  }

  lemma SameLookupsSameEvidence(c: Codec, w: World, w': World, p: Payload, tag: Option<string>)
    requires EvidenceOk(c, w, p, tag)
    requires forall ref :: ref in References(p) ==> Lookup(c, w', ref.path) == Lookup(c, w, ref.path)
    ensures EvidenceOk(c, w', p, tag)
  {
    assert p.proof in References(p) && p.bundleMetadata in References(p) && p.verifierResult in References(p);
    assert forall i :: 0 <= i < |p.logs| ==> p.logs[i] in References(p);
  }

  lemma EvidenceOutlivesGrowth(c: Codec, w: World, more: map<string, Bytes>, p: Payload)
    requires EvidenceOk(c, w, p, None) && Extends(w.files, more) && w.ledgerPath !in ReferencedPaths(p)
    ensures EvidenceOk(c, w.(files := more), p, None)
  {
    forall ref | ref in References(p) ensures Lookup(c, w.(files := more), ref.path) == Lookup(c, w, ref.path) {
      assert ref.path in ReferencedPaths(p);
      EvidenceBindsReferences(c, w, p, None, ref);
    }
    SameLookupsSameEvidence(c, w, w.(files := more), p, None);
  }

  /** A healthy ledger stays healthy when files are added. */
  lemma HealthOutlivesGrowth(c: Codec, w: World, more: map<string, Bytes>, tag: string)
    requires Healthy(c, w, tag) && Extends(w.files, more)
    ensures Healthy(c, w.(files := more), tag) && Opening(c, w.(files := more)) == Opening(c, w)
  {
    if w.file.Present? {
      var records, w' := Opening(c, w).value, w.(files := more);
      OpeningFacts(c, w);
      forall i | 0 <= i < |records| ensures EvidenceOk(c, w', records[i].payload, None) {
        EvidenceOutlivesGrowth(c, w, more, records[i].payload);
      }
      ShapeAndEvidence(c, w', records, None);
    }
  }

  // ------------------------------------------------------------ the whole run

  /** How each attempt of a run ends. */
  function Outcomes(c: Codec, ledgerPath: string, file: LedgerFile, attempts: seq<Attempt>): seq<Outcome>
    decreases |attempts|
  {
    if attempts == [] then []
    else
      var (next, outcome) := AppendStep(c, World(attempts[0].files, ledgerPath, file), attempts[0].request);
      [outcome] + Outcomes(c, ledgerPath, next, attempts[1..])
  }

  /** No write of the run meets a digest collision. */
  ghost predicate NoCollisions(c: Codec, ledgerPath: string, file: LedgerFile, attempts: seq<Attempt>)
    decreases |attempts|
  {
    attempts != [] ==>
      var w, q := World(attempts[0].files, ledgerPath, file), attempts[0].request;
      && (Ready(c, w, q) ==> CollisionFree(c, w, q))
      && NoCollisions(c, ledgerPath, AppendStep(c, w, q).0, attempts[1..])
  }

  /** Each request is sound on its own, and the files only grow from one attempt to the next. */
  predicate SoundRequests(c: Codec, ledgerPath: string, attempts: seq<Attempt>, tag: string) {
    && (forall i :: 0 <= i < |attempts| ==> RequestSound(c, attempts[i].files, ledgerPath, attempts[i].request, tag))
    && (forall i :: 0 < i < |attempts| ==> Extends(attempts[i - 1].files, attempts[i].files))
  }

  lemma SoundRest(c: Codec, ledgerPath: string, attempts: seq<Attempt>, tag: string)
    requires attempts != [] && SoundRequests(c, ledgerPath, attempts, tag)
    ensures RequestSound(c, attempts[0].files, ledgerPath, attempts[0].request, tag)
    ensures SoundRequests(c, ledgerPath, attempts[1..], tag)
    ensures |attempts| > 1 ==> Extends(attempts[0].files, attempts[1].files)
  {
    var rest := attempts[1..];
    assert forall i :: 0 <= i < |rest| ==> rest[i] == attempts[i + 1];
    forall i | 0 < i < |rest| ensures Extends(rest[i - 1].files, rest[i].files) {
      assert Extends(attempts[i + 1 - 1].files, attempts[i + 1].files);
    }
  }

  predicate AllAppended(outcomes: seq<Outcome>) {
    forall i :: 0 <= i < |outcomes| ==> outcomes[i] == Appended
  }

  lemma AttemptGrows(c: Codec, w: World, q: Request, tag: string)
    requires DigestsWellFormed(c) && Healthy(c, w, tag) && RequestSound(c, w.files, w.ledgerPath, q, tag)
    requires (Ready(c, w, q) ==> CollisionFree(c, w, q)) && ReadLines(LinesOf(w.file)).Some?
    ensures AppendStep(c, w, q).1 == Appended
    ensures GrewBy(w.file, AppendStep(c, w, q).0, 1)
  {
    AttemptAppends(c, w, q, tag);
    OpeningFacts(c, w);
    OpeningFacts(c, Written(c, w, q));
  }

  lemma HealthyForNext(c: Codec, w: World, q: Request, more: map<string, Bytes>, tag: string)
    requires DigestsWellFormed(c) && Healthy(c, w, tag) && RequestSound(c, w.files, w.ledgerPath, q, tag)
    requires (Ready(c, w, q) ==> CollisionFree(c, w, q)) && Extends(w.files, more)
    ensures Healthy(c, World(more, w.ledgerPath, AppendStep(c, w, q).0), tag)
  {
    AttemptAppends(c, w, q, tag);
    HealthOutlivesGrowth(c, Written(c, w, q), more, tag);
  }

  /** The old records and `n` more after them. */
  predicate GrewBy(file: LedgerFile, after: LedgerFile, n: nat) {
    var was, now := ReadLines(LinesOf(file)), ReadLines(LinesOf(after));
    was.Some? && now.Some? && was.value <= now.value && |now.value| == |was.value| + n
  }

  /** An attempt is appended, adds one record, and leaves the rest of the run as good. */
  ghost predicate StepsWell(c: Codec, ledgerPath: string, good: (LedgerFile, seq<Attempt>) -> bool) {
    forall file: LedgerFile, attempts: seq<Attempt> :: good(file, attempts) && attempts != [] ==>
      var (next, outcome) := AppendStep(c, World(attempts[0].files, ledgerPath, file), attempts[0].request);
      outcome == Appended && GrewBy(file, next, 1) && good(next, attempts[1..])
  }

  lemma GoodStep(c: Codec, ledgerPath: string, file: LedgerFile, attempts: seq<Attempt>,
                 good: (LedgerFile, seq<Attempt>) -> bool) returns (next: LedgerFile)
    requires StepsWell(c, ledgerPath, good) && good(file, attempts) && attempts != []
    ensures AppendStep(c, World(attempts[0].files, ledgerPath, file), attempts[0].request) == (next, Appended)
    ensures GrewBy(file, next, 1) && good(next, attempts[1..])
  {
    next := AppendStep(c, World(attempts[0].files, ledgerPath, file), attempts[0].request).0;
  }

  lemma {:induction false} FirstAppended(c: Codec, ledgerPath: string, file: LedgerFile, attempts: seq<Attempt>,
                                         next: LedgerFile)
    requires attempts != []
    requires AppendStep(c, World(attempts[0].files, ledgerPath, file), attempts[0].request) == (next, Appended)
    requires AllAppended(Outcomes(c, ledgerPath, next, attempts[1..]))
    ensures Outcomes(c, ledgerPath, file, attempts) == [Appended] + Outcomes(c, ledgerPath, next, attempts[1..])
    ensures AllAppended(Outcomes(c, ledgerPath, file, attempts))
  {
  }

  /** Whatever is good and steps well has every attempt appended. */
  lemma {:induction false} GoodOutcomes(c: Codec, ledgerPath: string, file: LedgerFile, attempts: seq<Attempt>,
                                        good: (LedgerFile, seq<Attempt>) -> bool)
    requires StepsWell(c, ledgerPath, good) && good(file, attempts)
    ensures |Outcomes(c, ledgerPath, file, attempts)| == |attempts|
    ensures AllAppended(Outcomes(c, ledgerPath, file, attempts))
    decreases |attempts|
  {
    if attempts != [] {
      var next := GoodStep(c, ledgerPath, file, attempts, good);
      GoodOutcomes(c, ledgerPath, next, attempts[1..], good);
      FirstAppended(c, ledgerPath, file, attempts, next);
    }
  }

  lemma {:induction false} GoodGrowth(c: Codec, ledgerPath: string, file: LedgerFile, attempts: seq<Attempt>,
                                      good: (LedgerFile, seq<Attempt>) -> bool)
    requires StepsWell(c, ledgerPath, good) && good(file, attempts) && ReadLines(LinesOf(file)).Some?
    ensures GrewBy(file, Run(c, ledgerPath, file, attempts), |attempts|)
    decreases |attempts|
  {
    if attempts != [] {
      var next := GoodStep(c, ledgerPath, file, attempts, good);
      GoodGrowth(c, ledgerPath, next, attempts[1..], good);
      assert Run(c, ledgerPath, file, attempts) == Run(c, ledgerPath, next, attempts[1..]);
    }
  }

  /** The ledger is healthy for the first attempt, and every request of the run is sound. */
  ghost predicate Good(c: Codec, ledgerPath: string, file: LedgerFile, attempts: seq<Attempt>, tag: string) {
    && NoCollisions(c, ledgerPath, file, attempts)
    && SoundRequests(c, ledgerPath, attempts, tag)
    && ReadLines(LinesOf(file)).Some?
    && (attempts != [] ==> Healthy(c, World(attempts[0].files, ledgerPath, file), tag))
  }

  lemma GoodSteps(c: Codec, ledgerPath: string, file: LedgerFile, attempts: seq<Attempt>, tag: string)
    requires DigestsWellFormed(c) && Good(c, ledgerPath, file, attempts, tag) && attempts != []
    ensures var (next, outcome) := AppendStep(c, World(attempts[0].files, ledgerPath, file), attempts[0].request);
            outcome == Appended && GrewBy(file, next, 1) && Good(c, ledgerPath, next, attempts[1..], tag)
  {
    var w, q := World(attempts[0].files, ledgerPath, file), attempts[0].request;
    SoundRest(c, ledgerPath, attempts, tag);
    AttemptGrows(c, w, q, tag);
    if |attempts| > 1 {
      HealthyForNext(c, w, q, attempts[1].files, tag);
    }
  }

  /** Starting from a healthy ledger, every attempt of every run of sound requests is appended: no
      opening check refuses one and no closing verification fails. Each adds one record. */
  lemma {:induction false} EveryAttemptAppends(c: Codec, ledgerPath: string, file: LedgerFile, attempts: seq<Attempt>,
                                               tag: string)
    requires DigestsWellFormed(c) && NoCollisions(c, ledgerPath, file, attempts)
    requires SoundRequests(c, ledgerPath, attempts, tag)
    requires attempts != [] ==> Healthy(c, World(attempts[0].files, ledgerPath, file), tag)
    requires ReadLines(LinesOf(file)).Some?
    ensures |Outcomes(c, ledgerPath, file, attempts)| == |attempts|
    ensures AllAppended(Outcomes(c, ledgerPath, file, attempts))
    ensures GrewBy(file, Run(c, ledgerPath, file, attempts), |attempts|)
  {
    var good := (f: LedgerFile, rest: seq<Attempt>) => Good(c, ledgerPath, f, rest, tag);
    forall f: LedgerFile, rest: seq<Attempt> | good(f, rest) && rest != []
      ensures var (next, outcome) := AppendStep(c, World(rest[0].files, ledgerPath, f), rest[0].request);
              outcome == Appended && GrewBy(f, next, 1) && good(next, rest[1..])
    {
      GoodSteps(c, ledgerPath, f, rest, tag);
    }
    GoodOutcomes(c, ledgerPath, file, attempts, good);
    GoodGrowth(c, ledgerPath, file, attempts, good);
  }
}
