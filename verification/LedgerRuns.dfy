// Runs of appends: any number of attempts, each against whatever files the
// artifact root holds at that moment, each free to fail.
module LedgerRuns {
  import opened Common
  import opened Paths
  import opened Ledger
  import opened LedgerTamper
  import opened LedgerAppend

  datatype Attempt = Attempt(files: map<string, Bytes>, request: Request)

  function Run(c: Codec, ledgerPath: string, file: LedgerFile, attempts: seq<Attempt>): LedgerFile
    decreases |attempts|
  {
    if attempts == [] then file
    else
      var w := World(attempts[0].files, ledgerPath, file);
      Run(c, ledgerPath, AppendStep(c, w, attempts[0].request).0, attempts[1..])
  }

  function LinesOf(file: LedgerFile): seq<Line> {
    if file.Missing? then [] else file.lines
  }

  /** No text of an earlier line is open: the next write starts a line. */
  predicate LineClosed(file: LedgerFile) {
    file.Missing? || file.terminated || file.lines == []
  }

  /** The lines that are finished: all of them, or all but an open last one. */
  function FinishedLines(file: LedgerFile): seq<Line> {
    if LineClosed(file) then LinesOf(file) else file.lines[..|file.lines| - 1]
  }

  lemma StepOnlyAppends(c: Codec, w: World, q: Request)
    ensures var after := AppendStep(c, w, q).0;
            && FinishedLines(w.file) <= LinesOf(after)
            && (after == w.file || LineClosed(after))
  {
  }

  /** Append only: over every run, whatever its attempts do, the finished lines are a prefix of
      the new ones; these are all lines unless the file ended inside one. */
  lemma {:induction false} RunOnlyAppends(c: Codec, ledgerPath: string, file: LedgerFile, attempts: seq<Attempt>)
    ensures var after := Run(c, ledgerPath, file, attempts);
            && FinishedLines(file) <= LinesOf(after)
            && (LineClosed(file) ==> LinesOf(file) <= LinesOf(after) && LineClosed(after))
    decreases |attempts|
  {
    if attempts != [] {
      var w := World(attempts[0].files, ledgerPath, file);
      var next := AppendStep(c, w, attempts[0].request).0;
      StepOnlyAppends(c, w, attempts[0].request);
      RunOnlyAppends(c, ledgerPath, next, attempts[1..]);
      assert FinishedLines(file) <= FinishedLines(next);
    }
  }

  lemma StepKeepsRecords(c: Codec, w: World, q: Request)
    requires ReadLines(LinesOf(AppendStep(c, w, q).0)).Some?
    ensures ReadLines(LinesOf(w.file)).Some?
    ensures ReadLines(LinesOf(w.file)).value <= ReadLines(LinesOf(AppendStep(c, w, q).0)).value
  {
    if Ready(c, w, q) {
      OpeningFacts(c, w);
      ReadBack(w.file, NewRecord(c, w, q));
    }
  }

  /** Over every run that leaves a readable ledger, no old record is changed, dropped or
      moved, not even one on an open last line. */
  lemma {:induction false} RunKeepsRecords(c: Codec, ledgerPath: string, file: LedgerFile, attempts: seq<Attempt>)
    requires ReadLines(LinesOf(Run(c, ledgerPath, file, attempts))).Some?
    ensures ReadLines(LinesOf(file)).Some?
    ensures ReadLines(LinesOf(file)).value <= ReadLines(LinesOf(Run(c, ledgerPath, file, attempts))).value
    decreases |attempts|
  {
    if attempts != [] {
      var w := World(attempts[0].files, ledgerPath, file);
      RunKeepsRecords(c, ledgerPath, AppendStep(c, w, attempts[0].request).0, attempts[1..]);
      StepKeepsRecords(c, w, attempts[0].request);
    }
  }

  /** A record whose evidence holds both before and after the ledger file changed does
      not name that file. */
  lemma LedgerPathNotReferenced(c: Codec, w: World, later: World, p: Payload)
    requires EvidenceOk(c, w, p, None) && EvidenceOk(c, later, p, None)
    requires later.ledgerPath == w.ledgerPath && later.file.Present?
    requires w.file.Present? ==> c.fileDigest(c.render(w.file)) != c.fileDigest(c.render(later.file))
    ensures w.ledgerPath !in ReferencedPaths(p)
  {
    if w.ledgerPath in ReferencedPaths(p) {
      var ref :| ref in References(p) && ref.path == w.ledgerPath;
      EvidenceBindsReferences(c, w, p, None, ref);
      EvidenceBindsReferences(c, later, p, None, ref);
    }
  }

  lemma LaterAcceptance(c: Codec, w: World, later: World, existing: seq<Record>, r: Record)
    requires AllEvidence(c, w, existing, None) && EvidenceOk(c, w, r.payload, None)
    requires later.ledgerPath == w.ledgerPath && later.file.Present?
    requires w.file.Present? ==> c.fileDigest(c.render(w.file)) != c.fileDigest(c.render(later.file))
    requires AllShapes(existing + [r]) && AllEvidence(c, later, existing + [r], None)
    ensures ShapeOk(r)
    ensures LedgerUnreferenced(existing, w.ledgerPath) && w.ledgerPath !in ReferencedPaths(r.payload)
  {
    var extended := existing + [r];
    assert extended[|existing|] == r;
    LedgerPathNotReferenced(c, w, later, r.payload);
    forall i | 0 <= i < |existing| ensures w.ledgerPath !in ReferencedPaths(existing[i].payload) {
      assert extended[i] == existing[i];
      LedgerPathNotReferenced(c, w, later, existing[i].payload);
    }
  }

  /** A write that made the ledger unverifiable cannot be repaired by changing the other
      files: no set of files makes the ledger verify again. */
  lemma PoisonStays(c: Codec, w: World, q: Request, files: map<string, Bytes>)
    requires Ready(c, w, q) && DigestsWellFormed(c) && CollisionFree(c, w, q)
    requires !WellFormedRequest(c, w, q)
    ensures !LedgerAccepted(c, World(files, w.ledgerPath, Written(c, w, q).file), ANYTHING)
  {
    var existing, r := Opening(c, w).value, NewRecord(c, w, q);
    var later := World(files, w.ledgerPath, Written(c, w, q).file);
    OpeningFacts(c, w);
    NewRecordShape(c, w, q);
    NewRecordEvidence(c, w, q);
    ReadBack(w.file, r);
    if EndsOnFreshLine(w.file) {
      ShapeAndEvidence(c, later, existing + [r], None);
      if AllShapes(existing + [r]) && AllEvidence(c, later, existing + [r], None) {
        LaterAcceptance(c, w, later, existing, r);
      }
    }
  }

  /** The written ledger can never verify again, whatever files are put beside it. */
  ghost predicate Unverifiable(c: Codec, w: World, q: Request)
    requires Ready(c, w, q)
  {
    forall files :: !LedgerAccepted(c, World(files, w.ledgerPath, Written(c, w, q).file), ANYTHING)
  }

  /** A write spoils the ledger for good exactly when the request is not well formed. */
  lemma PoisonedExactly(c: Codec, w: World, q: Request)
    requires Ready(c, w, q) && DigestsWellFormed(c) && CollisionFree(c, w, q)
    ensures Unverifiable(c, w, q) <==> !WellFormedRequest(c, w, q)
  {
    if WellFormedRequest(c, w, q) {
      ClosingAccepts(c, w, q, ANYTHING);
      assert LedgerAccepted(c, World(w.files, w.ledgerPath, Written(c, w, q).file), ANYTHING);
    } else {
      forall files ensures !LedgerAccepted(c, World(files, w.ledgerPath, Written(c, w, q).file), ANYTHING) {
        PoisonStays(c, w, q, files);
      }
    }
  }

  /** A request that fails only because an earlier record has another tag is written and refused,
      but the next opening verification passes. */
  lemma {:induction false} TagMismatchRecovers(c: Codec, w: World, q: Request)
    requires Ready(c, w, q) && DigestsWellFormed(c) && CollisionFree(c, w, q)
    requires WellFormedRequest(c, w, q) && !EarlierTagsMatch(Opening(c, w).value, q.tag)
    ensures AppendStep(c, w, q).1 == AppendedThenRefused
    ensures Opening(c, Written(c, w, q)) == Some(Opening(c, w).value + [NewRecord(c, w, q)])
  {
    ClosingVerifyExactly(c, w, q);
    OpensAfterwards(c, w, q);
  }

  lemma {:induction false} OpensAfterwards(c: Codec, w: World, q: Request)
    requires Ready(c, w, q) && DigestsWellFormed(c) && CollisionFree(c, w, q) && WellFormedRequest(c, w, q)
    ensures Opening(c, Written(c, w, q)) == Some(Opening(c, w).value + [NewRecord(c, w, q)])
  {
    ClosingAccepts(c, w, q, ANYTHING);
    OpeningFacts(c, w);
    ReadBack(w.file, NewRecord(c, w, q));
  }

  lemma RefusedAtOpening(c: Codec, w: World, q: Request)
    requires w.file.Present? && !LedgerAccepted(c, w, ANYTHING)
    ensures AppendStep(c, w, q) == (w.file, Refused)
  {
  }

  lemma {:induction false} StuckRun(c: Codec, ledgerPath: string, file: LedgerFile, attempts: seq<Attempt>)
    requires file.Present?
    requires forall files :: !LedgerAccepted(c, World(files, ledgerPath, file), ANYTHING)
    ensures Run(c, ledgerPath, file, attempts) == file
    decreases |attempts|
  {
    if attempts != [] {
      var w := World(attempts[0].files, ledgerPath, file);
      RefusedAtOpening(c, w, attempts[0].request);
      StuckRun(c, ledgerPath, file, attempts[1..]);
    }
  }

  /** After such a write every later run of appends is refused at the opening check and
      leaves the ledger file as it is. */
  lemma PoisonedLedgerIsStuck(c: Codec, w: World, q: Request, attempts: seq<Attempt>)
    requires Ready(c, w, q) && DigestsWellFormed(c) && CollisionFree(c, w, q)
    requires !WellFormedRequest(c, w, q)
    ensures Run(c, w.ledgerPath, Written(c, w, q).file, attempts) == Written(c, w, q).file
  {
    PoisonedExactly(c, w, q);
    StuckRun(c, w.ledgerPath, Written(c, w, q).file, attempts);
  }

  // ------------------------------------------------------------ a failing input

  function Zeros(n: nat): (s: string)
    ensures |s| == n && forall i :: 0 <= i < n ==> s[i] == '0'
  {
    if n == 0 then "" else ['0'] + Zeros(n - 1)
  }

  function ZeroDigest(): (d: string)
    ensures IsSha256Ref(d)
  {
    assert ("sha256:" + Zeros(64))[7..] == Zeros(64);
    "sha256:" + Zeros(64)
  }

  const COMMAND := Command("m80 doctor", 0, 0)

  const SAMPLE_PROOF := Proof("v0.0.0", "hostless", "hostless", COMMAND, "v0.0.0", "m", "/a", "/d")

  function SampleVerifier(): VerifierResult {
    VerifierResult(1, VERIFIER_NAME, FileRef("p", ZeroDigest()), "v0.0.0", "hostless", "hostless", true, "ok",
                   COMMAND, "v0.0.0", FileRef("m", ZeroDigest()), InstallSummary(SAMPLE_PROOF))
  }

  function SampleCodec(): Codec {
    Codec(_ => ZeroDigest(), _ => ZeroDigest(), _ => [], _ => Some(SAMPLE_PROOF), _ => Some(SampleVerifier()))
  }

  const SAMPLE_WORLD := World(map["p" := [], "v" := [], "m" := [], "l" := []], "ledger", Missing)

  function SampleRequest(logs: seq<string>): Request {
    Request("p", "v", logs, "1", "runner", None)
  }

  lemma OneLetterPath(s: string)
    requires |s| == 1 && s[0] != '/' && s[0] != '.'
    ensures IsRelativeArtifactPath(s)
  {
    assert s[1..] == "" && Split("", '/') == [""];
    assert Split(s, '/') == [[s[0]] + ""] + [];
    assert [s[0]] + "" == s;
    assert Split(s, '/') == [s];
    var none: seq<string> := [];
    assert [s][1..] == none;
    assert Significant([s]) == [s] + [];
    assert Parts(s) == [s];
  }

  lemma RootedLetter(s: string)
    requires |s| == 2 && s[0] == '/' && s[1] != '/' && s[1] != '.'
    ensures FileName(s) == [s[1]]
  {
    var t := s[1..];
    assert t == [s[1]] && t[1..] == "" && Split("", '/') == [""];
    assert Split(t, '/') == [t] by { assert [t[0]] + "" == t; }
    assert Split(s, '/') == ["", t];
    var none: seq<string> := [];
    assert ["", t][1..] == [t] && [t][1..] == none;
    assert Significant([t]) == [t] + [];
    assert Significant(["", t]) == [t];
  }

  lemma SampleProofReadable()
    ensures ProofReadable(SAMPLE_PROOF)
    ensures FileName("/a") == "a" && FileName("/d") == "d"
    ensures DigestsWellFormed(SampleCodec())
  {
    OneLetterPath("m");
    RootedLetter("/a");
    RootedLetter("/d");
    assert !IsSpace("v0.0.0"[0]) && !IsSpace("m80 doctor"[0]) && !IsSpace("/a"[0]) && !IsSpace("/d"[0]);
    assert NonBlank("v0.0.0") && NonBlank("m80 doctor") && NonBlank("/a") && NonBlank("/d");
  }

  lemma SampleFile(path: string)
    requires path == "p" || path == "v" || path == "m" || path == "l"
    ensures NamesFile(SampleCodec(), SAMPLE_WORLD, path)
    ensures Lookup(SampleCodec(), SAMPLE_WORLD, path) == Some([])
  {
    OneLetterPath(path);
    assert |path| != |SAMPLE_WORLD.ledgerPath|;
    assert path in SAMPLE_WORLD.files;
  }

  lemma SampleVerifierOk()
    ensures VerifierResultOk(SampleCodec(), SAMPLE_WORLD, SampleVerifier(), FileRef("p", ZeroDigest()), SAMPLE_PROOF,
                             "v0.0.0", "hostless", "hostless")
  {
    SampleFile("m");
    assert !IsSpace("ok"[0]);
  }

  lemma SampleProofUsable(logs: seq<string>)
    ensures ProofUsable(SampleCodec(), SAMPLE_WORLD, SampleRequest(logs))
  {
    SampleProofReadable();
    SampleFile("p");
  }

  lemma SampleVerifierUsable(logs: seq<string>)
    requires ProofUsable(SampleCodec(), SAMPLE_WORLD, SampleRequest(logs))
    ensures VerifierUsable(SampleCodec(), SAMPLE_WORLD, SampleRequest(logs))
  {
    SampleFile("p");
    SampleFile("v");
    SampleVerifierOk();
  }

  lemma SampleRun()
    ensures IsPositiveIntString("1") && NonBlank("runner")
    ensures Opening(SampleCodec(), SAMPLE_WORLD) == Some([])
  {
    assert !IsSpace("runner"[0]);
  }

  lemma SampleReady(logs: seq<string>)
    requires logs != [] && forall i :: 0 <= i < |logs| ==> logs[i] == "l"
    ensures Ready(SampleCodec(), SAMPLE_WORLD, SampleRequest(logs))
  {
    SampleProofUsable(logs);
    SampleVerifierUsable(logs);
    SampleRun();
    forall i | 0 <= i < |logs| ensures NamesFile(SampleCodec(), SAMPLE_WORLD, logs[i]) {
      SampleFile("l");
    }
  }

  lemma SampleCollisionFree(logs: seq<string>)
    requires Ready(SampleCodec(), SAMPLE_WORLD, SampleRequest(logs))
    ensures CollisionFree(SampleCodec(), SAMPLE_WORLD, SampleRequest(logs))
  {
    var r := NewRecord(SampleCodec(), SAMPLE_WORLD, SampleRequest(logs));
    assert [] + [r] == [r];
  }

  /** Naming one log file twice: the record is written and then refused. */
  lemma DuplicateLogIsWrittenThenRefused()
    ensures AppendStep(SampleCodec(), SAMPLE_WORLD, SampleRequest(["l", "l"])).1 == AppendedThenRefused
  {
    var c, w, q := SampleCodec(), SAMPLE_WORLD, SampleRequest(["l", "l"]);
    SampleProofReadable();
    SampleReady(q.logs);
    SampleCollisionFree(q.logs);
    ClosingVerifyExactly(c, w, q);
    assert !Distinct(q.logs) by { assert q.logs[0] == q.logs[1]; }
  }

  lemma ReferenceCases(p: Payload, path: string)
    requires path in ReferencedPaths(p)
    ensures || path == p.proof.path || path == p.bundleMetadata.path || path == p.verifierResult.path
            || exists i :: 0 <= i < |p.logs| && p.logs[i].path == path
  {
  }

  /** The files a new record names are those of the request and of its verifier result. */
  lemma NewReferences(c: Codec, w: World, q: Request, path: string)
    requires Ready(c, w, q) && path in ReferencedPaths(NewPayload(c, w, q))
    ensures || path == q.proof || path == q.verifierResult || path in q.logs
            || path == ReadVerifierAt(c, w, q.verifierResult).value.bundleMetadata.path
  {
    var p := NewPayload(c, w, q);
    ReferenceCases(p, path);
    assert p.logs == LogRefs(c, w, q.logs);
  }

  lemma SampleNamesNoLedger(logs: seq<string>)
    requires Ready(SampleCodec(), SAMPLE_WORLD, SampleRequest(logs)) && logs == ["l"]
    ensures "ledger" !in ReferencedPaths(NewPayload(SampleCodec(), SAMPLE_WORLD, SampleRequest(logs)))
  {
    var c, w, q := SampleCodec(), SAMPLE_WORLD, SampleRequest(logs);
    assert ReadVerifierAt(c, w, q.verifierResult) == Some(SampleVerifier());
    forall path | path in ReferencedPaths(NewPayload(c, w, q)) ensures |path| == 1 {
      NewReferences(c, w, q, path);
    }
    assert |"ledger"| == 6;
  }

  lemma SampleWellFormed(logs: seq<string>)
    requires Ready(SampleCodec(), SAMPLE_WORLD, SampleRequest(logs)) && logs == ["l"]
    ensures WellFormedRequest(SampleCodec(), SAMPLE_WORLD, SampleRequest(logs))
  {
    SampleProofReadable();
    SampleNamesNoLedger(logs);
    SampleRun();
  }

  /** Naming it once: the record is appended, and the ledger holds it. */
  lemma SingleLogIsAppended()
    ensures var (file, outcome) := AppendStep(SampleCodec(), SAMPLE_WORLD, SampleRequest(["l"]));
            outcome == Appended && ReadLedger(file).Some? && |ReadLedger(file).value| == 1
  {
    var c, w, q := SampleCodec(), SAMPLE_WORLD, SampleRequest(["l"]);
    SampleProofReadable();
    SampleReady(q.logs);
    SampleCollisionFree(q.logs);
    SampleWellFormed(q.logs);
    SampleRun();
    ClosingVerifyExactly(c, w, q);
  }
}
