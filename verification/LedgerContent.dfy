// What an appended record says, read back from the ledger file, and what an accepted ledger
// says about the files it names.
module LedgerContent {
  import opened Common
  import opened Paths
  import opened Ledger
  import opened LedgerAppend

  /** `ref` is the path with the digest of the file found there. */
  predicate Pins(c: Codec, w: World, ref: FileRef, path: string) {
    Lookup(c, w, path).Some? && ref == FileRef(path, c.fileDigest(Lookup(c, w, path).value))
  }

  function ProofIn(c: Codec, w: World, path: string): Proof
    requires Lookup(c, w, path).Some? && c.readProof(Lookup(c, w, path).value).Some?
  {
    c.readProof(Lookup(c, w, path).value).value
  }

  function ResultIn(c: Codec, w: World, path: string): VerifierResult
    requires Lookup(c, w, path).Some? && c.readVerifier(Lookup(c, w, path).value).Some?
  {
    c.readVerifier(Lookup(c, w, path).value).value
  }

  predicate Legible(c: Codec, w: World, q: Request) {
    && Lookup(c, w, q.proof).Some? && c.readProof(Lookup(c, w, q.proof).value).Some?
    && Lookup(c, w, q.verifierResult).Some? && c.readVerifier(Lookup(c, w, q.verifierResult).value).Some?
  }

  /** The record carries the request's own words and names its files in order, by digest. */
  predicate RepeatsRequest(c: Codec, w: World, q: Request, p: Payload) {
    && p.workflowRunId == q.workflowRunId
    && p.runner == q.runner
    && Pins(c, w, p.proof, q.proof)
    && Pins(c, w, p.verifierResult, q.verifierResult)
    && |p.logs| == |q.logs|
    && forall i :: 0 <= i < |q.logs| ==> Pins(c, w, p.logs[i], q.logs[i])
  }

  /** It repeats what the proof file and the verifier result say, and omits what is to be omitted. */
  predicate RepeatsFiles(c: Codec, w: World, q: Request, p: Payload)
    requires Legible(c, w, q)
  {
    var proof, result := ProofIn(c, w, q.proof), ResultIn(c, w, q.verifierResult);
    && p.schemaVersion == 2
    && p.releaseTag == proof.tag
    && p.proofType == proof.kind
    && p.substrate == proof.substrate
    && p.command == result.command
    && p.m80Version == result.version
    && p.bundleMetadata == result.bundleMetadata
    && p.install == result.install
    && p.passed == result.passed
    && p.summary == result.summary
    && p.redaction == Redaction("omitted", "omitted", "omitted")
  }

  lemma NewPayloadRepeats(c: Codec, w: World, q: Request)
    requires Ready(c, w, q)
    ensures Legible(c, w, q)
    ensures RepeatsRequest(c, w, q, NewPayload(c, w, q)) && RepeatsFiles(c, w, q, NewPayload(c, w, q))
  {
  }

  lemma AppendedReadsBack(c: Codec, w: World, q: Request)
    requires AppendStep(c, w, q).1 == Appended
    ensures Ready(c, w, q)
    ensures ReadLedger(AppendStep(c, w, q).0) == Some(Opening(c, w).value + [NewRecord(c, w, q)])
  {
    OpeningFacts(c, w);
    ReadBack(w.file, NewRecord(c, w, q));
  }

  /** The records before an append, as the file had them. */
  function Before(file: LedgerFile): seq<Record> {
    if file.Missing? || ReadLines(file.lines).None? then [] else ReadLines(file.lines).value
  }

  /** After an append the ledger is the old records and one more. That record repeats the request
      and its files, is linked to the record before it, and carries its own digest. */
  lemma AppendedRecordSays(c: Codec, w: World, q: Request)
    requires AppendStep(c, w, q).1 == Appended
    ensures Legible(c, w, q)
    ensures var after := ReadLedger(AppendStep(c, w, q).0);
            && after.Some?
            && |after.value| == |Before(w.file)| + 1
            && after.value[..|Before(w.file)|] == Before(w.file)
            && var r := after.value[|Before(w.file)|];
            && RepeatsRequest(c, w, q, r.payload)
            && RepeatsFiles(c, w, q, r.payload)
            && r.payload.previous == (if Before(w.file) == [] then None else Some(Before(w.file)[|Before(w.file)| - 1].hash))
            && r.hash == c.recordDigest(r.payload)
  {
    AppendedReadsBack(c, w, q);
    NewPayloadRepeats(c, w, q);
    OpeningFacts(c, w);
    assert Before(w.file) == Opening(c, w).value;
  }

  // ------------------------------------------------------------ which requests are written

  /** The proof file is usable: its own fields are filled in, and it agrees with the request. */
  predicate ProofFits(proof: Proof, q: Request) {
    && NonBlank(proof.tag)
    && (q.tag.Some? ==> proof.tag == q.tag.value)
    && (proof.kind == "hostless" || proof.kind == "real-kvm")
    && proof.substrate == proof.kind
    && NonBlank(proof.command.display) && proof.command.expectedExit >= 0 && proof.command.observedExit >= 0
    && NonBlank(proof.version)
    && IsRelativeArtifactPath(proof.metadataPath)
    && NonBlank(proof.activePointer) && FileName(proof.activePointer) != "" && FileName(proof.activePointer) != ".."
    && NonBlank(proof.defaultProfile) && FileName(proof.defaultProfile) != "" && FileName(proof.defaultProfile) != ".."
  }

  /** The verifier result is a passing one about this proof file. */
  predicate ResultFits(c: Codec, w: World, v: VerifierResult, proof: Proof, q: Request) {
    && v.schemaVersion == 1
    && v.verifier == "verify-quickstart-proof.py"
    && Pins(c, w, v.proof, q.proof)
    && v.tag == proof.tag && v.proofType == proof.kind && v.substrate == proof.substrate
    && v.passed
    && NonBlank(v.summary)
    && v.command == proof.command
    && v.version == proof.version
    && IsRelativeArtifactPath(v.bundleMetadata.path) && IsSha256Ref(v.bundleMetadata.digest)
    && v.bundleMetadata.path == proof.metadataPath
    && Pins(c, w, v.bundleMetadata, proof.metadataPath)
    && v.install == Install("<redacted>/" + FileName(proof.activePointer), "<redacted>/" + FileName(proof.defaultProfile))
  }

  predicate OpensWell(c: Codec, w: World) {
    w.file.Missing? || LedgerAccepted(c, w, Demands(None, [], [], None))
  }

  /** The files a request names are there and can be read. */
  predicate FilesFit(c: Codec, w: World, q: Request) {
    && IsRelativeArtifactPath(q.proof)
    && IsRelativeArtifactPath(q.verifierResult)
    && Legible(c, w, q)
    && ProofFits(ProofIn(c, w, q.proof), q)
    && ResultFits(c, w, ResultIn(c, w, q.verifierResult), ProofIn(c, w, q.proof), q)
    && forall i :: 0 <= i < |q.logs| ==> IsRelativeArtifactPath(q.logs[i]) && Lookup(c, w, q.logs[i]).Some?
  }

  lemma ProofFitsExactly(c: Codec, w: World, q: Request)
    ensures ProofUsable(c, w, q) <==>
            && IsRelativeArtifactPath(q.proof)
            && Lookup(c, w, q.proof).Some? && c.readProof(Lookup(c, w, q.proof).value).Some?
            && ProofFits(ProofIn(c, w, q.proof), q)
  {
  }

  lemma ResultFitsExactly(c: Codec, w: World, q: Request)
    requires ProofUsable(c, w, q)
    ensures VerifierUsable(c, w, q) <==>
            && IsRelativeArtifactPath(q.verifierResult)
            && Lookup(c, w, q.verifierResult).Some? && c.readVerifier(Lookup(c, w, q.verifierResult).value).Some?
            && ResultFits(c, w, ResultIn(c, w, q.verifierResult), ProofIn(c, w, q.proof), q)
  {
  }

  lemma ReadyExactly(c: Codec, w: World, q: Request)
    ensures Ready(c, w, q) <==>
            && Opening(c, w).Some?
            && IsPositiveIntString(q.workflowRunId)
            && NonBlank(q.runner)
            && q.logs != []
            && FilesFit(c, w, q)
  {
    ProofFitsExactly(c, w, q);
    if ProofUsable(c, w, q) {
      ResultFitsExactly(c, w, q);
    }
  }

  /** A request is turned away before anything is written exactly when the ledger does not verify,
      or the run id, the runner, a log, the proof or the verifier result is not usable. */
  lemma RefusedExactly(c: Codec, w: World, q: Request)
    ensures AppendStep(c, w, q).1 != Refused <==>
            && OpensWell(c, w)
            && IsPositiveIntString(q.workflowRunId)
            && NonBlank(q.runner)
            && q.logs != []
            && FilesFit(c, w, q)
    ensures AppendStep(c, w, q).1 == Refused ==> AppendStep(c, w, q).0 == w.file
  {
    assert ANYTHING == Demands(None, [], [], None);
    assert Opening(c, w).Some? <==> OpensWell(c, w);
    ReadyExactly(c, w, q);
  }

  // ------------------------------------------------------------ what an accepted ledger says

  /** The record agrees with the proof file and with the verifier result it names. */
  predicate AgreesWithFiles(c: Codec, w: World, p: Payload)
    requires Lookup(c, w, p.proof.path).Some? && c.readProof(Lookup(c, w, p.proof.path).value).Some?
    requires Lookup(c, w, p.verifierResult.path).Some? && c.readVerifier(Lookup(c, w, p.verifierResult.path).value).Some?
  {
    var proof, result := ProofIn(c, w, p.proof.path), ResultIn(c, w, p.verifierResult.path);
    && p.releaseTag == proof.tag && p.releaseTag == result.tag
    && p.proofType == proof.kind && p.proofType == result.proofType
    && p.substrate == proof.substrate && p.substrate == result.substrate
    && p.command == proof.command && p.command == result.command
    && p.m80Version == proof.version && p.m80Version == result.version
    && p.bundleMetadata.path == proof.metadataPath && p.bundleMetadata == result.bundleMetadata
    && p.install == result.install
    && p.install == Install("<redacted>/" + FileName(proof.activePointer), "<redacted>/" + FileName(proof.defaultProfile))
    && p.passed && result.passed
    && p.summary == result.summary
    && result.proof == p.proof
  }

  /** Every record of an accepted ledger agrees with the files it names and with the demanded tag. */
  lemma AcceptedRecordsAgree(c: Codec, w: World, records: seq<Record>, d: Demands, i: nat)
    requires RecordsAccepted(c, w, records, d) && i < |records|
    ensures var p := records[i].payload;
            && Lookup(c, w, p.proof.path).Some? && c.readProof(Lookup(c, w, p.proof.path).value).Some?
            && Lookup(c, w, p.verifierResult.path).Some?
            && c.readVerifier(Lookup(c, w, p.verifierResult.path).value).Some?
            && AgreesWithFiles(c, w, p)
            && (d.tag.Some? ==> p.releaseTag == d.tag.value)
            && p.schemaVersion == 2
            && p.logs != []
            && p.redaction == Redaction("omitted", "omitted", "omitted")
  {
    assert RecordOk(c, w, records[i], d.tag);
  }

  /** What was demanded is there: the count, each required proof and each required type. */
  lemma AcceptedMeetsDemands(c: Codec, w: World, records: seq<Record>, d: Demands)
    requires RecordsAccepted(c, w, records, d)
    ensures d.count.Some? ==> |records| == d.count.value
    ensures forall path :: path in d.proofs ==> exists r :: r in records && r.payload.proof.path == path
    ensures forall t :: t in d.proofTypes ==> exists r :: r in records && r.payload.proofType == t
  {
    forall path | path in d.proofs ensures exists r :: r in records && r.payload.proof.path == path {
      assert HasProof(records, path);
      var i :| 0 <= i < |records| && records[i].payload.proof.path == path;
      assert records[i] in records;
    }
    forall t | t in d.proofTypes ensures exists r :: r in records && r.payload.proofType == t {
      assert HasProofType(records, t);
      var i :| 0 <= i < |records| && records[i].payload.proofType == t;
      assert records[i] in records;
    }
  }
}
