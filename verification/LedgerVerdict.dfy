// Exactly which records the verifier accepts, with the checks that imply one another said once.
module LedgerVerdict {
  import opened Common
  import opened Paths
  import opened Ledger
  import opened LedgerAppend
  import opened LedgerContent

  /** The reference is well spelled and pins the file it names. */
  predicate GoodRef(c: Codec, w: World, ref: FileRef) {
    && IsRelativeArtifactPath(ref.path)
    && IsSha256Ref(ref.digest)
    && Lookup(c, w, ref.path).Some?
    && ref.digest == c.fileDigest(Lookup(c, w, ref.path).value)
  }

  /** The fields of a record that no other file repeats. */
  predicate OwnFieldsGood(c: Codec, w: World, r: Record) {
    var p := r.payload;
    && p.schemaVersion == 2
    && IsSha256Ref(r.hash)
    && (p.previous.Some? ==> IsSha256Ref(p.previous.value))
    && IsPositiveIntString(p.workflowRunId)
    && NonBlank(p.runner)
    && p.redaction == Redaction("omitted", "omitted", "omitted")
    && GoodRef(c, w, p.proof) && GoodRef(c, w, p.bundleMetadata) && GoodRef(c, w, p.verifierResult)
    && p.logs != []
    && (forall i :: 0 <= i < |p.logs| ==> GoodRef(c, w, p.logs[i]))
    && (forall i, j :: 0 <= i < j < |p.logs| ==> p.logs[i].path != p.logs[j].path)
  }

  predicate KeepsName(path: string) {
    NonBlank(path) && FileName(path) != "" && FileName(path) != ".." && '\\' !in FileName(path)
  }

  predicate GoodProof(proof: Proof) {
    && NonBlank(proof.tag)
    && (proof.kind == "hostless" || proof.kind == "real-kvm")
    && (proof.substrate == "hostless" || proof.substrate == "real-kvm")
    && NonBlank(proof.command.display) && proof.command.expectedExit >= 0 && proof.command.observedExit >= 0
    && NonBlank(proof.version)
    && KeepsName(proof.activePointer) && KeepsName(proof.defaultProfile)
  }

  predicate GoodResult(result: VerifierResult) {
    result.schemaVersion == 1 && result.verifier == "verify-quickstart-proof.py" && NonBlank(result.summary)
  }

  /** Both files that a record repeats are there and can be read. */
  predicate FilesRead(c: Codec, w: World, p: Payload) {
    && Lookup(c, w, p.proof.path).Some? && c.readProof(Lookup(c, w, p.proof.path).value).Some?
    && Lookup(c, w, p.verifierResult.path).Some? && c.readVerifier(Lookup(c, w, p.verifierResult.path).value).Some?
  }

  /** The install summary passes the checks on redacted paths exactly by its file names. */
  lemma InstallShape(proof: Proof)
    requires Redactable(proof.activePointer) && Redactable(proof.defaultProfile)
    ensures RedactedPathOk(InstallSummary(proof).activePointer) <==> '\\' !in FileName(proof.activePointer)
    ensures RedactedPathOk(InstallSummary(proof).defaultProfile) <==> '\\' !in FileName(proof.defaultProfile)
  {
    RedactedNameOk(FileName(proof.activePointer));
    RedactedNameOk(FileName(proof.defaultProfile));
  }

  predicate RecordGood(c: Codec, w: World, r: Record, tag: Option<string>) {
    && OwnFieldsGood(c, w, r)
    && FilesRead(c, w, r.payload)
    && GoodProof(ProofIn(c, w, r.payload.proof.path))
    && GoodResult(ResultIn(c, w, r.payload.verifierResult.path))
    && AgreesWithFiles(c, w, r.payload)
    && (tag.Some? ==> r.payload.releaseTag == tag.value)
  }

  lemma AcceptedIsGood(c: Codec, w: World, r: Record, tag: Option<string>)
    requires RecordOk(c, w, r, tag)
    ensures RecordGood(c, w, r, tag)
  {
    var p := r.payload;
    InstallShape(ProofIn(c, w, p.proof.path));
    forall i, j | 0 <= i < j < |p.logs| ensures p.logs[i].path != p.logs[j].path {
      assert LogPaths(p.logs)[i] != LogPaths(p.logs)[j];
    }
  }

  lemma GoodShape(c: Codec, w: World, r: Record, tag: Option<string>)
    requires RecordGood(c, w, r, tag)
    ensures ShapeOk(r)
  {
    var p := r.payload;
    InstallShape(ProofIn(c, w, p.proof.path));
    assert Distinct(LogPaths(p.logs)) by {
      forall i, j | 0 <= i < j < |p.logs| ensures LogPaths(p.logs)[i] != LogPaths(p.logs)[j] {
      }
    }
    assert FieldsOk(r);
  }

  lemma GoodEvidence(c: Codec, w: World, r: Record, tag: Option<string>)
    requires RecordGood(c, w, r, tag)
    ensures EvidenceOk(c, w, r.payload, tag)
  {
    var p := r.payload;
    var proof, result := ProofIn(c, w, p.proof.path), ResultIn(c, w, p.verifierResult.path);
    assert ReadProofAt(c, w, p.proof.path) == Some(proof) && ReadVerifierAt(c, w, p.verifierResult.path) == Some(result);
    assert ProofReadable(proof);
    assert MatchesProof(p, proof);
    assert VerifierResultOk(c, w, result, p.proof, proof, p.releaseTag, p.proofType, p.substrate);
    assert MatchesVerifier(p, result);
  }

  /** A record is accepted exactly when its own fields are good, the files it names have the digests
      it states, its proof and its verifier result are good, and it repeats both field by field. */
  lemma RecordExactly(c: Codec, w: World, r: Record, tag: Option<string>)
    ensures RecordOk(c, w, r, tag) <==> RecordGood(c, w, r, tag)
  {
    if RecordOk(c, w, r, tag) {
      AcceptedIsGood(c, w, r, tag);
    }
    if RecordGood(c, w, r, tag) {
      GoodShape(c, w, r, tag);
      GoodEvidence(c, w, r, tag);
    }
  }
}
