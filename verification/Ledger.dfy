// The release proof ledger: an append-only chain of records, each bound by
// digest to files below an artifact root.
module Ledger {
  import opened Common
  import opened Paths

  const LEDGER_SCHEMA_VERSION := 2
  const VERIFIER_RESULT_SCHEMA_VERSION := 1
  const VERIFIER_NAME := "verify-quickstart-proof.py"
  const REDACTED := "<redacted>/"

  predicate IsProofType(s: string) {
    s == "hostless" || s == "real-kvm"
  }

  datatype FileRef = FileRef(path: string, digest: string)
  datatype Command = Command(display: string, expectedExit: int, observedExit: int)
  datatype Install = Install(activePointer: string, defaultProfile: string)
  datatype Redaction = Redaction(hostPaths: string, secrets: string, environment: string)

  /** A ledger record without its own hash: exactly what `record_hash` encodes. */
  datatype Payload = Payload(
    schemaVersion: int,
    previous: Option<string>,
    proof: FileRef,
    releaseTag: string,
    workflowRunId: string,
    proofType: string,
    substrate: string,
    command: Command,
    m80Version: string,
    bundleMetadata: FileRef,
    install: Install,
    verifierResult: FileRef,
    logs: seq<FileRef>,
    runner: string,
    passed: bool,
    summary: string,
    redaction: Redaction)

  datatype Record = Record(payload: Payload, hash: string)

  /** The fields the ledger reads from a quickstart proof file. */
  datatype Proof = Proof(
    tag: string,
    kind: string,
    substrate: string,
    command: Command,
    version: string,
    metadataPath: string,
    activePointer: string,
    defaultProfile: string)

  datatype VerifierResult = VerifierResult(
    schemaVersion: int,
    verifier: string,
    proof: FileRef,
    tag: string,
    proofType: string,
    substrate: string,
    passed: bool,
    summary: string,
    command: Command,
    version: string,
    bundleMetadata: FileRef,
    install: Install)

  /** One line of the ledger file. `Bad` is a line that is not JSON, or whose
      value is not an object with exactly the record fields of the right types. */
  datatype Line = Blank | Bad | Entry(record: Record)

  datatype LedgerFile = Missing | Present(lines: seq<Line>, terminated: bool)

  /** What lies outside the ledger's own logic: SHA-256 over the canonical JSON of
      a payload, SHA-256 over a file, and the JSON readers. Nothing is assumed of
      them here; the theorems say where a digest collision would matter. */
  datatype Codec = Codec(
    recordDigest: Payload -> string,
    fileDigest: Bytes -> string,
    render: LedgerFile -> Bytes,
    readProof: Bytes -> Option<Proof>,
    readVerifier: Bytes -> Option<VerifierResult>)

  /** The artifact root, with the ledger file living at `ledgerPath` below it. */
  datatype World = World(files: map<string, Bytes>, ledgerPath: string, file: LedgerFile)

  function Lookup(c: Codec, w: World, path: string): Option<Bytes> {
    if path == w.ledgerPath then
      if w.file.Missing? then None else Some(c.render(w.file))
    else if path in w.files then Some(w.files[path])
    else None
  }

  /** The file named by `ref` exists and has the digest that `ref` states. */
  predicate Bound(c: Codec, w: World, ref: FileRef) {
    var found := Lookup(c, w, ref.path);
    found.Some? && ref.digest == c.fileDigest(found.value)
  }

  // ------------------------------------------------------------ one record

  predicate CommandOk(command: Command) {
    NonBlank(command.display) && command.expectedExit >= 0 && command.observedExit >= 0
  }

  predicate OccursAt(needle: string, text: string, i: int) {
    0 <= i <= |text| - |needle| && text[i..i + |needle|] == needle
  }

  predicate Occurs(needle: string, text: string) {
    exists i :: 0 <= i <= |text| && OccursAt(needle, text, i)
  }

  predicate RedactedPathOk(s: string) {
    && |s| > |REDACTED|
    && s[..|REDACTED|] == REDACTED
    && !Occurs("/tmp/", s)
    && !Occurs("/home/", s)
    && '\\' !in s
  }

  predicate FileRefOk(ref: FileRef) {
    IsRelativeArtifactPath(ref.path) && IsSha256Ref(ref.digest)
  }

  function LogPaths(logs: seq<FileRef>): (paths: seq<string>)
    ensures |paths| == |logs|
    ensures forall i :: 0 <= i < |logs| ==> paths[i] == logs[i].path
  {
    Project(logs, (log: FileRef) => log.path)
  }

  predicate RedactionOk(r: Redaction) {
    r.hostPaths == "omitted" && r.secrets == "omitted" && r.environment == "omitted"
  }

  /** The checks of `verify_record_shape` on single fields, other than the redacted paths. */
  predicate FieldsOk(r: Record) {
    var p := r.payload;
    && p.schemaVersion == LEDGER_SCHEMA_VERSION
    && IsSha256Ref(r.hash)
    && (p.previous.Some? ==> IsSha256Ref(p.previous.value))
    && FileRefOk(p.proof)
    && NonBlank(p.releaseTag)
    && IsPositiveIntString(p.workflowRunId)
    && IsProofType(p.proofType)
    && IsProofType(p.substrate)
    && CommandOk(p.command)
    && NonBlank(p.m80Version)
    && FileRefOk(p.bundleMetadata)
    && FileRefOk(p.verifierResult)
    && p.logs != []
    && (forall i :: 0 <= i < |p.logs| ==> FileRefOk(p.logs[i]))
    && NonBlank(p.runner)
    && p.passed
    && NonBlank(p.summary)
    && RedactionOk(p.redaction)
  }

  /** `verify_record_shape` */
  predicate ShapeOk(r: Record) {
    && FieldsOk(r)
    && RedactedPathOk(r.payload.install.activePointer)
    && RedactedPathOk(r.payload.install.defaultProfile)
    && Distinct(LogPaths(r.payload.logs))
  }

  /** `redact_path` finds a file name to keep */
  predicate Redactable(path: string) {
    NonBlank(path) && FileName(path) != "" && FileName(path) != ".."
  }

  function InstallSummary(p: Proof): Install {
    Install(REDACTED + FileName(p.activePointer), REDACTED + FileName(p.defaultProfile))
  }

  /** Every `proof_*` accessor succeeds on the proof. */
  predicate ProofReadable(p: Proof) {
    && NonBlank(p.tag)
    && IsProofType(p.kind)
    && IsProofType(p.substrate)
    && CommandOk(p.command)
    && NonBlank(p.version)
    && IsRelativeArtifactPath(p.metadataPath)
    && Redactable(p.activePointer)
    && Redactable(p.defaultProfile)
  }

  /** `verify_verifier_result` */
  predicate VerifierResultOk(c: Codec, w: World, v: VerifierResult, proofRef: FileRef, proof: Proof,
                             tag: string, proofType: string, substrate: string)
  {
    && v.schemaVersion == VERIFIER_RESULT_SCHEMA_VERSION
    && v.verifier == VERIFIER_NAME
    && v.proof == proofRef
    && v.tag == tag
    && v.proofType == proofType
    && v.substrate == substrate
    && v.passed
    && NonBlank(v.summary)
    && v.command == proof.command
    && v.version == proof.version
    && FileRefOk(v.bundleMetadata)
    && v.bundleMetadata.path == proof.metadataPath
    && Bound(c, w, v.bundleMetadata)
    && v.install == InstallSummary(proof)
  }

  function ReadProofAt(c: Codec, w: World, path: string): Option<Proof> {
    var found := Lookup(c, w, path);
    if found.None? then None else c.readProof(found.value)
  }

  function ReadVerifierAt(c: Codec, w: World, path: string): Option<VerifierResult> {
    var found := Lookup(c, w, path);
    if found.None? then None else c.readVerifier(found.value)
  }

  /** The record's fields repeat what its proof says. */
  predicate MatchesProof(p: Payload, proof: Proof) {
    && p.releaseTag == proof.tag
    && p.proofType == proof.kind
    && p.substrate == proof.substrate
    && p.command == proof.command
    && p.m80Version == proof.version
    && p.bundleMetadata.path == proof.metadataPath
    && p.install == InstallSummary(proof)
  }

  /** The record's fields repeat what its verifier result says. */
  predicate MatchesVerifier(p: Payload, v: VerifierResult) {
    && p.command == v.command
    && p.m80Version == v.version
    && p.bundleMetadata == v.bundleMetadata
    && p.install == v.install
    && p.passed == v.passed
    && p.summary == v.summary
  }

  predicate TagMatches(p: Payload, tag: Option<string>) {
    tag.Some? ==> p.releaseTag == tag.value
  }

  /** `verify_record_proof` */
  predicate EvidenceOk(c: Codec, w: World, p: Payload, tag: Option<string>) {
    && Bound(c, w, p.proof)
    && var proof := ReadProofAt(c, w, p.proof.path);
    && proof.Some?
    && ProofReadable(proof.value)
    && MatchesProof(p, proof.value)
    && TagMatches(p, tag)
    && Bound(c, w, p.bundleMetadata)
    && Bound(c, w, p.verifierResult)
    && var verifier := ReadVerifierAt(c, w, p.verifierResult.path);
    && verifier.Some?
    && VerifierResultOk(c, w, verifier.value, p.proof, proof.value, p.releaseTag, p.proofType, p.substrate)
    && MatchesVerifier(p, verifier.value)
    && forall i :: 0 <= i < |p.logs| ==> Bound(c, w, p.logs[i])
  }

  // ------------------------------------------------------------ the chain

  function PreviousHash(records: seq<Record>, i: nat): Option<string>
    requires i <= |records|
  {
    if i == 0 then None else Some(records[i - 1].hash)
  }

  predicate LinkedAt(c: Codec, records: seq<Record>, i: nat)
    requires i < |records|
  {
    && records[i].payload.previous == PreviousHash(records, i)
    && records[i].hash == c.recordDigest(records[i].payload)
  }

  /** Every link and every record hash checks. */
  predicate Chained(c: Codec, records: seq<Record>) {
    forall i :: 0 <= i < |records| ==> LinkedAt(c, records, i)
  }

  function Hashes(records: seq<Record>): (hashes: seq<string>)
    ensures |hashes| == |records|
    ensures forall i :: 0 <= i < |records| ==> hashes[i] == records[i].hash
  {
    Project(records, (r: Record) => r.hash)
  }

  predicate RecordOk(c: Codec, w: World, r: Record, tag: Option<string>) {
    ShapeOk(r) && EvidenceOk(c, w, r.payload, tag)
  }

  /** Every record has the required shape and evidence. */
  predicate AllRecordsOk(c: Codec, w: World, records: seq<Record>, tag: Option<string>) {
    forall i :: 0 <= i < |records| ==> RecordOk(c, w, records[i], tag)
  }

  datatype Demands = Demands(
    tag: Option<string>,
    proofs: seq<string>,
    proofTypes: seq<string>,
    count: Option<int>)

  const ANYTHING := Demands(None, [], [], None)

  predicate HasProof(records: seq<Record>, path: string) {
    exists i :: 0 <= i < |records| && records[i].payload.proof.path == path
  }

  predicate HasProofType(records: seq<Record>, proofType: string) {
    exists i :: 0 <= i < |records| && records[i].payload.proofType == proofType
  }

  predicate DemandsMet(records: seq<Record>, d: Demands) {
    && (d.count.Some? ==> d.count.value >= 0 && |records| == d.count.value)
    && (forall k :: 0 <= k < |d.proofs| ==> IsRelativeArtifactPath(d.proofs[k]) && HasProof(records, d.proofs[k]))
    && (forall k :: 0 <= k < |d.proofTypes| ==> HasProofType(records, d.proofTypes[k]))
  }

  /** The whole of `verify_ledger` on the records of a ledger, without loops. */
  predicate RecordsAccepted(c: Codec, w: World, records: seq<Record>, d: Demands) {
    && records != []
    && AllRecordsOk(c, w, records, d.tag)
    && Chained(c, records)
    && Distinct(Hashes(records))
    && DemandsMet(records, d)
  }

  /** `read_ledger`: blank lines are skipped, any other unreadable line fails. */
  function ReadLines(lines: seq<Line>): Option<seq<Record>> {
    if lines == [] then Some([])
    else
      var front := ReadLines(lines[..|lines| - 1]);
      var last := lines[|lines| - 1];
      if front.None? || last.Bad? then None
      else if last.Blank? then front
      else Some(front.value + [last.record])
  }

  function ReadLedger(file: LedgerFile): Option<seq<Record>> {
    if file.Missing? then None else ReadLines(file.lines)
  }

  predicate LedgerAccepted(c: Codec, w: World, d: Demands) {
    var records := ReadLedger(w.file);
    records.Some? && RecordsAccepted(c, w, records.value, d)
  }

  // ------------------------------------------------------------ the verifier loop

  /** `read_ledger` as the loop it is */
  method ReadLedgerLines(lines: seq<Line>) returns (records: Option<seq<Record>>)
    ensures records == ReadLines(lines)
  {
    var found: seq<Record> := [];
    for n := 0 to |lines|
      invariant ReadLines(lines[..n]) == Some(found)
    {
      assert lines[..n + 1][..n] == lines[..n];
      match lines[n]
      case Blank =>
      case Bad =>
        BadLineSpoils(lines, n);
        return None;
      case Entry(r) => found := found + [r];
    }
    assert lines[..|lines|] == lines;
    return Some(found);
  }

  lemma {:induction false} BadLineSpoils(lines: seq<Line>, n: nat)
    requires n < |lines| && lines[n].Bad?
    ensures ReadLines(lines).None?
  {
    if n < |lines| - 1 {
      BadLineSpoils(lines[..|lines| - 1], n);
    }
  }

  function ProofPaths(records: seq<Record>): set<string> {
    set i | 0 <= i < |records| :: records[i].payload.proof.path
  }

  function ProofTypes(records: seq<Record>): set<string> {
    set i | 0 <= i < |records| :: records[i].payload.proofType
  }

  /** The loop of `verify_ledger`: one pass over the records carrying the previous
      hash and the sets of hashes, proofs and proof types seen so far. The checks
      made of one record on its own come in as `recordOk`. */
  method WalkChain(c: Codec, records: seq<Record>, recordOk: Record -> bool)
    returns (ok: bool, seenProofs: set<string>, seenTypes: set<string>)
    ensures ok <==>
            && (forall i :: 0 <= i < |records| ==> recordOk(records[i]))
            && Chained(c, records)
            && Distinct(Hashes(records))
    ensures ok ==> seenProofs == ProofPaths(records) && seenTypes == ProofTypes(records)
  {
    var previous: Option<string> := None;
    var seenHashes: set<string> := {};
    seenProofs, seenTypes := {}, {};
    for n := 0 to |records|
      invariant previous == PreviousHash(records, n)
      invariant forall i :: 0 <= i < n ==> recordOk(records[i])
      invariant forall i :: 0 <= i < n ==> LinkedAt(c, records, i)
      invariant forall i, j :: 0 <= i < j < n ==> records[i].hash != records[j].hash
      invariant seenHashes == set i | 0 <= i < n :: records[i].hash
      invariant seenProofs == set i | 0 <= i < n :: records[i].payload.proof.path
      invariant seenTypes == set i | 0 <= i < n :: records[i].payload.proofType
    {
      var r := records[n];
      if !recordOk(r) {
        return false, {}, {};
      }
      if r.payload.previous != previous || r.hash != c.recordDigest(r.payload) {
        assert !LinkedAt(c, records, n);
        return false, {}, {};
      }
      if r.hash in seenHashes {
        var i :| 0 <= i < n && records[i].hash == r.hash;
        assert Hashes(records)[i] == Hashes(records)[n];
        return false, {}, {};
      }
      seenHashes := seenHashes + {r.hash};
      seenProofs := seenProofs + {r.payload.proof.path};
      seenTypes := seenTypes + {r.payload.proofType};
      previous := Some(r.hash);
    }
    ok := true;
  }

  lemma PathsAndTypesSeen(records: seq<Record>, x: string)
    ensures x in ProofPaths(records) <==> HasProof(records, x)
    ensures x in ProofTypes(records) <==> HasProofType(records, x)
  {
  }

  /** The required proofs and proof types are looked up in the sets of the walk. */
  method CheckRequired(records: seq<Record>, d: Demands, seenProofs: set<string>, seenTypes: set<string>)
    returns (ok: bool)
    requires seenProofs == ProofPaths(records) && seenTypes == ProofTypes(records)
    requires d.count.Some? ==> d.count.value >= 0 && |records| == d.count.value
    ensures ok <==> DemandsMet(records, d)
  {
    for k := 0 to |d.proofs|
      invariant forall m :: 0 <= m < k ==> IsRelativeArtifactPath(d.proofs[m]) && HasProof(records, d.proofs[m])
    {
      PathsAndTypesSeen(records, d.proofs[k]);
      if !IsRelativeArtifactPath(d.proofs[k]) || d.proofs[k] !in seenProofs {
        return false;
      }
    }
    for k := 0 to |d.proofTypes|
      invariant forall m :: 0 <= m < k ==> HasProofType(records, d.proofTypes[m])
    {
      PathsAndTypesSeen(records, d.proofTypes[k]);
      if d.proofTypes[k] !in seenTypes {
        return false;
      }
    }
    ok := true;
  }

  /** `verify_ledger`, against the loop-free `LedgerAccepted` */
  method VerifyLedger(c: Codec, w: World, d: Demands, allowMissing: bool)
    returns (result: Option<seq<Record>>)
    ensures allowMissing && w.file.Missing? ==> result == Some([])
    ensures !(allowMissing && w.file.Missing?) ==>
              result == if LedgerAccepted(c, w, d) then ReadLedger(w.file) else None
  {
    if w.file.Missing? {
      return if allowMissing then Some([]) else None;
    }
    var read := ReadLedgerLines(w.file.lines);
    if read.None? || read.value == [] {
      return None;
    }
    var records := read.value;
    if d.count.Some? && (d.count.value < 0 || |records| != d.count.value) {
      return None;
    }
    var ok, seenProofs, seenTypes := WalkChain(c, records, r => RecordOk(c, w, r, d.tag));
    assert ok ==> AllRecordsOk(c, w, records, d.tag);
    if !ok {
      return None;
    }
    ok := CheckRequired(records, d, seenProofs, seenTypes);
    return if ok then Some(records) else None;
  }
}
