// Appending to the proof ledger: verify what is there, write one line, verify
// again. The closing verification is characterised exactly, and then over runs.
module LedgerAppend {
  import opened Common
  import opened Paths
  import opened Ledger
  import opened LedgerTamper

  datatype Request = Request(
    proof: string,
    verifierResult: string,
    logs: seq<string>,
    workflowRunId: string,
    runner: string,
    tag: Option<string>)

  /** The opening verification, which lets a missing ledger through. */
  function Opening(c: Codec, w: World): Option<seq<Record>> {
    if w.file.Missing? then Some([])
    else if LedgerAccepted(c, w, ANYTHING) then ReadLedger(w.file)
    else None
  }

  predicate NamesFile(c: Codec, w: World, path: string) {
    IsRelativeArtifactPath(path) && Lookup(c, w, path).Some?
  }

  function RefTo(c: Codec, w: World, path: string): FileRef
    requires Lookup(c, w, path).Some?
  {
    FileRef(path, c.fileDigest(Lookup(c, w, path).value))
  }

  predicate ProofUsable(c: Codec, w: World, q: Request) {
    && NamesFile(c, w, q.proof)
    && var proof := ReadProofAt(c, w, q.proof);
    && proof.Some?
    && ProofReadable(proof.value)
    && (q.tag.Some? ==> proof.value.tag == q.tag.value)
    && proof.value.substrate == proof.value.kind
  }

  predicate VerifierUsable(c: Codec, w: World, q: Request)
    requires ProofUsable(c, w, q)
  {
    && NamesFile(c, w, q.verifierResult)
    && var verifier := ReadVerifierAt(c, w, q.verifierResult);
    && verifier.Some?
    && var proof := ReadProofAt(c, w, q.proof).value;
    && VerifierResultOk(c, w, verifier.value, RefTo(c, w, q.proof), proof, proof.tag, proof.kind, proof.substrate)
  }

  /** Every check `append_record` makes before it writes. */
  predicate Ready(c: Codec, w: World, q: Request) {
    && IsPositiveIntString(q.workflowRunId)
    && NonBlank(q.runner)
    && q.logs != []
    && Opening(c, w).Some?
    && ProofUsable(c, w, q)
    && VerifierUsable(c, w, q)
    && forall i :: 0 <= i < |q.logs| ==> NamesFile(c, w, q.logs[i])
  }

  function LogRefs(c: Codec, w: World, logs: seq<string>): (refs: seq<FileRef>)
    requires forall i :: 0 <= i < |logs| ==> Lookup(c, w, logs[i]).Some?
    ensures |refs| == |logs|
    ensures forall i :: 0 <= i < |logs| ==> refs[i] == RefTo(c, w, logs[i])
  {
    seq(|logs|, i requires 0 <= i < |logs| => RefTo(c, w, logs[i]))
  }

  function NewPayload(c: Codec, w: World, q: Request): Payload
    requires Ready(c, w, q)
  {
    var existing := Opening(c, w).value;
    var proof := ReadProofAt(c, w, q.proof).value;
    var verifier := ReadVerifierAt(c, w, q.verifierResult).value;
    Payload(
      LEDGER_SCHEMA_VERSION,
      PreviousHash(existing, |existing|),
      RefTo(c, w, q.proof),
      proof.tag,
      q.workflowRunId,
      proof.kind,
      proof.substrate,
      verifier.command,
      verifier.version,
      verifier.bundleMetadata,
      verifier.install,
      RefTo(c, w, q.verifierResult),
      LogRefs(c, w, q.logs),
      q.runner,
      verifier.passed,
      verifier.summary,
      Redaction("omitted", "omitted", "omitted"))
  }

  function NewRecord(c: Codec, w: World, q: Request): Record
    requires Ready(c, w, q)
  {
    var payload := NewPayload(c, w, q);
    Record(payload, c.recordDigest(payload))
  }

  /** Opening the file in append mode and writing one line: without a final newline
      the text runs into the last line, which survives only if that line was blank. */
  function WriteLine(file: LedgerFile, r: Record): LedgerFile {
    if file.Missing? then Present([Entry(r)], true)
    else if file.terminated || file.lines == [] then Present(file.lines + [Entry(r)], true)
    else
      var front := file.lines[..|file.lines| - 1];
      var last := file.lines[|file.lines| - 1];
      Present(front + [if last.Blank? then Entry(r) else Bad], true)
  }

  function Written(c: Codec, w: World, q: Request): World
    requires Ready(c, w, q)
  {
    w.(file := WriteLine(w.file, NewRecord(c, w, q)))
  }

  function ClosingDemands(c: Codec, w: World, q: Request): Demands
    requires Ready(c, w, q)
  {
    Demands(q.tag, [q.proof], [NewPayload(c, w, q).proofType], None)
  }

  datatype Outcome = Refused | Appended | AppendedThenRefused

  /** `append_record`: the ledger file afterwards, and how the call ended. */
  function AppendStep(c: Codec, w: World, q: Request): (LedgerFile, Outcome) {
    if !Ready(c, w, q) then (w.file, Refused)
    else
      var after := Written(c, w, q);
      (after.file, if LedgerAccepted(c, after, ClosingDemands(c, w, q)) then Appended else AppendedThenRefused)
  }

  /** The ledger file as `append_record` updates it. */
  class LedgerStore {
    var file: LedgerFile

    constructor (initial: LedgerFile)
      ensures file == initial
    {
      file := initial;
    }

    method Append(c: Codec, files: map<string, Bytes>, ledgerPath: string, q: Request) returns (outcome: Outcome)
      modifies this
      ensures (file, outcome) == AppendStep(c, World(files, ledgerPath, old(file)), q)
    {
      var before := World(files, ledgerPath, file);
      var opening := VerifyLedger(c, before, ANYTHING, true);
      if opening.None? || !Ready(c, before, q) {
        return Refused;
      }
      file := WriteLine(file, NewRecord(c, before, q));
      var closing := VerifyLedger(c, World(files, ledgerPath, file), ClosingDemands(c, before, q), false);
      outcome := if closing.Some? then Appended else AppendedThenRefused;
    }
  }

  // ------------------------------------------------------------ when the closing check passes

  predicate EndsOnFreshLine(file: LedgerFile) {
    file.Missing? || file.terminated || file.lines == [] || file.lines[|file.lines| - 1].Blank?
  }

  function ReferencedPaths(p: Payload): set<string> {
    set ref | ref in References(p) :: ref.path
  }

  predicate EarlierTagsMatch(records: seq<Record>, tag: Option<string>) {
    forall i :: 0 <= i < |records| ==> TagMatches(records[i].payload, tag)
  }

  predicate LedgerUnreferenced(records: seq<Record>, ledgerPath: string) {
    forall i :: 0 <= i < |records| ==> ledgerPath !in ReferencedPaths(records[i].payload)
  }

  /** No log is named twice, no install name holds a backslash, no record names the
      ledger file itself, and the file ends on a fresh line. */
  predicate WellFormedRequest(c: Codec, w: World, q: Request)
    requires Ready(c, w, q)
  {
    var proof := ReadProofAt(c, w, q.proof).value;
    && Distinct(q.logs)
    && '\\' !in FileName(proof.activePointer)
    && '\\' !in FileName(proof.defaultProfile)
    && LedgerUnreferenced(Opening(c, w).value, w.ledgerPath)
    && w.ledgerPath !in ReferencedPaths(NewPayload(c, w, q))
    && EndsOnFreshLine(w.file)
  }

  /** Digests have the `sha256:` form, which every record checks. */
  ghost predicate DigestsWellFormed(c: Codec) {
    && (forall p :: IsSha256Ref(c.recordDigest(p)))
    && (forall b :: IsSha256Ref(c.fileDigest(b)))
  }

  /** No collision among the payloads of the extended ledger, and none between the
      ledger file before and after the write. */
  ghost predicate CollisionFree(c: Codec, w: World, q: Request)
    requires Ready(c, w, q)
  {
    var extended := Opening(c, w).value + [NewRecord(c, w, q)];
    && !CollisionBetween(c, extended, extended)
    && (w.file.Present? ==> c.fileDigest(c.render(w.file)) != c.fileDigest(c.render(Written(c, w, q).file)))
  }

  lemma OccurrenceEnds(needle: string, s: string)
    requires needle != ""
    ensures forall i :: OccursAt(needle, s, i) ==> s[i] == needle[0] && s[i + |needle| - 1] == needle[|needle| - 1]
  {
    forall i | OccursAt(needle, s, i)
      ensures s[i] == needle[0] && s[i + |needle| - 1] == needle[|needle| - 1]
    {
      assert s[i] == s[i..i + |needle|][0];
      assert s[i + |needle| - 1] == s[i..i + |needle|][|needle| - 1];
    }
  }

  lemma RedactedNameOk(name: string)
    requires name != "" && '/' !in name
    ensures RedactedPathOk(REDACTED + name) <==> '\\' !in name
  {
    var s := REDACTED + name;
    assert s[..|REDACTED|] == REDACTED;
    assert forall i :: 0 <= i < |s| && s[i] == '/' ==> i == 10 by {
      assert forall i :: 11 <= i < |s| ==> s[i] == name[i - 11] && s[i] in name;
    }
    OccurrenceEnds("/tmp/", s);
    OccurrenceEnds("/home/", s);
    assert !Occurs("/tmp/", s) by { assert "/tmp/"[0] == '/' && "/tmp/"[4] == '/'; }
    assert !Occurs("/home/", s) by { assert "/home/"[0] == '/' && "/home/"[5] == '/'; }
    if '\\' in name {
      var k :| 0 <= k < |name| && name[k] == '\\';
      assert s[k + 11] == '\\';
    } else {
      assert forall i :: 0 <= i < |s| ==> s[i] != '\\' by {
        assert forall i :: 11 <= i < |s| ==> s[i] == name[i - 11] && s[i] in name;
      }
    }
  }

  lemma RefToOk(c: Codec, w: World, path: string)
    requires NamesFile(c, w, path) && DigestsWellFormed(c)
    ensures FileRefOk(RefTo(c, w, path))
  {
  }

  lemma NewReferencesOk(c: Codec, w: World, q: Request)
    requires Ready(c, w, q) && DigestsWellFormed(c)
    ensures var p := NewPayload(c, w, q);
            && FileRefOk(p.proof)
            && FileRefOk(p.verifierResult)
            && |p.logs| == |q.logs|
            && forall i :: 0 <= i < |p.logs| ==> FileRefOk(p.logs[i])
  {
    RefToOk(c, w, q.proof);
    RefToOk(c, w, q.verifierResult);
    forall i | 0 <= i < |q.logs| ensures FileRefOk(RefTo(c, w, q.logs[i])) {
      assert NamesFile(c, w, q.logs[i]);
      RefToOk(c, w, q.logs[i]);
    }
  }

  lemma NewLinkOk(c: Codec, w: World, q: Request)
    requires Ready(c, w, q) && DigestsWellFormed(c)
    ensures var r := NewRecord(c, w, q);
            IsSha256Ref(r.hash) && (r.payload.previous.Some? ==> IsSha256Ref(r.payload.previous.value))
  {
    var existing := Opening(c, w).value;
    if existing != [] {
      assert RecordOk(c, w, existing[|existing| - 1], None);
    }
  }

  lemma NewRecordFields(c: Codec, w: World, q: Request)
    requires Ready(c, w, q) && DigestsWellFormed(c)
    ensures FieldsOk(NewRecord(c, w, q))
  {
    NewReferencesOk(c, w, q);
    NewLinkOk(c, w, q);
  }

  /** The new record passes the shape check exactly when no log is named twice and no
      install name holds a backslash. */
  lemma NewRecordShape(c: Codec, w: World, q: Request)
    requires Ready(c, w, q) && DigestsWellFormed(c)
    ensures var proof := ReadProofAt(c, w, q.proof).value;
            ShapeOk(NewRecord(c, w, q)) <==>
              Distinct(q.logs) && '\\' !in FileName(proof.activePointer) && '\\' !in FileName(proof.defaultProfile)
  {
    var proof := ReadProofAt(c, w, q.proof).value;
    NewRecordFields(c, w, q);
    RedactedNameOk(FileName(proof.activePointer));
    RedactedNameOk(FileName(proof.defaultProfile));
    assert LogPaths(NewPayload(c, w, q).logs) == q.logs;
  }

  lemma NewRecordEvidence(c: Codec, w: World, q: Request)
    requires Ready(c, w, q)
    ensures EvidenceOk(c, w, NewPayload(c, w, q), None)
  {
  }

  /** Rewriting the ledger file keeps the evidence of a record exactly when the record
      carries the requested tag and does not name the ledger file. */
  lemma EvidenceAfterWrite(c: Codec, w: World, w': World, p: Payload, tag: Option<string>)
    requires EvidenceOk(c, w, p, None)
    requires w'.files == w.files && w'.ledgerPath == w.ledgerPath
    requires w.file.Present? ==>
               w'.file.Present? && c.fileDigest(c.render(w.file)) != c.fileDigest(c.render(w'.file))
    ensures EvidenceOk(c, w', p, tag) <==> TagMatches(p, tag) && w.ledgerPath !in ReferencedPaths(p)
  {
    if w.ledgerPath in ReferencedPaths(p) {
      var ref :| ref in References(p) && ref.path == w.ledgerPath;
      EvidenceBindsReferences(c, w, p, None, ref);
      if EvidenceOk(c, w', p, tag) {
        EvidenceBindsReferences(c, w', p, tag, ref);
      }
    } else {
      forall ref | ref in References(p) ensures Lookup(c, w', ref.path) == Lookup(c, w, ref.path) {
        assert ref.path in ReferencedPaths(p);
      }
      assert forall i :: 0 <= i < |p.logs| ==> p.logs[i] in References(p);
    }
  }

  /** What is read back after the write. */
  lemma ReadBack(file: LedgerFile, r: Record)
    requires file.Present? ==> ReadLines(file.lines).Some?
    ensures var before := if file.Missing? then [] else ReadLines(file.lines).value;
            ReadLedger(WriteLine(file, r)) == if EndsOnFreshLine(file) then Some(before + [r]) else None
  {
    var after := WriteLine(file, r).lines;
    if file.Missing? {
      assert after[..|after| - 1] == [] && ReadLines([]) == Some([]);
      assert [] + [r] == [r];
    } else if file.terminated || file.lines == [] {
      assert after[..|after| - 1] == file.lines;
    } else {
      assert after[..|after| - 1] == file.lines[..|file.lines| - 1];
    }
  }

  lemma ChainedSnoc(c: Codec, records: seq<Record>, r: Record)
    requires Chained(c, records)
    requires r.payload.previous == PreviousHash(records, |records|) && r.hash == c.recordDigest(r.payload)
    ensures Chained(c, records + [r])
  {
    var extended := records + [r];
    forall i | 0 <= i < |extended| ensures LinkedAt(c, extended, i) {
      if i < |records| {
        assert LinkedAt(c, records, i);
      }
    }
  }

  predicate AllShapes(records: seq<Record>) {
    forall i :: 0 <= i < |records| ==> ShapeOk(records[i])
  }

  predicate AllEvidence(c: Codec, w: World, records: seq<Record>, tag: Option<string>) {
    forall i :: 0 <= i < |records| ==> EvidenceOk(c, w, records[i].payload, tag)
  }

  lemma ShapeAndEvidence(c: Codec, w: World, records: seq<Record>, tag: Option<string>)
    ensures AllRecordsOk(c, w, records, tag) <==> AllShapes(records) && AllEvidence(c, w, records, tag)
  {
    forall i | 0 <= i < |records|
      ensures RecordOk(c, w, records[i], tag) <==> ShapeOk(records[i]) && EvidenceOk(c, w, records[i].payload, tag)
    {
    }
  }

  lemma OpeningFacts(c: Codec, w: World)
    requires Opening(c, w).Some?
    ensures Chained(c, Opening(c, w).value)
    ensures AllShapes(Opening(c, w).value) && AllEvidence(c, w, Opening(c, w).value, None)
    ensures w.file.Present? ==> ReadLines(w.file.lines) == Opening(c, w)
  {
    ShapeAndEvidence(c, w, Opening(c, w).value, None);
  }

  /** The evidence of an extended ledger after the write. */
  lemma ExtendedEvidence(c: Codec, w: World, w': World, existing: seq<Record>, r: Record, tag: Option<string>)
    requires AllEvidence(c, w, existing, None) && EvidenceOk(c, w, r.payload, None)
    requires TagMatches(r.payload, tag)
    requires w'.files == w.files && w'.ledgerPath == w.ledgerPath
    requires w.file.Present? ==>
               w'.file.Present? && c.fileDigest(c.render(w.file)) != c.fileDigest(c.render(w'.file))
    ensures AllEvidence(c, w', existing + [r], tag) <==>
            && EarlierTagsMatch(existing, tag)
            && LedgerUnreferenced(existing, w.ledgerPath)
            && w.ledgerPath !in ReferencedPaths(r.payload)
  {
    forall i | 0 <= i < |existing|
      ensures EvidenceOk(c, w', existing[i].payload, tag) <==>
                TagMatches(existing[i].payload, tag) && w.ledgerPath !in ReferencedPaths(existing[i].payload)
    {
      EvidenceAfterWrite(c, w, w', existing[i].payload, tag);
    }
    EvidenceAfterWrite(c, w, w', r.payload, tag);
    AllEvidenceSnoc(c, w', existing, r, tag);
  }

  lemma AllEvidenceSnoc(c: Codec, w: World, records: seq<Record>, r: Record, tag: Option<string>)
    ensures AllEvidence(c, w, records + [r], tag) <==> AllEvidence(c, w, records, tag) && EvidenceOk(c, w, r.payload, tag)
  {
    var extended := records + [r];
    assert extended[|records|] == r;
    assert forall i :: 0 <= i < |records| ==> extended[i] == records[i];
  }

  lemma ExtendedShapes(existing: seq<Record>, r: Record)
    requires AllShapes(existing)
    ensures AllShapes(existing + [r]) <==> ShapeOk(r)
  {
    assert (existing + [r])[|existing|] == r;
  }

  /** The extended records meet the closing demands. */
  lemma ExtendedDemands(existing: seq<Record>, r: Record, tag: Option<string>)
    requires IsRelativeArtifactPath(r.payload.proof.path)
    ensures DemandsMet(existing + [r], Demands(tag, [r.payload.proof.path], [r.payload.proofType], None))
  {
    assert (existing + [r])[|existing|] == r;
  }

  /** Acceptance of the extended records, reduced to the parts that can fail. */
  lemma ExtendedAccepted(c: Codec, w': World, existing: seq<Record>, r: Record, d: Demands)
    requires Chained(c, existing) && AllShapes(existing)
    requires r.payload.previous == PreviousHash(existing, |existing|) && r.hash == c.recordDigest(r.payload)
    requires !CollisionBetween(c, existing + [r], existing + [r])
    requires DemandsMet(existing + [r], d)
    ensures RecordsAccepted(c, w', existing + [r], d) <==>
              ShapeOk(r) && AllEvidence(c, w', existing + [r], d.tag)
  {
    ChainedSnoc(c, existing, r);
    HashesDistinct(c, existing + [r]);
    ExtendedShapes(existing, r);
    ShapeAndEvidence(c, w', existing + [r], d.tag);
  }

  /** What a request that is ready to be written guarantees about its record. */
  lemma NewRecordFacts(c: Codec, w: World, q: Request)
    requires Ready(c, w, q)
    ensures var existing, r := Opening(c, w).value, NewRecord(c, w, q);
            && r.payload.previous == PreviousHash(existing, |existing|)
            && r.hash == c.recordDigest(r.payload)
            && r.payload.proof.path == q.proof
            && IsRelativeArtifactPath(q.proof)
            && TagMatches(r.payload, q.tag)
  {
  }

  /** Acceptance of the extended ledger, for the requested tag or for none. */
  lemma ClosingAccepts(c: Codec, w: World, q: Request, d: Demands)
    requires Ready(c, w, q) && DigestsWellFormed(c) && CollisionFree(c, w, q)
    requires d == ClosingDemands(c, w, q) || d == ANYTHING
    ensures LedgerAccepted(c, Written(c, w, q), d) <==>
              WellFormedRequest(c, w, q) && EarlierTagsMatch(Opening(c, w).value, d.tag)
  {
    var existing, r, after := Opening(c, w).value, NewRecord(c, w, q), Written(c, w, q);
    OpeningFacts(c, w);
    NewRecordFacts(c, w, q);
    NewRecordEvidence(c, w, q);
    NewRecordShape(c, w, q);
    ReadBack(w.file, r);
    ExtendedEvidence(c, w, after, existing, r, d.tag);
    ExtendedDemands(existing, r, q.tag);
    ExtendedAccepted(c, after, existing, r, d);
  }

  /** The closing verification of an append that got as far as writing passes exactly
      when the request is well formed and every earlier record carries the requested tag. */
  lemma ClosingVerifyExactly(c: Codec, w: World, q: Request)
    requires Ready(c, w, q) && DigestsWellFormed(c) && CollisionFree(c, w, q)
    ensures AppendStep(c, w, q).1 == Appended <==>
              WellFormedRequest(c, w, q) && EarlierTagsMatch(Opening(c, w).value, q.tag)
    ensures AppendStep(c, w, q).1 == Appended ==>
              ReadLedger(AppendStep(c, w, q).0) == Some(Opening(c, w).value + [NewRecord(c, w, q)])
  {
    ClosingAccepts(c, w, q, ClosingDemands(c, w, q));
    OpeningFacts(c, w);
    ReadBack(w.file, NewRecord(c, w, q));
  }
}
