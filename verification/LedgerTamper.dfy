// What the chain of the proof ledger guarantees. No property is assumed of the
// digest functions: each theorem ends in the claim or in a digest collision.
module LedgerTamper {
  import opened Common
  import opened Ledger

  ghost predicate PayloadCollision(c: Codec, a: Payload, b: Payload) {
    a != b && c.recordDigest(a) == c.recordDigest(b)
  }

  /** Some record of `a` and some record of `b` have different payloads with one digest. */
  ghost predicate CollisionBetween(c: Codec, a: seq<Record>, b: seq<Record>) {
    exists i, j :: 0 <= i < |a| && 0 <= j < |b| && PayloadCollision(c, a[i].payload, b[j].payload)
  }

  lemma ChainedPrefix(c: Codec, records: seq<Record>, k: nat)
    requires Chained(c, records) && k <= |records|
    ensures Chained(c, records[..k])
  {
    forall i | 0 <= i < k ensures LinkedAt(c, records[..k], i) {
      assert LinkedAt(c, records, i);
    }
  }

  lemma CollisionInPrefix(c: Codec, a: seq<Record>, b: seq<Record>, m: nat, n: nat)
    requires m <= |a| && n <= |b| && CollisionBetween(c, a[..m], b[..n])
    ensures CollisionBetween(c, a, b)
  {
    var i, j :| 0 <= i < m && 0 <= j < n && PayloadCollision(c, a[..m][i].payload, b[..n][j].payload);
    assert PayloadCollision(c, a[i].payload, b[j].payload);
  }

  /** Two chains ending in one record hash are equal record for record, length
      included; otherwise the digest function has a collision among their payloads. */
  lemma {:induction false} SameTailSameLedger(c: Codec, a: seq<Record>, b: seq<Record>)
    requires Chained(c, a) && Chained(c, b)
    requires a != [] && b != []
    requires a[|a| - 1].hash == b[|b| - 1].hash
    ensures a == b || CollisionBetween(c, a, b)
    decreases |a|
  {
    var m, n := |a| - 1, |b| - 1;
    assert LinkedAt(c, a, m) && LinkedAt(c, b, n);
    if a[m].payload != b[n].payload {
      assert PayloadCollision(c, a[m].payload, b[n].payload);
    } else if m == 0 || n == 0 {
      assert PreviousHash(a, m) == PreviousHash(b, n);
      assert a == [a[0]] && b == [b[0]];
    } else {
      ChainedPrefix(c, a, m);
      ChainedPrefix(c, b, n);
      SameTailSameLedger(c, a[..m], b[..n]);
      if a[..m] == b[..n] {
        assert a == a[..m] + [a[m]] && b == b[..n] + [b[n]];
      } else {
        CollisionInPrefix(c, a, b, m, n);
      }
    }
  }

  /** Any edit, insertion, deletion or reordering that keeps the tail hash is
      rejected by the verifier, whatever files it is checked against. */
  lemma TamperedLedgerRejected(c: Codec, w: World, d: Demands, honest: seq<Record>,
                               w': World, d': Demands, tampered: seq<Record>)
    requires RecordsAccepted(c, w, honest, d)
    requires tampered != honest && tampered != []
    requires tampered[|tampered| - 1].hash == honest[|honest| - 1].hash
    requires !CollisionBetween(c, tampered, honest)
    ensures !RecordsAccepted(c, w', tampered, d')
  {
    if Chained(c, tampered) {
      SameTailSameLedger(c, tampered, honest);
    }
  }

  /** Equal hashes at two positions of a chain descend through the links to the
      first record, whose link is null; so they need a collision. */
  lemma {:induction false} EqualHashesCollide(c: Codec, records: seq<Record>, i: nat, j: nat)
    requires Chained(c, records) && i < j < |records|
    requires records[i].hash == records[j].hash
    ensures CollisionBetween(c, records, records)
    decreases i
  {
    assert LinkedAt(c, records, i) && LinkedAt(c, records, j);
    if records[i].payload == records[j].payload {
      assert PreviousHash(records, i) == PreviousHash(records, j);
      EqualHashesCollide(c, records, i - 1, j - 1);
    } else {
      assert PayloadCollision(c, records[i].payload, records[j].payload);
    }
  }

  /** The duplicate-hash check of the verifier never fires on a chain whose links
      and hashes check, short of a digest collision. */
  lemma HashesDistinct(c: Codec, records: seq<Record>)
    requires Chained(c, records)
    ensures Distinct(Hashes(records)) || CollisionBetween(c, records, records)
  {
    if i, j :| 0 <= i < j < |records| && Hashes(records)[i] == Hashes(records)[j] {
      EqualHashesCollide(c, records, i, j);
    }
  }

  lemma PrefixKeepsRecords(c: Codec, w: World, records: seq<Record>, tag: Option<string>, k: nat)
    requires AllRecordsOk(c, w, records, tag) && Distinct(Hashes(records)) && k <= |records|
    ensures AllRecordsOk(c, w, records[..k], tag) && Distinct(Hashes(records[..k]))
  {
    var prefix := records[..k];
    forall i | 0 <= i < k ensures RecordOk(c, w, prefix[i], tag) {
      assert RecordOk(c, w, records[i], tag);
    }
    forall i, j | 0 <= i < j < k ensures Hashes(prefix)[i] != Hashes(prefix)[j] {
      assert Hashes(records)[i] != Hashes(records)[j];
    }
  }

  /** Truncation: every nonempty prefix of an accepted ledger verifies under any demands it meets;
      only a record count, a required proof or a required type tells it apart. */
  lemma PrefixesVerify(c: Codec, w: World, records: seq<Record>, whole: Demands, k: nat, d: Demands)
    requires RecordsAccepted(c, w, records, whole) && d.tag == whole.tag
    requires 0 < k <= |records|
    ensures RecordsAccepted(c, w, records[..k], d) <==> DemandsMet(records[..k], d)
    ensures d == Demands(whole.tag, [], [], None) ==> RecordsAccepted(c, w, records[..k], d)
    ensures d == Demands(whole.tag, [], [], Some(|records|)) ==> (RecordsAccepted(c, w, records[..k], d) <==> k == |records|)
  {
    ChainedPrefix(c, records, k);
    PrefixKeepsRecords(c, w, records, whole.tag, k);
  }

  // ------------------------------------------------------------ binding to files

  /** The files a record names: its proof, bundle metadata, verifier result and logs. */
  function References(p: Payload): set<FileRef> {
    {p.proof, p.bundleMetadata, p.verifierResult} + set i | 0 <= i < |p.logs| :: p.logs[i]
  }

  ghost predicate FileCollision(c: Codec, a: Bytes, b: Bytes) {
    a != b && c.fileDigest(a) == c.fileDigest(b)
  }

  lemma EvidenceBindsReferences(c: Codec, w: World, p: Payload, tag: Option<string>, ref: FileRef)
    requires EvidenceOk(c, w, p, tag) && ref in References(p)
    ensures Bound(c, w, ref)
  {
  }

  /** One ledger that verifies against two artifact roots forces the roots to agree
      byte for byte on every file any record names. */
  lemma RootsAgreeOnNamedFiles(c: Codec, w: World, w': World, records: seq<Record>, d: Demands, d': Demands,
                               i: nat, ref: FileRef)
    requires RecordsAccepted(c, w, records, d) && RecordsAccepted(c, w', records, d')
    requires i < |records| && ref in References(records[i].payload)
    ensures Lookup(c, w, ref.path).Some? && Lookup(c, w', ref.path).Some?
    ensures Lookup(c, w, ref.path) == Lookup(c, w', ref.path)
         || FileCollision(c, Lookup(c, w, ref.path).value, Lookup(c, w', ref.path).value)
  {
    assert RecordOk(c, w, records[i], d.tag) && RecordOk(c, w', records[i], d'.tag);
    EvidenceBindsReferences(c, w, records[i].payload, d.tag, ref);
    EvidenceBindsReferences(c, w', records[i].payload, d'.tag, ref);
  }
}
