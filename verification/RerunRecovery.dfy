// How a failed rerun preflight is classed: a draft that is merely incomplete may be
// deleted and rerun, everything else needs an operator.
module RerunRecovery {
  import opened Common
  import opened ReleaseAssets

  /** A row of GitHub's asset list, taken as it comes: any field may be unusable. */
  datatype RawRow = NotAnObject | Raw(name: Option<string>, id: Option<int>, size: Option<int>)

  datatype Problem = NotObject(index: nat) | NoName(index: nat) | DuplicateName(name: string) | DuplicateId(id: int)

  /** What GitHub says of the release: whether it is a draft, and its asset rows. */
  datatype ReleaseView = ReleaseView(draft: bool, rows: seq<RawRow>)

  datatype RecoveryClass = IncompleteDraftDeleteAndRerun | UnsafeManualInterventionRequired

  datatype RecoveryCommand = DeleteReleaseAndRerun(tag: string) | InspectOutsideTheJob(tag: string)

  datatype Recovery = Recovery(verdict: RecoveryClass, command: RecoveryCommand)

  predicate Named(r: RawRow) {
    r.Raw? && r.name.Some? && r.name.value != ""
  }

  function RawByName(rows: seq<RawRow>): map<string, RawRow> {
    if rows == [] then map[]
    else
      var front, last := RawByName(rows[..|rows| - 1]), rows[|rows| - 1];
      if Named(last) then front[last.name.value := last] else front
  }

  function SeenIds(rows: seq<RawRow>): set<int> {
    if rows == [] then {}
    else
      var front, last := SeenIds(rows[..|rows| - 1]), rows[|rows| - 1];
      if Named(last) && last.id.Some? then front + {last.id.value} else front
  }

  /** What one more row adds to the list of problems. */
  function RowProblems(r: RawRow, index: nat, names: set<string>, ids: set<int>): seq<Problem> {
    if r.NotAnObject? then [NotObject(index)]
    else if !Named(r) then [NoName(index)]
    else
      (if r.name.value in names then [DuplicateName(r.name.value)] else []) +
      (if r.id.Some? && r.id.value in ids then [DuplicateId(r.id.value)] else [])
  }

  function Problems(rows: seq<RawRow>): seq<Problem> {
    if rows == [] then []
    else
      var front, last := rows[..|rows| - 1], rows[|rows| - 1];
      Problems(front) + RowProblems(last, |front|, RawByName(front).Keys, SeenIds(front))
  }

  lemma {:induction false} ReadOneMore(front: seq<RawRow>, row: RawRow)
    ensures RawByName(front + [row]) == if Named(row) then RawByName(front)[row.name.value := row] else RawByName(front)
    ensures SeenIds(front + [row]) ==
            if Named(row) && row.id.Some? then SeenIds(front) + {row.id.value} else SeenIds(front)
    ensures Problems(front + [row]) ==
            Problems(front) + RowProblems(row, |front|, RawByName(front).Keys, SeenIds(front))
  {
    assert (front + [row])[..|front|] == front;
  }

  /** `recovery_remote_assets` */
  method RecoveryRemoteAssets(rows: seq<RawRow>) returns (byName: map<string, RawRow>, problems: seq<Problem>)
    ensures byName == RawByName(rows) && problems == Problems(rows)
  {
    byName, problems := map[], [];
    var seenIds: set<int> := {};
    for n := 0 to |rows|
      invariant byName == RawByName(rows[..n]) && problems == Problems(rows[..n]) && seenIds == SeenIds(rows[..n])
    {
      var row := rows[n];
      assert rows[..n + 1] == rows[..n] + [row];
      ReadOneMore(rows[..n], row);
      if row.NotAnObject? {
        problems := problems + [NotObject(n)];
      } else if !Named(row) {
        problems := problems + [NoName(n)];
      } else {
        var added: seq<Problem> := [];
        if row.name.value in byName {
          added := added + [DuplicateName(row.name.value)];
        }
        if row.id.Some? {
          if row.id.value in seenIds {
            added := added + [DuplicateId(row.id.value)];
          }
          seenIds := seenIds + {row.id.value};
        }
        assert added == RowProblems(row, n, RawByName(rows[..n]).Keys, SeenIds(rows[..n]));
        problems := problems + added;
        byName := byName[row.name.value := row];
      }
    }
    assert rows[..|rows|] == rows;
  }

  predicate Twins(a: RawRow, b: RawRow)
    requires Named(a) && Named(b)
  {
    a.name == b.name || (a.id.Some? && a.id == b.id)
  }

  /** Every row has a name; no name and no id occurs twice. */
  predicate Clean(rows: seq<RawRow>) {
    && (forall r :: r in rows ==> r.Raw? && r.name.Some? && r.name.value != "")
    && (forall i, j :: 0 <= i < j < |rows| ==> Apart(rows[i], rows[j]))
  }

  predicate Apart(a: RawRow, b: RawRow) {
    a.Raw? && b.Raw? && a.name != b.name && (a.id.None? || a.id != b.id)
  }

  lemma {:induction false} IndexMembers(rows: seq<RawRow>)
    ensures forall n :: n in RawByName(rows) <==> exists r :: r in rows && Named(r) && r.name.value == n
    ensures forall x :: x in SeenIds(rows) <==> exists r :: r in rows && Named(r) && r.id.Some? && r.id.value == x
    ensures forall n :: n in RawByName(rows) ==> RawByName(rows)[n] in rows && Named(RawByName(rows)[n]) && RawByName(rows)[n].name.value == n
  {
    if rows != [] {
      var front, last := rows[..|rows| - 1], rows[|rows| - 1];
      IndexMembers(front);
      assert rows == front + [last];
      assert forall r :: r in rows <==> r in front || r == last;
    }
  }

  lemma CleanSnoc(front: seq<RawRow>, last: RawRow)
    ensures Clean(front + [last]) <==>
              Clean(front) && Named(last) && forall r :: r in front ==> Named(r) && !Twins(r, last)
  {
    var rows, n := front + [last], |front|;
    assert forall r :: r in rows <==> r in front || r == last;
    assert rows[n] == last;
    assert forall i :: 0 <= i < n ==> rows[i] == front[i];
    if Clean(rows) {
      forall r | r in front ensures Named(r) && !Twins(r, last) {
        var i :| 0 <= i < n && front[i] == r;
        assert Apart(rows[i], rows[n]);
      }
      assert forall i, j :: 0 <= i < j < n ==> Apart(rows[i], rows[j]);
    }
    if Clean(front) && Named(last) && forall r :: r in front ==> Named(r) && !Twins(r, last) {
      forall i, j | 0 <= i < j < |rows| ensures Apart(rows[i], rows[j]) {
        assert rows[i] in front;
        if j < n {
          assert Apart(front[i], front[j]);
        }
      }
    }
  }

  lemma NoTwinExactly(front: seq<RawRow>, last: RawRow)
    requires Named(last) && forall r :: r in front ==> Named(r)
    ensures (forall r :: r in front ==> !Twins(r, last)) <==>
              last.name.value !in RawByName(front) && !(last.id.Some? && last.id.value in SeenIds(front))
  {
    IndexMembers(front);
    if last.name.value in RawByName(front) {
      var r :| r in front && Named(r) && r.name.value == last.name.value;
      assert Twins(r, last);
    } else if last.id.Some? && last.id.value in SeenIds(front) {
      var r :| r in front && Named(r) && r.id.Some? && r.id.value == last.id.value;
      assert Twins(r, last);
    }
  }

  /** The problem list is empty exactly when every row is named and neither a name nor an
      id repeats. */
  lemma {:induction false} NoProblemsExactly(rows: seq<RawRow>)
    ensures Problems(rows) == [] <==> Clean(rows)
  {
    if rows != [] {
      var front, last := rows[..|rows| - 1], rows[|rows| - 1];
      assert rows == front + [last];
      NoProblemsExactly(front);
      CleanSnoc(front, last);
      if Clean(front) && Named(last) {
        NoTwinExactly(front, last);
      }
    }
  }

  /** The downloaded bytes of `a` and GitHub's size both agree with the manifest. */
  predicate RowMatches(sha: Digest, files: map<string, Bytes>, a: Asset, r: RawRow)
    requires r.Raw?
  {
    && a.name in files
    && sha(files[a.name]) == a.sha256
    && |files[a.name]| == a.size
    && r.size == Some(a.size)
  }

  /** `recovery_mismatches` finds nothing. */
  predicate NoMismatches(sha: Digest, files: map<string, Bytes>, assets: seq<Asset>, byName: map<string, RawRow>) {
    forall a :: a in assets && a.name in byName ==> byName[a.name].Raw? && RowMatches(sha, files, a, byName[a.name])
  }

  /** `rerun_preflight_recovery` */
  function Classify(sha: Digest, files: map<string, Bytes>, m: Manifest, tag: string, view: ReleaseView,
                    receiptPresent: bool): Recovery
  {
    var unsafe := Recovery(UnsafeManualInterventionRequired, InspectOutsideTheJob(tag));
    if !ManifestOk(m, tag) then unsafe
    else
      var byName := RawByName(view.rows);
      var missing := NameSet(m.assets) - byName.Keys;
      var extra := byName.Keys - NameSet(m.assets);
      if && missing != {} && extra == {} && Problems(view.rows) == []
         && NoMismatches(sha, files, m.assets, byName) && receiptPresent
      then Recovery(IncompleteDraftDeleteAndRerun, DeleteReleaseAndRerun(tag))
      else unsafe
  }

  function RawNames(rows: seq<RawRow>): set<string> {
    set r | r in rows && r.Raw? && r.name.Some? && r.name.value != "" :: r.name.value
  }

  /** A listed row stands for a manifest asset and matches it. */
  predicate Genuine(sha: Digest, files: map<string, Bytes>, assets: seq<Asset>, r: RawRow) {
    r.Raw? && exists a :: a in assets && r.name == Some(a.name) && a.name in files &&
                          sha(files[a.name]) == a.sha256 && |files[a.name]| == a.size && r.size == Some(a.size)
  }

  lemma CleanLookup(rows: seq<RawRow>, r: RawRow)
    requires Clean(rows) && r in rows
    ensures r.name.value in RawByName(rows) && RawByName(rows)[r.name.value] == r
  {
    IndexMembers(rows);
    var other := RawByName(rows)[r.name.value];
    var i :| 0 <= i < |rows| && rows[i] == r;
    var j :| 0 <= j < |rows| && rows[j] == other;
  }

  /** A rerun is classed incomplete, and its operator told to delete the release, exactly when the
      receipt is there and the remote rows are a clean, strict part of the manifest, each matching
      it in digest and both sizes. */
  lemma IncompleteExactly(sha: Digest, files: map<string, Bytes>, m: Manifest, tag: string, view: ReleaseView,
                          receiptPresent: bool)
    ensures var recovery, rows := Classify(sha, files, m, tag, view, receiptPresent), view.rows;
            && (recovery.verdict == IncompleteDraftDeleteAndRerun <==>
                  && ManifestOk(m, tag)
                  && receiptPresent
                  && Clean(rows)
                  && RawNames(rows) < NameSet(m.assets)
                  && (forall r :: r in rows ==> Genuine(sha, files, m.assets, r)))
            && (recovery.verdict == IncompleteDraftDeleteAndRerun <==> recovery.command == DeleteReleaseAndRerun(tag))
  {
    var rows := view.rows;
    NoProblemsExactly(rows);
    IndexMembers(rows);
    var byName := RawByName(rows);
    assert byName.Keys == RawNames(rows);
    StrictSubset(byName.Keys, NameSet(m.assets));
    if ManifestOk(m, tag) && Clean(rows) && RawNames(rows) <= NameSet(m.assets) {
      MatchesAreGenuine(sha, files, m.assets, rows);
    }
  }

  lemma StrictSubset<T>(a: set<T>, b: set<T>)
    ensures a < b <==> b - a != {} && a - b == {}
  {
    if b - a != {} && a - b == {} {
      assert forall x :: x in a ==> x !in a - b;
    }
    if a < b {
      var x :| x in b && x !in a;
      assert x in b - a;
    }
  }

  lemma MatchesAreGenuine(sha: Digest, files: map<string, Bytes>, assets: seq<Asset>, rows: seq<RawRow>)
    requires Distinct(AssetNames(assets)) && Clean(rows) && RawNames(rows) <= NameSet(assets)
    ensures NoMismatches(sha, files, assets, RawByName(rows)) <==>
              forall r :: r in rows ==> Genuine(sha, files, assets, r)
  {
    var byName := RawByName(rows);
    IndexMembers(rows);
    if NoMismatches(sha, files, assets, byName) {
      forall r | r in rows ensures Genuine(sha, files, assets, r) {
        CleanLookup(rows, r);
        assert r.name.value in RawNames(rows);
        var i := NameIndex(assets, r.name.value);
        assert assets[i] in assets && assets[i].name in byName;
      }
    }
    if forall r :: r in rows ==> Genuine(sha, files, assets, r) {
      forall a | a in assets && a.name in byName
        ensures byName[a.name].Raw? && RowMatches(sha, files, a, byName[a.name])
      {
        var r := byName[a.name];
        assert Genuine(sha, files, assets, r);
        var b :| b in assets && r.name == Some(b.name) && b.name in files && sha(files[b.name]) == b.sha256 &&
                 |files[b.name]| == b.size && r.size == Some(b.size);
        SameNameSameAsset(assets, a, b);
      }
    }
  }

  lemma SameNameSameAsset(assets: seq<Asset>, a: Asset, b: Asset)
    requires Distinct(AssetNames(assets)) && a in assets && b in assets && a.name == b.name
    ensures a == b
  {
    var i :| 0 <= i < |assets| && assets[i] == a;
    var j :| 0 <= j < |assets| && assets[j] == b;
    assert AssetNames(assets)[i] == AssetNames(assets)[j];
  }

  /** The class names a draft but is given to public releases as well: whenever the rows of a draft
      are classed incomplete, so are those of a public release, with the same delete command. A
      public release from which every asset is missing is one such. */
  lemma PublicReleaseToldToDelete(sha: Digest, files: map<string, Bytes>, m: Manifest, tag: string)
    requires ManifestOk(m, tag) && m.assets != []
    ensures forall rows, receiptPresent ::
              Classify(sha, files, m, tag, ReleaseView(false, rows), receiptPresent) ==
              Classify(sha, files, m, tag, ReleaseView(true, rows), receiptPresent)
    ensures Classify(sha, files, m, tag, ReleaseView(false, []), true) ==
            Recovery(IncompleteDraftDeleteAndRerun, DeleteReleaseAndRerun(tag))
  {
    var none: seq<RawRow> := [];
    assert AssetNames(m.assets)[0] in NameSet(m.assets);
    assert RawNames(none) == {};
    IncompleteExactly(sha, files, m, tag, ReleaseView(false, none), true);
  }

  // ------------------------------------------------------------ the problems, one by one

  predicate HasName(r: RawRow, n: string) {
    r.Raw? && r.name == Some(n) && n != ""
  }

  predicate HasId(r: RawRow, x: int) {
    r.Raw? && r.name.Some? && r.name.value != "" && r.id == Some(x)
  }

  /** Two rows satisfy `p`. */
  predicate Twice(rows: seq<RawRow>, p: RawRow -> bool) {
    exists i, j :: 0 <= i < j < |rows| && p(rows[i]) && p(rows[j])
  }

  lemma TwiceSnoc(front: seq<RawRow>, last: RawRow, p: RawRow -> bool)
    ensures Twice(front + [last], p) <==> Twice(front, p) || (p(last) && exists r :: r in front && p(r))
  {
    var rows := front + [last];
    assert forall k :: 0 <= k < |front| ==> rows[k] == front[k];
    assert rows[|front|] == last;
    if p(last) && exists r :: r in front && p(r) {
      var r :| r in front && p(r);
      var i :| 0 <= i < |front| && front[i] == r;
      assert p(rows[i]) && p(rows[|front|]);
    }
    if Twice(front, p) {
      var i, j :| 0 <= i < j < |front| && p(front[i]) && p(front[j]);
      assert p(rows[i]) && p(rows[j]);
    }
    if Twice(rows, p) {
      var i, j :| 0 <= i < j < |rows| && p(rows[i]) && p(rows[j]);
      assert front[i] in front;
      if j < |front| {
        assert p(front[i]) && p(front[j]);
      }
    }
  }

  lemma NameAdded(front: seq<RawRow>, last: RawRow, n: string)
    ensures DuplicateName(n) in RowProblems(last, |front|, RawByName(front).Keys, SeenIds(front)) <==>
            HasName(last, n) && exists r :: r in front && HasName(r, n)
  {
    IndexMembers(front);
  }

  lemma IdAdded(front: seq<RawRow>, last: RawRow, x: int)
    ensures DuplicateId(x) in RowProblems(last, |front|, RawByName(front).Keys, SeenIds(front)) <==>
            HasId(last, x) && exists r :: r in front && HasId(r, x)
  {
    IndexMembers(front);
  }

  lemma ProblemsSnoc(front: seq<RawRow>, last: RawRow)
    ensures forall p :: p in Problems(front + [last]) <==>
              p in Problems(front) || p in RowProblems(last, |front|, RawByName(front).Keys, SeenIds(front))
  {
    ReadOneMore(front, last);
  }

  lemma {:induction false} PlacesExactly(rows: seq<RawRow>)
    ensures forall k: nat :: NotObject(k) in Problems(rows) <==> k < |rows| && rows[k].NotAnObject?
    ensures forall k: nat :: NoName(k) in Problems(rows) <==> k < |rows| && rows[k].Raw? && (rows[k].name.None? || rows[k].name.value == "")
  {
    if rows != [] {
      var front, last := rows[..|rows| - 1], rows[|rows| - 1];
      assert rows == front + [last];
      PlacesExactly(front);
      ProblemsSnoc(front, last);
    }
  }

  lemma {:induction false} SharedNamesExactly(rows: seq<RawRow>, n: string)
    ensures DuplicateName(n) in Problems(rows) <==> Twice(rows, r => HasName(r, n))
  {
    if rows != [] {
      var front, last := rows[..|rows| - 1], rows[|rows| - 1];
      assert rows == front + [last];
      SharedNamesExactly(front, n);
      ProblemsSnoc(front, last);
      TwiceSnoc(front, last, r => HasName(r, n));
      NameAdded(front, last, n);
    }
  }

  lemma {:induction false} SharedIdsExactly(rows: seq<RawRow>, x: int)
    ensures DuplicateId(x) in Problems(rows) <==> Twice(rows, r => HasId(r, x))
  {
    if rows != [] {
      var front, last := rows[..|rows| - 1], rows[|rows| - 1];
      assert rows == front + [last];
      SharedIdsExactly(front, x);
      ProblemsSnoc(front, last);
      TwiceSnoc(front, last, r => HasId(r, x));
      IdAdded(front, last, x);
    }
  }

  /** Each problem is reported exactly for its reason: a row that is no object, a row without a
      name, a name or an id that two rows share. */
  lemma ProblemsExactly(rows: seq<RawRow>)
    ensures forall k: nat :: NotObject(k) in Problems(rows) <==> k < |rows| && rows[k].NotAnObject?
    ensures forall k: nat :: NoName(k) in Problems(rows) <==> k < |rows| && rows[k].Raw? && (rows[k].name.None? || rows[k].name.value == "")
    ensures forall n :: DuplicateName(n) in Problems(rows) <==> Twice(rows, r => HasName(r, n))
    ensures forall x :: DuplicateId(x) in Problems(rows) <==> Twice(rows, r => HasId(r, x))
  {
    PlacesExactly(rows);
    forall n ensures DuplicateName(n) in Problems(rows) <==> Twice(rows, r => HasName(r, n)) {
      SharedNamesExactly(rows, n);
    }
    forall x ensures DuplicateId(x) in Problems(rows) <==> Twice(rows, r => HasId(r, x)) {
      SharedIdsExactly(rows, x);
    }
  }
}
