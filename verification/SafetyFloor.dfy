// The safety floor of a freshness status: yanked tags, a minimum safe tag and the
// pinned commands that replace them.
module SafetyFloor {
  import opened Common
  import opened Versions

  const SUFFIX := "/install.sh | sudo sh"

  /** The command that installs one tag, for a release root such as
      `curl -fsSL https://github.com/OWNER/REPO/releases/download/`. */
  function PinnedCommand(prefix: string, tag: string): string {
    prefix + tag + SUFFIX
  }

  /** `require_pinned_install_command` */
  function PinnedTag(prefix: string, command: string): Option<string> {
    var n := |command| - |SUFFIX|;
    if |prefix| <= n && command[..|prefix|] == prefix && command[n..] == SUFFIX && IsStableTag(command[|prefix|..n]) then
      Some(command[|prefix|..n])
    else None
  }

  /** Reading a pinned command gives back the tag it was written for. */
  lemma PinnedRoundTrip(prefix: string, tag: string)
    requires IsStableTag(tag)
    ensures PinnedTag(prefix, PinnedCommand(prefix, tag)) == Some(tag)
  {
    var command := PinnedCommand(prefix, tag);
    var n := |command| - |SUFFIX|;
    assert command[..|prefix|] == prefix;
    assert command[n..] == SUFFIX;
    assert command[|prefix|..n] == tag;
  }

  datatype Minimum = Minimum(
    tag: string,
    reason: string,
    advisoryUrl: Option<string>,
    issueId: Option<string>,
    replacementCommand: string)

  datatype Yanked = Yanked(
    tag: string,
    reason: string,
    advisoryUrl: Option<string>,
    issueId: Option<string>,
    publishedAt: int,
    replacementCommand: Option<string>,
    noReplacementReason: Option<string>)

  datatype Floor = Floor(schemaVersion: int, publishedAt: int, minimum: Option<Minimum>, yanked: seq<Yanked>)

  predicate OptionalText(s: Option<string>) {
    s.Some? ==> s.value != ""
  }

  predicate PolicyRefOk(advisoryUrl: Option<string>, issueId: Option<string>) {
    OptionalText(advisoryUrl) && OptionalText(issueId) && (advisoryUrl.Some? || issueId.Some?)
  }

  /** `validate_minimum_safe_tag` */
  predicate MinimumOk(prefix: string, m: Minimum) {
    && IsStableTag(m.tag)
    && m.reason != ""
    && PolicyRefOk(m.advisoryUrl, m.issueId)
    && PinnedTag(prefix, m.replacementCommand).Some?
  }

  /** `validate_yanked_release` */
  predicate YankedOk(prefix: string, y: Yanked, floorPublishedAt: int) {
    && IsStableTag(y.tag)
    && y.reason != ""
    && y.publishedAt <= floorPublishedAt
    && PolicyRefOk(y.advisoryUrl, y.issueId)
    && OptionalText(y.replacementCommand)
    && OptionalText(y.noReplacementReason)
    && (y.replacementCommand.Some? <==> y.noReplacementReason.None?)
    && (y.replacementCommand.Some? ==> PinnedTag(prefix, y.replacementCommand.value).Some?)
  }

  function Replacement(prefix: string, y: Yanked): Option<string> {
    if y.replacementCommand.Some? then PinnedTag(prefix, y.replacementCommand.value) else None
  }

  function TagsOf(rows: seq<Yanked>): (tags: seq<string>)
    ensures |tags| == |rows|
    ensures forall i :: 0 <= i < |rows| ==> tags[i] == rows[i].tag
  {
    Project(rows, (r: Yanked) => r.tag)
  }

  /** `validate_replacement_tag` */
  predicate ReplacementOk(tag: string, minimum: Option<Minimum>, yanked: seq<string>) {
    && tag !in yanked
    && (minimum.Some? ==>
          IsStableTag(minimum.value.tag) && IsStableTag(tag) &&
          VersionLe(VersionOf(minimum.value.tag), VersionOf(tag)))
  }

  predicate RuleOk(prefix: string, f: Floor, y: Yanked, resolved: string) {
    var replacement := Replacement(prefix, y);
    && (y.tag == resolved ==> replacement.Some?)
    && (replacement.Some? ==> ReplacementOk(replacement.value, f.minimum, TagsOf(f.yanked)))
  }

  predicate MinimumAccepted(prefix: string, f: Floor, resolved: string) {
    f.minimum.Some? ==>
      && MinimumOk(prefix, f.minimum.value)
      && IsStableTag(resolved)
      && VersionLe(VersionOf(f.minimum.value.tag), VersionOf(resolved))
  }

  /** Everything `validate_safety_floor` accepts, without loops. */
  predicate Accepted(prefix: string, f: Floor, resolved: string, generatedAt: int) {
    && f.schemaVersion == 1
    && f.publishedAt <= generatedAt
    && MinimumAccepted(prefix, f, resolved)
    && (forall y :: y in f.yanked ==> YankedOk(prefix, y, f.publishedAt))
    && Distinct(TagsOf(f.yanked))
    && (forall y :: y in f.yanked ==> RuleOk(prefix, f, y, resolved))
    && (f.minimum.Some? ==>
          ReplacementOk(PinnedTag(prefix, f.minimum.value.replacementCommand).value, f.minimum, TagsOf(f.yanked)))
  }

  lemma DistinctPrefix(xs: seq<string>, n: nat)
    requires n < |xs|
    ensures Distinct(xs[..n + 1]) <==> Distinct(xs[..n]) && xs[n] !in xs[..n]
    ensures Distinct(xs) ==> Distinct(xs[..n + 1])
  {
    var now, next := xs[..n], xs[..n + 1];
    assert forall i :: 0 <= i < n ==> next[i] == now[i];
    assert next[n] == xs[n];
    assert forall i :: 0 <= i < n + 1 ==> next[i] == xs[i];
  }

  /** The first loop: every row checked, every tag new. */
  method CollectYanked(prefix: string, rows: seq<Yanked>, floorPublishedAt: int) returns (ok: bool)
    ensures ok <==> (forall y :: y in rows ==> YankedOk(prefix, y, floorPublishedAt)) && Distinct(TagsOf(rows))
  {
    var tags: set<string> := {};
    for n := 0 to |rows|
      invariant forall y :: y in rows[..n] ==> YankedOk(prefix, y, floorPublishedAt)
      invariant Distinct(TagsOf(rows)[..n])
      invariant forall t :: t in tags <==> t in TagsOf(rows)[..n]
    {
      var y := rows[n];
      assert y in rows;
      assert rows[..n + 1] == rows[..n] + [y];
      assert TagsOf(rows)[..n + 1] == TagsOf(rows)[..n] + [y.tag];
      DistinctPrefix(TagsOf(rows), n);
      if !YankedOk(prefix, y, floorPublishedAt) || y.tag in tags {
        return false;
      }
      tags := tags + {y.tag};
    }
    assert rows[..|rows|] == rows && TagsOf(rows)[..|rows|] == TagsOf(rows);
    ok := true;
  }

  /** The second loop: every replacement lands on a safe tag. */
  method CheckRules(prefix: string, f: Floor, resolved: string) returns (ok: bool)
    ensures ok <==> forall y :: y in f.yanked ==> RuleOk(prefix, f, y, resolved)
  {
    for n := 0 to |f.yanked|
      invariant forall y :: y in f.yanked[..n] ==> RuleOk(prefix, f, y, resolved)
    {
      assert f.yanked[n] in f.yanked;
      if !RuleOk(prefix, f, f.yanked[n], resolved) {
        return false;
      }
      assert f.yanked[..n + 1] == f.yanked[..n] + [f.yanked[n]];
    }
    assert f.yanked[..|f.yanked|] == f.yanked;
    ok := true;
  }

  /** `validate_safety_floor` */
  method ValidateSafetyFloor(prefix: string, f: Floor, resolved: string, generatedAt: int) returns (ok: bool)
    ensures ok <==> Accepted(prefix, f, resolved, generatedAt)
  {
    if f.schemaVersion != 1 || f.publishedAt > generatedAt || !MinimumAccepted(prefix, f, resolved) {
      return false;
    }
    ok := CollectYanked(prefix, f.yanked, f.publishedAt);
    if !ok {
      return;
    }
    ok := CheckRules(prefix, f, resolved);
    if ok && f.minimum.Some? {
      ok := ReplacementOk(PinnedTag(prefix, f.minimum.value.replacementCommand).value, f.minimum, TagsOf(f.yanked));
    }
  }

  // ------------------------------------------------------------ what acceptance guarantees

  /** A tag an installer may be sent to. */
  predicate Safe(f: Floor, tag: string) {
    && IsStableTag(tag)
    && tag !in TagsOf(f.yanked)
    && (f.minimum.Some? ==>
          IsStableTag(f.minimum.value.tag) && VersionLe(VersionOf(f.minimum.value.tag), VersionOf(tag)))
  }

  /** Where an installer asking for `tag` is sent: to its replacement, if it has one. */
  function Follow(prefix: string, rows: seq<Yanked>, tag: string): string {
    if rows == [] then tag
    else if rows[0].tag == tag && Replacement(prefix, rows[0]).Some? then Replacement(prefix, rows[0]).value
    else Follow(prefix, rows[1..], tag)
  }

  function FollowTimes(prefix: string, rows: seq<Yanked>, tag: string, n: nat): string
    decreases n
  {
    if n == 0 then tag else FollowTimes(prefix, rows, Follow(prefix, rows, tag), n - 1)
  }

  lemma {:induction false} FollowCases(prefix: string, rows: seq<Yanked>, tag: string)
    ensures || (Follow(prefix, rows, tag) == tag &&
                forall y :: y in rows && y.tag == tag ==> Replacement(prefix, y).None?)
            || exists y :: y in rows && y.tag == tag && Replacement(prefix, y) == Some(Follow(prefix, rows, tag))
  {
    if rows != [] {
      FollowCases(prefix, rows[1..], tag);
      assert rows == [rows[0]] + rows[1..];
      assert forall y :: y in rows <==> y == rows[0] || y in rows[1..];
    }
  }

  /** The replacement of every yanked release is safe. */
  lemma ReplacementsAreSafe(prefix: string, f: Floor, resolved: string, generatedAt: int, y: Yanked)
    requires Accepted(prefix, f, resolved, generatedAt) && y in f.yanked && Replacement(prefix, y).Some?
    ensures Safe(f, Replacement(prefix, y).value)
  {
    assert RuleOk(prefix, f, y, resolved);
  }

  /** So is the replacement of the minimum safe tag, and following it further goes nowhere else. */
  lemma MinimumReplacementIsSafe(prefix: string, f: Floor, resolved: string, generatedAt: int)
    requires Accepted(prefix, f, resolved, generatedAt) && f.minimum.Some?
    ensures var replacement := PinnedTag(prefix, f.minimum.value.replacementCommand);
            && replacement.Some?
            && Safe(f, replacement.value)
            && Follow(prefix, f.yanked, replacement.value) == replacement.value
  {
    UnyankedStays(prefix, f.yanked, PinnedTag(prefix, f.minimum.value.replacementCommand).value);
  }

  lemma TagMembers(rows: seq<Yanked>)
    ensures forall t :: t in TagsOf(rows) <==> exists y :: y in rows && y.tag == t
  {
    forall t | t in TagsOf(rows) ensures exists y :: y in rows && y.tag == t {
      var i :| 0 <= i < |rows| && TagsOf(rows)[i] == t;
      assert rows[i] in rows;
    }
    forall y | y in rows ensures y.tag in TagsOf(rows) {
      var i :| 0 <= i < |rows| && rows[i] == y;
      assert TagsOf(rows)[i] == y.tag;
    }
  }

  /** For every accepted floor a safe install target exists: the resolved latest tag itself, or
      the replacement that the floor is then obliged to give. */
  lemma SafeTargetExists(prefix: string, f: Floor, resolved: string, generatedAt: int)
    requires Accepted(prefix, f, resolved, generatedAt) && IsStableTag(resolved)
    ensures Safe(f, Follow(prefix, f.yanked, resolved))
  {
    FollowCases(prefix, f.yanked, resolved);
    TagMembers(f.yanked);
    if Follow(prefix, f.yanked, resolved) == resolved &&
       forall y :: y in f.yanked && y.tag == resolved ==> Replacement(prefix, y).None?
    {
      assert forall y :: y in f.yanked ==> RuleOk(prefix, f, y, resolved);
      assert forall y :: y in f.yanked ==> y.tag != resolved;
    } else {
      var y :| y in f.yanked && y.tag == resolved && Replacement(prefix, y) == Some(Follow(prefix, f.yanked, resolved));
      ReplacementsAreSafe(prefix, f, resolved, generatedAt, y);
    }
  }

  lemma {:induction false} UnyankedStays(prefix: string, rows: seq<Yanked>, tag: string)
    requires tag !in TagsOf(rows)
    ensures Follow(prefix, rows, tag) == tag
  {
    if rows != [] {
      assert TagsOf(rows)[0] == rows[0].tag;
      assert TagsOf(rows[1..]) == TagsOf(rows)[1..];
      UnyankedStays(prefix, rows[1..], tag);
    }
  }

  /** Replacements settle in one hop: following any number of times equals following once, so
      no chain of replacements cycles. */
  lemma {:induction false} ReplacementsSettle(prefix: string, f: Floor, resolved: string, generatedAt: int, tag: string, n: nat)
    requires Accepted(prefix, f, resolved, generatedAt) && n > 0
    ensures FollowTimes(prefix, f.yanked, tag, n) == Follow(prefix, f.yanked, tag)
    decreases n
  {
    var next := Follow(prefix, f.yanked, tag);
    assert FollowTimes(prefix, f.yanked, tag, n) == FollowTimes(prefix, f.yanked, next, n - 1);
    if n > 1 {
      ReplacementsSettle(prefix, f, resolved, generatedAt, next, n - 1);
      FollowCases(prefix, f.yanked, tag);
      if next != tag {
        var y :| y in f.yanked && y.tag == tag && Replacement(prefix, y) == Some(next);
        ReplacementsAreSafe(prefix, f, resolved, generatedAt, y);
        UnyankedStays(prefix, f.yanked, next);
      }
    }
  }

  // ------------------------------------------------------------ versions rather than tags

  /** No yanked tag denotes the version of `tag`. */
  predicate VersionUnyanked(f: Floor, tag: string)
    requires IsStableTag(tag)
  {
    forall y :: y in f.yanked && IsStableTag(y.tag) ==> VersionOf(y.tag) != VersionOf(tag)
  }

  function SelfReplacing(prefix: string, tag: string, at: int): Floor
    requires IsStableTag(tag)
  {
    Floor(1, at, None,
          [Yanked(tag, "broken", Some("advisory"), None, at, Some(PinnedCommand(prefix, "v0" + tag[1..])), None)])
  }

  /** Yanked tags are compared as text: any tag may be replaced by itself with a leading zero,
      and the floor is accepted although the yanked version is what gets installed. */
  lemma LeadingZeroEscapesYank(prefix: string, tag: string, at: int)
    requires IsStableTag(tag)
    ensures var f := SelfReplacing(prefix, tag, at);
            && Accepted(prefix, f, tag, at)
            && IsStableTag(Follow(prefix, f.yanked, tag))
            && !VersionUnyanked(f, Follow(prefix, f.yanked, tag))
  {
    var f := SelfReplacing(prefix, tag, at);
    var alias := "v0" + tag[1..];
    LeadingZeroAliases(tag);
    PinnedRoundTrip(prefix, alias);
    var y := f.yanked[0];
    assert Replacement(prefix, y) == Some(alias);
    assert TagsOf(f.yanked) == [tag];
    assert forall x :: x in f.yanked <==> x == y;
    assert PinnedCommand(prefix, alias) != "";
    assert Follow(prefix, f.yanked, tag) == alias;
  }

  /** With tags in canonical form, text and version agree: the safe target of an accepted floor
      is then no yanked version. */
  lemma CanonicalFloorIsSafeByVersion(f: Floor, tag: string)
    requires Safe(f, tag) && IsCanonicalTag(tag)
    requires forall y :: y in f.yanked ==> IsCanonicalTag(y.tag)
    ensures VersionUnyanked(f, tag)
  {
    TagMembers(f.yanked);
    forall y | y in f.yanked && IsStableTag(y.tag) ensures VersionOf(y.tag) != VersionOf(tag) {
      if VersionOf(y.tag) == VersionOf(tag) {
        CanonicalTagInjective(y.tag, tag);
      }
    }
  }

  /** Exactly when the target of an accepted floor is no yanked version: no yanked tag is the
      target's text with other zero padding. */
  lemma TargetUnyankedExactly(prefix: string, f: Floor, resolved: string, generatedAt: int)
    requires Accepted(prefix, f, resolved, generatedAt) && IsStableTag(resolved)
    ensures var target := Follow(prefix, f.yanked, resolved);
            && IsStableTag(target)
            && (VersionUnyanked(f, target) <==>
                  forall y :: y in f.yanked && IsStableTag(y.tag) && y.tag != target ==> !SameUpToZeros(y.tag, target))
  {
    SafeTargetExists(prefix, f, resolved, generatedAt);
    TagMembers(f.yanked);
    var target := Follow(prefix, f.yanked, resolved);
    forall y | y in f.yanked && IsStableTag(y.tag)
      ensures y.tag != target && (VersionOf(y.tag) == VersionOf(target) <==> SameUpToZeros(y.tag, target))
    {
      SameVersionExactly(y.tag, target);
    }
  }
}
