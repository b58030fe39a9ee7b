// Which safety floors are accepted, spelled out entry by entry.
module FloorContent {
  import opened Common
  import opened Versions
  import opened SafetyFloor

  /** The tag read from a command is the one that the command installs, and there is one only for a
      pinned install command. */
  lemma PinnedExactly(prefix: string, command: string, tag: string)
    ensures PinnedTag(prefix, command) == Some(tag) <==>
              IsStableTag(tag) && command == prefix + tag + "/install.sh | sudo sh"
  {
    var n := |command| - |SUFFIX|;
    if PinnedTag(prefix, command) == Some(tag) {
      assert command == command[..|prefix|] + command[|prefix|..n] + command[n..];
    }
    if IsStableTag(tag) && command == prefix + tag + SUFFIX {
      PinnedRoundTrip(prefix, tag);
      assert command == PinnedCommand(prefix, tag);
    }
  }

  /** An advisory or an issue is named, and neither is empty. */
  predicate PolicyNamed(advisory: Option<string>, issue: Option<string>) {
    (advisory.Some? || issue.Some?) && advisory != Some("") && issue != Some("")
  }

  /** The tag is at or above the minimum, if there is one. */
  predicate AboveMinimum(f: Floor, tag: string)
    requires IsStableTag(tag)
  {
    f.minimum.Some? ==>
      IsStableTag(f.minimum.value.tag) && VersionLe(VersionOf(f.minimum.value.tag), VersionOf(tag))
  }

  predicate IsYanked(f: Floor, tag: string) {
    exists y :: y in f.yanked && y.tag == tag
  }

  /** The command installs one stable tag that is not yanked and not below the minimum. */
  ghost predicate LeadsSafely(prefix: string, f: Floor, command: string) {
    exists tag :: IsStableTag(tag) && command == prefix + tag + "/install.sh | sudo sh" &&
                  !IsYanked(f, tag) && AboveMinimum(f, tag)
  }

  /** A yanked release: a stable tag with a reason and a policy reference, not published after the
      floor, and either a replacement that leads somewhere safe or a reason why there is none. */
  ghost predicate YankedFits(prefix: string, f: Floor, y: Yanked) {
    && IsStableTag(y.tag)
    && y.reason != ""
    && PolicyNamed(y.advisoryUrl, y.issueId)
    && y.publishedAt <= f.publishedAt
    && ((y.replacementCommand.Some? && y.noReplacementReason.None? && LeadsSafely(prefix, f, y.replacementCommand.value)) ||
        (y.replacementCommand.None? && y.noReplacementReason.Some? && y.noReplacementReason.value != ""))
  }

  ghost predicate MinimumFits(prefix: string, f: Floor, m: Minimum, resolved: string) {
    && IsStableTag(m.tag)
    && m.reason != ""
    && PolicyNamed(m.advisoryUrl, m.issueId)
    && IsStableTag(resolved) && VersionLe(VersionOf(m.tag), VersionOf(resolved))
    && LeadsSafely(prefix, f, m.replacementCommand)
  }

  lemma LeadsExactly(prefix: string, f: Floor, command: string)
    ensures LeadsSafely(prefix, f, command) <==>
              PinnedTag(prefix, command).Some? &&
              ReplacementOk(PinnedTag(prefix, command).value, f.minimum, TagsOf(f.yanked))
  {
    TagMembers(f.yanked);
    if PinnedTag(prefix, command).Some? {
      PinnedExactly(prefix, command, PinnedTag(prefix, command).value);
    }
    if tag :| IsStableTag(tag) && command == prefix + tag + "/install.sh | sudo sh" && !IsYanked(f, tag) && AboveMinimum(f, tag) {
      PinnedExactly(prefix, command, tag);
    }
  }

  lemma EmptyIsNoCommand(prefix: string)
    ensures PinnedTag(prefix, "").None?
  {
    assert |SUFFIX| == 21;
  }

  lemma YankedExactly(prefix: string, f: Floor, y: Yanked)
    ensures YankedFits(prefix, f, y) <==>
            && YankedOk(prefix, y, f.publishedAt)
            && (Replacement(prefix, y).Some? ==> ReplacementOk(Replacement(prefix, y).value, f.minimum, TagsOf(f.yanked)))
  {
    if y.replacementCommand.Some? {
      LeadsExactly(prefix, f, y.replacementCommand.value);
      EmptyIsNoCommand(prefix);
    }
  }

  /** A floor is accepted exactly when it is of schema 1 and not from the future, no tag is yanked
      twice, every yanked release fits, the resolved latest tag has a replacement if it is yanked, and
      the minimum, if there is one, is not above the resolved tag and leads somewhere safe. */
  lemma AcceptedExactly(prefix: string, f: Floor, resolved: string, generatedAt: int)
    ensures Accepted(prefix, f, resolved, generatedAt) <==>
            && f.schemaVersion == 1
            && f.publishedAt <= generatedAt
            && (forall i, j :: 0 <= i < j < |f.yanked| ==> f.yanked[i].tag != f.yanked[j].tag)
            && (forall y :: y in f.yanked ==> YankedFits(prefix, f, y))
            && (forall y :: y in f.yanked && y.tag == resolved ==> y.replacementCommand.Some?)
            && (f.minimum.Some? ==> MinimumFits(prefix, f, f.minimum.value, resolved))
  {
    assert Distinct(TagsOf(f.yanked)) <==> forall i, j :: 0 <= i < j < |f.yanked| ==> f.yanked[i].tag != f.yanked[j].tag;
    forall y | y in f.yanked
      ensures YankedFits(prefix, f, y) && (y.tag == resolved ==> y.replacementCommand.Some?) <==>
              YankedOk(prefix, y, f.publishedAt) && RuleOk(prefix, f, y, resolved)
    {
      YankedExactly(prefix, f, y);
    }
    if f.minimum.Some? {
      LeadsExactly(prefix, f, f.minimum.value.replacementCommand);
    }
  }

  /** The latest release itself may be the minimum. */
  lemma MinimumMayBeLatest(prefix: string, tag: string, at: int)
    requires IsStableTag(tag)
    ensures Accepted(prefix, Floor(1, at, Some(Minimum(tag, "first safe release", Some("advisory"), None,
                                                       prefix + tag + "/install.sh | sudo sh")), []), tag, at)
  {
    PinnedExactly(prefix, prefix + tag + "/install.sh | sudo sh", tag);
  }

  /** An installer that asks for a tag is sent to its replacement if it is yanked and has one, and
      stays otherwise. */
  lemma FollowExactly(prefix: string, f: Floor, resolved: string, generatedAt: int, tag: string)
    requires Accepted(prefix, f, resolved, generatedAt)
    ensures forall y :: y in f.yanked && y.tag == tag && y.replacementCommand.Some? ==>
              y.replacementCommand.value == prefix + Follow(prefix, f.yanked, tag) + "/install.sh | sudo sh"
    ensures (forall y :: y in f.yanked && y.tag == tag ==> y.replacementCommand.None?) ==>
              Follow(prefix, f.yanked, tag) == tag
  {
    FollowCases(prefix, f.yanked, tag);
    forall y | y in f.yanked && y.tag == tag && y.replacementCommand.Some?
      ensures y.replacementCommand.value == prefix + Follow(prefix, f.yanked, tag) + "/install.sh | sudo sh"
    {
      assert YankedOk(prefix, y, f.publishedAt) && Replacement(prefix, y).Some?;
      var z :| z in f.yanked && z.tag == tag && Replacement(prefix, z) == Some(Follow(prefix, f.yanked, tag));
      SameYanked(f, y, z);
      PinnedExactly(prefix, y.replacementCommand.value, Follow(prefix, f.yanked, tag));
    }
  }

  lemma SameYanked(f: Floor, y: Yanked, z: Yanked)
    requires Distinct(TagsOf(f.yanked)) && y in f.yanked && z in f.yanked && y.tag == z.tag
    ensures y == z
  {
    var i :| 0 <= i < |f.yanked| && f.yanked[i] == y;
    var j :| 0 <= j < |f.yanked| && f.yanked[j] == z;
    assert TagsOf(f.yanked)[i] == TagsOf(f.yanked)[j];
  }
}
