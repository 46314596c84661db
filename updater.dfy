/**
 * The middle of `main`: the three marker blocks of the README are refreshed
 * in a fixed order (version token, last-updated stamp, recent commits), each
 * by `replace_block`, and the first pair of markers missing from the text
 * stops the run with its error. The two clock readings and the outcome of
 * the commit fetch are parameters; reading and writing the file are not
 * modelled.
 */
module ReadmeUpdater {
  import opened Wrappers
  import opened ReadmeBlocks
  import Timestamps
  import CommitFetcher
  import CommitSection

  type CommitRecord = CommitFetcher.CommitRecord
  type DateTime = Timestamps.DateTime

  const RECENT_COMMITS_START := "<!--RECENT_COMMITS-->"
  const RECENT_COMMITS_END := "<!--/RECENT_COMMITS-->"
  const STATS_VERSION_START := "<!--STATS_VERSION-->"
  const STATS_VERSION_END := "<!--/STATS_VERSION-->"
  const LAST_UPDATED_START := "<!--LAST_UPDATED-->"
  const LAST_UPDATED_END := "<!--/LAST_UPDATED-->"

  /** How the commit fetch ended: its list, or the HTTP or network error `main` catches. */
  datatype FetchOutcome = Fetched(commits: seq<CommitRecord>) | HttpFailure | NetworkFailure

  /** The commits `main` goes on with: none after a caught error. */
  function CommitsOf(outcome: FetchOutcome): seq<CommitRecord> {
    match outcome
    case Fetched(commits) => commits
    case _ => []
  }

  /** The first two blocks: the version token, then the last-updated stamp; the first failure is final. */
  function Stamp(readme: string, versionAt: DateTime, humanAt: DateTime): Result<string, ReplaceError>
    requires Timestamps.ValidDateTime(versionAt) && Timestamps.ValidDateTime(humanAt)
  {
    match ReplaceBlock(readme, STATS_VERSION_START, STATS_VERSION_END, Timestamps.FormatVersion(versionAt))
    case Failure(e) => Failure(e)
    case Success(stamped) => ReplaceBlock(stamped, LAST_UPDATED_START, LAST_UPDATED_END, Timestamps.FormatHuman(humanAt))
  }

  /**
   * The three blocks refreshed with the new text inserted literally, the
   * corrected `replace_block` (see `RefreshAsWritten` for the source's own).
   */
  function Refresh(readme: string, versionAt: DateTime, humanAt: DateTime, outcome: FetchOutcome): Result<string, ReplaceError>
    requires Timestamps.ValidDateTime(versionAt) && Timestamps.ValidDateTime(humanAt)
  {
    match Stamp(readme, versionAt, humanAt)
    case Failure(e) => Failure(e)
    case Success(dated) =>
      ReplaceBlock(dated, RECENT_COMMITS_START, RECENT_COMMITS_END, CommitSection.SectionText(CommitsOf(outcome)))
  }

  /** The three blocks refreshed as the source does it: each new block is read as a `re` template. */
  function RefreshAsWritten(readme: string, versionAt: DateTime, humanAt: DateTime, outcome: FetchOutcome): Result<string, ReplaceError>
    requires Timestamps.ValidDateTime(versionAt) && Timestamps.ValidDateTime(humanAt)
  {
    match ReplaceBlockAsWritten(readme, STATS_VERSION_START, STATS_VERSION_END, Timestamps.FormatVersion(versionAt))
    case Failure(e) => Failure(e)
    case Success(stamped) =>
      match ReplaceBlockAsWritten(stamped, LAST_UPDATED_START, LAST_UPDATED_END, Timestamps.FormatHuman(humanAt))
      case Failure(e) => Failure(e)
      case Success(dated) =>
        ReplaceBlockAsWritten(dated, RECENT_COMMITS_START, RECENT_COMMITS_END, CommitSection.SectionText(CommitsOf(outcome)))
  }

  /**
   * The statements of `main` between reading and writing the README: the
   * text is updated block by block, and an error ends the run before
   * anything is written.
   */
  method UpdateReadme(readme: string, versionAt: DateTime, humanAt: DateTime, outcome: FetchOutcome)
    returns (result: Result<string, ReplaceError>)
    requires Timestamps.ValidDateTime(versionAt) && Timestamps.ValidDateTime(humanAt)
    ensures result == RefreshAsWritten(readme, versionAt, humanAt, outcome)
  {
    var commits := if outcome.Fetched? then outcome.commits else [];
    var updated := readme;
    var step := ReplaceBlockAsWritten(updated, STATS_VERSION_START, STATS_VERSION_END, Timestamps.FormatVersion(versionAt));
    if step.Failure? {
      return Failure(step.error);
    }
    updated := step.value;
    step := ReplaceBlockAsWritten(updated, LAST_UPDATED_START, LAST_UPDATED_END, Timestamps.FormatHuman(humanAt));
    if step.Failure? {
      return Failure(step.error);
    }
    updated := step.value;
    var section := CommitSection.BuildCommitSection(commits);
    result := ReplaceBlockAsWritten(updated, RECENT_COMMITS_START, RECENT_COMMITS_END, section);
  }

  /**
   * The run fails exactly with the version markers' error when the README
   * has no version block; whatever fails, it is a missing pair of markers,
   * never anything else.
   */
  lemma RefreshErrors(readme: string, versionAt: DateTime, humanAt: DateTime, outcome: FetchOutcome)
    requires Timestamps.ValidDateTime(versionAt) && Timestamps.ValidDateTime(humanAt)
    ensures Refresh(readme, versionAt, humanAt, outcome) == Failure(MissingMarkers(STATS_VERSION_START, STATS_VERSION_END))
      <==> !HasSpan(readme, STATS_VERSION_START, STATS_VERSION_END)
    ensures Refresh(readme, versionAt, humanAt, outcome).Failure? ==>
      Refresh(readme, versionAt, humanAt, outcome).error in
        {MissingMarkers(STATS_VERSION_START, STATS_VERSION_END),
         MissingMarkers(LAST_UPDATED_START, LAST_UPDATED_END),
         MissingMarkers(RECENT_COMMITS_START, RECENT_COMMITS_END)}
  {
    var token := Timestamps.FormatVersion(versionAt);
    ReplaceBlockFails(readme, STATS_VERSION_START, STATS_VERSION_END, token);
    var first := ReplaceBlock(readme, STATS_VERSION_START, STATS_VERSION_END, token);
    if first.Success? {
      var stamp := Timestamps.FormatHuman(humanAt);
      ReplaceBlockFails(first.value, LAST_UPDATED_START, LAST_UPDATED_END, stamp);
      var second := ReplaceBlock(first.value, LAST_UPDATED_START, LAST_UPDATED_END, stamp);
      assert LAST_UPDATED_START != STATS_VERSION_START;
      if second.Success? {
        var section := CommitSection.SectionText(CommitsOf(outcome));
        ReplaceBlockFails(second.value, RECENT_COMMITS_START, RECENT_COMMITS_END, section);
        assert RECENT_COMMITS_START != STATS_VERSION_START;
      }
    }
  }

  /**
   * After a successful run the README holds the freshly built commit section
   * between its markers, so the next run finds them again.
   */
  lemma RefreshPlacesSection(readme: string, versionAt: DateTime, humanAt: DateTime, outcome: FetchOutcome)
    requires Timestamps.ValidDateTime(versionAt) && Timestamps.ValidDateTime(humanAt)
    requires Refresh(readme, versionAt, humanAt, outcome).Success?
    ensures Occurs(Refresh(readme, versionAt, humanAt, outcome).value,
                   Block(RECENT_COMMITS_START, RECENT_COMMITS_END, CommitSection.SectionText(CommitsOf(outcome))))
    ensures HasSpan(Refresh(readme, versionAt, humanAt, outcome).value, RECENT_COMMITS_START, RECENT_COMMITS_END)
  {
    var first := ReplaceBlock(readme, STATS_VERSION_START, STATS_VERSION_END, Timestamps.FormatVersion(versionAt));
    var second := ReplaceBlock(first.value, LAST_UPDATED_START, LAST_UPDATED_END, Timestamps.FormatHuman(humanAt));
    var section := CommitSection.SectionText(CommitsOf(outcome));
    ReplaceBlockPlacesBlock(second.value, RECENT_COMMITS_START, RECENT_COMMITS_END, section);
    ReplaceBlockKeepsMarkers(second.value, RECENT_COMMITS_START, RECENT_COMMITS_END, section);
  }

  /** The placeholder line holds no backslash, so the source's template reading leaves it as it is. */
  lemma PlaceholderPlain()
    ensures !HasBackslash(CommitSection.PLACEHOLDER)
  {
    var a, b, c, d := "- _", "Nenhum commit p\U{00FA}blico ", "recente dispon\U{00ED}vel ", "no momento._";
    assert CommitSection.PLACEHOLDER == a + b + c + d;
    assert '\\' !in a && '\\' !in b && '\\' !in c && '\\' !in d;
  }

  /**
   * A caught HTTP or network error leaves the README exactly as an empty
   * commit list would, and since the placeholder holds no backslash the
   * source's run then agrees with the literal one.
   */
  lemma FailedFetchIsEmptyFetch(readme: string, versionAt: DateTime, humanAt: DateTime, outcome: FetchOutcome)
    requires Timestamps.ValidDateTime(versionAt) && Timestamps.ValidDateTime(humanAt)
    requires !outcome.Fetched?
    ensures RefreshAsWritten(readme, versionAt, humanAt, outcome) == RefreshAsWritten(readme, versionAt, humanAt, Fetched([]))
    ensures RefreshAsWritten(readme, versionAt, humanAt, outcome) == Refresh(readme, versionAt, humanAt, outcome)
    ensures CommitSection.SectionText(CommitsOf(outcome)) == CommitSection.PLACEHOLDER
  {
    CommitSection.PlaceholderIffEmpty([]);
    PlaceholderPlain();
    RefreshAgreesWithoutBackslash(readme, versionAt, humanAt, outcome);
  }

  /** The placeholder line is what the source's run after a failed fetch puts between the commit markers. */
  lemma FailedFetchShowsPlaceholder(readme: string, versionAt: DateTime, humanAt: DateTime, outcome: FetchOutcome)
    requires Timestamps.ValidDateTime(versionAt) && Timestamps.ValidDateTime(humanAt)
    requires !outcome.Fetched?
    requires RefreshAsWritten(readme, versionAt, humanAt, outcome).Success?
    ensures Occurs(RefreshAsWritten(readme, versionAt, humanAt, outcome).value,
                   Block(RECENT_COMMITS_START, RECENT_COMMITS_END, CommitSection.PLACEHOLDER))
  {
    FailedFetchIsEmptyFetch(readme, versionAt, humanAt, outcome);
    RefreshPlacesSection(readme, versionAt, humanAt, outcome);
  }

  // ---- The run as the source writes it ----

  lemma MarkersPlain()
    ensures !HasBackslash(STATS_VERSION_START) && !HasBackslash(STATS_VERSION_END)
    ensures !HasBackslash(LAST_UPDATED_START) && !HasBackslash(LAST_UPDATED_END)
    ensures !HasBackslash(RECENT_COMMITS_START) && !HasBackslash(RECENT_COMMITS_END)
  {
    PlainMarker(STATS_VERSION_START);
    PlainMarker(STATS_VERSION_END);
    PlainMarker(LAST_UPDATED_START);
    PlainMarker(LAST_UPDATED_END);
    PlainMarker(RECENT_COMMITS_START);
    PlainMarker(RECENT_COMMITS_END);
  }

  /** Markers are made of `<`, `!`, `-`, `/`, `>`, `_` and capital letters. */
  lemma PlainMarker(m: string)
    requires forall i :: 0 <= i < |m| ==> m[i] in "<!-/>_" || 'A' <= m[i] <= 'Z'
    ensures !HasBackslash(m)
  {
    forall i | 0 <= i < |m| ensures m[i] != '\\' {
      if m[i] in "<!-/>_" {
        var k :| 0 <= k < 6 && "<!-/>_"[k] == m[i];
      }
    }
  }

  /** Neither stamp block holds a backslash, so the template reading leaves both as they are. */
  lemma StampBlocksPlain(versionAt: DateTime, humanAt: DateTime)
    requires Timestamps.ValidDateTime(versionAt) && Timestamps.ValidDateTime(humanAt)
    ensures !HasBackslash(Block(STATS_VERSION_START, STATS_VERSION_END, Timestamps.FormatVersion(versionAt)))
    ensures !HasBackslash(Block(LAST_UPDATED_START, LAST_UPDATED_END, Timestamps.FormatHuman(humanAt)))
  {
    NoDigitIs(Timestamps.FormatVersion(versionAt), '\\');
    HumanStampAvoids(humanAt, '\\');
    MarkersPlain();
  }

  /** The source's first two replacements are the literal ones. */
  lemma StampAsWritten(readme: string, versionAt: DateTime, humanAt: DateTime, outcome: FetchOutcome)
    requires Timestamps.ValidDateTime(versionAt) && Timestamps.ValidDateTime(humanAt)
    ensures Stamp(readme, versionAt, humanAt).Failure? ==>
      RefreshAsWritten(readme, versionAt, humanAt, outcome) == Stamp(readme, versionAt, humanAt)
    ensures Stamp(readme, versionAt, humanAt).Success? ==>
      RefreshAsWritten(readme, versionAt, humanAt, outcome)
        == ReplaceBlockAsWritten(Stamp(readme, versionAt, humanAt).value, RECENT_COMMITS_START, RECENT_COMMITS_END,
                                 CommitSection.SectionText(CommitsOf(outcome)))
  {
    StampBlocksPlain(versionAt, humanAt);
    var token := Timestamps.FormatVersion(versionAt);
    AsWrittenAgreesWithoutBackslash(readme, STATS_VERSION_START, STATS_VERSION_END, token);
    var first := ReplaceBlock(readme, STATS_VERSION_START, STATS_VERSION_END, token);
    if first.Success? {
      AsWrittenAgreesWithoutBackslash(first.value, LAST_UPDATED_START, LAST_UPDATED_END, Timestamps.FormatHuman(humanAt));
    }
  }

  /**
   * Without a backslash in the commit section, as when no commit message
   * holds one, the source's run and the literal one give the same README.
   */
  lemma RefreshAgreesWithoutBackslash(readme: string, versionAt: DateTime, humanAt: DateTime, outcome: FetchOutcome)
    requires Timestamps.ValidDateTime(versionAt) && Timestamps.ValidDateTime(humanAt)
    requires !HasBackslash(CommitSection.SectionText(CommitsOf(outcome)))
    ensures RefreshAsWritten(readme, versionAt, humanAt, outcome) == Refresh(readme, versionAt, humanAt, outcome)
  {
    StampAsWritten(readme, versionAt, humanAt, outcome);
    var section := CommitSection.SectionText(CommitsOf(outcome));
    MarkersPlain();
    assert !HasBackslash(Block(RECENT_COMMITS_START, RECENT_COMMITS_END, section));
    var stamped := Stamp(readme, versionAt, humanAt);
    if stamped.Success? {
      AsWrittenAgreesWithoutBackslash(stamped.value, RECENT_COMMITS_START, RECENT_COMMITS_END, section);
    }
  }

  /**
   * The source's run fails with the template error exactly when both stamps
   * were written and the commit block does not compile as a template; every
   * other failure is the corrected run's missing-markers error.
   */
  lemma RefreshAsWrittenErrors(readme: string, versionAt: DateTime, humanAt: DateTime, outcome: FetchOutcome)
    requires Timestamps.ValidDateTime(versionAt) && Timestamps.ValidDateTime(humanAt)
    ensures RefreshAsWritten(readme, versionAt, humanAt, outcome) == Failure(BadTemplate) <==>
      Stamp(readme, versionAt, humanAt).Success? &&
      ParseTemplate(Block(RECENT_COMMITS_START, RECENT_COMMITS_END, CommitSection.SectionText(CommitsOf(outcome)))).None?
    ensures (RefreshAsWritten(readme, versionAt, humanAt, outcome).Failure? &&
             RefreshAsWritten(readme, versionAt, humanAt, outcome) != Failure(BadTemplate)) ==>
      RefreshAsWritten(readme, versionAt, humanAt, outcome) == Refresh(readme, versionAt, humanAt, outcome)
  {
    StampAsWritten(readme, versionAt, humanAt, outcome);
    RefreshErrors(readme, versionAt, humanAt, outcome);
    var stamped := Stamp(readme, versionAt, humanAt);
    if stamped.Success? {
      var section := CommitSection.SectionText(CommitsOf(outcome));
      AsWrittenErrors(stamped.value, RECENT_COMMITS_START, RECENT_COMMITS_END, section);
      ReplaceBlockFails(stamped.value, RECENT_COMMITS_START, RECENT_COMMITS_END, section);
    }
  }

  /** The section of one commit whose message holds `\d`: the escape with the text around it. */
  lemma SectionOfEscape(c: CommitRecord, pre: string, post: string)
    requires c.message == pre + "\\d" + post
    ensures CommitSection.SectionText([c])
      == ("- [" + pre) + "\\d" + (post + "](" + c.url + ") (" + c.repo + CommitSection.TimestampSuffix(c.timestamp) + ")")
  {
    assert CommitSection.Lines([c]) == [CommitSection.Line(c)];
  }

  /**
   * A commit message holding `\d` makes the source's run fail with the
   * template error once both stamps are written, whether or not the README
   * has commit markers.
   */
  lemma RefreshAsWrittenRejectsEscape(readme: string, versionAt: DateTime, humanAt: DateTime,
                                      c: CommitRecord, pre: string, post: string)
    requires Timestamps.ValidDateTime(versionAt) && Timestamps.ValidDateTime(humanAt)
    requires Stamp(readme, versionAt, humanAt).Success?
    requires !HasBackslash(pre) && c.message == pre + "\\d" + post
    ensures RefreshAsWritten(readme, versionAt, humanAt, Fetched([c])) == Failure(BadTemplate)
  {
    StampAsWritten(readme, versionAt, humanAt, Fetched([c]));
    SectionOfEscape(c, pre, post);
    var before := "- [" + pre;
    var after := post + "](" + c.url + ") (" + c.repo + CommitSection.TimestampSuffix(c.timestamp) + ")";
    MarkersPlain();
    assert !HasBackslash(before);
    BadEscapeFails(Stamp(readme, versionAt, humanAt).value, RECENT_COMMITS_START, RECENT_COMMITS_END, before, after);
  }

  // ---- Re-running one stage ----

  /** A digit string holds no character other than a digit. */
  lemma NoDigitIs(s: string, c: char)
    requires Timestamps.AllDigits(s) && !Timestamps.IsDigit(c)
    ensures c !in s
  {
    forall i | 0 <= i < |s| ensures s[i] != c {
      assert Timestamps.IsDigit(s[i]);
    }
  }

  /** A text without the end marker's first character cannot contain the end marker. */
  lemma MarkerAbsent(s: string, end: string)
    requires end != [] && end[0] !in s
    ensures !Occurs(s, end)
  {
    forall j ensures !IsAt(s, end, j) {
      if 0 <= j && j + |end| <= |s| {
        assert s[j..j + |end|][0] == s[j];
        assert s[j] in s;
      }
    }
  }

  /** The human stamp is digits, `/`, `:`, spaces and `UTC`: neither `<` nor a backslash. */
  lemma HumanStampAvoids(d: DateTime, c: char)
    requires Timestamps.ValidDateTime(d)
    requires c == '<' || c == '\\'
    ensures c !in Timestamps.FormatHuman(d)
  {
    NoDigitIs(Timestamps.Digits(d.day, 2), c);
    NoDigitIs(Timestamps.Digits(d.month, 2), c);
    NoDigitIs(Timestamps.Digits(d.year, 4), c);
    NoDigitIs(Timestamps.Digits(d.hour, 2), c);
    NoDigitIs(Timestamps.Digits(d.minute, 2), c);
  }

  /**
   * Writing the same version token twice leaves the README as writing it
   * once: the token is digits only, so it never contains the end marker.
   */
  lemma VersionStageIdempotent(readme: string, d: DateTime)
    requires Timestamps.ValidDateTime(d)
    requires ReplaceBlock(readme, STATS_VERSION_START, STATS_VERSION_END, Timestamps.FormatVersion(d)).Success?
    ensures var once := ReplaceBlock(readme, STATS_VERSION_START, STATS_VERSION_END, Timestamps.FormatVersion(d));
      ReplaceBlock(once.value, STATS_VERSION_START, STATS_VERSION_END, Timestamps.FormatVersion(d)) == once
  {
    var token := Timestamps.FormatVersion(d);
    NoDigitIs(token, '<');
    assert STATS_VERSION_END[0] == '<';
    MarkerAbsent(token, STATS_VERSION_END);
    assert '\n' !in STATS_VERSION_END;
    ReplaceBlockIdempotent(readme, STATS_VERSION_START, STATS_VERSION_END, token);
  }

  /** The same for the human-readable stamp of the last update. */
  lemma LastUpdatedStageIdempotent(readme: string, d: DateTime)
    requires Timestamps.ValidDateTime(d)
    requires ReplaceBlock(readme, LAST_UPDATED_START, LAST_UPDATED_END, Timestamps.FormatHuman(d)).Success?
    ensures var once := ReplaceBlock(readme, LAST_UPDATED_START, LAST_UPDATED_END, Timestamps.FormatHuman(d));
      ReplaceBlock(once.value, LAST_UPDATED_START, LAST_UPDATED_END, Timestamps.FormatHuman(d)) == once
  {
    var stamp := Timestamps.FormatHuman(d);
    HumanStampAvoids(d, '<');
    assert LAST_UPDATED_END[0] == '<';
    MarkerAbsent(stamp, LAST_UPDATED_END);
    assert '\n' !in LAST_UPDATED_END;
    ReplaceBlockIdempotent(readme, LAST_UPDATED_START, LAST_UPDATED_END, stamp);
  }

  /**
   * Writing the same commit section twice leaves the README as writing it
   * once, as long as no commit brings the end marker into the section.
   */
  lemma CommitStageIdempotent(readme: string, commits: seq<CommitRecord>)
    requires !Occurs(CommitSection.SectionText(commits), RECENT_COMMITS_END)
    requires ReplaceBlock(readme, RECENT_COMMITS_START, RECENT_COMMITS_END, CommitSection.SectionText(commits)).Success?
    ensures var section := CommitSection.SectionText(commits);
      var once := ReplaceBlock(readme, RECENT_COMMITS_START, RECENT_COMMITS_END, section);
      ReplaceBlock(once.value, RECENT_COMMITS_START, RECENT_COMMITS_END, section) == once
  {
    assert '\n' !in RECENT_COMMITS_END;
    ReplaceBlockIdempotent(readme, RECENT_COMMITS_START, RECENT_COMMITS_END, CommitSection.SectionText(commits));
  }
}
