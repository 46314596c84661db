/**
 * `build_commit_section`: the Markdown list the README shows between the
 * recent-commits markers. Each commit becomes one bullet
 * `- [message](url) (repo • timestamp)`, the ` • timestamp` part only when
 * the timestamp is non-empty, and the bullets are joined by line feeds; with
 * no commits the section is a fixed placeholder line.
 */
module CommitSection {
  import Text
  import CommitFetcher

  type CommitRecord = CommitFetcher.CommitRecord

  /** The line shown when there is nothing to list. */
  const PLACEHOLDER := "- _" + "Nenhum commit p\U{00FA}blico " + "recente dispon\U{00ED}vel " + "no momento._"

  /** What goes before the timestamp inside the parentheses: a space, a bullet and a space. */
  const TIMESTAMP_SEPARATOR := " \U{2022} "

  function TimestampSuffix(timestamp: string): string {
    if timestamp != "" then TIMESTAMP_SEPARATOR + timestamp else ""
  }

  /** The bullet of one commit. */
  function Line(c: CommitRecord): string {
    "- [" + c.message + "](" + c.url + ") (" + c.repo + TimestampSuffix(c.timestamp) + ")"
  }

  /** The bullets of a commit list, in order. */
  function Lines(commits: seq<CommitRecord>): seq<string> {
    seq(|commits|, k requires 0 <= k < |commits| => Line(commits[k]))
  }

  /** The value `build_commit_section` returns. */
  function SectionText(commits: seq<CommitRecord>): string {
    if commits == [] then PLACEHOLDER else Text.JoinLines(Lines(commits))
  }

  /** The loop of the source: one bullet per commit, then the join. */
  method BuildCommitSection(commits: seq<CommitRecord>) returns (section: string)
    ensures section == SectionText(commits)
  {
    if |commits| == 0 {
      return PLACEHOLDER;
    }
    var lines: seq<string> := [];
    for i := 0 to |commits|
      invariant |lines| == i
      invariant forall k :: 0 <= k < i ==> lines[k] == Line(commits[k])
    {
      var commit := commits[i];
      var timestamp := if commit.timestamp != "" then TIMESTAMP_SEPARATOR + commit.timestamp else "";
      lines := lines + ["- [" + commit.message + "](" + commit.url + ") (" + commit.repo + timestamp + ")"];
    }
    assert lines == Lines(commits);
    section := Text.JoinLines(lines);
  }

  /** A record whose fields hold no line feed. */
  predicate OneLineFields(c: CommitRecord) {
    Text.NoNewline(c.message) && Text.NoNewline(c.url) && Text.NoNewline(c.repo) && Text.NoNewline(c.timestamp)
  }

  lemma NoNewlineConcat(a: string, b: string)
    requires Text.NoNewline(a) && Text.NoNewline(b)
    ensures Text.NoNewline(a + b)
  {
    forall i | 0 <= i < |a + b| ensures (a + b)[i] != '\n' {
      if i >= |a| {
        assert (a + b)[i] == b[i - |a|];
      }
    }
  }

  /** A bullet is a single line when the record's fields are. */
  lemma LineIsOneLine(c: CommitRecord)
    requires OneLineFields(c)
    ensures Text.NoNewline(Line(c))
  {
    var suffix := TimestampSuffix(c.timestamp);
    assert Text.NoNewline(TIMESTAMP_SEPARATOR) by {
      assert TIMESTAMP_SEPARATOR == [' ', '\U{2022}', ' '];
    }
    if c.timestamp != "" {
      NoNewlineConcat(TIMESTAMP_SEPARATOR, c.timestamp);
    }
    NoNewlineConcat("- [", c.message);
    NoNewlineConcat("- [" + c.message, "](");
    NoNewlineConcat("- [" + c.message + "](", c.url);
    NoNewlineConcat("- [" + c.message + "](" + c.url, ") (");
    NoNewlineConcat("- [" + c.message + "](" + c.url + ") (", c.repo);
    NoNewlineConcat("- [" + c.message + "](" + c.url + ") (" + c.repo, suffix);
    NoNewlineConcat("- [" + c.message + "](" + c.url + ") (" + c.repo + suffix, ")");
  }

  lemma PlaceholderIsOneLine()
    ensures Text.NoNewline(PLACEHOLDER)
  {
    var a, b, c, d := "- _", "Nenhum commit p\U{00FA}blico ", "recente dispon\U{00ED}vel ", "no momento._";
    assert Text.NoNewline(a) && Text.NoNewline(b) && Text.NoNewline(c) && Text.NoNewline(d);
    NoNewlineConcat(a, b);
    NoNewlineConcat(a + b, c);
    NoNewlineConcat(a + b + c, d);
  }

  /**
   * Reading the section back line by line gives one bullet per commit, in
   * order, or the placeholder alone when there were no commits.
   */
  lemma SectionLines(commits: seq<CommitRecord>)
    requires forall k :: 0 <= k < |commits| ==> OneLineFields(commits[k])
    ensures commits == [] ==> Text.SplitLines(SectionText(commits)) == [PLACEHOLDER]
    ensures commits != [] ==> Text.SplitLines(SectionText(commits)) == Lines(commits)
  {
    if commits == [] {
      PlaceholderIsOneLine();
      Text.SplitLinesSingle(PLACEHOLDER);
    } else {
      forall k | 0 <= k < |Lines(commits)| ensures Text.NoNewline(Lines(commits)[k]) {
        LineIsOneLine(commits[k]);
      }
      Text.SplitJoin(Lines(commits));
    }
  }

  /** The placeholder appears exactly when there is no commit: every bullet starts with a link, the placeholder does not. */
  lemma PlaceholderIffEmpty(commits: seq<CommitRecord>)
    ensures SectionText(commits) == PLACEHOLDER <==> commits == []
  {
    if commits != [] {
      var lines := Lines(commits);
      JoinStartsWithFirst(lines);
      assert SectionText(commits)[2] == '[';
      assert PLACEHOLDER[2] == '_';
    }
  }

  lemma {:induction false} JoinStartsWithFirst(lines: seq<string>)
    requires |lines| >= 1
    ensures |Text.JoinLines(lines)| >= |lines[0]|
    ensures Text.JoinLines(lines)[..|lines[0]|] == lines[0]
  {
    if |lines| > 1 {
      var rest := "\n" + Text.JoinLines(lines[1..]);
      assert Text.JoinLines(lines) == lines[0] + rest;
    }
  }
}
