/**
 * `fetch_recent_commits` after the JSON decode: the public events of an
 * account are walked in order, the commits of every `PushEvent` are turned
 * into commit records, a `sha` already seen in this call is skipped, and the
 * walk stops as soon as `limit` records have been collected.
 *
 * The specification is a pipeline of functions: `Candidates` flattens the
 * push events into (sha, record) pairs, `KeepFirst` keeps the first pair of
 * every sha, and `Selected` cuts that at the limit. `FetchRecentCommits` is
 * the loop of the source, proved equal to it.
 */
module CommitFetcher {
  import opened Wrappers
  import Timestamps
  import Text

  /** One element of `payload.commits`; each field may be missing from the JSON. */
  datatype RawCommit = RawCommit(sha: Option<string>, message: Option<string>)

  /** The `repo` object of an event. */
  datatype RawRepo = RawRepo(name: Option<string>)

  /** The `payload` object of an event. */
  datatype RawPayload = RawPayload(commits: Option<seq<RawCommit>>)

  /** One decoded element of the events array: `type`, `repo`, `created_at`, `payload`. */
  datatype RawEvent = RawEvent(
    eventType: Option<string>,
    repo: Option<RawRepo>,
    createdAt: Option<string>,
    payload: Option<RawPayload>)

  /** The dictionary the source builds per commit: `message`, `repo`, `url`, `timestamp`. */
  datatype CommitRecord = CommitRecord(message: string, repo: string, url: string, timestamp: string)

  const PUSH_EVENT := "PushEvent"
  const NO_MESSAGE := "Commit sem mensagem"
  const COMMIT_URL_HOST := "https://github.com/"
  const COMMIT_URL_PATH := "/commit/"

  predicate IsPushEvent(e: RawEvent) {
    e.eventType == Some(PUSH_EVENT)
  }

  /** `event.get("repo", {}).get("name", "")` */
  function RepoName(e: RawEvent): string {
    match e.repo
    case None => ""
    case Some(r) => r.name.GetOr("")
  }

  /** `_iso_to_human(created_at) if created_at else ""` */
  function HumanTime(e: RawEvent): string {
    var createdAt := e.createdAt.GetOr("");
    if createdAt != "" then Timestamps.IsoToHuman(createdAt) else ""
  }

  /** `event.get("payload", {}).get("commits", [])` */
  function CommitList(e: RawEvent): seq<RawCommit> {
    match e.payload
    case None => []
    case Some(p) => p.commits.GetOr([])
  }

  /** A commit is kept only when its `sha` is present and non-empty. */
  predicate HasSha(c: RawCommit) {
    c.sha.Some? && c.sha.value != ""
  }

  /** `(commit.get("message") or "Commit sem mensagem").splitlines()[0]` */
  function MessageLine(c: RawCommit): string {
    var raw := if c.message.Some? && c.message.value != "" then c.message.value else NO_MESSAGE;
    Text.FirstLine(raw)
  }

  function CommitUrl(repo: string, sha: string): string {
    COMMIT_URL_HOST + repo + COMMIT_URL_PATH + sha
  }

  function MakeRecord(repo: string, time: string, sha: string, c: RawCommit): CommitRecord {
    CommitRecord(MessageLine(c), repo, CommitUrl(repo, sha), time)
  }

  /** The message of a record is one line: it holds no line boundary, and it is the placeholder when the commit has no message. */
  lemma MessageLineIsOneLine(c: RawCommit)
    ensures forall i :: 0 <= i < |MessageLine(c)| ==> !Text.IsLineBoundary(MessageLine(c)[i])
    ensures c.message.None? || c.message == Some("") ==> MessageLine(c) == NO_MESSAGE
    ensures c.message.Some? && c.message.value != "" ==>
      MessageLine(c) == c.message.value[..|MessageLine(c)|]
  {
    Text.FirstLineWhole(NO_MESSAGE);
  }

  /** A raw message that starts with a line break yields an empty message: the placeholder does not make it non-empty. */
  lemma MessageLineMayBeEmpty()
    ensures MessageLine(RawCommit(Some("abc"), Some("\nfix build"))) == ""
  {
  }

  /** A commit that survives filtering: its sha, with the event and the commit object it was read from. */
  datatype Candidate = Candidate(sha: string, event: RawEvent, commit: RawCommit)

  /** The record the source builds for a candidate. */
  function RecordOf(c: Candidate): CommitRecord {
    MakeRecord(RepoName(c.event), HumanTime(c.event), c.sha, c.commit)
  }

  /** The candidate of one commit of a push event: none when the commit has no sha. */
  function CommitCandidate(e: RawEvent, c: RawCommit): seq<Candidate> {
    if HasSha(c) then [Candidate(c.sha.value, e, c)] else []
  }

  /** The candidates of one push event's commits, in order. */
  function CommitCandidates(e: RawEvent, cs: seq<RawCommit>): seq<Candidate> {
    FlatMap((c: RawCommit) => CommitCandidate(e, c), cs)
  }

  function EventCandidates(e: RawEvent): seq<Candidate> {
    if IsPushEvent(e) then CommitCandidates(e, CommitList(e)) else []
  }

  /** The concatenation of `f(x)` for the elements `x` of `xs`, in order. */
  function FlatMap<A, B>(f: A -> seq<B>, xs: seq<A>): seq<B>
    decreases |xs|
  {
    if xs == [] then [] else FlatMap(f, xs[..|xs| - 1]) + f(xs[|xs| - 1])
  }

  /** All candidates of an event list: event order, then commit order within an event. */
  function Candidates(events: seq<RawEvent>): seq<Candidate> {
    FlatMap(EventCandidates, events)
  }

  function ShaSet(cs: seq<Candidate>): set<string> {
    set c | c in cs :: c.sha
  }

  /** The position of the first candidate carrying `sha`. */
  function FirstIndex(cs: seq<Candidate>, sha: string): (k: nat)
    requires sha in ShaSet(cs)
    ensures k < |cs| && cs[k].sha == sha
    ensures forall j :: 0 <= j < k ==> cs[j].sha != sha
  {
    if cs[0].sha == sha then 0
    else
      assert sha in ShaSet(cs[1..]) by {
        var c :| c in cs && c.sha == sha;
        assert c != cs[0];
        assert cs == [cs[0]] + cs[1..];
      }
      1 + FirstIndex(cs[1..], sha)
  }

  /** The `seen` filter: a candidate is kept when no earlier candidate has its sha. */
  function KeepFirst(cs: seq<Candidate>): seq<Candidate>
    decreases |cs|
  {
    if cs == [] then []
    else
      var init := cs[..|cs| - 1];
      var c := cs[|cs| - 1];
      KeepFirst(init) + (if c.sha in ShaSet(init) then [] else [c])
  }

  /** How many records the source returns at most: the count is tested only after an append. */
  function Cap(limit: int): nat {
    if limit >= 1 then limit else 1
  }

  /** The candidates `fetch_recent_commits` returns records for. */
  function Selected(events: seq<RawEvent>, limit: int): (sel: seq<Candidate>)
    ensures |sel| <= Cap(limit) && |sel| <= |KeepFirst(Candidates(events))|
    ensures |sel| < Cap(limit) ==> sel == KeepFirst(Candidates(events))
    ensures sel == KeepFirst(Candidates(events))[..|sel|]
  {
    var kept := KeepFirst(Candidates(events));
    if |kept| <= Cap(limit) then kept else kept[..Cap(limit)]
  }

  function Records(cs: seq<Candidate>): (rs: seq<CommitRecord>)
    ensures |rs| == |cs|
  {
    seq(|cs|, k requires 0 <= k < |cs| => RecordOf(cs[k]))
  }

  /** The value of `fetch_recent_commits(username, limit)` for the decoded `events`. */
  function ExtractCommits(events: seq<RawEvent>, limit: int): seq<CommitRecord> {
    Records(Selected(events, limit))
  }

  // ---- Lemmas about the specification ----

  lemma ShaSetSnoc(cs: seq<Candidate>, c: Candidate)
    ensures ShaSet(cs + [c]) == ShaSet(cs) + {c.sha}
  {
    forall s | s in ShaSet(cs + [c]) ensures s in ShaSet(cs) + {c.sha} {
      var d :| d in cs + [c] && d.sha == s;
      if d != c {
        assert d in cs;
      }
    }
  }

  lemma KeepFirstSnoc(cs: seq<Candidate>, c: Candidate)
    ensures KeepFirst(cs + [c]) == KeepFirst(cs) + (if c.sha in ShaSet(cs) then [] else [c])
  {
    assert (cs + [c])[..|cs|] == cs;
  }

  lemma {:induction false} KeepFirstSubset(cs: seq<Candidate>)
    ensures forall c :: c in KeepFirst(cs) ==> c in cs
  {
    if cs != [] {
      var init := cs[..|cs| - 1];
      KeepFirstSubset(init);
      assert cs == init + [cs[|cs| - 1]];
    }
  }

  /** No two kept candidates share a sha. */
  lemma {:induction false} KeepFirstUnique(cs: seq<Candidate>)
    ensures forall a, b :: 0 <= a < b < |KeepFirst(cs)| ==> KeepFirst(cs)[a].sha != KeepFirst(cs)[b].sha
  {
    if cs != [] {
      var init := cs[..|cs| - 1];
      var c := cs[|cs| - 1];
      KeepFirstUnique(init);
      KeepFirstSubset(init);
      var kf := KeepFirst(init);
      if c.sha !in ShaSet(init) {
        forall a | 0 <= a < |kf| ensures kf[a].sha != c.sha {
          assert kf[a] in init;
        }
      }
    }
  }

  /** Every sha among the candidates is kept. */
  lemma {:induction false} KeepFirstCovers(cs: seq<Candidate>)
    ensures ShaSet(KeepFirst(cs)) == ShaSet(cs)
  {
    if cs != [] {
      var init := cs[..|cs| - 1];
      var c := cs[|cs| - 1];
      KeepFirstCovers(init);
      assert cs == init + [c];
      ShaSetSnoc(init, c);
      if c.sha !in ShaSet(init) {
        ShaSetSnoc(KeepFirst(init), c);
      }
    }
  }

  /** Each kept candidate is the first occurrence of its sha, and they keep the order of those occurrences. */
  lemma {:induction false} KeepFirstFirstOccurrences(cs: seq<Candidate>)
    ensures forall k :: 0 <= k < |KeepFirst(cs)| ==>
      KeepFirst(cs)[k].sha in ShaSet(cs) && KeepFirst(cs)[k] == cs[FirstIndex(cs, KeepFirst(cs)[k].sha)]
    ensures forall a, b :: 0 <= a < b < |KeepFirst(cs)| ==>
      KeepFirst(cs)[a].sha in ShaSet(cs) && KeepFirst(cs)[b].sha in ShaSet(cs) &&
      FirstIndex(cs, KeepFirst(cs)[a].sha) < FirstIndex(cs, KeepFirst(cs)[b].sha)
  {
    if cs != [] {
      var init := cs[..|cs| - 1];
      var c := cs[|cs| - 1];
      KeepFirstFirstOccurrences(init);
      KeepFirstSubset(init);
      assert cs == init + [c];
      ShaSetSnoc(init, c);
      var kf := KeepFirst(init);
      forall k | 0 <= k < |kf|
        ensures kf[k].sha in ShaSet(init) && FirstIndex(cs, kf[k].sha) == FirstIndex(init, kf[k].sha)
      {
        var s := kf[k].sha;
        assert s in ShaSet(init);
        var j := FirstIndex(init, s);
        assert cs[j] == init[j];
      }
    }
  }

  /** Keeping the first of every sha in a longer list only appends to the result for the shorter one. */
  lemma {:induction false} KeepFirstPrefix(p: seq<Candidate>, q: seq<Candidate>)
    ensures |KeepFirst(p)| <= |KeepFirst(p + q)|
    ensures KeepFirst(p + q)[..|KeepFirst(p)|] == KeepFirst(p)
    decreases |q|
  {
    if q != [] {
      var qi := q[..|q| - 1];
      var c := q[|q| - 1];
      KeepFirstPrefix(p, qi);
      assert p + q == (p + qi) + [c];
      KeepFirstSnoc(p + qi, c);
    } else {
      assert p + q == p;
    }
  }

  lemma {:induction false} FlatMapSplit<A, B>(f: A -> seq<B>, xs: seq<A>, n: nat)
    requires n <= |xs|
    ensures FlatMap(f, xs) == FlatMap(f, xs[..n]) + FlatMap(f, xs[n..])
    decreases |xs|
  {
    if n == |xs| {
      assert xs[..n] == xs && xs[n..] == [];
    } else {
      var m := |xs| - 1;
      FlatMapSplit(f, xs[..m], n);
      assert xs[..m][..n] == xs[..n];
      assert xs[..m][n..] == xs[n..][..|xs[n..]| - 1];
      assert xs[n..][|xs[n..]| - 1] == xs[m];
    }
  }

  lemma FlatMapSnoc<A, B>(f: A -> seq<B>, xs: seq<A>, i: nat)
    requires i < |xs|
    ensures FlatMap(f, xs[..i + 1]) == FlatMap(f, xs[..i]) + f(xs[i])
  {
    assert xs[..i + 1][..i] == xs[..i];
  }

  lemma CandidatesSnoc(events: seq<RawEvent>, i: nat)
    requires i < |events|
    ensures Candidates(events[..i + 1]) == Candidates(events[..i]) + EventCandidates(events[i])
  {
    FlatMapSnoc(EventCandidates, events, i);
  }

  /** Where a candidate comes from: a commit with that non-empty sha in the list of a push event. */
  ghost predicate FromPushCommit(events: seq<RawEvent>, c: Candidate) {
    exists i :: 0 <= i < |events| && IsPushEvent(events[i]) && c.event == events[i] &&
      c.commit in CommitList(events[i]) && c.commit.sha == Some(c.sha) && c.sha != ""
  }

  lemma {:induction false} CommitCandidatesOrigin(e: RawEvent, cs: seq<RawCommit>)
    ensures forall c :: c in CommitCandidates(e, cs) ==>
      c.event == e && c.commit in cs && c.commit.sha == Some(c.sha) && c.sha != ""
    ensures forall k :: 0 <= k < |cs| && HasSha(cs[k]) ==> cs[k].sha.value in ShaSet(CommitCandidates(e, cs))
    decreases |cs|
  {
    if cs != [] {
      var init := cs[..|cs| - 1];
      var last := cs[|cs| - 1];
      CommitCandidatesOrigin(e, init);
      assert CommitCandidates(e, cs) == CommitCandidates(e, init) + CommitCandidate(e, last);
      assert cs == init + [last];
      forall k | 0 <= k < |cs| && HasSha(cs[k])
        ensures cs[k].sha.value in ShaSet(CommitCandidates(e, cs))
      {
        if k < |init| {
          assert cs[k] == init[k];
          var d :| d in CommitCandidates(e, init) && d.sha == cs[k].sha.value;
          assert d in CommitCandidates(e, cs);
        } else {
          assert CommitCandidate(e, last)[0] in CommitCandidates(e, cs);
        }
      }
    }
  }

  /**
   * Filtering, both ways: every candidate stems from a commit with a
   * non-empty sha in a `PushEvent`, and every such commit's sha is among the
   * candidates.
   */
  lemma {:induction false} CandidatesOrigin(events: seq<RawEvent>)
    ensures forall c :: c in Candidates(events) ==> FromPushCommit(events, c)
    ensures forall i, k ::
      (0 <= i < |events| && IsPushEvent(events[i]) &&
       0 <= k < |CommitList(events[i])| && HasSha(CommitList(events[i])[k])) ==>
        CommitList(events[i])[k].sha.value in ShaSet(Candidates(events))
    decreases |events|
  {
    if events != [] {
      var init := events[..|events| - 1];
      var e := events[|events| - 1];
      CandidatesOrigin(init);
      CommitCandidatesOrigin(e, CommitList(e));
      assert Candidates(events) == Candidates(init) + EventCandidates(e);
      forall c | c in Candidates(events) ensures FromPushCommit(events, c) {
        if c in Candidates(init) {
          var i :| 0 <= i < |init| && IsPushEvent(init[i]) && c.event == init[i] &&
            c.commit in CommitList(init[i]) && c.commit.sha == Some(c.sha) && c.sha != "";
          assert events[i] == init[i];
        } else {
          assert c in EventCandidates(e);
          assert events[|events| - 1] == e;
        }
      }
      forall i, k | 0 <= i < |events| && IsPushEvent(events[i]) &&
        0 <= k < |CommitList(events[i])| && HasSha(CommitList(events[i])[k])
        ensures CommitList(events[i])[k].sha.value in ShaSet(Candidates(events))
      {
        var s := CommitList(events[i])[k].sha.value;
        var d: Candidate;
        if i < |init| {
          assert events[i] == init[i];
          d :| d in Candidates(init) && d.sha == s;
        } else {
          d :| d in EventCandidates(e) && d.sha == s;
        }
        assert d in Candidates(events);
      }
    }
  }

  /** No two returned records come from commits with the same sha. */
  lemma SelectedUnique(events: seq<RawEvent>, limit: int)
    ensures forall a, b :: 0 <= a < b < |Selected(events, limit)| ==>
      Selected(events, limit)[a].sha != Selected(events, limit)[b].sha
  {
    KeepFirstUnique(Candidates(events));
  }

  /**
   * Order and first occurrence: each returned record is built from the first
   * commit carrying its sha in event order, then commit order, and the records
   * follow the order of those commits.
   */
  lemma SelectedFirstOccurrences(events: seq<RawEvent>, limit: int)
    ensures forall k :: 0 <= k < |Selected(events, limit)| ==>
      var c := Selected(events, limit)[k];
      c.sha in ShaSet(Candidates(events)) && c == Candidates(events)[FirstIndex(Candidates(events), c.sha)]
    ensures forall a, b :: 0 <= a < b < |Selected(events, limit)| ==>
      Selected(events, limit)[a].sha in ShaSet(Candidates(events)) &&
      Selected(events, limit)[b].sha in ShaSet(Candidates(events)) &&
      FirstIndex(Candidates(events), Selected(events, limit)[a].sha)
        < FirstIndex(Candidates(events), Selected(events, limit)[b].sha)
  {
    KeepFirstFirstOccurrences(Candidates(events));
  }

  /** Every returned record comes from a commit with a non-empty sha in a `PushEvent`, with its fields filled from that commit and event. */
  lemma SelectedOrigin(events: seq<RawEvent>, limit: int)
    ensures forall c :: c in Selected(events, limit) ==> FromPushCommit(events, c)
  {
    CandidatesOrigin(events);
    KeepFirstSubset(Candidates(events));
  }

  /**
   * Record fields: every returned record was built from a commit with a
   * non-empty sha in a `PushEvent`: its message is that commit's first line,
   * `repo` and `timestamp` come from the event, and `url` joins repo and sha.
   */
  lemma ExtractedRecordFields(events: seq<RawEvent>, limit: int)
    ensures forall r :: r in ExtractCommits(events, limit) ==>
      exists i, c :: 0 <= i < |events| && IsPushEvent(events[i]) && c in CommitList(events[i]) && HasSha(c) &&
        r == CommitRecord(MessageLine(c), RepoName(events[i]), CommitUrl(RepoName(events[i]), c.sha.value),
                          HumanTime(events[i]))
  {
    SelectedOrigin(events, limit);
    var sel := Selected(events, limit);
    forall r | r in ExtractCommits(events, limit)
      ensures exists i, c :: (0 <= i < |events| && IsPushEvent(events[i]) && c in CommitList(events[i]) && HasSha(c) &&
        r == CommitRecord(MessageLine(c), RepoName(events[i]), CommitUrl(RepoName(events[i]), c.sha.value),
                          HumanTime(events[i])))
    {
      var k :| 0 <= k < |sel| && r == Records(sel)[k];
      assert sel[k] in sel;
      var i :| 0 <= i < |events| && IsPushEvent(events[i]) && sel[k].event == events[i] &&
        sel[k].commit in CommitList(events[i]) && sel[k].commit.sha == Some(sel[k].sha) && sel[k].sha != "";
      assert r == RecordOf(sel[k]);
    }
  }

  /** Short of the limit, the walk has reached every push commit with a non-empty sha. */
  lemma SelectedComplete(events: seq<RawEvent>, limit: int)
    requires |Selected(events, limit)| < Cap(limit)
    ensures forall i, k ::
      (0 <= i < |events| && IsPushEvent(events[i]) &&
       0 <= k < |CommitList(events[i])| && HasSha(CommitList(events[i])[k])) ==>
        CommitList(events[i])[k].sha.value in ShaSet(Selected(events, limit))
  {
    CandidatesOrigin(events);
    KeepFirstCovers(Candidates(events));
  }

  /** Without push events there is nothing to return. */
  lemma {:induction false} NoPushNoCommits(events: seq<RawEvent>, limit: int)
    requires forall i :: 0 <= i < |events| ==> !IsPushEvent(events[i])
    ensures Candidates(events) == [] && ExtractCommits(events, limit) == []
    decreases |events|
  {
    if events != [] {
      NoPushNoCommits(events[..|events| - 1], limit);
    }
  }

  // ---- The loop of the source ----

  /** The tail of `fetch_recent_commits` from the decoded events on. */
  method FetchRecentCommits(events: seq<RawEvent>, limit: int) returns (commits: seq<CommitRecord>)
    ensures commits == ExtractCommits(events, limit)
  {
    commits := [];
    var seen: set<string> := {};
    for i := 0 to |events|
      invariant seen == ShaSet(Candidates(events[..i]))
      invariant commits == Records(KeepFirst(Candidates(events[..i])))
      invariant |commits| < Cap(limit)
    {
      var event := events[i];
      CandidatesSnoc(events, i);
      if event.eventType != Some(PUSH_EVENT) {
        assert EventCandidates(event) == [];
        assert Candidates(events[..i + 1]) == Candidates(events[..i]);
        continue;
      }
      var repo := RepoName(event);
      var createdAt := event.createdAt.GetOr("");
      var humanTime := if createdAt != "" then Timestamps.IsoToHuman(createdAt) else "";
      assert humanTime == HumanTime(event);
      var list := CommitList(event);
      ghost var done := Candidates(events[..i]);
      assert done + CommitCandidates(event, list[..0]) == done by {
        assert list[..0] == [];
      }
      for j := 0 to |list|
        invariant done == Candidates(events[..i]) + CommitCandidates(event, list[..j])
        invariant seen == ShaSet(done)
        invariant commits == Records(KeepFirst(done))
        invariant |commits| < Cap(limit)
      {
        var commit := list[j];
        CommitCandidatesSnoc(event, list, j);
        var sha := commit.sha;
        if sha.None? || sha.value == "" {
          continue;
        }
        var candidate := Candidate(sha.value, event, commit);
        if sha.value in seen {
          SeenStep(done, candidate);
          SnocAssoc(Candidates(events[..i]), CommitCandidates(event, list[..j]), candidate);
          done := done + [candidate];
          continue;
        }
        seen := seen + {sha.value};
        var raw := if commit.message.Some? && commit.message.value != "" then commit.message.value else NO_MESSAGE;
        var message := Text.FirstLine(raw);
        var record := CommitRecord(message, repo, COMMIT_URL_HOST + repo + COMMIT_URL_PATH + sha.value, humanTime);
        commits := commits + [record];
        assert record == RecordOf(candidate);
        NewStep(done, candidate);
        if |commits| >= limit {
          LimitReached(events, limit, i, j, done, candidate);
          return;
        }
        SnocAssoc(Candidates(events[..i]), CommitCandidates(event, list[..j]), candidate);
        done := done + [candidate];
      }
      assert list[..|list|] == list;
      assert done == Candidates(events[..i]) + EventCandidates(event);
    }
    assert events[..|events|] == events;
  }

  lemma CommitCandidatesSnoc(e: RawEvent, cs: seq<RawCommit>, j: nat)
    requires j < |cs|
    ensures CommitCandidates(e, cs[..j + 1]) == CommitCandidates(e, cs[..j]) + CommitCandidate(e, cs[j])
  {
    FlatMapSnoc((c: RawCommit) => CommitCandidate(e, c), cs, j);
  }

  /** A commit whose sha was seen before changes neither the seen set nor the result. */
  lemma SeenStep(done: seq<Candidate>, c: Candidate)
    requires c.sha in ShaSet(done)
    ensures ShaSet(done + [c]) == ShaSet(done)
    ensures KeepFirst(done + [c]) == KeepFirst(done)
  {
    ShaSetSnoc(done, c);
    KeepFirstSnoc(done, c);
  }

  /** A commit with a new sha is added to the seen set and appended to the result. */
  lemma NewStep(done: seq<Candidate>, c: Candidate)
    requires c.sha !in ShaSet(done)
    ensures ShaSet(done + [c]) == ShaSet(done) + {c.sha}
    ensures KeepFirst(done + [c]) == KeepFirst(done) + [c]
    ensures Records(KeepFirst(done + [c])) == Records(KeepFirst(done)) + [RecordOf(c)]
  {
    ShaSetSnoc(done, c);
    KeepFirstSnoc(done, c);
  }

  /** The candidates of an event list, split around the event at `i`. */
  lemma CandidatesAround(events: seq<RawEvent>, i: nat)
    requires i < |events|
    ensures Candidates(events) == Candidates(events[..i]) + EventCandidates(events[i]) + Candidates(events[i + 1..])
  {
    FlatMapSplit(EventCandidates, events, i + 1);
    FlatMapSnoc(EventCandidates, events, i);
  }

  /** The candidates of an event list, split after commit `j` of the push event at `i`. */
  lemma CandidatesAtCommit(events: seq<RawEvent>, i: nat, j: nat)
    requires i < |events| && IsPushEvent(events[i]) && j <= |CommitList(events[i])|
    ensures Candidates(events) ==
      (Candidates(events[..i]) + CommitCandidates(events[i], CommitList(events[i])[..j]))
      + (CommitCandidates(events[i], CommitList(events[i])[j..]) + Candidates(events[i + 1..]))
  {
    FlatMapSplit((c: RawCommit) => CommitCandidate(events[i], c), CommitList(events[i]), j);
    CandidatesAround(events, i);
  }

  /**
   * The early return: once the limit is reached at commit `j` of the push
   * event at `i`, what has been collected is the whole result.
   */
  lemma LimitReached(events: seq<RawEvent>, limit: int, i: nat, j: nat, prior: seq<Candidate>, c: Candidate)
    requires i < |events| && IsPushEvent(events[i]) && j < |CommitList(events[i])|
    requires prior == Candidates(events[..i]) + CommitCandidates(events[i], CommitList(events[i])[..j])
    requires CommitCandidate(events[i], CommitList(events[i])[j]) == [c]
    requires |KeepFirst(prior + [c])| == Cap(limit)
    ensures Records(KeepFirst(prior + [c])) == ExtractCommits(events, limit)
  {
    var list := CommitList(events[i]);
    CommitCandidatesSnoc(events[i], list, j);
    CandidatesAtCommit(events, i, j + 1);
    var later := CommitCandidates(events[i], list[j + 1..]) + Candidates(events[i + 1..]);
    Regroup(Candidates(events[..i]), CommitCandidates(events[i], list[..j]), c, later);
    KeepFirstPrefix(prior + [c], later);
  }

  lemma SnocAssoc<T>(p: seq<T>, q: seq<T>, c: T)
    ensures (p + q) + [c] == p + (q + [c])
  {
  }

  lemma Regroup<T>(p: seq<T>, q: seq<T>, c: T, r: seq<T>)
    ensures (p + (q + [c])) + r == ((p + q) + [c]) + r
  {
    assert p + (q + [c]) == (p + q) + [c];
  }
}
