# README updater: a Dafny model

`scripts/update_readme.py` keeps the README of a GitHub profile up to date.
It does three things. It replaces the block between the `STATS_VERSION`
markers with a version token built from the clock. It replaces the block
between the `LAST_UPDATED` markers with a human-readable time. It replaces
the block between the `RECENT_COMMITS` markers with a Markdown list of the
account's latest public commits.

This project models the logic of that script and proves its properties:

- `fetcher.dfy` (module `CommitFetcher`) models `fetch_recent_commits` from
  the decoded event list on. Push events are walked in order, commits without
  a sha or with a sha already seen are skipped, and the walk returns as soon
  as the limit is reached.
  - `FetchRecentCommits` keeps the source's nested loops, seen set and early
    return.
  - The method is proved equal to a specification pipeline: `Candidates`,
    then `KeepFirst`, then `Selected`.
  - The filtering, deduplication, order, limit and record-field properties
    are proved about that pipeline.
- `section.dfy` (module `CommitSection`) models `build_commit_section`. Its
  loop is the method `BuildCommitSection`, proved equal to `SectionText`.
- `blocks.dfy` (module `ReadmeBlocks`) models `replace_block`.
  - The regular expression `escape(start) .*? escape(end)` is modelled by
    substring search: the leftmost start marker and the nearest end marker
    after it.
  - `pattern.subn` is modelled by `SubstituteAll`, which replaces every such
    span from left to right and counts them.
  - `ReplaceBlockAsWritten` is the function exactly as written. It first
    compiles the new block as a `re` replacement template.
  - `ReplaceBlock` is the corrected reading, which inserts the block
    literally. See "Findings".
- `timestamps.dfy` (module `Timestamps`) models `_iso_to_human` and the two
  `strftime` formats of `main`.
- `text.dfy` (module `Text`) models the first element of `str.splitlines()`
  and `"\n".join`.
- `updater.dfy` (module `ReadmeUpdater`) models the middle of `main`. The
  three replacements happen in the source's order, and a caught HTTP or
  network error gives an empty commit list.
  - `UpdateReadme` is `main`'s statements as written, specified by
    `RefreshAsWritten`, which reads each new block as a template.
  - `Refresh` is the same run with the corrected, literal `replace_block`.
    The two agree whenever the commit section holds no backslash
    (`RefreshAgreesWithoutBackslash`). The stamps never hold one.
- `wrappers.dfy` (module `Wrappers`) holds `Option` and `Result`. A `Failure`
  stands for an exception the source raises.

Some of the code's behaviour is easy to miss on a first reading; the model
keeps it as the code has it:

- `subn` replaces every span between a pair of markers, not only the first
  (`ReplaceBlockAllSpans`).
- A raw message that starts with a line break gives an empty first line, so
  a record's message can be empty (`MessageLineMayBeEmpty`).
- The count is tested only after an append, so a `limit` below 1 returns at
  most one record: one when there is any push commit with a sha, none
  otherwise (`Cap`, `Selected`).
- `main` catches only `HTTPError` and `URLError`, so a JSON decode error
  ends the run. JSON decoding is not part of this model.

## Model

| member | source | states |
|---|---|---|
| CommitFetcher.FetchRecentCommits | scripts/update_readme.py:51-75 | The loop's result equals `ExtractCommits(events, limit)`: the records of the first occurrence of every non-empty sha among push-event commits, in walk order, cut after `Cap(limit)` records. |
| CommitFetcher.Selected | scripts/update_readme.py:73-74 | At most `Cap(limit)` candidates are taken, always a prefix of the deduplicated list, and the whole list when fewer are available. |
| CommitFetcher.LimitReached | scripts/update_readme.py:73-74 | Returning early once the limit is reached gives the same records as walking every remaining event. |
| CommitFetcher.SeenStep | scripts/update_readme.py:60-62 | A commit whose sha is already seen changes neither the seen set nor the result. |
| CommitFetcher.NewStep | scripts/update_readme.py:63-72 | A commit with a new sha joins the seen set, and its record is appended. |
| CommitFetcher.KeepFirstUnique | scripts/update_readme.py:52-63 | No two kept candidates share a sha. |
| CommitFetcher.KeepFirstCovers | scripts/update_readme.py:52-63 | Every sha among the candidates is kept. |
| CommitFetcher.KeepFirstFirstOccurrences | scripts/update_readme.py:52-63 | Each kept candidate is the first one carrying its sha, and the kept candidates keep the order of those first occurrences. |
| CommitFetcher.KeepFirstPrefix | scripts/update_readme.py:53-74 | Deduplicating a longer list only appends to the deduplication of its prefix. |
| CommitFetcher.CommitCandidatesOrigin | scripts/update_readme.py:59-61 | The candidates of one event come from its commits with a non-empty sha, and every such commit yields one. |
| CommitFetcher.CandidatesOrigin | scripts/update_readme.py:53-61 | In both directions: every candidate stems from a commit with a non-empty sha in a `PushEvent`, and every such sha is a candidate. |
| CommitFetcher.SelectedUnique | scripts/update_readme.py:52-63 | No two returned records come from the same sha. |
| CommitFetcher.SelectedFirstOccurrences | scripts/update_readme.py:53-72 | Every returned record is built from the first commit with its sha in event-then-commit order, and the records keep that order. |
| CommitFetcher.SelectedOrigin | scripts/update_readme.py:53-61 | Every returned candidate comes from a push event's commit with a non-empty sha. |
| CommitFetcher.ExtractedRecordFields | scripts/update_readme.py:56-72 | Every record's message is the first line of some push commit's message. Its repo and timestamp come from that commit's event, and its url is `https://github.com/<repo>/commit/<sha>`. |
| CommitFetcher.SelectedComplete | scripts/update_readme.py:53-75 | Short of the limit, the sha of every push commit with a non-empty sha is returned. |
| CommitFetcher.NoPushNoCommits | scripts/update_readme.py:53-55 | Without push events the result is empty. |
| CommitFetcher.MessageLineIsOneLine | scripts/update_readme.py:64 | The message holds no line boundary and is a prefix of the raw message. A missing or empty message gives `Commit sem mensagem`. |
| CommitFetcher.MessageLineMayBeEmpty | scripts/update_readme.py:64 | A raw message that starts with a line feed yields an empty message. |
| Text.FirstLine | scripts/update_readme.py:64 | The first line is the longest prefix without a `splitlines` boundary. |
| Text.FirstLineWhole | scripts/update_readme.py:64 | A string without boundaries is its own first line. |
| Text.SplitJoin | scripts/update_readme.py:99 | Splitting the `"\n".join` of newline-free lines at line feeds gives the lines back. |
| CommitSection.BuildCommitSection | scripts/update_readme.py:90-99 | The loop returns `SectionText(commits)`: the placeholder for no commits, otherwise the joined bullets. |
| CommitSection.LineIsOneLine | scripts/update_readme.py:95-97 | A bullet is one line when the record's fields are. |
| CommitSection.PlaceholderIsOneLine | scripts/update_readme.py:92 | The placeholder is a single line. |
| CommitSection.SectionLines | scripts/update_readme.py:90-99 | Read back line by line, the section is one bullet per commit in order, or the placeholder alone. |
| CommitSection.PlaceholderIffEmpty | scripts/update_readme.py:91-92 | The section is the placeholder exactly when there are no commits. |
| Timestamps.IsoToHuman | scripts/update_readme.py:29-34 | A stamp that parses becomes its day, month, year, hour and minute, rearranged as `DD/MM/YYYY HH:MM UTC`. Any other stamp comes back unchanged. |
| Timestamps.ParseFormatIso | scripts/update_readme.py:31 | Every valid date and time, formatted in ISO form, parses back to itself. |
| Timestamps.FormatParseIso | scripts/update_readme.py:31 | A stamp that parses is the ISO form of its value. |
| Timestamps.IsoToHumanOfFormat | scripts/update_readme.py:29-34 | On an ISO stamp, `_iso_to_human` gives the same text as `main`'s `%d/%m/%Y %H:%M UTC` for that instant. |
| Timestamps.ParseIsoExample | scripts/update_readme.py:31 | `2024-01-02T03:04:05Z` parses to 2 January 2024, 03:04:05. |
| Timestamps.IsoToHumanExample | scripts/update_readme.py:29-34 | `2024-01-02T03:04:05Z` becomes `02/01/2024 03:04 UTC`. |
| Timestamps.IsoToHumanRejectsNonLeapDay | scripts/update_readme.py:30-33 | 29 February 2023 does not parse and is returned as given. |
| Timestamps.DaysInMonth | scripts/update_readme.py:31 | Months have 28 to 31 days, and 29 exactly for February of a leap year. |
| Timestamps.DigitsRoundTrip | scripts/update_readme.py:104 | A zero-padded field reads back as its number. |
| Timestamps.NumberRoundTrip | scripts/update_readme.py:31 | A digit field read as a number and padded back is unchanged. |
| Timestamps.FormatVersion | scripts/update_readme.py:104 | The version token is 14 decimal digits. |
| ReadmeBlocks.IndexFromSpec | scripts/update_readme.py:79-82 | The search returns the first occurrence at or after the offset, and fails only when there is none. |
| ReadmeBlocks.FindSpanSpec | scripts/update_readme.py:79-82 | A match starts at the leftmost start marker and ends at the nearest end marker after it. |
| ReadmeBlocks.FindSpanIffSpan | scripts/update_readme.py:79-84 | There is a match exactly when some start marker has an end marker after it. |
| ReadmeBlocks.SubstituteCount | scripts/update_readme.py:84 | `subn` counts zero exactly when there is no match, and then leaves the text unchanged. |
| ReadmeBlocks.ReplaceBlockFails | scripts/update_readme.py:84-86 | `replace_block` fails exactly when no start marker has an end marker after it, and then with the missing-markers error for that pair. |
| ReadmeBlocks.ReplaceBlockPlacesBlock | scripts/update_readme.py:83-84 | On success, the text before the first match is kept and the new block `start\nreplacement\nend` stands where the match began. |
| ReadmeBlocks.ReplaceBlockKeepsMarkers | scripts/update_readme.py:78-87 | After a successful replacement the markers can be found again, so the next run does not fail. |
| ReadmeBlocks.ReplaceBlockSingleSpan | scripts/update_readme.py:83-84 | With a single span, the result is the text before it, the new block, and the text after it. |
| ReadmeBlocks.ReplaceBlockAllSpans | scripts/update_readme.py:84 | Every span is replaced, not only the first: `[a][b]` with markers `[` and `]` becomes two blocks. |
| ReadmeBlocks.SubstituteIdempotent | scripts/update_readme.py:84 | Substituting a framed block a second time changes neither the text nor the count. |
| ReadmeBlocks.ReplaceBlockIdempotent | scripts/update_readme.py:78-87 | Replacing the same block twice gives what replacing it once gives, when the replacement does not contain the end marker. |
| ReadmeBlocks.BlockFramed | scripts/update_readme.py:83 | The new block starts with the start marker, and its only end marker after that is its last. |
| ReadmeBlocks.AsWrittenErrors | scripts/update_readme.py:79-86 | As written, the run fails with the template error exactly when the new block does not compile. Otherwise it fails with the missing-markers error exactly when there is no span. |
| ReadmeBlocks.ParseLiteral | scripts/update_readme.py:84 | Backslash-free text compiles to a template that reproduces it. |
| ReadmeBlocks.ParsePlainPrefix | scripts/update_readme.py:84 | A backslash-free prefix neither makes nor breaks compilation, and it passes through unchanged. |
| ReadmeBlocks.ParseLineFeedEscape | scripts/update_readme.py:84 | `\n` in a template compiles to a line feed. |
| ReadmeBlocks.AsWrittenAgreesWithoutBackslash | scripts/update_readme.py:83-84 | Without a backslash in the new block, the function as written and the literal one agree. |
| ReadmeBlocks.BadEscapeFails | scripts/update_readme.py:83-84 | As written, a new text containing `\d` makes the run fail with the template error. |
| ReadmeBlocks.EscapeAltersText | scripts/update_readme.py:83-84 | As written, `\n` in the new text reaches the README as a line feed. |
| ReadmeUpdater.UpdateReadme | scripts/update_readme.py:106-120 | `main`'s statements give `RefreshAsWritten`: version, then last-updated time, then commit section, each read as a template, with the first error final. |
| ReadmeUpdater.StampBlocksPlain | scripts/update_readme.py:104-105 | Neither stamp block holds a backslash. |
| ReadmeUpdater.StampAsWritten | scripts/update_readme.py:118-119 | The source's first two replacements are the literal ones: it fails where the literal run fails, and otherwise goes on from the same text. |
| ReadmeUpdater.RefreshAgreesWithoutBackslash | scripts/update_readme.py:117-120 | Without a backslash in the commit section, the source's run and the corrected run give the same result. |
| ReadmeUpdater.RefreshAsWrittenErrors | scripts/update_readme.py:117-120 | As written, the run fails with the template error exactly when both stamps were written and the commit block does not compile. Every other failure is the corrected run's missing-markers error. |
| ReadmeUpdater.RefreshAsWrittenRejectsEscape | scripts/update_readme.py:90-120 | As written, once both stamps are written, a commit message holding `\d` makes the run fail with the template error. |
| ReadmeUpdater.RefreshErrors | scripts/update_readme.py:117-120 | With the corrected insertion, the run fails with the version markers' error exactly when the README has no version span. Any failure is one of the three missing-marker errors. |
| ReadmeUpdater.RefreshPlacesSection | scripts/update_readme.py:120 | With the corrected insertion, a successful run leaves the freshly built commit section between its markers, findable again. |
| ReadmeUpdater.PlaceholderPlain | scripts/update_readme.py:92 | The placeholder line holds no backslash, so reading it as a template leaves it unchanged. |
| ReadmeUpdater.FailedFetchIsEmptyFetch | scripts/update_readme.py:108-115 | In the source's run, a caught HTTP or network error gives the same README as an empty commit list and as the literal run, with the placeholder as the section. |
| ReadmeUpdater.FailedFetchShowsPlaceholder | scripts/update_readme.py:108-120 | After a failed fetch, a successful run of the source's own `RefreshAsWritten` shows the placeholder between the commit markers. |
| ReadmeUpdater.VersionStageIdempotent | scripts/update_readme.py:118 | Writing the same version token twice gives the same README as writing it once. |
| ReadmeUpdater.LastUpdatedStageIdempotent | scripts/update_readme.py:119 | Writing the same last-updated stamp twice gives the same README as writing it once. |
| ReadmeUpdater.CommitStageIdempotent | scripts/update_readme.py:120 | Writing the same commit section twice gives the same README as writing it once, when no commit brings the end marker into it. |

## Left out

- Reading and writing `README.md`, the HTTP request and its headers, the
  `GITHUB_TOKEN`/`GH_TOKEN` and `TARGET_USERNAME` variables, the messages on
  stderr and the exit code are not modelled. I/O and the environment are
  outside a pure model.
- The clock becomes two `DateTime` parameters, because `main` reads
  `utcnow()` twice and the two readings may differ.
- The fetch's outcome becomes a parameter (`FetchOutcome`), because the
  network is outside the model.
- `json.loads` is left out, and the decoded events are a datatype whose
  fields may be missing (`Option`). JSON values of an unexpected type (a
  number where a string is expected, and so on) are not represented.
- Timestamps.IsoToHuman: only the canonical `YYYY-MM-DDTHH:MM:SSZ` shape
  parses. The other shapes `fromisoformat` accepts (fractions of seconds,
  other offsets, week dates, a missing time) are treated as unparsable and
  returned unchanged, because the full ISO-8601 grammar is outside the model.
- Text.FirstLine: only the first element of `splitlines()` is modelled, since
  the source uses nothing else.
- ReadmeBlocks.ReplaceBlock requires the two markers not to be both empty.
  An empty pattern matches at every position, and the script's markers are
  never empty.
- ReadmeBlocks.ReplaceBlockIdempotent requires a non-empty end marker without
  a line feed, and a replacement that does not contain the end marker. Without
  these, a second run can match a different span.
- ReadmeUpdater.CommitStageIdempotent requires that no commit message brings
  the end marker into the section. A message containing
  `<!--/RECENT_COMMITS-->` would make the next run cut the section short.
- ReadmeUpdater.RefreshErrors: describes `main` with the corrected, literal
  insertion (see Findings). As written, a commit message with a bad escape
  adds the template error (`RefreshAsWrittenErrors`,
  `RefreshAsWrittenRejectsEscape`). The two runs agree when the section holds
  no backslash (`RefreshAgreesWithoutBackslash`).
- ReadmeUpdater.RefreshPlacesSection: describes `main` with the corrected,
  literal insertion. As written, an escape such as `\n` in a commit message is
  decoded before the block is placed (`EscapeAltersText`). The two runs agree
  when the section holds no backslash.
- ReadmeUpdater.CommitStageIdempotent: describes the corrected, literal
  insertion. As written, a `\g<0>` in a commit message copies the old span
  into the new block, and a second run then writes a different text.
- Idempotence of the whole of `main` is not stated. The three blocks can be
  nested or interleaved in a README, and one replacement can then remove
  another block's markers. Each of the three replacements is proved
  idempotent on its own.
- `ReplaceBlockAsWritten` models the template escapes that `re` knows for a
  pattern without groups. Named and numbered groups other than `\g<0>` are
  treated as errors, which is what `re` does when the pattern has no groups.

## Findings

| source | as written | input that shows it | evidently intended | confidence | as-written member | corrected member |
|---|---|---|---|---|---|---|
| scripts/update_readme.py:83-84 | The new block is passed to `pattern.subn` as a replacement template, so the backslashes in it are read as escapes. | A commit message containing `\d` makes `re` raise an error and the run fails. A message containing `C:\new` reaches the README with a line feed in place of `\n`. | The block is inserted literally, for example with a function as the replacement or with the backslashes escaped. | high; not executed | ReadmeBlocks.BadEscapeFails | ReadmeBlocks.ReplaceBlockIdempotent |
