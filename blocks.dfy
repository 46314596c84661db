/**
 * `replace_block`: every span of the README that runs from a start marker to
 * the nearest end marker after it is replaced by the start marker, a line
 * feed, the new text, a line feed and the end marker; when no span exists the
 * updater fails with its own error.
 *
 * The regular expression `escape(start) .*? escape(end)` with DOTALL is
 * modelled by plain substring search: a match begins at the first occurrence
 * of the start marker and ends at the nearest end marker after it, and
 * `subn` repeats this on the rest of the text after each match.
 *
 * `subn` reads its replacement as a template in which backslashes are
 * escapes. The model keeps that reading as `ReplaceBlockAsWritten`; the rest
 * of the model uses `ReplaceBlock`, which inserts the new block literally.
 */
module ReadmeBlocks {
  import opened Wrappers
  import Timestamps

  // ---- Substring search ----

  /** `p` occurs in `s` at position `j`. */
  predicate IsAt(s: string, p: string, j: int) {
    0 <= j && j + |p| <= |s| && s[j..j + |p|] == p
  }

  ghost predicate Occurs(s: string, p: string) {
    exists j :: IsAt(s, p, j)
  }

  /** The first occurrence of `p` in `s` at or after `from` (its properties: `IndexFromSpec`). */
  function IndexFrom(s: string, p: string, from: nat): (r: Option<nat>)
    ensures r.Some? ==> from <= r.value && r.value + |p| <= |s|
    decreases |s| - from
  {
    if from + |p| > |s| then None
    else if s[from..from + |p|] == p then Some(from)
    else IndexFrom(s, p, from + 1)
  }

  /** `IndexFrom` finds an occurrence with none before it, and finds nothing only when there is none. */
  lemma {:induction false} IndexFromSpec(s: string, p: string, from: nat)
    ensures IndexFrom(s, p, from).Some? ==>
      && IsAt(s, p, IndexFrom(s, p, from).value)
      && (forall j :: from <= j < IndexFrom(s, p, from).value ==> !IsAt(s, p, j))
    ensures IndexFrom(s, p, from).None? ==> forall j :: from <= j ==> !IsAt(s, p, j)
    decreases |s| - from
  {
    if from + |p| <= |s| && s[from..from + |p|] != p {
      IndexFromSpec(s, p, from + 1);
    }
  }

  /** An occurrence with nothing like it before is the one `IndexFrom` finds. */
  lemma {:induction false} IndexFromIs(s: string, p: string, from: nat, y: nat)
    requires from <= y && IsAt(s, p, y)
    requires forall j :: from <= j < y ==> !IsAt(s, p, j)
    ensures IndexFrom(s, p, from) == Some(y)
    decreases y - from
  {
    if from < y {
      assert !IsAt(s, p, from);
      IndexFromIs(s, p, from + 1, y);
    }
  }

  /** Some start marker is followed, somewhere after its end, by an end marker. */
  ghost predicate HasSpan(s: string, start: string, end: string) {
    exists i, k :: IsAt(s, start, i) && i + |start| <= k && IsAt(s, end, k)
  }

  /**
   * The match `escape(start) .*? escape(end)` finds first, as the positions of
   * its start marker and of its end marker (its properties: `FindSpanSpec`).
   */
  function FindSpan(s: string, start: string, end: string): (r: Option<(nat, nat)>)
    ensures r.Some? ==> r.value.0 + |start| <= r.value.1 && r.value.1 + |end| <= |s|
  {
    match IndexFrom(s, start, 0)
    case None => None
    case Some(i) =>
      match IndexFrom(s, end, i + |start|)
      case None => None
      case Some(k) => Some((i, k))
  }

  /**
   * A match begins at the leftmost start marker and the lazy `.*?` stops at
   * the nearest end marker after it.
   */
  lemma {:induction false} FindSpanSpec(s: string, start: string, end: string)
    ensures var r := FindSpan(s, start, end);
      r.Some? ==>
      && IsAt(s, start, r.value.0) && IsAt(s, end, r.value.1)
      && (forall j :: 0 <= j < r.value.0 ==> !IsAt(s, start, j))
      && (forall j :: r.value.0 + |start| <= j < r.value.1 ==> !IsAt(s, end, j))
  {
    IndexFromSpec(s, start, 0);
    var first := IndexFrom(s, start, 0);
    if first.Some? {
      IndexFromSpec(s, end, first.value + |start|);
    }
  }

  /**
   * There is a match exactly when some start marker has an end marker after
   * it: if the leftmost start marker has no end marker after it, no later one
   * has either.
   */
  lemma {:induction false} FindSpanIffSpan(s: string, start: string, end: string)
    ensures FindSpan(s, start, end).None? <==> !HasSpan(s, start, end)
  {
    IndexFromSpec(s, start, 0);
    var first := IndexFrom(s, start, 0);
    if first.Some? {
      IndexFromSpec(s, end, first.value + |start|);
    }
    if FindSpan(s, start, end).Some? {
      var r := FindSpan(s, start, end).value;
      assert IsAt(s, start, r.0) && r.0 + |start| <= r.1 && IsAt(s, end, r.1);
    }
  }

  // ---- Substitution ----

  /** A piece of a compiled replacement: literal text, or the text of the whole match (`\g<0>`). */
  datatype TemplatePiece = Literal(text: string) | WholeMatch

  /** The text a compiled replacement produces for one match. */
  function Instantiate(pieces: seq<TemplatePiece>, whole: string): string {
    if pieces == [] then ""
    else
      (match pieces[0] case Literal(t) => t case WholeMatch => whole) + Instantiate(pieces[1..], whole)
  }

  /**
   * `pattern.subn(...)`: the text with every match replaced, left to right
   * and without overlap, and the number of matches.
   */
  function SubstituteAll(s: string, start: string, end: string, pieces: seq<TemplatePiece>): (string, nat)
    requires |start| + |end| > 0
    decreases |s|
  {
    match FindSpan(s, start, end)
    case None => (s, 0)
    case Some((i, k)) =>
      var rest := SubstituteAll(s[k + |end|..], start, end, pieces);
      (s[..i] + Instantiate(pieces, s[i..k + |end|]) + rest.0, rest.1 + 1)
  }

  /** No match leaves the text as it is; otherwise at least one replacement is counted. */
  lemma {:induction false} SubstituteCount(s: string, start: string, end: string, pieces: seq<TemplatePiece>)
    requires |start| + |end| > 0
    ensures SubstituteAll(s, start, end, pieces).1 == 0 <==> FindSpan(s, start, end).None?
    ensures FindSpan(s, start, end).None? ==> SubstituteAll(s, start, end, pieces).0 == s
  {
  }

  /** `f"{start}\n{replacement}\n{end}"` */
  function Block(start: string, end: string, replacement: string): string {
    start + "\n" + replacement + "\n" + end
  }

  /** `ReadmeUpdaterError` for missing markers, and the exception `re` raises for a malformed replacement template. */
  datatype ReplaceError = MissingMarkers(start: string, end: string) | BadTemplate

  /** `replace_block` with the new block inserted literally (its outcome: `ReplaceBlockFails`). */
  function ReplaceBlock(content: string, start: string, end: string, replacement: string): Result<string, ReplaceError>
    requires |start| + |end| > 0
  {
    var (text, count) := SubstituteAll(content, start, end, [Literal(Block(start, end, replacement))]);
    if count == 0 then Failure(MissingMarkers(start, end)) else Success(text)
  }

  /** The update fails, with the missing-markers error, exactly when no start marker has an end marker after it. */
  lemma {:induction false} ReplaceBlockFails(content: string, start: string, end: string, replacement: string)
    requires |start| + |end| > 0
    ensures ReplaceBlock(content, start, end, replacement).Failure? <==> !HasSpan(content, start, end)
    ensures ReplaceBlock(content, start, end, replacement).Failure? ==>
      ReplaceBlock(content, start, end, replacement).error == MissingMarkers(start, end)
  {
    FindSpanIffSpan(content, start, end);
    SubstituteCount(content, start, end, [Literal(Block(start, end, replacement))]);
  }

  // ---- Properties of ReplaceBlock ----

  lemma {:induction false} IsAtPrefix(s: string, n: nat, q: string, p: nat)
    requires p + |q| <= n <= |s|
    ensures IsAt(s, q, p) <==> IsAt(s[..n], q, p)
  {
    assert s[..n][p..p + |q|] == s[p..p + |q|];
  }

  /** Inside an occurrence of `b` at `i`, `q` occurs at `i + m` exactly when it occurs in `b` at `m`. */
  lemma {:induction false} IsAtShift(s: string, b: string, i: nat, q: string, m: nat)
    requires IsAt(s, b, i) && m + |q| <= |b|
    ensures IsAt(s, q, i + m) <==> IsAt(b, q, m)
  {
    forall t | m <= t < m + |q| ensures s[i + t] == b[t] {
      assert s[i..i + |b|][t] == s[i + t];
    }
    assert s[i + m..i + m + |q|] == b[m..m + |q|];
  }

  lemma {:induction false} InstantiateLiteral(b: string, whole: string)
    ensures Instantiate([Literal(b)], whole) == b
  {
    assert Instantiate([Literal(b)][1..], whole) == "";
  }

  /**
   * The prefix before the first span is kept, and the new block stands where
   * that span began.
   */
  lemma {:induction false} ReplaceBlockPlacesBlock(content: string, start: string, end: string, replacement: string)
    requires |start| + |end| > 0
    requires ReplaceBlock(content, start, end, replacement).Success?
    ensures FindSpan(content, start, end).Some?
    ensures var i := FindSpan(content, start, end).value.0;
      var r := ReplaceBlock(content, start, end, replacement).value;
      i <= |r| && r[..i] == content[..i] && IsAt(r, Block(start, end, replacement), i)
  {
    var b := Block(start, end, replacement);
    var span := FindSpan(content, start, end).value;
    var rest := SubstituteAll(content[span.1 + |end|..], start, end, [Literal(b)]);
    InstantiateLiteral(b, content[span.0..span.1 + |end|]);
    var r := content[..span.0] + b + rest.0;
    assert ReplaceBlock(content, start, end, replacement).value == r;
    assert r[..span.0] == content[..span.0];
    assert r[span.0..span.0 + |b|] == b;
  }

  /** Where the markers and the new text sit inside a block. */
  lemma {:induction false} BlockLayout(start: string, end: string, rep: string)
    ensures var b := Block(start, end, rep);
      && |b| == |start| + |rep| + 2 + |end|
      && IsAt(b, start, 0) && b[|start|] == '\n'
      && IsAt(b, rep, |start| + 1) && b[|start| + |rep| + 1] == '\n'
      && IsAt(b, end, |start| + |rep| + 2)
  {
    var b := Block(start, end, rep);
    assert b[0..|start|] == start;
    assert b[|start| + 1..|start| + 1 + |rep|] == rep;
    assert b[|start| + |rep| + 2..|b|] == end;
  }

  /** After a successful replacement the markers are still there, around the new block. */
  lemma {:induction false} ReplaceBlockKeepsMarkers(content: string, start: string, end: string, replacement: string)
    requires |start| + |end| > 0
    requires ReplaceBlock(content, start, end, replacement).Success?
    ensures HasSpan(ReplaceBlock(content, start, end, replacement).value, start, end)
  {
    ReplaceBlockPlacesBlock(content, start, end, replacement);
    var r := ReplaceBlock(content, start, end, replacement).value;
    var i := FindSpan(content, start, end).value.0;
    var b := Block(start, end, replacement);
    BlockLayout(start, end, replacement);
    IsAtShift(r, b, i, start, 0);
    IsAtShift(r, b, i, end, |b| - |end|);
    assert IsAt(r, start, i) && i + |start| <= i + |b| - |end| && IsAt(r, end, i + |b| - |end|);
  }

  /** A text without a span is left as it is, with no replacement counted. */
  lemma {:induction false} NoSpanUnchanged(s: string, start: string, end: string, pieces: seq<TemplatePiece>)
    requires |start| + |end| > 0 && !HasSpan(s, start, end)
    ensures SubstituteAll(s, start, end, pieces).0 == s && SubstituteAll(s, start, end, pieces).1 == 0
  {
    FindSpanIffSpan(s, start, end);
    SubstituteCount(s, start, end, pieces);
  }

  /** With a single span, the text before and after it is kept unchanged. */
  lemma {:induction false} ReplaceBlockSingleSpan(content: string, start: string, end: string, replacement: string)
    requires |start| + |end| > 0
    requires FindSpan(content, start, end).Some?
    requires !HasSpan(content[FindSpan(content, start, end).value.1 + |end|..], start, end)
    ensures var span := FindSpan(content, start, end).value;
      ReplaceBlock(content, start, end, replacement)
        == Success(content[..span.0] + Block(start, end, replacement) + content[span.1 + |end|..])
  {
    var (i, k) := FindSpan(content, start, end).value;
    var b := Block(start, end, replacement);
    var tail := content[k + |end|..];
    NoSpanUnchanged(tail, start, end, [Literal(b)]);
    SubstituteStep(content, start, end, [Literal(b)], i, k);
    InstantiateLiteral(b, content[i..k + |end|]);
    assert SubstituteAll(content, start, end, [Literal(b)]).0 == content[..i] + b + tail;
    assert SubstituteAll(content, start, end, [Literal(b)]).1 == 1;
  }

  /** A text `pre + b + rest` holds `b` right after `pre`, and gives back `pre` and `rest` around it. */
  lemma {:induction false} ConcatParts(pre: string, b: string, rest: string)
    ensures IsAt(pre + b + rest, b, |pre|)
    ensures (pre + b + rest)[..|pre|] == pre
    ensures (pre + b + rest)[|pre| + |b|..] == rest
  {
    assert (pre + b + rest)[|pre|..|pre| + |b|] == b;
  }

  /**
   * Inside a block, the nearest end marker after the start marker is the
   * block's own, provided that the end marker is non-empty, holds no line
   * feed and does not occur in the new text.
   */
  lemma {:induction false} NoEarlierEndInBlock(start: string, end: string, rep: string, j: nat)
    requires |end| > 0 && '\n' !in end && !Occurs(rep, end)
    requires |start| <= j < |start| + |rep| + 2
    ensures !IsAt(Block(start, end, rep), end, j)
  {
    var b := Block(start, end, rep);
    BlockLayout(start, end, rep);
    var x := |start|;
    var y := |start| + |rep| + 2;
    if j + |end| > |b| {
    } else if j + |end| > y - 1 {
      assert b[j..j + |end|][y - 1 - j] == '\n';
    } else if j == x {
      assert b[j..j + |end|][0] == '\n';
    } else {
      IsAtShift(b, rep, x + 1, end, j - x - 1);
      assert !IsAt(rep, end, j - x - 1);
    }
  }

  /**
   * `b` begins with the start marker, ends with the end marker, and holds no
   * other end marker after its start marker: the shape of a block.
   */
  predicate Framed(b: string, start: string, end: string) {
    && |start| + |end| <= |b|
    && IsAt(b, start, 0)
    && IndexFrom(b, end, |start|) == Some(|b| - |end|)
  }

  /**
   * A block is framed by its markers, provided that the end marker is
   * non-empty, holds no line feed and does not occur in the new text.
   */
  lemma {:induction false} BlockFramed(start: string, end: string, rep: string)
    requires |end| > 0 && '\n' !in end && !Occurs(rep, end)
    ensures Framed(Block(start, end, rep), start, end)
  {
    var b := Block(start, end, rep);
    BlockLayout(start, end, rep);
    forall j | |start| <= j < |b| - |end| ensures !IsAt(b, end, j) {
      NoEarlierEndInBlock(start, end, rep, j);
    }
    IndexFromIs(b, end, |start|, |b| - |end|);
  }

  /** A search inside an occurrence of `q` finds, shifted, what it finds in `q`. */
  lemma {:induction false} IndexFromShift(r: string, q: string, i: nat, p: string, from: nat, y: nat)
    requires IsAt(r, q, i) && from <= y
    requires IndexFrom(q, p, from) == Some(y)
    ensures IndexFrom(r, p, i + from) == Some(i + y)
    decreases y - from
  {
    IsAtShift(r, q, i, p, from);
    if from < y {
      IndexFromShift(r, q, i, p, from + 1, y);
    }
  }

  /** Cutting the text after the occurrence a search finds does not change the search. */
  lemma {:induction false} IndexFromCut(s: string, p: string, from: nat, y: nat, n: nat)
    requires IndexFrom(s, p, from) == Some(y) && y + |p| <= n <= |s|
    ensures IndexFrom(s[..n], p, from) == Some(y)
    decreases y - from
  {
    IsAtPrefix(s, n, p, from);
    if from < y {
      IndexFromCut(s, p, from + 1, y, n);
    }
  }

  /** The first start marker of `s`, seen in the text cut just after it. */
  lemma {:induction false} FirstStartCut(s: string, start: string, i: nat)
    requires IndexFrom(s, start, 0) == Some(i)
    ensures IndexFrom(s[..i] + start, start, 0) == Some(i)
  {
    IndexFromCut(s, start, 0, i, i + |start|);
    assert s[..i + |start|] == s[..i] + start by {
      IndexFromSpec(s, start, 0);
      assert s[i..i + |start|] == start;
      assert s[..i + |start|] == s[..i] + s[i..i + |start|];
    }
  }

  /** In `pre + b + rest` with no start marker in `pre`, the first start marker is the one `b` begins with. */
  lemma {:induction false} StartOfFramed(pre: string, b: string, rest: string, start: string)
    requires |start| <= |b| && IsAt(b, start, 0)
    requires IndexFrom(pre + start, start, 0) == Some(|pre|)
    ensures IndexFrom(pre + b + rest, start, 0) == Some(|pre|)
  {
    var r := pre + b + rest;
    assert IsAt(r, pre + start, 0) by {
      ConcatParts(pre, b, rest);
      IsAtShift(r, b, |pre|, start, 0);
      assert r[..|pre| + |start|] == r[..|pre|] + r[|pre|..|pre| + |start|];
    }
    IndexFromShift(r, pre + start, 0, start, 0, |pre|);
  }

  /** In `pre + b + rest`, the nearest end marker after the start marker of a framed `b` is the one `b` ends with. */
  lemma {:induction false} EndOfFramed(pre: string, b: string, rest: string, start: string, end: string)
    requires Framed(b, start, end)
    ensures IndexFrom(pre + b + rest, end, |pre| + |start|) == Some(|pre| + |b| - |end|)
  {
    ConcatParts(pre, b, rest);
    IndexFromShift(pre + b + rest, b, |pre|, end, |start|, |b| - |end|);
    assert |pre| + (|b| - |end|) == |pre| + |b| - |end|;
  }

  /** In `pre + b + rest` with no start marker in `pre`, the first span is `b` itself. */
  lemma {:induction false} FirstSpanOfFramed(pre: string, b: string, rest: string, start: string, end: string)
    requires Framed(b, start, end)
    requires IndexFrom(pre + start, start, 0) == Some(|pre|)
    ensures FindSpan(pre + b + rest, start, end) == Some((|pre|, |pre| + |b| - |end|))
  {
    StartOfFramed(pre, b, rest, start);
    EndOfFramed(pre, b, rest, start, end);
    FindSpanIs(pre + b + rest, start, end, |pre|, |pre| + |b| - |end|);
  }

  lemma {:induction false} FindSpanIs(s: string, start: string, end: string, i: nat, k: nat)
    requires IndexFrom(s, start, 0) == Some(i) && IndexFrom(s, end, i + |start|) == Some(k)
    ensures FindSpan(s, start, end) == Some((i, k))
  {
  }

  /** One step of `SubstituteAll`: the text up to the first span, its replacement, and the rest substituted. */
  lemma {:induction false} SubstituteStep(s: string, start: string, end: string, pieces: seq<TemplatePiece>, i: nat, k: nat)
    requires |start| + |end| > 0
    requires FindSpan(s, start, end) == Some((i, k))
    ensures SubstituteAll(s, start, end, pieces).0 ==
      s[..i] + Instantiate(pieces, s[i..k + |end|]) + SubstituteAll(s[k + |end|..], start, end, pieces).0
    ensures SubstituteAll(s, start, end, pieces).1 == SubstituteAll(s[k + |end|..], start, end, pieces).1 + 1
  {
  }

  /** Substituting a framed block into a text that holds it after a marker-free prefix puts the same block back. */
  lemma {:induction false} SubstituteOverFramed(pre: string, b: string, rest: string, start: string, end: string)
    requires |start| + |end| > 0
    requires Framed(b, start, end)
    requires IndexFrom(pre + start, start, 0) == Some(|pre|)
    ensures SubstituteAll(pre + b + rest, start, end, [Literal(b)]).0
      == pre + b + SubstituteAll(rest, start, end, [Literal(b)]).0
    ensures SubstituteAll(pre + b + rest, start, end, [Literal(b)]).1
      == SubstituteAll(rest, start, end, [Literal(b)]).1 + 1
  {
    var r := pre + b + rest;
    var i := |pre|;
    var k := i + |b| - |end|;
    FirstSpanOfFramed(pre, b, rest, start, end);
    SubstituteStep(r, start, end, [Literal(b)], i, k);
    ConcatParts(pre, b, rest);
    assert k + |end| == |pre| + |b|;
    assert r[i..k + |end|] == b;
    InstantiateLiteral(b, b);
  }

  /** Substituting the same framed block twice changes nothing the second time, count included. */
  lemma {:induction false} SubstituteIdempotent(s: string, start: string, end: string, b: string)
    requires |start| + |end| > 0 && Framed(b, start, end)
    ensures var r := SubstituteAll(s, start, end, [Literal(b)]);
      SubstituteAll(r.0, start, end, [Literal(b)]).0 == r.0 && SubstituteAll(r.0, start, end, [Literal(b)]).1 == r.1
    decreases |s|
  {
    var pieces := [Literal(b)];
    match FindSpan(s, start, end)
    case None =>
    case Some((i, k)) =>
      var rest := SubstituteAll(s[k + |end|..], start, end, pieces);
      SubstituteIdempotent(s[k + |end|..], start, end, b);
      SubstituteStep(s, start, end, pieces, i, k);
      InstantiateLiteral(b, s[i..k + |end|]);
      assert SubstituteAll(s, start, end, pieces).0 == s[..i] + b + rest.0;
      assert SubstituteAll(s, start, end, pieces).1 == rest.1 + 1;
      assert IndexFrom(s, start, 0) == Some(i);
      FirstStartCut(s, start, i);
      SubstituteOverFramed(s[..i], b, rest.0, start, end);
  }

  /**
   * Running the updater twice gives the same README as running it once,
   * provided the end marker is non-empty, holds no line feed and does not
   * occur in the new text.
   */
  lemma {:induction false} ReplaceBlockIdempotent(content: string, start: string, end: string, replacement: string)
    requires |end| > 0 && '\n' !in end && !Occurs(replacement, end)
    requires ReplaceBlock(content, start, end, replacement).Success?
    ensures ReplaceBlock(ReplaceBlock(content, start, end, replacement).value, start, end, replacement)
      == ReplaceBlock(content, start, end, replacement)
  {
    BlockFramed(start, end, replacement);
    SubstituteIdempotent(content, start, end, Block(start, end, replacement));
  }

  lemma {:induction false} IsAtChar(s: string, c: char, j: nat)
    requires j < |s|
    ensures IsAt(s, [c], j) <==> s[j] == c
  {
    assert s[j..j + 1] == [s[j]];
  }

  /** `[x]` is framed by `[` and `]` when `x` is not `]`. */
  lemma {:induction false} BracketsFramed(x: char)
    requires x != ']'
    ensures Framed([ '[', x, ']' ], "[", "]")
  {
    var b := [ '[', x, ']' ];
    IsAtChar(b, '[', 0);
    IsAtChar(b, ']', 1);
    IsAtChar(b, ']', 2);
    IndexFromIs(b, "]", 1, 2);
  }

  /** A text that starts with `[x]` has that span replaced, and the rest substituted in turn. */
  lemma {:induction false} SubstituteBrackets(x: char, rest: string, b: string)
    requires x != ']'
    ensures SubstituteAll([ '[', x, ']' ] + rest, "[", "]", [Literal(b)]).0
      == b + SubstituteAll(rest, "[", "]", [Literal(b)]).0
    ensures SubstituteAll([ '[', x, ']' ] + rest, "[", "]", [Literal(b)]).1
      == SubstituteAll(rest, "[", "]", [Literal(b)]).1 + 1
  {
    var s := [ '[', x, ']' ];
    BracketSpan(x, rest);
    SubstituteStep(s + rest, "[", "]", [Literal(b)], 0, 2);
    assert (s + rest)[..0] == [] && (s + rest)[0..3] == s && (s + rest)[3..] == rest;
    InstantiateLiteral(b, s);
    assert [] + b + SubstituteAll(rest, "[", "]", [Literal(b)]).0 == b + SubstituteAll(rest, "[", "]", [Literal(b)]).0;
  }

  lemma {:induction false} BracketSpan(x: char, rest: string)
    requires x != ']'
    ensures FindSpan([ '[', x, ']' ] + rest, "[", "]") == Some((0, 2))
  {
    var s := [ '[', x, ']' ];
    BracketsFramed(x);
    IsAtChar("[", '[', 0);
    IndexFromIs([] + "[", "[", 0, 0);
    FirstSpanOfFramed([], s, rest, "[", "]");
    assert [] + s + rest == s + rest;
  }

  lemma {:induction false} BracketLiterals()
    ensures Block("[", "]", "x") == "[\nx\n]"
    ensures "[a][b]" == [ '[', 'a', ']' ] + [ '[', 'b', ']' ]
    ensures "[\nx\n][\nx\n]" == "[\nx\n]" + "[\nx\n]"
  {
  }

  /** Every span is replaced, not only the first. */
  lemma {:induction false} ReplaceBlockAllSpans()
    ensures ReplaceBlock("[a][b]", "[", "]", "x") == Success("[\nx\n][\nx\n]")
  {
    BracketLiterals();
    var b := Block("[", "]", "x");
    var pieces := [Literal(b)];
    var second := [ '[', 'b', ']' ];
    SubstituteBrackets('a', second, b);
    SubstituteBrackets('b', [], b);
    assert second + [] == second;
    assert SubstituteAll([], "[", "]", pieces).0 == [] && SubstituteAll([], "[", "]", pieces).1 == 0;
    assert SubstituteAll(second, "[", "]", pieces).0 == b + [] == b;
    var t := SubstituteAll("[a][b]", "[", "]", pieces);
    assert t.0 == b + b && t.1 == 2;
  }

  // ---- The replacement as a template, as the source passes it ----

  predicate HasBackslash(s: string) {
    '\\' in s
  }

  predicate IsAsciiLetter(c: char) {
    'a' <= c <= 'z' || 'A' <= c <= 'Z'
  }

  predicate IsOctalDigit(c: char) {
    '0' <= c <= '7'
  }

  function OctalDigitValue(c: char): (v: nat)
    requires IsOctalDigit(c)
    ensures v < 8
  {
    c as int - '0' as int
  }

  /** The one-letter escapes a replacement template knows: `\a \b \f \n \r \t \v` and `\\`. */
  function EscapedChar(c: char): Option<char> {
    if c == 'a' then Some('\U{0007}')
    else if c == 'b' then Some('\U{0008}')
    else if c == 'f' then Some('\U{000C}')
    else if c == 'n' then Some('\n')
    else if c == 'r' then Some('\r')
    else if c == 't' then Some('\t')
    else if c == 'v' then Some('\U{000B}')
    else if c == '\\' then Some('\\')
    else None
  }

  function Prepend(piece: TemplatePiece, rest: Option<seq<TemplatePiece>>): Option<seq<TemplatePiece>> {
    match rest
    case None => None
    case Some(pieces) => Some([piece] + pieces)
  }

  /**
   * How `re` compiles a replacement string for a pattern without groups;
   * `None` is the exception it raises. A backslash starts an escape: a known
   * letter escape gives its character, `\0` with up to two more octal digits
   * and a three-digit octal escape up to `\377` give that character,
   * `\g<0>` (any all-zero number) inserts the whole match, any other group
   * reference, any other ASCII letter and a trailing backslash are errors,
   * and a backslash before any other character is kept as it is.
   */
  function ParseTemplate(t: string): Option<seq<TemplatePiece>>
    decreases |t|
  {
    if t == [] then Some([])
    else if t[0] != '\\' then Prepend(Literal([t[0]]), ParseTemplate(t[1..]))
    else if |t| == 1 then None
    else if t[1] == 'g' then
      if |t| < 3 || t[2] != '<' then None
      else
        match IndexFrom(t, ">", 3)
        case None => None
        case Some(close) =>
          var name := t[3..close];
          if |name| > 0 && (forall m :: 0 <= m < |name| ==> name[m] == '0')
          then Prepend(WholeMatch, ParseTemplate(t[close + 1..]))
          else None
    else if t[1] == '0' then
      if |t| > 3 && IsOctalDigit(t[2]) && IsOctalDigit(t[3]) then
        Prepend(Literal([(8 * OctalDigitValue(t[2]) + OctalDigitValue(t[3])) as char]), ParseTemplate(t[4..]))
      else if |t| > 2 && IsOctalDigit(t[2]) then
        Prepend(Literal([OctalDigitValue(t[2]) as char]), ParseTemplate(t[3..]))
      else
        Prepend(Literal(['\U{0000}']), ParseTemplate(t[2..]))
    else if Timestamps.IsDigit(t[1]) then
      if |t| > 3 && IsOctalDigit(t[1]) && IsOctalDigit(t[2]) && IsOctalDigit(t[3])
         && 64 * OctalDigitValue(t[1]) + 8 * OctalDigitValue(t[2]) + OctalDigitValue(t[3]) <= 255
      then
        Prepend(Literal([(64 * OctalDigitValue(t[1]) + 8 * OctalDigitValue(t[2]) + OctalDigitValue(t[3])) as char]),
                ParseTemplate(t[4..]))
      else None
    else if EscapedChar(t[1]).Some? then Prepend(Literal([EscapedChar(t[1]).value]), ParseTemplate(t[2..]))
    else if IsAsciiLetter(t[1]) then None
    else Prepend(Literal(t[..2]), ParseTemplate(t[2..]))
  }

  /** `replace_block` as the source writes it: the new block is compiled as a template first. */
  function ReplaceBlockAsWritten(content: string, start: string, end: string, replacement: string): Result<string, ReplaceError>
    requires |start| + |end| > 0
  {
    match ParseTemplate(Block(start, end, replacement))
    case None => Failure(BadTemplate)
    case Some(pieces) =>
      var (text, count) := SubstituteAll(content, start, end, pieces);
      if count == 0 then Failure(MissingMarkers(start, end)) else Success(text)
  }

  /**
   * The source's version fails with the template error exactly when the new
   * block does not compile, and otherwise with the missing-markers error
   * exactly when no start marker has an end marker after it.
   */
  lemma {:induction false} AsWrittenErrors(content: string, start: string, end: string, replacement: string)
    requires |start| + |end| > 0
    ensures ReplaceBlockAsWritten(content, start, end, replacement) == Failure(BadTemplate)
      <==> ParseTemplate(Block(start, end, replacement)).None?
    ensures ReplaceBlockAsWritten(content, start, end, replacement) == Failure(MissingMarkers(start, end))
      <==> ParseTemplate(Block(start, end, replacement)).Some? && !HasSpan(content, start, end)
  {
    FindSpanIffSpan(content, start, end);
    var t := ParseTemplate(Block(start, end, replacement));
    if t.Some? {
      SubstituteCount(content, start, end, t.value);
    }
  }

  /** Text without a backslash compiles to pieces that reproduce it. */
  lemma {:induction false} ParseLiteral(t: string)
    requires !HasBackslash(t)
    ensures ParseTemplate(t).Some?
    ensures forall w :: Instantiate(ParseTemplate(t).value, w) == t
    decreases |t|
  {
    if t != [] {
      assert !HasBackslash(t[1..]) by {
        assert forall m :: 0 <= m < |t[1..]| ==> t[1..][m] == t[m + 1];
      }
      ParseLiteral(t[1..]);
      var pieces := ParseTemplate(t).value;
      forall w ensures Instantiate(pieces, w) == t {
        assert pieces[1..] == ParseTemplate(t[1..]).value;
        assert [t[0]] + t[1..] == t;
      }
    }
  }

  lemma {:induction false} HeadThenRest(a: string, tail: string)
    requires a != []
    ensures [a[0]] + (a[1..] + tail) == a + tail
  {
    assert [a[0]] + a[1..] == a;
    assert [a[0]] + (a[1..] + tail) == ([a[0]] + a[1..]) + tail;
  }

  /**
   * A backslash-free prefix does not change whether the rest compiles, and
   * it comes out of the compiled template unchanged in front of the rest.
   */
  lemma {:induction false} ParsePlainPrefix(a: string, x: string)
    requires !HasBackslash(a)
    ensures ParseTemplate(a + x).None? <==> ParseTemplate(x).None?
    ensures ParseTemplate(x).Some? ==>
      forall w :: Instantiate(ParseTemplate(a + x).value, w) == a + Instantiate(ParseTemplate(x).value, w)
    decreases |a|
  {
    if a != [] {
      assert (a + x)[0] == a[0] && (a + x)[1..] == a[1..] + x;
      assert !HasBackslash(a[1..]) by {
        assert forall m :: 0 <= m < |a[1..]| ==> a[1..][m] == a[m + 1];
      }
      ParsePlainPrefix(a[1..], x);
      if ParseTemplate(x).Some? {
        var pieces := ParseTemplate(a + x).value;
        assert pieces[0] == Literal([a[0]]);
        assert pieces[1..] == ParseTemplate(a[1..] + x).value;
        forall w ensures Instantiate(pieces, w) == a + Instantiate(ParseTemplate(x).value, w) {
          var tail := Instantiate(ParseTemplate(x).value, w);
          assert Instantiate(pieces, w) == [a[0]] + (a[1..] + tail);
          HeadThenRest(a, tail);
        }
      }
    } else {
      assert a + x == x;
    }
  }

  /** `\n` followed by backslash-free text compiles to a line feed followed by that text. */
  lemma {:induction false} ParseLineFeedEscape(c: string)
    requires !HasBackslash(c)
    ensures ParseTemplate("\\n" + c).Some?
    ensures forall w :: Instantiate(ParseTemplate("\\n" + c).value, w) == "\n" + c
  {
    var t := "\\n" + c;
    assert t[0] == '\\' && t[1] == 'n' && t[2..] == c;
    ParseLiteral(c);
    var pieces := ParseTemplate(t).value;
    forall w ensures Instantiate(pieces, w) == "\n" + c {
      assert pieces[1..] == ParseTemplate(c).value;
    }
  }

  lemma {:induction false} SubstitutePiecesAgree(s: string, start: string, end: string, p: seq<TemplatePiece>, q: seq<TemplatePiece>)
    requires |start| + |end| > 0
    requires forall w :: Instantiate(p, w) == Instantiate(q, w)
    ensures SubstituteAll(s, start, end, p).0 == SubstituteAll(s, start, end, q).0
    ensures SubstituteAll(s, start, end, p).1 == SubstituteAll(s, start, end, q).1
    decreases |s|
  {
    match FindSpan(s, start, end)
    case None =>
    case Some((i, k)) =>
      SubstitutePiecesAgree(s[k + |end|..], start, end, p, q);
      SubstituteStep(s, start, end, p, i, k);
      SubstituteStep(s, start, end, q, i, k);
      assert Instantiate(p, s[i..k + |end|]) == Instantiate(q, s[i..k + |end|]);
  }

  /** With no backslash in the new block, the source's template reading and the literal one agree. */
  lemma {:induction false} AsWrittenAgreesWithoutBackslash(content: string, start: string, end: string, replacement: string)
    requires |start| + |end| > 0
    requires !HasBackslash(Block(start, end, replacement))
    ensures ReplaceBlockAsWritten(content, start, end, replacement) == ReplaceBlock(content, start, end, replacement)
  {
    var b := Block(start, end, replacement);
    ParseLiteral(b);
    forall w ensures Instantiate(ParseTemplate(b).value, w) == Instantiate([Literal(b)], w) {
      InstantiateLiteral(b, w);
    }
    SubstitutePiecesAgree(content, start, end, ParseTemplate(b).value, [Literal(b)]);
  }

  /**
   * A new text containing `\d`, as a commit message might, makes the source
   * raise `re.error` whether or not the markers are present.
   */
  lemma {:induction false} BadEscapeFails(content: string, start: string, end: string, before: string, after: string)
    requires |start| + |end| > 0
    requires !HasBackslash(start) && !HasBackslash(before)
    ensures ReplaceBlockAsWritten(content, start, end, before + "\\d" + after) == Failure(BadTemplate)
  {
    var a := start + "\n" + before;
    var x := "\\d" + after + "\n" + end;
    assert Block(start, end, before + "\\d" + after) == a + x;
    assert !HasBackslash(a) by {
      assert !HasBackslash("\n");
      assert forall m :: 0 <= m < |a| ==> a[m] in start || a[m] == '\n' || a[m] in before;
    }
    ParsePlainPrefix(a, x);
    assert x[0] == '\\' && x[1] == 'd';
  }

  lemma {:induction false} PlainAroundLineFeed(x: string, z: string)
    requires !HasBackslash(x) && !HasBackslash(z)
    ensures !HasBackslash(x + "\n" + z)
  {
    assert !HasBackslash("\n");
  }

  lemma {:induction false} EscapeLayout(start: string, end: string, before: string, after: string)
    ensures Block(start, end, before + "\\n" + after) == (start + "\n" + before) + ("\\n" + (after + "\n" + end))
    ensures Block(start, end, before + "\n" + after) == (start + "\n" + before) + "\n" + (after + "\n" + end)
  { }

  /**
   * `\n` inside the new text, as in a Windows path `C:\new`, reaches the
   * README as a line feed: the source writes what the literal replacement of
   * the text with that escape already decoded would write.
   */
  lemma {:induction false} EscapeAltersText(content: string, start: string, end: string, before: string, after: string)
    requires |start| + |end| > 0
    requires !HasBackslash(start) && !HasBackslash(end)
    requires !HasBackslash(before) && !HasBackslash(after)
    ensures ReplaceBlockAsWritten(content, start, end, before + "\\n" + after)
         == ReplaceBlock(content, start, end, before + "\n" + after)
  {
    var a := start + "\n" + before;
    var c := after + "\n" + end;
    var written := Block(start, end, before + "\\n" + after);
    var meant := Block(start, end, before + "\n" + after);
    EscapeLayout(start, end, before, after);
    PlainAroundLineFeed(start, before);
    PlainAroundLineFeed(after, end);
    ParseLineFeedEscape(c);
    ParsePlainPrefix(a, "\\n" + c);
    var pieces := ParseTemplate(written).value;
    forall w ensures Instantiate(pieces, w) == Instantiate([Literal(meant)], w) {
      InstantiateLiteral(meant, w);
    }
    SubstitutePiecesAgree(content, start, end, pieces, [Literal(meant)]);
  }
}
