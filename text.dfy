/**
 * The string operations `update_readme.py` borrows from Python: the first
 * element of `str.splitlines()`, and `"\n".join` together with its inverse
 * `str.split("\n")`.
 */
module Text {

  /**
   * The characters `str.splitlines` breaks at: line feed, carriage return
   * (alone or before a line feed), vertical tab, form feed, the file, group
   * and record separators, next line, and the Unicode line and paragraph
   * separators.
   */
  predicate IsLineBoundary(c: char) {
    || c == '\n' || c == '\r' || c == '\U{000B}' || c == '\U{000C}'
    || c == '\U{001C}' || c == '\U{001D}' || c == '\U{001E}' || c == '\U{0085}'
    || c == '\U{2028}' || c == '\U{2029}'
  }

  /**
   * `s.splitlines()[0]` for a non-empty `s`: the longest prefix free of line
   * boundaries. It is empty when `s` starts with a boundary.
   */
  function FirstLine(s: string): (line: string)
    ensures |line| <= |s| && line == s[..|line|]
    ensures forall i :: 0 <= i < |line| ==> !IsLineBoundary(line[i])
    ensures |line| < |s| ==> IsLineBoundary(s[|line|])
  {
    if s == [] || IsLineBoundary(s[0]) then [] else [s[0]] + FirstLine(s[1..])
  }

  /** A string without line boundaries is its own first line. */
  lemma FirstLineWhole(s: string)
    requires forall i :: 0 <= i < |s| ==> !IsLineBoundary(s[i])
    ensures FirstLine(s) == s
  {
    var line := FirstLine(s);
    if |line| < |s| {
      assert false;
    }
  }

  /** `"\n".join(lines)`: the lines separated by single line feeds, no trailing one. */
  function JoinLines(lines: seq<string>): string {
    if |lines| == 0 then ""
    else if |lines| == 1 then lines[0]
    else lines[0] + "\n" + JoinLines(lines[1..])
  }

  /** `s.split("\n")`: the pieces between line feeds; always at least one. */
  function SplitLines(s: string): (pieces: seq<string>)
    ensures |pieces| >= 1
  {
    if s == [] then [""]
    else
      var rest := SplitLines(s[1..]);
      if s[0] == '\n' then [""] + rest else [[s[0]] + rest[0]] + rest[1..]
  }

  predicate NoNewline(s: string) {
    forall i :: 0 <= i < |s| ==> s[i] != '\n'
  }

  lemma {:induction false} SplitLinesSingle(s: string)
    requires NoNewline(s)
    ensures SplitLines(s) == [s]
  {
    if s != [] {
      SplitLinesSingle(s[1..]);
      assert [s[0]] + s[1..] == s;
    }
  }

  lemma {:induction false} SplitLinesAfterLine(x: string, y: string)
    requires NoNewline(x)
    ensures SplitLines(x + "\n" + y) == [x] + SplitLines(y)
  {
    var s := x + "\n" + y;
    if x == [] {
      assert s[0] == '\n' && s[1..] == y;
    } else {
      assert s[0] == x[0] && s[1..] == x[1..] + "\n" + y;
      SplitLinesAfterLine(x[1..], y);
      assert [x[0]] + x[1..] == x;
    }
  }

  /** Splitting a join of newline-free lines at line feeds gives back the lines, in order. */
  lemma {:induction false} SplitJoin(lines: seq<string>)
    requires |lines| >= 1
    requires forall i :: 0 <= i < |lines| ==> NoNewline(lines[i])
    ensures SplitLines(JoinLines(lines)) == lines
  {
    if |lines| == 1 {
      SplitLinesSingle(lines[0]);
    } else {
      SplitJoin(lines[1..]);
      SplitLinesAfterLine(lines[0], JoinLines(lines[1..]));
    }
  }
}
