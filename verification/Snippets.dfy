/** Snippet application: marks, selection and indentation
    (src/core/snippet_manager.cpp). Lengths stay below the range of int, in
    which the program keeps its cursor offset. */
module Snippets {
  import opened Records
  import opened Text

  datatype ApplyResult = ApplyResult(text: string, cursor: int)

  /** The caret is unset or lies within the text. */
  predicate CursorWithin(cursor: int, text: string) {
    cursor == -1 || 0 <= cursor <= |text|
  }

  // ---- ReplaceAll ----

  method ReplaceAll(text: string, mark: string, replacement: string) returns (r: string)
    ensures r == Replaced(text, mark, replacement)
  {
    r := text;
    if mark == "" { return; }
    var pos := 0;
    ghost var done, rest, goal := "", text, Replaced(text, mark, replacement);
    while true
      invariant r == done + rest && pos == |done|
      invariant mark != "" && done + Replaced(rest, mark, replacement) == goal
      decreases |rest|
    {
      SplitFinds(done, rest, mark);
      var i := Find(r, mark, pos);
      if i == -1 { return; }
      done, rest := ReplacedStep(r, i, done, rest, mark, replacement);
      r := r[..i] + replacement + r[i + |mark|..];
      pos := i + |replacement|;
    }
  }

  lemma ReplacedStep(r: string, i: nat, done: string, rest: string, mark: string, replacement: string)
    returns (done': string, rest': string)
    requires mark != "" && r == done + rest && Split(rest, mark).Some? && i == |done| + |Split(rest, mark).value.0|
    ensures i + |mark| <= |r| && r[..i] + replacement + r[i + |mark|..] == done' + rest'
    ensures |done'| == i + |replacement| && |rest'| < |rest|
    ensures done + Replaced(rest, mark, replacement) == done' + Replaced(rest', mark, replacement)
  {
    var (a, b) := Split(rest, mark).value;
    done', rest' := (done + a) + replacement, b;
    SplitParts(rest, mark);
    SliceAround(done, a, mark, b);
    JoinFirst(a, Pieces(b, mark), replacement);
    Assoc(done, a, replacement + Replaced(b, mark, replacement));
    Assoc(done + a, replacement, Replaced(b, mark, replacement));
  }

  lemma SliceAround(done: string, a: string, mark: string, b: string)
    ensures var r, i := done + (a + (mark + b)), |done| + |a|;
            i + |mark| <= |r| && r[..i] == done + a && r[i + |mark|..] == b
  {
  }

  /** The text with its marks, found left to right, exchanged. */
  function Replaced(text: string, mark: string, replacement: string): string {
    if mark == "" then text else Join(Pieces(text, mark), replacement)
  }

  // ---- Indentation ----

  /** Line by line: each line that starts after a newline gets the indentation. */
  function Indented(s: string, indentation: string): string
    decreases |s|
  {
    match Split(s, "\n")
    case None => s
    case Some((a, b)) => if b == "" then s else a + ("\n" + (indentation + Indented(b, indentation)))
  }

  function IndentedPieces(lines: seq<string>, indentation: string): (r: seq<string>)
    requires |lines| > 0
    ensures |r| == |lines|
  {
    seq(|lines|, k requires 0 <= k < |lines| =>
      if k == 0 || (k == |lines| - 1 && lines[k] == "") then lines[k] else indentation + lines[k])
  }

  /** In terms of lines: the first line stays, an empty line at the very end
      stays, every other line is indented, and none is added or lost. */
  lemma {:induction false} IndentedLines(s: string, indentation: string)
    ensures Indented(s, indentation) == Join(IndentedPieces(Pieces(s, "\n"), indentation), "\n")
    decreases |s|
  {
    if Split(s, "\n").Some? {
      var (a, b) := Split(s, "\n").value;
      SplitParts(s, "\n");
      if b == "" {
        assert Pieces("", "\n") == [""];
        LastLineEmpty(a, indentation);
      } else {
        IndentedLines(b, indentation);
        LaterLines(a, b, indentation);
      }
    }
  }

  lemma LastLineEmpty(a: string, indentation: string)
    ensures Join(IndentedPieces([a] + [""], indentation), "\n") == a + ("\n" + "")
  {
    assert IndentedPieces([a] + [""], indentation) == [a] + [""];
    JoinFirst(a, [""], "\n");
  }

  lemma LaterLines(a: string, b: string, indentation: string)
    requires b != ""
    ensures Join(IndentedPieces([a] + Pieces(b, "\n"), indentation), "\n")
            == a + ("\n" + (indentation + Join(IndentedPieces(Pieces(b, "\n"), indentation), "\n")))
  {
    var tail := Pieces(b, "\n");
    var lines := [a] + tail;
    var out, inner := IndentedPieces(lines, indentation), IndentedPieces(tail, indentation);
    assert |tail| == 1 ==> tail[0] != "";
    assert out == [a] + ([indentation + inner[0]] + inner[1..]);
    JoinFirst(a, [indentation + inner[0]] + inner[1..], "\n");
    JoinPrefix(indentation, inner, "\n");
  }

  lemma JoinPrefix(prefix: string, pieces: seq<string>, sep: string)
    requires |pieces| > 0
    ensures Join([prefix + pieces[0]] + pieces[1..], sep) == prefix + Join(pieces, sep)
  {
    if |pieces| > 1 {
      JoinFirst(prefix + pieces[0], pieces[1..], sep);
      Assoc(prefix, pieces[0], sep + Join(pieces[1..], sep));
    }
  }

  method IndentLines(content: string, indentation: string) returns (result: string)
    ensures result == Indented(content, indentation)
  {
    result := "";
    var start, firstLine := 0, true;
    ghost var done, rest, goal := "", content, Indented(content, indentation);
    while start < |content|
      invariant content == done + rest && start == |done|
      invariant if rest == "" then result == goal
                else (if firstLine then result else result + indentation) + Indented(rest, indentation) == goal
    {
      SplitFinds(done, rest, "\n");
      var nl := Find(content, "\n", start);
      if !firstLine { result := result + indentation; }
      if nl == -1 {
        assert content[start..] == rest;
        result := result + content[start..];
        return;
      }
      ghost var a, b := Split(rest, "\n").value.0, Split(rest, "\n").value.1;
      IndentedStep(done, rest, indentation, a, b, result);
      result := result + content[start..nl + 1];
      start, firstLine := nl + 1, false;
      done, rest := done + (a + "\n"), b;
    }
  }

  lemma IndentedStep(done: string, rest: string, indentation: string, a: string, b: string, result: string)
    requires Split(rest, "\n") == Some((a, b))
    ensures var content, nl := done + rest, |done| + |a|;
            nl < |content| && content[|done|..nl + 1] == a + "\n" && content == (done + (a + "\n")) + b
    ensures result + Indented(rest, indentation) ==
            if b == "" then result + (a + "\n") else ((result + (a + "\n")) + indentation) + Indented(b, indentation)
  {
    SplitParts(rest, "\n");
    Assoc(a, "\n", b);
    Assoc(done, a + "\n", b);
    LineOf(done, a + "\n", b);
    if b == "" {
      assert rest == a + "\n";
    } else {
      var inner := indentation + Indented(b, indentation);
      Assoc(a, "\n", inner);
      Assoc(result, a + "\n", inner);
      Assoc(result + (a + "\n"), indentation, Indented(b, indentation));
    }
  }

  lemma LineOf(done: string, line: string, b: string)
    ensures ((done + line) + b)[|done|..|done| + |line|] == line
  {
  }

  /** Leading blanks of the line that holds `pos`. */
  method ExtractIndentation(text: string, pos: nat) returns (indentation: string)
    requires pos <= |text|
    ensures indentation == IndentationAt(text, pos)
  {
    var lineStart := pos;
    while lineStart > 0 && text[lineStart - 1] != '\n'
      invariant 0 <= lineStart <= pos && LineStart(text, lineStart) == LineStart(text, pos)
    {
      lineStart := lineStart - 1;
    }
    var i := lineStart;
    while i < |text| && (text[i] == ' ' || text[i] == '\t')
      invariant lineStart <= i <= |text| && i + BlankCount(text, i) == lineStart + BlankCount(text, lineStart)
    {
      i := i + 1;
    }
    indentation := text[lineStart..i];
  }

  function LineStart(text: string, pos: nat): (r: nat)
    requires pos <= |text|
    ensures r <= pos
  {
    if pos == 0 || text[pos - 1] == '\n' then pos else LineStart(text, pos - 1)
  }

  /** The line of `pos` starts behind the last newline before it. */
  lemma {:induction false} LineStartsBehindNewline(text: string, pos: nat)
    requires pos <= |text|
    ensures var r := LineStart(text, pos);
            (r == 0 || text[r - 1] == '\n') && forall k :: r <= k < pos ==> text[k] != '\n'
  {
    if pos > 0 && text[pos - 1] != '\n' { LineStartsBehindNewline(text, pos - 1); }
  }

  /** How many blanks stand at the start. */
  function BlankCount(s: string, from: nat): (n: nat)
    requires from <= |s|
    ensures from + n <= |s|
    ensures forall k :: from <= k < from + n ==> s[k] == ' ' || s[k] == '\t'
    ensures from + n < |s| ==> s[from + n] != ' ' && s[from + n] != '\t'
    decreases |s| - from
  {
    if from == |s| || (s[from] != ' ' && s[from] != '\t') then 0 else 1 + BlankCount(s, from + 1)
  }

  function IndentationAt(text: string, pos: nat): string
    requires pos <= |text|
  {
    var start := LineStart(text, pos);
    text[start..start + BlankCount(text, start)]
  }

  /** The line of `pos` starts at `from`, and these are all its leading blanks. */
  ghost predicate IsIndentation(text: string, pos: nat, from: nat, blanks: string) {
    && from <= pos <= |text| && (from == 0 || text[from - 1] == '\n') && '\n' !in text[from..pos]
    && blanks <= text[from..] && (forall c :: c in blanks ==> c == ' ' || c == '\t')
    && (from + |blanks| < |text| ==> text[from + |blanks|] !in {' ', '\t'})
  }

  lemma IndentationIsTheBlanks(text: string, pos: nat)
    requires pos <= |text|
    ensures IsIndentation(text, pos, LineStart(text, pos), IndentationAt(text, pos))
  {
    LineStartsBehindNewline(text, pos);
  }

  /** There is only one such place and one such run of blanks. */
  lemma IndentationIsUnique(text: string, pos: nat, from: nat, blanks: string)
    requires IsIndentation(text, pos, from, blanks)
    ensures from == LineStart(text, pos) && blanks == IndentationAt(text, pos)
  {
    LineStartsBehindNewline(text, pos);
    forall k | from <= k < pos ensures text[k] != '\n' { assert text[k] in text[from..pos]; }
    forall i | 0 <= i < |blanks| ensures text[from + i] == blanks[i] && text[from + i] in {' ', '\t'} {
      assert blanks[i] == text[from..][i] && blanks[i] in blanks;
    }
    assert blanks == text[from..from + |blanks|];
  }

  // ---- Marks ----

  /** The text before and behind the caret: cut at the first cursor mark, if any. */
  function Halves(text: string, cursorMark: string): (string, string) {
    if cursorMark == "" || Split(text, cursorMark).None? then (text, "") else Split(text, cursorMark).value
  }

  /** What ApplySnippetRaw computes: indent, split at the first cursor mark,
      exchange the selection marks on both sides. */
  function AppliedRaw(content: string, selected: string, indentation: string,
                      cursorMark: string, selectionMark: string, indentFirst: bool): (r: ApplyResult)
    ensures CursorWithin(r.cursor, r.text)
  {
    if content == "" then ApplyResult("", -1)
    else
      var text := if indentFirst && indentation != "" then Indented(content, indentation) else content;
      var halves := Halves(text, cursorMark);
      var first, second := Replaced(halves.0, selectionMark, selected), Replaced(halves.1, selectionMark, selected);
      ApplyResult(first + second, |first|)
  }

  method ApplySnippetRaw(content: string, selected: string, indentation: string,
                         cursorMark: string, selectionMark: string, indentFirst: bool) returns (r: ApplyResult)
    ensures r == AppliedRaw(content, selected, indentation, cursorMark, selectionMark, indentFirst)
  {
    if content == "" { return ApplyResult("", -1); }
    var applied := content;
    if indentFirst && indentation != "" { applied := IndentLines(content, indentation); }
    var first, second := SplitAtMark(applied, cursorMark);
    if selectionMark != "" {
      first := ReplaceAll(first, selectionMark, selected);
      second := ReplaceAll(second, selectionMark, selected);
    }
    r := ApplyResult(first + second, |first|);
  }

  /** The program's search and its two substrings. */
  lemma CutAtMark(text: string, mark: string)
    requires mark != ""
    ensures Split(text, mark).None? ==> Find(text, mark, 0) == -1
    ensures Split(text, mark).Some? ==>
              var (a, b) := Split(text, mark).value;
              && Find(text, mark, 0) == |a| && |a| + |mark| <= |text|
              && text[..|a|] == a && text[|a| + |mark|..] == b
  {
    SplitFinds("", text, mark);
    assert "" + text == text;
    if Split(text, mark).Some? {
      SplitParts(text, mark);
      SliceAround("", Split(text, mark).value.0, mark, Split(text, mark).value.1);
    }
  }

  method SplitAtMark(text: string, cursorMark: string) returns (first: string, second: string)
    ensures first == Halves(text, cursorMark).0 && second == Halves(text, cursorMark).1
  {
    first, second := text, "";
    if cursorMark != "" {
      CutAtMark(text, cursorMark);
      var at := Find(text, cursorMark, 0);
      if at != -1 { first, second := text[..at], text[at + |cursorMark|..]; }
    }
  }

  /** The text that the marks are looked for in. */
  function Template(content: string, indentation: string, indentFirst: bool): string {
    if indentFirst && indentation != "" then Indented(content, indentation) else content
  }

  /** `mark` stands nowhere in any of the pieces. */
  ghost predicate MarkFree(pieces: seq<string>, mark: string) {
    forall p, k: nat :: p in pieces ==> !At(p, mark, k)
  }

  /** The text reads `left`, cursor mark, `right` with the selection mark between
      the pieces on both sides; without a cursor mark `left` is all of it. */
  ghost predicate Reads(text: string, left: seq<string>, right: seq<string>, cursorMark: string,
                        selectionMark: string) {
    && left != [] && right != [] && MarkFree(left, selectionMark) && MarkFree(right, selectionMark)
    && (forall k: nat :: cursorMark != "" && At(text, cursorMark, k) ==> |Join(left, selectionMark)| <= k)
    && if cursorMark != "" && exists k: nat :: At(text, cursorMark, k) then
         text == Join(left, selectionMark) + (cursorMark + Join(right, selectionMark))
       else text == Join(left, selectionMark) && right == [""]
  }

  /** Every selection mark on either side of the caret is exchanged, and what
      stands between the marks stays as it is and where it is. */
  lemma MarksAreExchanged(content: string, selected: string, indentation: string, cursorMark: string,
                          selectionMark: string, indentFirst: bool) returns (left: seq<string>, right: seq<string>)
    requires content != "" && selectionMark != ""
    ensures Reads(Template(content, indentation, indentFirst), left, right, cursorMark, selectionMark)
    ensures var r := AppliedRaw(content, selected, indentation, cursorMark, selectionMark, indentFirst);
            && 0 <= r.cursor <= |r.text|
            && r.text[..r.cursor] == Join(left, selected) && r.text[r.cursor..] == Join(right, selected)
  {
    var text := Template(content, indentation, indentFirst);
    var halves := Halves(text, cursorMark);
    left, right := Pieces(halves.0, selectionMark), Pieces(halves.1, selectionMark);
    PiecesAreMarkFree(halves.0, selectionMark);
    PiecesAreMarkFree(halves.1, selectionMark);
    var first, second := Join(left, selected), Join(right, selected);
    assert (first + second)[..|first|] == first && (first + second)[|first|..] == second;
    if cursorMark != "" {
      SplitIsFirst(text, cursorMark);
      if Split(text, cursorMark).Some? {
        SplitParts(text, cursorMark);
        SliceAround("", halves.0, cursorMark, halves.1);
        assert At(text, cursorMark, |halves.0|);
      }
    }
  }

  lemma PiecesAreMarkFree(s: string, mark: string)
    requires mark != ""
    ensures MarkFree(Pieces(s, mark), mark) && Join(Pieces(s, mark), mark) == s
  {
    PiecesDecompose(s, mark);
    forall p, k: nat | p in Pieces(s, mark) ensures !At(p, mark, k) { SplitIsFirst(p, mark); }
  }

  /** The length of what a side becomes, by the number of its marks. */
  lemma {:induction false} JoinLength(pieces: seq<string>, mark: string, selected: string)
    requires pieces != []
    ensures |Join(pieces, selected)| == |Join(pieces, mark)| + (|pieces| - 1) * (|selected| - |mark|)
  {
    if |pieces| > 1 { JoinLength(pieces[1..], mark, selected); }
  }

  /** Without a selection mark in play the split is exact: the text before the
      caret, the mark and the text after it make up the content. */
  lemma CaretSplitsContent(content: string, selected: string, indentation: string, cursorMark: string)
    requires content != "" && cursorMark != ""
    ensures var r := AppliedRaw(content, selected, indentation, cursorMark, "", false);
            if Split(content, cursorMark).None? then r.text == content && r.cursor == |content|
            else r.text[..r.cursor] + (cursorMark + r.text[r.cursor..]) == content
                 && Split(r.text[..r.cursor], cursorMark).None?
  {
    if Split(content, cursorMark).Some? {
      var (a, b) := Split(content, cursorMark).value;
      SplitParts(content, cursorMark);
      NoMarkBefore(content, cursorMark);
      assert (a + b)[..|a|] == a && (a + b)[|a|..] == b;
    } else {
      assert content + "" == content;
    }
  }
}
