/** The iterated in-place %name% expansion with its two fuel limits and its
    tracked caret (src/core/snippet_manager.cpp, ExpandSymbols). */
module SymbolExpansion {
  import opened Records
  import opened Text
  import opened Snippets

  const MaxIterations := 1000
  const MaxAtSamePosition := 100

  datatype SnippetData = SnippetData(
    content: string, cursorMark: string, selectionMark: string, indentFirst: bool, builtinDynamic: bool)

  /** What a name may resolve to. A dynamic callback may answer differently at
      every call: its argument is the iteration it is called in. */
  datatype Env = Env(
    overrides: map<string, string>, callbacks: map<string, nat -> string>,
    snippets: map<string, SnippetData>, selected: string)

  /** The text that replaces %name% at `open` in `text`, if the name is known. */
  function Replacement(env: Env, name: string, text: string, open: nat, iteration: nat): Option<string>
    requires open <= |text|
  {
    if name in env.overrides then Some(env.overrides[name])
    else if name in env.callbacks then Some(env.callbacks[name](iteration))
    else if name !in env.snippets || env.snippets[name].builtinDynamic then None
    else
      var s := env.snippets[name];
      Some(AppliedRaw(s.content, env.selected, IndentationAt(text, open),
                      s.cursorMark, s.selectionMark, s.indentFirst).text)
  }

  /** One lookup: a name, and the text, opening position and iteration it is met at. */
  datatype Query = Query(name: string, text: string, open: nat, iteration: nat)

  /** How names resolve. The loop is proved correct for any such function. */
  type Lookup = Query -> Option<string>

  function LookupIn(env: Env): Lookup {
    (q: Query) => if q.open <= |q.text| then Replacement(env, q.name, q.text, q.open, q.iteration) else None
  }

  /** The text of a snippet that is met at `open`: whatever the leading blanks of
      that line are, with them it is the template with its marks exchanged. */
  ghost predicate ReadsAs(s: SnippetData, selected: string, text: string, open: nat, result: string) {
    forall from: nat, blanks :: IsIndentation(text, open, from, blanks) ==>
      result == AppliedRaw(s.content, selected, blanks, s.cursorMark, s.selectionMark, s.indentFirst).text
  }

  lemma ReadsAsApplied(s: SnippetData, selected: string, text: string, open: nat)
    requires open <= |text|
    ensures ReadsAs(s, selected, text, open,
                    AppliedRaw(s.content, selected, IndentationAt(text, open), s.cursorMark, s.selectionMark,
                               s.indentFirst).text)
  {
    forall from: nat, blanks | IsIndentation(text, open, from, blanks)
      ensures blanks == IndentationAt(text, open)
    {
      IndentationIsUnique(text, open, from, blanks);
    }
  }

  method Resolve(env: Env, name: string, text: string, open: nat, iteration: nat) returns (r: Option<string>)
    requires open <= |text|
    ensures r == LookupIn(env)(Query(name, text, open, iteration))
    ensures name in env.overrides ==> r == Some(env.overrides[name])
    ensures name !in env.overrides && name in env.callbacks ==> r == Some(env.callbacks[name](iteration))
    ensures r.None? <==> name !in env.overrides && name !in env.callbacks
                         && (name in env.snippets ==> env.snippets[name].builtinDynamic)
    ensures r.Some? && name !in env.overrides && name !in env.callbacks ==>
              ReadsAs(env.snippets[name], env.selected, text, open, r.value)
  {
    if name in env.overrides { return Some(env.overrides[name]); }
    if name in env.callbacks { return Some(env.callbacks[name](iteration)); }
    if name !in env.snippets { return None; }
    var s := env.snippets[name];
    if s.builtinDynamic { return None; }
    ReadsAsApplied(s, env.selected, text, open);
    var indentation := ExtractIndentation(text, open);
    var raw := ApplySnippetRaw(s.content, env.selected, indentation, s.cursorMark, s.selectionMark, s.indentFirst);
    return Some(raw.text);
  }

  // ---- Pairs ----

  ghost predicate PercentFree(s: string) { '%' !in s }

  /** The first two '%' of a text and what lies around them. */
  datatype Scanned = NoPair | Pair(before: string, name: string, rest: string)

  function Scan(s: string): (r: Scanned)
    ensures r.Pair? ==> |r.rest| < |s|
  {
    match Cut(s)
    case None => NoPair
    case Some((before, tail)) =>
      match Cut(tail)
      case None => NoPair
      case Some((name, rest)) => Pair(before, name, rest)
  }

  /** Cuts a text at its first '%'. */
  function Cut(s: string): (r: Option<(string, string)>)
    ensures r.Some? ==> |r.value.0| + 1 + |r.value.1| == |s|
  {
    if s == "" then None
    else if s[0] == '%' then Some(("", s[1..]))
    else
      match Cut(s[1..])
      case None => None
      case Some((a, b)) => Some(([s[0]] + a, b))
  }

  function Quoted(name: string): string { "%" + name + "%" }

  lemma {:induction false} CutIs(a: string, b: string)
    requires PercentFree(a)
    ensures Cut(a + ("%" + b)) == Some((a, b))
  {
    var s := a + ("%" + b);
    if a == "" {
      assert s == "%" + b;
    } else {
      assert s[1..] == a[1..] + ("%" + b);
      CutIs(a[1..], b);
      assert a == [a[0]] + a[1..];
    }
  }

  lemma {:induction false} CutIsNone(a: string)
    requires PercentFree(a)
    ensures Cut(a) == None
  {
    if a != "" { CutIsNone(a[1..]); }
  }

  lemma {:induction false} CutParts(s: string)
    ensures match Cut(s)
            case None => PercentFree(s)
            case Some((a, b)) => PercentFree(a) && s == a + ("%" + b)
  {
    if s != "" && s[0] != '%' {
      CutParts(s[1..]);
      assert s == [s[0]] + s[1..];
    } else if s != "" {
      assert s == "" + ("%" + s[1..]);
    }
  }

  /** before + %name% + rest, grouped to the right. */
  function Glued(before: string, name: string, rest: string): string {
    before + ("%" + (name + ("%" + rest)))
  }

  lemma GluedIsQuoted(before: string, name: string, rest: string)
    ensures Glued(before, name, rest) == (before + Quoted(name)) + rest
    ensures Glued(before, name, rest) == before + (Quoted(name) + rest)
  {
    Assoc("%" + name, "%", rest);
    Assoc("%", name, "%" + rest);
    Assoc(before, Quoted(name), rest);
  }

  lemma ScanParts(s: string)
    ensures match Scan(s)
            case Pair(before, name, rest) =>
              PercentFree(before) && PercentFree(name) && s == Glued(before, name, rest)
            case NoPair => PercentFree(s) || exists a, b :: PercentFree(a) && PercentFree(b) && s == a + ("%" + b)
  {
    CutParts(s);
    if Cut(s).Some? { CutParts(Cut(s).value.1); }
  }

  lemma ScanIs(before: string, name: string, rest: string)
    requires PercentFree(before) && PercentFree(name)
    ensures Scan(Glued(before, name, rest)) == Pair(before, name, rest)
  {
    CutIs(before, name + ("%" + rest));
    CutIs(name, rest);
  }

  lemma ScanIsNoPair(a: string, b: string)
    requires PercentFree(a) && PercentFree(b)
    ensures Scan(a) == NoPair && Scan(a + ("%" + b)) == NoPair
  {
    CutIsNone(a);
    CutIs(a, b);
    CutIsNone(b);
  }

  /** A %-free prefix only lengthens what stands before the pair. */
  lemma ScanAfterPrefix(p: string, s: string)
    requires PercentFree(p)
    ensures Scan(p + s) == match Scan(s) case NoPair => NoPair case Pair(b, n, t) => Pair(p + b, n, t)
  {
    ScanParts(s);
    match Scan(s)
    case Pair(b, n, t) =>
      Assoc(p, b, "%" + (n + ("%" + t)));
      ScanIs(p + b, n, t);
    case NoPair =>
      if PercentFree(s) {
        CutIsNone(p + s);
      } else {
        var a, b :| PercentFree(a) && PercentFree(b) && s == a + ("%" + b);
        Assoc(p, a, "%" + b);
        ScanIsNoPair(p + a, b);
      }
  }

  // ---- The loop ----

  function MovedCursor(cursor: int, open: nat, matchLen: nat, replacementLen: nat): int {
    if cursor <= open then cursor
    else if cursor < open + matchLen then open
    else cursor + replacementLen - matchLen
  }

  /** The loop's state: the text is done + rest and pos is the end of `done`;
      `samePos` is what is left of the budget for replacements at one position. */
  datatype Loop = Loop(done: string, rest: string, cursor: int, samePos: int) {
    function Text(): string { done + rest }
  }

  datatype Next = Stop(loop: Loop) | Go(loop: Loop)

  /** An empty name is never looked up. */
  function After(look: Lookup, name: string, text: string, open: nat, iteration: nat): Option<string> {
    if name == "" then None else look(Query(name, text, open, iteration))
  }

  /** One pass through the loop body. */
  function LoopStep(look: Lookup, l: Loop, iteration: nat): Next {
    match Scan(l.rest)
    case NoPair => Stop(l)
    case Pair(before, name, tail) =>
      var open := |l.done| + |before|;
      var after := After(look, name, l.Text(), open, iteration);
      if after.None? then Go(l.(done := l.done + (before + Quoted(name)), rest := tail))
      else
        var moved := Loop(l.done + before, after.value + tail,
                          MovedCursor(l.cursor, open, |name| + 2, |after.value|),
                          if before == "" then l.samePos - 1 else MaxAtSamePosition);
        if before == "" && l.samePos <= 1 then Stop(moved.(samePos := 0)) else Go(moved)
  }

  function Expand(look: Lookup, l: Loop, iteration: nat): Loop
    requires iteration <= MaxIterations
    decreases MaxIterations - iteration
  {
    if iteration == MaxIterations then l
    else
      match LoopStep(look, l, iteration)
      case Stop(m) => m
      case Go(m) => Expand(look, m, iteration + 1)
  }

  function Expansion(look: Lookup, content: string, cursor: int): (string, int) {
    var l := Expand(look, Loop("", content, cursor, MaxAtSamePosition), 0);
    (l.Text(), l.cursor)
  }

  /** A loop on its way: running on from here ends in `end`. */
  datatype Way = Way(look: Lookup, loop: Loop, iteration: nat, end: Loop)

  type Running = w: Way | w.iteration <= MaxIterations && Expand(w.look, w.loop, w.iteration) == w.end
    witness Way(q => None, Loop("", "", 0, 0), MaxIterations, Loop("", "", 0, 0))

  ghost function Begin(look: Lookup, content: string, cursor: int): (w: Running)
    ensures w.look == look && w.loop == Loop("", content, cursor, MaxAtSamePosition) && w.iteration == 0
    ensures (w.end.Text(), w.end.cursor) == Expansion(look, content, cursor)
  {
    var l := Loop("", content, cursor, MaxAtSamePosition);
    Way(look, l, 0, Expand(look, l, 0))
  }

  method ExpandSymbols(env: Env, content: string, cursor: int) returns (result: string, cursorOffset: int)
    ensures (result, cursorOffset) == Expansion(LookupIn(env), content, cursor)
  {
    result, cursorOffset := content, cursor;
    var samePos, iterations, pos := MaxAtSamePosition, 0, 0;
    ghost var w: Running := Begin(LookupIn(env), content, cursor);
    ghost var end := w.end;
    while pos < |result|
      invariant w.look == LookupIn(env) && w.end == end && w.iteration == iterations <= MaxIterations
      invariant cursorOffset == w.loop.cursor && samePos == w.loop.samePos
      invariant result == w.loop.Text() && pos == |w.loop.done| && 0 < samePos <= MaxAtSamePosition
      decreases MaxIterations - iterations
    {
      iterations := iterations + 1;
      if iterations > MaxIterations { break; }
      var open, close := NextPair(result, pos, w.loop);
      if close == -1 { break; }
      var name := result[open + 1..close];
      var after := None;
      if name != "" { after := Resolve(env, name, result, open, iterations - 1); }
      if after.None? {
        w := StepSkips(w, name, open, close);
        pos := close + 1;
      } else {
        result, cursorOffset, samePos, w :=
          ReplacePair(w, name, result, pos, open, close, after.value, cursorOffset, samePos);
        if samePos == 0 { return; }
        pos := open;
      }
    }
    NothingLeft(w, pos < |result|);
  }

  /** The replacement of a known pair, with the caret moved along and the budget
      at one position counted down. */
  method ReplacePair(ghost w: Running, name: string, text: string, pos: nat, open: nat, close: nat, after: string,
                     cursor: int, samePos: int)
    returns (result: string, moved: int, left: int, ghost next: Running)
    requires w.iteration < MaxIterations && PairAt(w.loop, name, open, close) && text == w.loop.Text()
    requires pos == |w.loop.done| && cursor == w.loop.cursor && samePos == w.loop.samePos
            && 0 < samePos <= MaxAtSamePosition
    requires After(w.look, name, text, open, w.iteration) == Some(after)
    ensures result == next.loop.Text() && moved == next.loop.cursor && left == next.loop.samePos
    ensures 0 <= left <= MaxAtSamePosition && next.look == w.look && next.end == w.end
    ensures if left == 0 then next.loop == w.end else |next.loop.done| == open && next.iteration == w.iteration + 1
  {
    next := StepRewrites(w, name, open, close, after);
    RewrittenText(w.loop, name, open, close, after);
    result := text[..open] + after + text[close + 1..];
    moved := MovedCursor(cursor, open, close - open + 1, |after|);
    left := if pos == open then samePos - 1 else MaxAtSamePosition;
  }

  lemma NothingLeft(w: Running, more: bool)
    requires !more ==> w.loop.rest == ""
    requires more ==> w.iteration == MaxIterations || Scan(w.loop.rest).NoPair?
    ensures w.loop == w.end
  {
    if !more { CutIsNone(w.loop.rest); }
  }

  /** The first '%' from `pos` on and the next one after it; close is -1 without such a pair. */
  method NextPair(text: string, pos: nat, ghost l: Loop) returns (open: int, close: int)
    requires text == l.Text() && pos == |l.done|
    ensures close == -1 || close > open >= pos
    ensures match Scan(l.rest)
            case NoPair => close == -1
            case Pair(_, name, _) =>
              open >= 0 && close >= 0 && PairAt(l, name, open, close) && text[open + 1..close] == name
  {
    SearchCut(l.done, l.rest);
    open, close := FindChar(text, '%', pos), -1;
    if open != -1 {
      CloseIsFound(l, open);
      close := FindChar(text, '%', open + 1);
    }
  }

  lemma CloseIsFound(l: Loop, open: nat)
    requires Cut(l.rest).Some? && open == |l.done| + |Cut(l.rest).value.0|
    ensures open < |l.Text()|
    ensures Scan(l.rest).NoPair? ==> FindChar(l.Text(), '%', open + 1) == -1
    ensures Scan(l.rest).Pair? ==>
              var name, close := Scan(l.rest).name, FindChar(l.Text(), '%', open + 1);
              close >= 0 && PairAt(l, name, open, close) && l.Text()[open + 1..close] == name
  {
    var tail := Cut(l.rest).value.1;
    var front := CutInText(l.done, l.rest);
    CloseInSuffix(front, tail);
    assert l.Text() == front + tail;
    match Scan(l.rest) {
      case NoPair => assert Cut(tail) == None;
      case Pair(before, name, rest) => assert Cut(tail) == Some((name, rest)) && |front| == |l.done| + |before| + 1;
    }
  }

  /** What stands where in the loop's text. */
  ghost predicate PairAt(l: Loop, name: string, open: nat, close: nat) {
    && Scan(l.rest).Pair? && Scan(l.rest).name == name
    && open == |l.done| + |Scan(l.rest).before| && close == open + 1 + |name| < |l.Text()|
  }

  /** A pair of an unknown name is skipped. */
  lemma StepSkips(w: Running, name: string, open: nat, close: nat) returns (next: Running)
    requires w.iteration < MaxIterations && PairAt(w.loop, name, open, close)
    requires After(w.look, name, w.loop.Text(), open, w.iteration).None?
    ensures next.look == w.look && next.end == w.end && next.iteration == w.iteration + 1
    ensures next.loop == w.loop.(done := next.loop.done, rest := next.loop.rest)
    ensures next.loop.Text() == w.loop.Text() && |next.loop.done| == close + 1
  {
    var l := w.loop;
    ScanParts(l.rest);
    ReplaceGlued(l.done, Scan(l.rest).before, name, Scan(l.rest).rest, "");
    assert |Quoted(name)| == |name| + 2;
    next := w.(loop := l.(done := l.done + (Scan(l.rest).before + Quoted(name)), rest := Scan(l.rest).rest),
               iteration := w.iteration + 1);
  }

  /** A pair of a known name is replaced; with the budget used up this is the end. */
  lemma StepRewrites(w: Running, name: string, open: nat, close: nat, after: string) returns (next: Running)
    requires w.iteration < MaxIterations && PairAt(w.loop, name, open, close) && 0 < w.loop.samePos
    requires After(w.look, name, w.loop.Text(), open, w.iteration) == Some(after)
    ensures next.look == w.look && next.end == w.end
    ensures next.loop.done == w.loop.done + Scan(w.loop.rest).before && next.loop.rest == after + Scan(w.loop.rest).rest
    ensures next.loop.cursor == MovedCursor(w.loop.cursor, open, |name| + 2, |after|)
    ensures next.loop.samePos == if open == |w.loop.done| then w.loop.samePos - 1 else MaxAtSamePosition
    ensures if next.loop.samePos == 0 then next.loop == w.end else next.iteration == w.iteration + 1
  {
    var l := w.loop;
    var before, tail := Scan(l.rest).before, Scan(l.rest).rest;
    var m := Loop(l.done + before, after + tail, MovedCursor(l.cursor, open, |name| + 2, |after|),
                  if before == "" then l.samePos - 1 else MaxAtSamePosition);
    assert LoopStep(w.look, l, w.iteration) == if m.samePos == 0 then Stop(m) else Go(m);
    next := w.(loop := m, iteration := if m.samePos == 0 then MaxIterations else w.iteration + 1);
  }

  lemma RewrittenText(l: Loop, name: string, open: nat, close: nat, after: string)
    requires PairAt(l, name, open, close)
    ensures var text := l.Text();
            open <= close < |text| && text[..open] + after + text[close + 1..]
                                      == (l.done + Scan(l.rest).before) + (after + Scan(l.rest).rest)
  {
    ScanParts(l.rest);
    ReplaceGlued(l.done, Scan(l.rest).before, name, Scan(l.rest).rest, after);
  }

  /** The text on both sides of the first '%' of the rest. */
  lemma CutInText(done: string, rest: string) returns (front: string)
    requires Cut(rest).Some?
    ensures |front| == |done| + |Cut(rest).value.0| + 1 && done + rest == front + Cut(rest).value.1
  {
    var (before, tail) := Cut(rest).value;
    front := (done + before) + "%";
    CutParts(rest);
    Assoc(done, before, "%" + tail);
    Assoc(done + before, "%", tail);
  }

  /** The program's second search finds the second '%', and its substring the name. */
  lemma CloseInSuffix(front: string, tail: string)
    ensures match Cut(tail)
            case None => FindChar(front + tail, '%', |front|) == -1
            case Some((name, _)) =>
              && FindChar(front + tail, '%', |front|) == |front| + |name|
              && (front + tail)[|front|..|front| + |name|] == name
  {
    SearchCut(front, tail);
    CutParts(tail);
  }

  lemma {:induction false} SearchCut(done: string, rest: string)
    ensures FindChar(done + rest, '%', |done|) == match Cut(rest) case None => -1 case Some((a, _)) => |done| + |a|
    decreases |rest|
  {
    if rest != "" && rest[0] != '%' {
      Assoc(done, [rest[0]], rest[1..]);
      assert rest == [rest[0]] + rest[1..];
      SearchCut(done + [rest[0]], rest[1..]);
    }
  }

  /** The program's replace() on the pair it found. */
  lemma ReplaceGlued(done: string, before: string, name: string, tail: string, after: string)
    ensures var text, open := done + Glued(before, name, tail), |done| + |before|;
            && |text| == open + 2 + |name| + |tail|
            && text[..open] == done + before && text[open + 2 + |name|..] == tail
            && text == (done + (before + Quoted(name))) + tail
            && text[..open] + after + text[open + 2 + |name|..] == (done + before) + (after + tail)
  {
    GluedIsQuoted(before, name, tail);
    Assoc(done, before + Quoted(name), tail);
    var text, open := done + Glued(before, name, tail), |done| + |before|;
    Assoc(done, before, Quoted(name) + tail);
    assert text == (done + before) + (Quoted(name) + tail);
    assert text[..open] == done + before;
    assert text[open + 2 + |name|..] == tail;
    Assoc(done + before, after, tail);
  }

  /** Marks, then symbols; a template without a caret mark keeps the caret unset. */
  method ApplyMarksAndExpand(env: Env, content: string, indentation: string, cursorMark: string,
                             selectionMark: string, indentFirst: bool, detectCursorMark: bool) returns (r: ApplyResult)
    ensures CursorWithin(r.cursor, r.text)
    ensures var raw := AppliedRaw(content, env.selected, indentation, cursorMark, selectionMark, indentFirst);
            var unset := detectCursorMark && (cursorMark == "" || Find(content, cursorMark, 0) == -1);
            (r.text, r.cursor) == Expansion(LookupIn(env), raw.text, if unset then -1 else raw.cursor)
  {
    var hasCursorMark := cursorMark != "" && Find(content, cursorMark, 0) != -1;
    var raw := ApplySnippetRaw(content, env.selected, indentation, cursorMark, selectionMark, indentFirst);
    var cursor := if detectCursorMark && !hasCursorMark then -1 else raw.cursor;
    CaretStaysWithin(LookupIn(env), raw.text, cursor);
    var expanded;
    expanded, cursor := ExpandSymbols(env, raw.text, cursor);
    r := ApplyResult(expanded, cursor);
  }

  // ---- Safety for arbitrary replacements ----

  ghost predicate CaretOk(l: Loop) { CursorWithin(l.cursor, l.Text()) }

  lemma StepKeepsCaret(look: Lookup, l: Loop, iteration: nat)
    requires CaretOk(l)
    ensures var next := LoopStep(look, l, iteration).loop;
            CaretOk(next) && (l.cursor == -1 <==> next.cursor == -1)
  {
    ScanParts(l.rest);
    if Scan(l.rest).Pair? {
      var Pair(before, name, tail) := Scan(l.rest);
      assert |l.rest| == |before| + |name| + 2 + |tail|;
    }
  }

  lemma {:induction false} ExpandKeepsCaret(look: Lookup, l: Loop, iteration: nat)
    requires iteration <= MaxIterations && CaretOk(l)
    ensures var end := Expand(look, l, iteration);
            CaretOk(end) && (l.cursor == -1 <==> end.cursor == -1)
    decreases MaxIterations - iteration
  {
    if iteration < MaxIterations {
      StepKeepsCaret(look, l, iteration);
      match LoopStep(look, l, iteration) {
        case Stop(_) =>
        case Go(m) => ExpandKeepsCaret(look, m, iteration + 1);
      }
    }
  }

  /** Whatever the names resolve to, at whatever time, self-referring or not, the
      caret never leaves the text, and an unset caret stays unset. */
  lemma CaretStaysWithin(look: Lookup, content: string, cursor: int)
    requires CursorWithin(cursor, content)
    ensures var (text, caret) := Expansion(look, content, cursor);
            CursorWithin(caret, text) && (cursor == -1 <==> caret == -1)
  {
    var l := Loop("", content, cursor, MaxAtSamePosition);
    assert l.Text() == content;
    ExpandKeepsCaret(look, l, 0);
  }
}
