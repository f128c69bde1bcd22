/** What the %name% expansion computes when every name it meets has a fixed
    replacement: the one-pass substitution, as far as the loop's two budgets
    reach (src/core/snippet_manager.cpp, ExpandSymbols). */
module SymbolSubstitution {
  import opened Records
  import opened Text
  import opened Snippets
  import opened SymbolExpansion

  // ---- The one-pass reference ----

  /** Names with a fixed replacement. */
  type Substitution = map<string, string>

  /** The names between the paired '%' of a text. */
  function Names(s: string): set<string>
    decreases |s|
  {
    match Scan(s)
    case NoPair => {}
    case Pair(_, name, rest) => {name} + Names(rest)
  }

  predicate Known(sub: Substitution, name: string) { name != "" && name in sub }

  /** Of these names, the ones in `sub` resolve to its texts, which hold no
      '%', wherever and whenever they are looked up, and the others to
      nothing. */
  ghost predicate Resolves(look: Lookup, sub: Substitution, names: set<string>) {
    forall name :: name in names ==> ResolvesName(look, sub, name)
  }

  ghost predicate ResolvesName(look: Lookup, sub: Substitution, name: string) {
    && (Known(sub, name) ==> PercentFree(sub[name]))
    && forall text, open: nat, iteration :: open <= |text| ==>
         After(look, name, text, open, iteration) == if Known(sub, name) then Some(sub[name]) else None
  }

  /** Names of the program's environment that are fixed: overrides, callbacks that
      always answer the same, text snippets that are not indented, all without
      '%', and unknown names. */
  ghost predicate Fixed(env: Env, name: string) {
    if name in env.overrides then PercentFree(env.overrides[name])
    else if name in env.callbacks then
      PercentFree(env.callbacks[name](0)) && forall i: nat :: env.callbacks[name](i) == env.callbacks[name](0)
    else if name !in env.snippets || env.snippets[name].builtinDynamic then true
    else !env.snippets[name].indentFirst && PercentFree(SnippetText(env, name))
  }

  function SnippetText(env: Env, name: string): string
    requires name in env.snippets
  {
    var s := env.snippets[name];
    AppliedRaw(s.content, env.selected, "", s.cursorMark, s.selectionMark, s.indentFirst).text
  }

  function FixedTexts(env: Env, names: set<string>): Substitution {
    map name | name in names && Replacement(env, name, "", 0, 0).Some? :: Replacement(env, name, "", 0, 0).value
  }

  /** A content that uses only such names meets the hypothesis of the theorems below. */
  lemma FixedNamesResolve(env: Env, names: set<string>)
    requires forall name :: name in names ==> Fixed(env, name)
    ensures Resolves(LookupIn(env), FixedTexts(env, names), names)
  {
    forall name | name in names ensures ResolvesName(LookupIn(env), FixedTexts(env, names), name) {
      forall text, open: nat, iteration: nat | open <= |text|
        ensures Replacement(env, name, text, open, iteration) == Replacement(env, name, "", 0, 0)
      {
        FixedIsConstant(env, name, text, open, iteration);
      }
      FixedIsPercentFree(env, name);
    }
  }

  lemma FixedIsConstant(env: Env, name: string, text: string, open: nat, iteration: nat)
    requires Fixed(env, name) && open <= |text|
    ensures Replacement(env, name, text, open, iteration) == Replacement(env, name, "", 0, 0)
  {
  }

  lemma FixedIsPercentFree(env: Env, name: string)
    requires Fixed(env, name)
    ensures Replacement(env, name, "", 0, 0).Some? ==> PercentFree(Replacement(env, name, "", 0, 0).value)
  {
    assert IndentationAt("", 0) == "";
  }

  function Token(sub: Substitution, name: string): string {
    if Known(sub, name) then sub[name] else Quoted(name)
  }

  /** One left-to-right pass over the paired '%' tokens. */
  function OnePass(sub: Substitution, s: string): string
    decreases |s|
  {
    match Scan(s)
    case NoPair => s
    case Pair(before, name, rest) => before + (Token(sub, name) + OnePass(sub, rest))
  }

  function Pairs(s: string): nat
    decreases |s|
  {
    match Scan(s)
    case NoPair => 0
    case Pair(_, _, rest) => 1 + Pairs(rest)
  }

  /** `c` is not strictly inside a pair. */
  predicate Outside(s: string, c: nat)
    decreases |s|
  {
    match Scan(s)
    case NoPair => true
    case Pair(before, name, rest) =>
      c <= |before| || (c >= |before| + |name| + 2 && Outside(rest, c - |before| - |name| - 2))
  }

  lemma OnePassAfterPrefix(sub: Substitution, p: string, s: string)
    requires PercentFree(p)
    ensures OnePass(sub, p + s) == p + OnePass(sub, s)
    ensures Pairs(p + s) == Pairs(s)
  {
    ScanAfterPrefix(p, s);
    if Scan(s).Pair? {
      var Pair(b, n, t) := Scan(s);
      Assoc(p, b, Token(sub, n) + OnePass(sub, t));
    }
  }

  lemma OutsideAfterPrefix(p: string, s: string, c: nat)
    requires PercentFree(p)
    ensures Outside(p + s, |p| + c) <==> Outside(s, c)
  {
    ScanAfterPrefix(p, s);
  }

  function KnownPairs(sub: Substitution, s: string): nat
    decreases |s|
  {
    match Scan(s)
    case NoPair => 0
    case Pair(_, name, rest) => (if Known(sub, name) then 1 else 0) + KnownPairs(sub, rest)
  }

  /** Cutting a text outside its pairs cuts its expansion. */
  lemma {:induction false} OnePassSplits(sub: Substitution, x: string, y: string)
    requires Outside(x + y, |x|)
    ensures OnePass(sub, x + y) == OnePass(sub, x) + OnePass(sub, y)
    decreases |x|
  {
    ScanParts(x);
    match Scan(x)
    case Pair(before, name, rest) =>
      GluedLonger(before, name, rest, y);
      PairThenRest(sub, before, name, rest, y);
      OnePassSplits(sub, rest, y);
      Assoc(before, Token(sub, name) + OnePass(sub, rest), OnePass(sub, y));
      Assoc(Token(sub, name), OnePass(sub, rest), OnePass(sub, y));
    case NoPair =>
      if PercentFree(x) {
        OnePassAfterPrefix(sub, x, y);
      } else {
        var a, b :| PercentFree(a) && PercentFree(b) && x == a + ("%" + b);
        HalfPairStaysOpen(sub, a, b, y);
      }
  }

  lemma GluedLonger(before: string, name: string, rest: string, y: string)
    ensures Glued(before, name, rest) + y == Glued(before, name, rest + y)
  {
    Assoc(before, "%" + (name + ("%" + rest)), y);
    Assoc("%", name + ("%" + rest), y);
    Assoc(name, "%" + rest, y);
    Assoc("%", rest, y);
  }

  lemma PairThenRest(sub: Substitution, before: string, name: string, rest: string, y: string)
    requires PercentFree(before) && PercentFree(name)
    requires Outside(Glued(before, name, rest + y), |Glued(before, name, rest)|)
    ensures Outside(rest + y, |rest|)
    ensures OnePass(sub, Glued(before, name, rest + y)) == before + (Token(sub, name) + OnePass(sub, rest + y))
  {
    ScanIs(before, name, rest + y);
    assert |Glued(before, name, rest)| == |before| + |name| + 2 + |rest|;
  }

  /** One '%' before the cut and none behind it: no pair at all. */
  lemma HalfPairStaysOpen(sub: Substitution, a: string, b: string, y: string)
    requires PercentFree(a) && PercentFree(b) && Outside(a + ("%" + b) + y, |a| + 1 + |b|)
    ensures OnePass(sub, a + ("%" + b) + y) == a + ("%" + b) + y && OnePass(sub, y) == y
  {
    Assoc(a, "%" + b, y);
    Assoc("%", b, y);
    CutParts(y);
    match Cut(y)
    case None =>
      ScanIsNoPair(a, b + y);
      CutIsNone(y);
    case Some((n, rest)) =>
      Assoc(b, n, "%" + rest);
      ScanIs(a, b + n, rest);
  }

  lemma PairLength(s: string)
    requires Scan(s).Pair?
    ensures |s| == |Scan(s).before| + |Scan(s).name| + 2 + |Scan(s).rest|
  {
    ScanParts(s);
  }

  // ---- How far the budgets reach ----

  /** A replacement right where the loop stands takes one of those left there; one
      further on starts anew. */
  function LeftAfter(sub: Substitution, before: string, name: string, here: bool, samePos: int): int {
    if !Known(sub, name) then samePos else if here && before == "" then samePos - 1 else MaxAtSamePosition
  }

  /** Whether the loop then stands right before the rest. */
  predicate HereAfter(sub: Substitution, name: string) { Known(sub, name) ==> sub[name] == "" }

  /** The end of `s` that the loop leaves as it is. `here` tells whether the loop
      stands right before s, `samePos` is what is left for replacements at one
      position, `iteration` counts the pairs met. */
  function Unreached(sub: Substitution, s: string, here: bool, samePos: int, iteration: nat): (u: string)
    ensures |u| <= |s|
    decreases |s|
  {
    match Scan(s)
    case NoPair => ""
    case Pair(before, name, rest) =>
      PairLength(s);
      if iteration == MaxIterations then Glued("", name, rest)
      else if Known(sub, name) && here && before == "" && samePos <= 1 then rest
      else Unreached(sub, rest, HereAfter(sub, name), LeftAfter(sub, before, name, here, samePos), iteration + 1)
  }

  function LeftOver(sub: Substitution, content: string): string {
    Unreached(sub, content, true, MaxAtSamePosition, 0)
  }

  /** How many characters of the content the loop gets through. */
  function Reach(sub: Substitution, content: string): nat { |content| - |LeftOver(sub, content)| }

  lemma UnreachedAfterPrefix(sub: Substitution, p: string, s: string, samePos: int, iteration: nat)
    requires PercentFree(p)
    ensures Unreached(sub, p + s, true, samePos, iteration) == Unreached(sub, s, p == "", samePos, iteration)
  {
    ScanAfterPrefix(p, s);
  }

  /** It is an end of the text, behind whole pairs, and brings no new names. */
  ghost predicate EndOf(u: string, s: string, x: string) {
    s == x + u && Outside(s, |x|) && Names(u) <= Names(s)
  }

  lemma {:induction false} UnreachedIsSuffix(sub: Substitution, s: string, here: bool, samePos: int, iteration: nat)
    returns (x: string)
    ensures EndOf(Unreached(sub, s, here, samePos, iteration), s, x)
    decreases |s|
  {
    ScanParts(s);
    match Scan(s)
    case NoPair =>
      x := s;
      CutIsNone("");
    case Pair(before, name, rest) =>
      if iteration == MaxIterations {
        x := before;
        EndsBeforePair(before, name, rest);
      } else if Known(sub, name) && here && before == "" && samePos <= 1 {
        x := before + Quoted(name);
        assert "" + rest == rest;
        EndsBehindPair(before, name, rest, "", rest);
        assert x + "" == x;
      } else {
        var left := LeftAfter(sub, before, name, here, samePos);
        var y := UnreachedIsSuffix(sub, rest, HereAfter(sub, name), left, iteration + 1);
        x := before + Quoted(name) + y;
        EndsBehindPair(before, name, rest, y, Unreached(sub, s, here, samePos, iteration));
      }
  }

  lemma EndsBeforePair(before: string, name: string, rest: string)
    requires PercentFree(before) && PercentFree(name)
    ensures EndOf(Glued("", name, rest), Glued(before, name, rest), before)
  {
    ScanIs("", name, rest);
    ScanIs(before, name, rest);
    assert Glued(before, name, rest) == before + Glued("", name, rest);
  }

  lemma EndsBehindPair(before: string, name: string, rest: string, y: string, u: string)
    requires PercentFree(before) && PercentFree(name) && EndOf(u, rest, y)
    ensures EndOf(u, Glued(before, name, rest), before + Quoted(name) + y)
  {
    ScanIs(before, name, rest);
    GluedIsQuoted(before, name, rest);
    Assoc(before + Quoted(name), y, u);
  }

  // ---- The loop refines the pass, as far as it gets ----

  /** The text the loop is heading for. */
  function Target(sub: Substitution, l: Loop): string { l.done + OnePass(sub, l.rest) }

  function Ahead(sub: Substitution, l: Loop, iteration: nat): string {
    Unreached(sub, l.rest, true, l.samePos, iteration)
  }

  lemma NamesAfterPrefix(p: string, s: string)
    requires PercentFree(p)
    ensures Names(p + s) == Names(s)
  {
    ScanAfterPrefix(p, s);
  }

  /** The three ways through the loop body. */
  lemma StepIs(look: Lookup, sub: Substitution, l: Loop, iteration: nat)
    requires Resolves(look, sub, Names(l.rest)) && Scan(l.rest).Pair?
    ensures var Pair(before, name, tail), next := Scan(l.rest), LoopStep(look, l, iteration);
            if !Known(sub, name) then next == Go(l.(done := l.done + (before + Quoted(name)), rest := tail))
            else
              && PercentFree(sub[name])
              && next.loop.done == l.done + before && next.loop.rest == sub[name] + tail
              && next.loop.samePos ==
                 (if before != "" then MaxAtSamePosition else if l.samePos <= 1 then 0 else l.samePos - 1)
              && next.loop.cursor == MovedCursor(l.cursor, |l.done| + |before|, |name| + 2, |sub[name]|)
              && (next.Stop? <==> before == "" && l.samePos <= 1)
  {
    PairLength(l.rest);
    assert ResolvesName(look, sub, Scan(l.rest).name);
  }

  lemma StepKeepsTarget(look: Lookup, sub: Substitution, l: Loop, iteration: nat)
    requires Resolves(look, sub, Names(l.rest)) && Scan(l.rest).Pair?
    ensures var next := LoopStep(look, l, iteration).loop;
            Target(sub, next) == Target(sub, l) && Names(next.rest) <= Names(l.rest)
  {
    StepIs(look, sub, l, iteration);
    var Pair(before, name, tail) := Scan(l.rest);
    var token := Token(sub, name);
    if Known(sub, name) {
      NamesAfterPrefix(token, tail);
      OnePassAfterPrefix(sub, token, tail);
      Assoc(l.done, before, token + OnePass(sub, tail));
    } else {
      Assoc(l.done, before + token, OnePass(sub, tail));
      Assoc(before, token, OnePass(sub, tail));
    }
  }

  lemma StepKeepsAhead(look: Lookup, sub: Substitution, l: Loop, iteration: nat)
    requires Resolves(look, sub, Names(l.rest)) && Scan(l.rest).Pair? && iteration < MaxIterations
    ensures match LoopStep(look, l, iteration)
            case Go(next) => Ahead(sub, next, iteration + 1) == Ahead(sub, l, iteration)
            case Stop(next) => Ahead(sub, l, iteration) == Scan(l.rest).rest
  {
    StepIs(look, sub, l, iteration);
    var Pair(before, name, tail) := Scan(l.rest);
    if Known(sub, name) {
      UnreachedAfterPrefix(sub, sub[name], tail, LoopStep(look, l, iteration).loop.samePos, iteration + 1);
    }
  }

  /** Where the loop ends, the text is what it made followed by what it left. */
  lemma {:induction false} ExpandStops(look: Lookup, sub: Substitution, l: Loop, iteration: nat) returns (made: string)
    requires Resolves(look, sub, Names(l.rest)) && iteration <= MaxIterations
    ensures var u := Ahead(sub, l, iteration);
            Expand(look, l, iteration).Text() == made + u && Target(sub, l) == made + OnePass(sub, u)
    decreases MaxIterations - iteration
  {
    if Scan(l.rest).NoPair? {
      made := l.Text();
      CutIsNone("");
    } else if iteration == MaxIterations {
      made := OutOfIterations(sub, l);
    } else {
      StepKeepsTarget(look, sub, l, iteration);
      StepKeepsAhead(look, sub, l, iteration);
      match LoopStep(look, l, iteration) {
        case Go(m) =>
          made := ExpandStops(look, sub, m, iteration + 1);
          StopsAlike(look, sub, l, m, iteration, made);
        case Stop(m) => made := OutOfReplacements(look, sub, l, iteration);
      }
    }
  }

  lemma StopsAlike(look: Lookup, sub: Substitution, l: Loop, m: Loop, iteration: nat, made: string)
    requires iteration < MaxIterations && LoopStep(look, l, iteration) == Go(m)
    requires Target(sub, m) == Target(sub, l) && Ahead(sub, m, iteration + 1) == Ahead(sub, l, iteration)
    requires Expand(look, m, iteration + 1).Text() == made + Ahead(sub, m, iteration + 1)
    ensures Expand(look, l, iteration).Text() == made + Ahead(sub, l, iteration)
  {
  }

  lemma OutOfIterations(sub: Substitution, l: Loop) returns (made: string)
    requires Scan(l.rest).Pair?
    ensures var u := Ahead(sub, l, MaxIterations);
            l.Text() == made + u && Target(sub, l) == made + OnePass(sub, u)
  {
    var Pair(before, name, tail) := Scan(l.rest);
    made := l.done + before;
    ScanParts(l.rest);
    ScanIs("", name, tail);
    Assoc(l.done, before, Glued("", name, tail));
    assert Glued(before, name, tail) == before + Glued("", name, tail);
    Assoc(l.done, before, OnePass(sub, Glued("", name, tail)));
  }

  lemma OutOfReplacements(look: Lookup, sub: Substitution, l: Loop, iteration: nat) returns (made: string)
    requires Resolves(look, sub, Names(l.rest)) && Scan(l.rest).Pair? && iteration < MaxIterations
    requires LoopStep(look, l, iteration).Stop?
    ensures var u := Ahead(sub, l, iteration);
            LoopStep(look, l, iteration).loop.Text() == made + u && Target(sub, l) == made + OnePass(sub, u)
  {
    StepIs(look, sub, l, iteration);
    StepKeepsAhead(look, sub, l, iteration);
    var Pair(before, name, tail) := Scan(l.rest);
    made := (l.done + before) + sub[name];
    Assoc(l.done + before, sub[name], tail);
    Assoc(l.done, before, sub[name] + OnePass(sub, tail));
    Assoc(l.done + before, sub[name], OnePass(sub, tail));
  }

  lemma SameTail(p: string, q: string, t: string)
    requires p + t == q + t
    ensures p == q
  {
    assert (p + t)[..|p|] == p && (q + t)[..|q|] == q;
  }

  /** The loop computes the one-pass substitution of what it reaches and leaves
      the rest as it is. */
  lemma ExpansionIs(look: Lookup, sub: Substitution, content: string, cursor: int)
    requires Resolves(look, sub, Names(content))
    ensures var u := LeftOver(sub, content);
            && u == content[Reach(sub, content)..]
            && Expansion(look, content, cursor).0 == OnePass(sub, content[..Reach(sub, content)]) + u
  {
    var l, u := Loop("", content, cursor, MaxAtSamePosition), LeftOver(sub, content);
    var made := ExpandStops(look, sub, l, 0);
    var x := UnreachedIsSuffix(sub, content, true, MaxAtSamePosition, 0);
    OnePassSplits(sub, x, u);
    assert Target(sub, l) == OnePass(sub, content);
    SameTail(made, OnePass(sub, x), OnePass(sub, u));
    assert content[..Reach(sub, content)] == x;
  }

  // ---- When that is the whole pass ----

  function Percents(s: string): nat {
    if s == "" then 0 else (if s[0] == '%' then 1 else 0) + Percents(s[1..])
  }

  lemma {:induction false} CutCounts(s: string)
    ensures Percents(s) == match Cut(s) case None => 0 case Some((_, tail)) => 1 + Percents(tail)
  {
    if s != "" && s[0] != '%' { CutCounts(s[1..]); }
  }

  /** A text with n '%' has n / 2 pairs. */
  lemma {:induction false} PairsCountPercents(s: string)
    ensures Pairs(s) == Percents(s) / 2
    decreases |s|
  {
    CutCounts(s);
    if Cut(s).Some? { CutCounts(Cut(s).value.1); }
    if Scan(s).Pair? { PairsCountPercents(Scan(s).rest); }
  }

  lemma {:induction false} PercentsAdd(a: string, b: string)
    ensures Percents(a + b) == Percents(a) + Percents(b)
  {
    if a == "" {
      assert a + b == b;
    } else {
      assert (a + b)[1..] == a[1..] + b;
      PercentsAdd(a[1..], b);
    }
  }

  lemma GluedCounts(before: string, token: string, tail: string)
    requires PercentFree(before)
    ensures Percents(before + (token + tail)) == Percents(token) + Percents(tail)
  {
    CutIsNone(before);
    CutCounts(before);
    PercentsAdd(before, token + tail);
    PercentsAdd(token, tail);
  }

  /** Every known pair costs the text its two '%'. */
  lemma {:induction false} PassTakesPercents(look: Lookup, sub: Substitution, s: string)
    requires Resolves(look, sub, Names(s))
    ensures Percents(OnePass(sub, s)) == Percents(s) - 2 * KnownPairs(sub, s)
    ensures KnownPairs(sub, s) == 0 ==> OnePass(sub, s) == s
    decreases |s|
  {
    ScanParts(s);
    match Scan(s)
    case NoPair =>
    case Pair(before, name, rest) =>
      assert ResolvesName(look, sub, name);
      PassTakesPercents(look, sub, rest);
      GluedIsQuoted(before, name, rest);
      GluedCounts(before, Quoted(name), rest);
      GluedCounts(before, Token(sub, name), OnePass(sub, rest));
      QuotedCounts(name);
      if Known(sub, name) {
        CutIsNone(sub[name]);
        CutCounts(sub[name]);
      }
  }

  lemma QuotedCounts(name: string)
    requires PercentFree(name)
    ensures Percents(Quoted(name)) == 2
  {
    CutIsNone(name);
    CutCounts(name);
    PercentsAdd("%" + name, "%");
    assert ("%" + name)[1..] == name;
  }

  /** The loop computes the one-pass substitution exactly when no pair of a known
      name lies where its budgets do not reach. */
  lemma ExpansionIsOnePassExactlyWhen(look: Lookup, sub: Substitution, content: string, cursor: int)
    requires Resolves(look, sub, Names(content))
    ensures Expansion(look, content, cursor).0 == OnePass(sub, content)
            <==> KnownPairs(sub, LeftOver(sub, content)) == 0
  {
    var l, u := Loop("", content, cursor, MaxAtSamePosition), LeftOver(sub, content);
    var made := ExpandStops(look, sub, l, 0);
    var x := UnreachedIsSuffix(sub, content, true, MaxAtSamePosition, 0);
    assert Target(sub, l) == OnePass(sub, content);
    PassTakesPercents(look, sub, u);
    SameHead(made, u, OnePass(sub, u));
  }

  lemma SameHead(p: string, s: string, t: string)
    ensures p + s == p + t <==> s == t
  {
    assert (p + s)[|p|..] == s && (p + t)[|p|..] == t;
  }

  /** The budgets reach to the end of every text with at most 100 pairs of known
      names among at most 1000 pairs. */
  lemma {:induction false} BudgetsSuffice(sub: Substitution, s: string, here: bool, samePos: int, iteration: nat)
    requires KnownPairs(sub, s) <= samePos <= MaxAtSamePosition && iteration + Pairs(s) <= MaxIterations
    ensures KnownPairs(sub, Unreached(sub, s, here, samePos, iteration)) == 0
    decreases |s|
  {
    match Scan(s)
    case NoPair => CutIsNone("");
    case Pair(before, name, rest) =>
      if !(Known(sub, name) && here && before == "" && samePos <= 1) {
        BudgetsSuffice(sub, rest, HereAfter(sub, name), LeftAfter(sub, before, name, here, samePos), iteration + 1);
      }
  }

  lemma ExpansionIsOnePass(look: Lookup, sub: Substitution, content: string, cursor: int)
    requires Resolves(look, sub, Names(content))
    requires KnownPairs(sub, content) <= 100 && Pairs(content) <= 1000
    ensures Expansion(look, content, cursor).0 == OnePass(sub, content)
  {
    BudgetsSuffice(sub, content, true, MaxAtSamePosition, 0);
    ExpansionIsOnePassExactlyWhen(look, sub, content, cursor);
  }

  lemma {:induction false} KnownPairsArePairs(sub: Substitution, s: string)
    ensures KnownPairs(sub, s) <= Pairs(s)
    decreases |s|
  {
    if Scan(s).Pair? { KnownPairsArePairs(sub, Scan(s).rest); }
  }

  /** Whatever the names in it are, a text with fewer than 202 '%' is expanded in
      one pass. */
  lemma FewPercentsAreOnePass(look: Lookup, sub: Substitution, content: string, cursor: int)
    requires Resolves(look, sub, Names(content))
    requires Percents(content) < 202
    ensures Expansion(look, content, cursor).0 == OnePass(sub, content)
  {
    PairsCountPercents(content);
    KnownPairsArePairs(sub, content);
    ExpansionIsOnePass(look, sub, content, cursor);
  }

  // ---- The caret ----

  /** What the loop makes of the first c characters. */
  function Made(sub: Substitution, content: string, c: nat): string
    requires c <= |content|
  {
    var n := Reach(sub, content);
    if c <= n then OnePass(sub, content[..c]) else OnePass(sub, content[..n]) + content[n..c]
  }

  /** Where the substitution of all but the last m characters ahead will end. */
  function FrontBut(sub: Substitution, l: Loop, m: nat): int
    requires m <= |l.rest|
  {
    |l.done| + |OnePass(sub, l.rest[..|l.rest| - m])|
  }

  /** The same for a caret with m characters behind it, u of which are left as
      they are. */
  function CaretBefore(sub: Substitution, l: Loop, m: nat, u: nat): int
    requires m <= |l.rest| && u <= |l.rest|
  {
    if m >= u then FrontBut(sub, l, m) else FrontBut(sub, l, u) + (u - m)
  }

  /** How many characters are behind the caret. */
  function Behind(l: Loop): int { |l.done| + |l.rest| - l.cursor }

  /** Where the caret will end. */
  function CaretTarget(sub: Substitution, l: Loop, iteration: nat): int {
    if l.cursor <= |l.done| || Behind(l) < 0 then l.cursor
    else CaretBefore(sub, l, Behind(l), |Ahead(sub, l, iteration)|)
  }

  ghost predicate CaretOutside(l: Loop) {
    l.cursor <= |l.done| || (l.cursor <= |l.done| + |l.rest| && Outside(l.rest, l.cursor - |l.done|))
  }

  lemma PassBeforePair(sub: Substitution, before: string, name: string, tail: string, c: nat)
    requires PercentFree(before) && c <= |before|
    ensures |Glued(before, name, tail)| >= c && OnePass(sub, Glued(before, name, tail)[..c]) == before[..c]
  {
    assert Glued(before, name, tail)[..c] == before[..c];
    CutIsNone(before[..c]);
  }

  lemma PassBehindPair(sub: Substitution, before: string, name: string, tail: string, c: nat)
    requires PercentFree(before) && PercentFree(name) && c <= |tail|
    ensures var cut := |before| + |name| + 2 + c;
            cut <= |Glued(before, name, tail)|
            && OnePass(sub, Glued(before, name, tail)[..cut]) == before + (Token(sub, name) + OnePass(sub, tail[..c]))
  {
    assert Glued(before, name, tail)[..|before| + |name| + 2 + c] == Glued(before, name, tail[..c]);
    ScanIs(before, name, tail[..c]);
  }

  lemma NoPairsNoChange(sub: Substitution, s: string, c: nat)
    requires Pairs(s) == 0 && c <= |s|
    ensures OnePass(sub, s[..c]) == s[..c]
  {
    ScanParts(s);
    if PercentFree(s) {
      CutIsNone(s[..c]);
    } else {
      var a, b :| PercentFree(a) && PercentFree(b) && s == a + ("%" + b);
      if c <= |a| {
        assert s[..c] == a[..c];
        CutIsNone(a[..c]);
      } else {
        assert s[..c] == a + ("%" + b[..c - |a| - 1]);
        ScanIsNoPair(a, b[..c - |a| - 1]);
      }
    }
  }

  lemma FrontBeforePair(sub: Substitution, l: Loop, m: nat)
    requires Scan(l.rest).Pair? && m <= |l.rest| <= m + |Scan(l.rest).before|
    ensures FrontBut(sub, l, m) == |l.done| + |l.rest| - m
  {
    ScanParts(l.rest);
    PassBeforePair(sub, Scan(l.rest).before, Scan(l.rest).name, Scan(l.rest).rest, |l.rest| - m);
  }

  /** Behind the pair the loop is heading for the same end after the step. */
  lemma FrontBehindPair(look: Lookup, sub: Substitution, l: Loop, iteration: nat, m: nat)
    requires Resolves(look, sub, Names(l.rest)) && Scan(l.rest).Pair? && m <= |Scan(l.rest).rest| <= |l.rest|
    ensures var next := LoopStep(look, l, iteration).loop;
            m <= |next.rest| && FrontBut(sub, l, m) == FrontBut(sub, next, m)
  {
    StepIs(look, sub, l, iteration);
    var Pair(before, name, tail) := Scan(l.rest);
    ScanParts(l.rest);
    PairLength(l.rest);
    PassBehindPair(sub, before, name, tail, |tail| - m);
    if Known(sub, name) {
      PassOfReplaced(sub, sub[name], tail, m);
    } else {
      assert LoopStep(look, l, iteration).loop.rest == tail;
    }
  }

  lemma PassOfReplaced(sub: Substitution, token: string, tail: string, m: nat)
    requires PercentFree(token) && m <= |tail|
    ensures OnePass(sub, (token + tail)[..|token + tail| - m]) == token + OnePass(sub, tail[..|tail| - m])
  {
    var k := |tail| - m;
    assert (token + tail)[..|token + tail| - m] == token + tail[..k];
    OnePassAfterPrefix(sub, token, tail[..k]);
  }

  /** The caret stands where it stood, before the pair or behind it. */
  lemma StepMovesCaret(look: Lookup, sub: Substitution, l: Loop, iteration: nat)
    requires Resolves(look, sub, Names(l.rest)) && Scan(l.rest).Pair? && CaretOutside(l)
    ensures var Pair(before, name, tail), next := Scan(l.rest), LoopStep(look, l, iteration).loop;
            && CaretOutside(next)
            && if l.cursor <= |l.done| + |before| then next.cursor == l.cursor <= |next.done|
               else 0 <= Behind(next) == Behind(l) <= |tail|
  {
    StepIs(look, sub, l, iteration);
    PairLength(l.rest);
    var Pair(before, name, tail) := Scan(l.rest);
    if |l.done| + |before| < l.cursor && Known(sub, name) { OutsideAfterPrefix(sub[name], tail, |tail| - Behind(l)); }
  }

  lemma CaretOnceStopped(sub: Substitution, l: Loop, iteration: nat)
    requires Scan(l.rest).NoPair? || iteration == MaxIterations
    requires CaretOutside(l)
    ensures CaretTarget(sub, l, iteration) == l.cursor
  {
    if |l.done| < l.cursor {
      if Scan(l.rest).NoPair? {
        NoPairsNoChange(sub, l.rest, |l.rest| - Behind(l));
      } else {
        var u := |Ahead(sub, l, iteration)|;
        PairLength(l.rest);
        ScanParts(l.rest);
        FrontBeforePair(sub, l, if Behind(l) >= u then Behind(l) else u);
      }
    }
  }

  lemma StepKeepsCaretTarget(look: Lookup, sub: Substitution, l: Loop, iteration: nat)
    requires Resolves(look, sub, Names(l.rest)) && Scan(l.rest).Pair? && CaretOutside(l) && iteration < MaxIterations
    ensures match LoopStep(look, l, iteration)
            case Go(next) => CaretTarget(sub, next, iteration + 1) == CaretTarget(sub, l, iteration)
            case Stop(next) => next.cursor == CaretTarget(sub, l, iteration)
  {
    StepMovesCaret(look, sub, l, iteration);
    UnreachedIsBehind(sub, l.rest, true, l.samePos, iteration);
    if l.cursor - |l.done| <= |Scan(l.rest).before| {
      CaretBeforePair(sub, l, iteration);
    } else {
      match LoopStep(look, l, iteration) {
        case Go(next) => CaretGoesOn(look, sub, l, iteration, next);
        case Stop(next) => CaretStops(look, sub, l, iteration, next);
      }
    }
  }

  lemma UnreachedIsBehind(sub: Substitution, s: string, here: bool, samePos: int, iteration: nat)
    requires Scan(s).Pair? && iteration < MaxIterations
    ensures |Unreached(sub, s, here, samePos, iteration)| <= |Scan(s).rest| <= |s| - |Scan(s).before|
  {
    PairLength(s);
  }

  lemma CaretBeforePair(sub: Substitution, l: Loop, iteration: nat)
    requires Scan(l.rest).Pair? && l.cursor - |l.done| <= |Scan(l.rest).before| && iteration < MaxIterations
    ensures CaretTarget(sub, l, iteration) == l.cursor
  {
    UnreachedIsBehind(sub, l.rest, true, l.samePos, iteration);
    if |l.done| < l.cursor && 0 <= Behind(l) { FrontBeforePair(sub, l, Behind(l)); }
  }

  /** The two ways on with the caret behind the pair. */
  lemma CaretGoesOn(look: Lookup, sub: Substitution, l: Loop, iteration: nat, next: Loop)
    requires Resolves(look, sub, Names(l.rest)) && Scan(l.rest).Pair? && iteration < MaxIterations
    requires LoopStep(look, l, iteration) == Go(next) && |l.done| < l.cursor
    requires |Ahead(sub, l, iteration)| <= |Scan(l.rest).rest| <= |l.rest|
    requires 0 <= Behind(next) == Behind(l) <= |Scan(l.rest).rest|
    ensures CaretTarget(sub, next, iteration + 1) == CaretTarget(sub, l, iteration)
  {
    var m, u := Behind(l), |Ahead(sub, l, iteration)|;
    StepKeepsAhead(look, sub, l, iteration);
    FrontBehindPair(look, sub, l, iteration, m);
    FrontBehindPair(look, sub, l, iteration, u);
    NothingInFront(sub, next, m);
  }

  lemma NothingInFront(sub: Substitution, l: Loop, m: nat)
    requires m <= |l.rest|
    ensures m == |l.rest| ==> FrontBut(sub, l, m) == |l.done|
  {
    assert l.rest[..0] == "";
    CutIsNone("");
  }

  lemma CaretStops(look: Lookup, sub: Substitution, l: Loop, iteration: nat, next: Loop)
    requires Resolves(look, sub, Names(l.rest)) && Scan(l.rest).Pair? && iteration < MaxIterations
    requires LoopStep(look, l, iteration) == Stop(next) && |l.done| < l.cursor
    requires |Scan(l.rest).rest| <= |l.rest| && 0 <= Behind(next) == Behind(l) <= |Scan(l.rest).rest|
    ensures next.cursor == CaretTarget(sub, l, iteration)
  {
    var n := |Scan(l.rest).rest|;
    StepKeepsAhead(look, sub, l, iteration);
    FrontBehindPair(look, sub, l, iteration, n);
    StepIs(look, sub, l, iteration);
    CutIsNone(next.rest[..|next.rest| - n]);
  }

  lemma {:induction false} ExpandReachesCaretTarget(look: Lookup, sub: Substitution, l: Loop, iteration: nat)
    requires Resolves(look, sub, Names(l.rest)) && CaretOutside(l) && iteration <= MaxIterations
    ensures Expand(look, l, iteration).cursor == CaretTarget(sub, l, iteration)
    decreases MaxIterations - iteration
  {
    if Scan(l.rest).NoPair? || iteration == MaxIterations {
      CaretOnceStopped(sub, l, iteration);
    } else {
      StepKeepsTarget(look, sub, l, iteration);
      StepMovesCaret(look, sub, l, iteration);
      StepKeepsCaretTarget(look, sub, l, iteration);
      match LoopStep(look, l, iteration) {
        case Go(m) => ExpandReachesCaretTarget(look, sub, m, iteration + 1);
        case Stop(m) =>
      }
    }
  }

  lemma {:induction false} OutsideFront(x: string, u: string, c: nat)
    requires Outside(x + u, |x|) && Outside(x + u, c) && c <= |x|
    ensures Outside(x, c)
    decreases |x|
  {
    ScanParts(x);
    if Scan(x).Pair? {
      var Pair(before, name, rest) := Scan(x);
      GluedLonger(before, name, rest, u);
      ScanIs(before, name, rest + u);
      if c > |before| { OutsideFront(rest, u, c - |before| - |name| - 2); }
    }
  }

  /** A caret outside the pairs ends up right behind what the loop makes of the
      text before it: the substitution of that text, or of as much of it as the
      budgets reach with the rest of it unchanged. */
  lemma CaretFollowsItsText(look: Lookup, sub: Substitution, content: string, cursor: nat)
    requires Resolves(look, sub, Names(content)) && cursor <= |content| && Outside(content, cursor)
    ensures var (text, caret) := Expansion(look, content, cursor);
            0 <= caret <= |text| && text[..caret] == Made(sub, content, cursor)
  {
    var (text, caret) := Expansion(look, content, cursor);
    CaretIsBehind(look, sub, content, cursor);
    ExpansionIs(look, sub, content, cursor);
    MadeIsAtFront(sub, content, cursor);
    assert (OnePass(sub, content[..Reach(sub, content)]) + LeftOver(sub, content))[..|Made(sub, content, cursor)|]
           == Made(sub, content, cursor);
  }

  lemma CaretIsBehind(look: Lookup, sub: Substitution, content: string, cursor: nat)
    requires Resolves(look, sub, Names(content)) && cursor <= |content| && Outside(content, cursor)
    ensures Expansion(look, content, cursor).1 == |Made(sub, content, cursor)|
  {
    ExpandReachesCaretTarget(look, sub, Loop("", content, cursor, MaxAtSamePosition), 0);
    TargetAtStart(sub, content, cursor);
  }

  lemma TargetAtStart(sub: Substitution, content: string, cursor: nat)
    requires cursor <= |content|
    ensures CaretTarget(sub, Loop("", content, cursor, MaxAtSamePosition), 0) == |Made(sub, content, cursor)|
  {
    if cursor == 0 {
      assert content[..0] == "";
      CutIsNone("");
    }
  }

  lemma MadeIsAtFront(sub: Substitution, content: string, c: nat)
    requires c <= |content| && Outside(content, c)
    ensures Made(sub, content, c) <= OnePass(sub, content[..Reach(sub, content)]) + LeftOver(sub, content)
  {
    var u, n := LeftOver(sub, content), Reach(sub, content);
    var x := UnreachedIsSuffix(sub, content, true, MaxAtSamePosition, 0);
    assert x == content[..n] && u == content[n..];
    if c <= n {
      OutsideFront(x, u, c);
      assert x[..c] == content[..c];
      PassOfFront(sub, x, c);
      FrontOfMore(OnePass(sub, x[..c]), OnePass(sub, x), u);
    } else {
      assert content[n..c] == u[..c - n];
      FrontOfSum(OnePass(sub, x), u[..c - n], u);
    }
  }

  lemma FrontOfMore(a: string, b: string, u: string)
    requires a <= b
    ensures a <= b + u
  {
  }

  lemma FrontOfSum(p: string, a: string, b: string)
    requires a <= b
    ensures p + a <= p + b
  {
  }

  lemma PassOfFront(sub: Substitution, x: string, c: nat)
    requires c <= |x| && Outside(x, c)
    ensures OnePass(sub, x[..c]) <= OnePass(sub, x)
  {
    assert x[..c] + x[c..] == x;
    OnePassSplits(sub, x[..c], x[c..]);
  }

  // ---- A caret inside a pair ----

  /** The pair that a position lies strictly inside of, if there is one: its name
      and how many characters stand behind it. */
  datatype Enclosing = Nowhere | InPair(name: string, behind: nat)

  function Around(s: string, c: int): Enclosing
    decreases |s|
  {
    match Scan(s)
    case NoPair => Nowhere
    case Pair(before, name, rest) =>
      if c <= |before| then Nowhere
      else if c < |before| + |name| + 2 then InPair(name, |rest|)
      else Around(rest, c - |before| - |name| - 2)
  }

  lemma {:induction false} AroundIsInside(s: string, c: nat)
    ensures Around(s, c).Nowhere? && c <= |s| ==> Outside(s, c)
    ensures Around(s, c).InPair? ==> !Outside(s, c)
    decreases |s|
  {
    if Scan(s).Pair? {
      PairLength(s);
      var k := |Scan(s).before| + |Scan(s).name| + 2;
      if c >= k { AroundIsInside(Scan(s).rest, c - k); }
    }
  }

  /** Where that pair begins. */
  function Front(s: string, e: Enclosing): int
    requires e.InPair?
  {
    |s| - e.behind - |e.name| - 2
  }

  lemma {:induction false} FrontIsOutside(s: string, c: int)
    requires Around(s, c).InPair?
    ensures var e := Around(s, c);
            0 <= Front(s, e) < c < Front(s, e) + |e.name| + 2 <= |s| && Outside(s, Front(s, e))
    ensures Scan(s).Pair? && Around(s, c).behind <= |Scan(s).rest|
    decreases |s|
  {
    PairLength(s);
    var k := |Scan(s).before| + |Scan(s).name| + 2;
    if c >= k {
      FrontIsOutside(Scan(s).rest, c - k);
      assert Front(s, Around(s, c)) == k + Front(Scan(s).rest, Around(s, c));
    }
  }

  lemma AroundAfterPrefix(p: string, s: string, c: int)
    requires PercentFree(p)
    ensures Around(p + s, |p| + c) == Around(s, c)
  {
    ScanAfterPrefix(p, s);
  }

  ghost predicate CaretIn(l: Loop, e: Enclosing) { e.InPair? && Around(l.rest, l.cursor - |l.done|) == e }

  /** The same loop with its caret in front of the pair. */
  function InFront(l: Loop, e: Enclosing): Loop
    requires e.InPair?
  {
    l.(cursor := |l.done| + Front(l.rest, e))
  }

  /** Where the caret will end: in front of what replaces the pair, or as far into
      the pair as it is if the pair stays. */
  function InsideTarget(sub: Substitution, l: Loop, e: Enclosing, iteration: nat): int
    requires e.InPair?
  {
    CaretTarget(sub, InFront(l, e), iteration)
    + if Known(sub, e.name) && |Ahead(sub, l, iteration)| <= e.behind then 0 else l.cursor - InFront(l, e).cursor
  }

  lemma FrontIsCaretOutside(l: Loop, e: Enclosing)
    requires CaretIn(l, e)
    ensures CaretOutside(InFront(l, e)) && InFront(l, e).cursor < l.cursor
  {
    FrontIsOutside(l.rest, l.cursor - |l.done|);
  }

  /** A caret that the loop has passed stays. */
  lemma PassedCaretStays(look: Lookup, sub: Substitution, l: Loop, iteration: nat)
    requires Resolves(look, sub, Names(l.rest)) && iteration <= MaxIterations && l.cursor <= |l.done|
    ensures Expand(look, l, iteration).cursor == l.cursor
  {
    ExpandReachesCaretTarget(look, sub, l, iteration);
  }

  /** The step that meets the caret's pair leaves the caret behind. */
  lemma FirstPairPassesCaret(look: Lookup, sub: Substitution, l: Loop, e: Enclosing, iteration: nat)
    requires Resolves(look, sub, Names(l.rest)) && CaretIn(l, e)
    requires Scan(l.rest).Pair? && l.cursor - |l.done| < |Scan(l.rest).before| + |Scan(l.rest).name| + 2
    ensures var next, front := LoopStep(look, l, iteration).loop, |l.done| + |Scan(l.rest).before|;
            && e == InPair(Scan(l.rest).name, |Scan(l.rest).rest|) && InFront(l, e).cursor == front
            && next.cursor == (if Known(sub, e.name) then front else l.cursor) <= |next.done|
  {
    StepIs(look, sub, l, iteration);
    PairLength(l.rest);
  }

  lemma FirstPairTarget(sub: Substitution, l: Loop, e: Enclosing, iteration: nat)
    requires Scan(l.rest).Pair? && iteration < MaxIterations
    requires e == InPair(Scan(l.rest).name, |Scan(l.rest).rest|)
    ensures InsideTarget(sub, l, e, iteration) ==
            if Known(sub, e.name) then InFront(l, e).cursor else l.cursor
  {
    UnreachedIsBehind(sub, l.rest, true, l.samePos, iteration);
    PairLength(l.rest);
    CaretBeforePair(sub, InFront(l, e), iteration);
  }

  /** The loop's next pair is the caret's. */
  lemma FirstPairHasCaret(look: Lookup, sub: Substitution, l: Loop, e: Enclosing, iteration: nat)
    requires Resolves(look, sub, Names(l.rest)) && CaretIn(l, e) && iteration < MaxIterations
    requires Scan(l.rest).Pair? && l.cursor - |l.done| < |Scan(l.rest).before| + |Scan(l.rest).name| + 2
    ensures Expand(look, l, iteration).cursor == InsideTarget(sub, l, e, iteration)
  {
    FirstPairPassesCaret(look, sub, l, e, iteration);
    FirstPairTarget(sub, l, e, iteration);
    StepKeepsTarget(look, sub, l, iteration);
    match LoopStep(look, l, iteration) {
      case Go(m) => PassedCaretStays(look, sub, m, iteration + 1);
      case Stop(m) =>
    }
  }

  /** The caret's pair comes later: it is the same pair after the step. */
  lemma LaterPairHasCaret(look: Lookup, sub: Substitution, l: Loop, e: Enclosing, iteration: nat)
    requires Resolves(look, sub, Names(l.rest)) && CaretIn(l, e)
    requires Scan(l.rest).Pair? && l.cursor - |l.done| >= |Scan(l.rest).before| + |Scan(l.rest).name| + 2
    ensures var next := LoopStep(look, l, iteration).loop;
            && CaretIn(next, e) && e.behind < |Scan(l.rest).rest|
            && next.cursor - InFront(next, e).cursor == l.cursor - InFront(l, e).cursor
  {
    StepIs(look, sub, l, iteration);
    PairLength(l.rest);
    var Pair(before, name, tail) := Scan(l.rest);
    var c := l.cursor - |l.done| - |before| - |name| - 2;
    FrontIsOutside(tail, c);
    if Known(sub, name) { AroundAfterPrefix(sub[name], tail, c); }
  }

  lemma StepOfFront(look: Lookup, l: Loop, c: int, iteration: nat)
    ensures LoopStep(look, l.(cursor := c), iteration).Go? == LoopStep(look, l, iteration).Go?
    ensures var a, b := LoopStep(look, l.(cursor := c), iteration).loop, LoopStep(look, l, iteration).loop;
            a == b.(cursor := a.cursor)
  {
    assert l.(cursor := c).Text() == l.Text();
  }

  /** Behind the pair every caret moves alike. */
  lemma CaretsMoveAlike(look: Lookup, sub: Substitution, l: Loop, c: int, iteration: nat)
    requires Resolves(look, sub, Names(l.rest)) && Scan(l.rest).Pair?
    requires var behind := |l.done| + |Scan(l.rest).before| + |Scan(l.rest).name| + 2;
             behind <= c && behind <= l.cursor
    ensures LoopStep(look, l.(cursor := c), iteration).loop.cursor - c
            == LoopStep(look, l, iteration).loop.cursor - l.cursor
  {
    StepIs(look, sub, l, iteration);
    StepIs(look, sub, l.(cursor := c), iteration);
  }

  lemma LaterStep(look: Lookup, sub: Substitution, l: Loop, e: Enclosing, iteration: nat)
    requires Resolves(look, sub, Names(l.rest)) && CaretIn(l, e) && iteration < MaxIterations
    requires Scan(l.rest).Pair? && l.cursor - |l.done| >= |Scan(l.rest).before| + |Scan(l.rest).name| + 2
    ensures LoopStep(look, InFront(l, e), iteration).loop == InFront(LoopStep(look, l, iteration).loop, e)
  {
    LaterPairHasCaret(look, sub, l, e, iteration);
    StepOfFront(look, l, InFront(l, e).cursor, iteration);
    FrontIsLater(l, e);
    CaretsMoveAlike(look, sub, l, InFront(l, e).cursor, iteration);
  }

  lemma FrontIsLater(l: Loop, e: Enclosing)
    requires CaretIn(l, e) && Scan(l.rest).Pair?
    requires l.cursor - |l.done| >= |Scan(l.rest).before| + |Scan(l.rest).name| + 2
    ensures InFront(l, e).cursor >= |l.done| + |Scan(l.rest).before| + |Scan(l.rest).name| + 2
  {
    FrontIsOutside(Scan(l.rest).rest, l.cursor - |l.done| - |Scan(l.rest).before| - |Scan(l.rest).name| - 2);
    PairLength(l.rest);
  }

  lemma InsideOnceStopped(sub: Substitution, l: Loop, e: Enclosing)
    requires CaretIn(l, e)
    ensures InsideTarget(sub, l, e, MaxIterations) == l.cursor
  {
    FrontIsCaretOutside(l, e);
    FrontIsOutside(l.rest, l.cursor - |l.done|);
    CaretOnceStopped(sub, InFront(l, e), MaxIterations);
  }

  /** Before its pair is met the caret keeps its target. */
  lemma StepKeepsInsideTarget(look: Lookup, sub: Substitution, l: Loop, e: Enclosing, iteration: nat)
    requires Resolves(look, sub, Names(l.rest)) && CaretIn(l, e) && iteration < MaxIterations
    requires Scan(l.rest).Pair? && l.cursor - |l.done| >= |Scan(l.rest).before| + |Scan(l.rest).name| + 2
    ensures CaretIn(LoopStep(look, l, iteration).loop, e)
    ensures match LoopStep(look, l, iteration)
            case Go(next) => InsideTarget(sub, next, e, iteration + 1) == InsideTarget(sub, l, e, iteration)
            case Stop(next) => next.cursor == InsideTarget(sub, l, e, iteration)
  {
    FrontIsCaretOutside(l, e);
    LaterPairHasCaret(look, sub, l, e, iteration);
    LaterStep(look, sub, l, e, iteration);
    StepOfFront(look, l, InFront(l, e).cursor, iteration);
    StepKeepsCaretTarget(look, sub, InFront(l, e), iteration);
    StepKeepsAhead(look, sub, l, iteration);
  }

  /** One pass through the loop: the caret is where it will end, or goes on to `m`. */
  lemma PassWithCaretIn(look: Lookup, sub: Substitution, l: Loop, e: Enclosing, iteration: nat)
    returns (m: Option<Loop>)
    requires Resolves(look, sub, Names(l.rest)) && CaretIn(l, e) && iteration <= MaxIterations
    ensures m.None? ==> Expand(look, l, iteration).cursor == InsideTarget(sub, l, e, iteration)
    ensures m.Some? ==>
              && iteration < MaxIterations && Resolves(look, sub, Names(m.value.rest)) && CaretIn(m.value, e)
              && InsideTarget(sub, m.value, e, iteration + 1) == InsideTarget(sub, l, e, iteration)
              && Expand(look, l, iteration) == Expand(look, m.value, iteration + 1)
  {
    FrontIsOutside(l.rest, l.cursor - |l.done|);
    m := None;
    if iteration == MaxIterations {
      InsideOnceStopped(sub, l, e);
    } else if l.cursor - |l.done| < |Scan(l.rest).before| + |Scan(l.rest).name| + 2 {
      FirstPairHasCaret(look, sub, l, e, iteration);
    } else {
      StepKeepsInsideTarget(look, sub, l, e, iteration);
      StepKeepsTarget(look, sub, l, iteration);
      if LoopStep(look, l, iteration).Go? { m := Some(LoopStep(look, l, iteration).loop); }
    }
  }

  lemma {:induction false} ExpandReachesInsideTarget(look: Lookup, sub: Substitution, l: Loop, e: Enclosing,
                                                     iteration: nat)
    requires Resolves(look, sub, Names(l.rest)) && CaretIn(l, e) && iteration <= MaxIterations
    ensures Expand(look, l, iteration).cursor == InsideTarget(sub, l, e, iteration)
    decreases MaxIterations - iteration
  {
    var m := PassWithCaretIn(look, sub, l, e, iteration);
    if m.Some? { ExpandReachesInsideTarget(look, sub, m.value, e, iteration + 1); }
  }

  /** A caret inside a pair ends in front of what replaces the pair; it keeps its
      place in a pair that is unknown or beyond the budgets' reach. */
  lemma CaretInsideAPair(look: Lookup, sub: Substitution, content: string, cursor: nat)
    requires Resolves(look, sub, Names(content)) && Around(content, cursor).InPair?
    ensures var e := Around(content, cursor);
            var front := Front(content, e);
            && 0 <= front < cursor < front + |e.name| + 2 <= |content| && Outside(content, front)
            && Expansion(look, content, cursor).1 ==
               |Made(sub, content, front)|
               + if Known(sub, e.name) && front + |e.name| + 2 <= Reach(sub, content) then 0 else cursor - front
  {
    var l, e := Loop("", content, cursor, MaxAtSamePosition), Around(content, cursor);
    FrontIsOutside(content, cursor);
    ExpandReachesInsideTarget(look, sub, l, e, 0);
    InsideAtStart(sub, content, cursor, e);
  }

  lemma InsideAtStart(sub: Substitution, content: string, cursor: int, e: Enclosing)
    requires e.InPair? && 0 <= Front(content, e)
    ensures InsideTarget(sub, Loop("", content, cursor, MaxAtSamePosition), e, 0) ==
            |Made(sub, content, Front(content, e))|
            + if Known(sub, e.name) && Front(content, e) + |e.name| + 2 <= Reach(sub, content) then 0
              else cursor - Front(content, e)
  {
    TargetAtStart(sub, content, Front(content, e));
  }

  // ---- The smallest failure ----

  /** n times %a%, and then `rest`. */
  function Repeated(n: nat, rest: string): string {
    if n == 0 then rest else Glued("", "a", Repeated(n - 1, rest))
  }

  lemma {:induction false} RepeatedLeavesTheRest(n: nat, rest: string, iteration: nat)
    requires 1 <= n && iteration + n <= MaxIterations
    ensures Unreached(map["a" := ""], Repeated(n, rest), true, n, iteration) == rest
  {
    var sub: Substitution := map["a" := ""];
    PairAtOnce(sub, "a", Repeated(n - 1, rest), n, iteration);
    if n > 1 { RepeatedLeavesTheRest(n - 1, rest, iteration + 1); }
  }

  /** A known pair right where the loop stands. */
  lemma PairAtOnce(sub: Substitution, name: string, rest: string, samePos: int, iteration: nat)
    requires PercentFree(name) && Known(sub, name) && iteration < MaxIterations
    ensures Unreached(sub, Glued("", name, rest), true, samePos, iteration) ==
            if samePos <= 1 then rest else Unreached(sub, rest, sub[name] == "", samePos - 1, iteration + 1)
  {
    ScanIs("", name, rest);
  }

  lemma {:induction false} PassOfRepeated(n: nat, rest: string)
    ensures OnePass(map["a" := ""], Repeated(n, rest)) == OnePass(map["a" := ""], rest)
    ensures Names(Repeated(n, rest)) <= {"a"} + Names(rest)
  {
    if n > 0 {
      ScanIs("", "a", Repeated(n - 1, rest));
      PassOfRepeated(n - 1, rest);
    }
  }

  lemma {:induction false} PercentsOfRepeated(n: nat, rest: string)
    ensures Percents(Repeated(n, rest)) == 2 * n + Percents(rest)
  {
    if n > 0 {
      QuotedCounts("a");
      GluedIsQuoted("", "a", Repeated(n - 1, rest));
      GluedCounts("", Quoted("a"), Repeated(n - 1, rest));
      PercentsOfRepeated(n - 1, rest);
    }
  }

  lemma PercentsOfOne()
    ensures Percents("%a%") == 2
  {
    QuotedCounts("a");
  }

  lemma PassOfOne()
    ensures OnePass(map["a" := ""], "%a%") == "" && Names("%a%") <= {"a"}
  {
    assert "%a%" == Glued("", "a", "");
    ScanIs("", "a", "");
    CutIsNone("");
  }

  /** With 202 '%' the pass and the loop part ways: a text of 101 pairs that
      all vanish keeps its last one. */
  lemma OneHundredPairsIsTheLimit(look: Lookup)
    requires ResolvesName(look, map["a" := ""], "a")
    ensures Expansion(look, Repeated(100, "%a%"), 0).0 == "%a%"
    ensures OnePass(map["a" := ""], Repeated(100, "%a%")) == ""
    ensures Percents(Repeated(100, "%a%")) == 202
  {
    var sub, content := map["a" := ""], Repeated(MaxAtSamePosition, "%a%");
    PassOfRepeated(MaxAtSamePosition, "%a%");
    PassOfOne();
    RepeatedLeavesTheRest(MaxAtSamePosition, "%a%", 0);
    var made := ExpandStops(look, sub, Loop("", content, 0, MaxAtSamePosition), 0);
    assert made + OnePass(sub, "%a%") == "";
    PercentsOfRepeated(MaxAtSamePosition, "%a%");
    PercentsOfOne();
  }

  /** n times the pair of this name, and then `rest`. */
  function PairsOf(name: string, n: nat, rest: string): string {
    if n == 0 then rest else Glued("", name, PairsOf(name, n - 1, rest))
  }

  /** An unknown pair right where the loop stands. */
  lemma OneIsSkipped(sub: Substitution, name: string, rest: string, samePos: int, iteration: nat, u: string)
    requires PercentFree(name) && !Known(sub, name) && iteration < MaxIterations
    requires Unreached(sub, rest, true, samePos, iteration + 1) == u
    ensures Unreached(sub, Glued("", name, rest), true, samePos, iteration) == u
  {
    ScanIs("", name, rest);
  }

  lemma {:induction false} UnknownsAreSkipped(sub: Substitution, name: string, n: nat, rest: string, samePos: int,
                                              iteration: nat, u: string)
    requires PercentFree(name) && !Known(sub, name) && iteration + n <= MaxIterations
    requires Unreached(sub, rest, true, samePos, iteration + n) == u
    ensures Unreached(sub, PairsOf(name, n, rest), true, samePos, iteration) == u
  {
    if n > 0 {
      UnknownsAreSkipped(sub, name, n - 1, rest, samePos, iteration + 1, u);
      OneIsSkipped(sub, name, PairsOf(name, n - 1, rest), samePos, iteration, u);
    }
  }

  lemma {:induction false} NamesOfPairs(name: string, n: nat, rest: string)
    requires PercentFree(name)
    ensures Names(PairsOf(name, n, rest)) <= {name} + Names(rest)
  {
    if n > 0 {
      ScanIs("", name, PairsOf(name, n - 1, rest));
      NamesOfPairs(name, n - 1, rest);
    }
  }

  lemma LastPair(sub: Substitution, name: string, iteration: nat)
    requires PercentFree(name) && Known(sub, name) && iteration <= 1000
    ensures KnownPairs(sub, Unreached(sub, Glued("", name, ""), true, MaxAtSamePosition, iteration)) == 0
            <==> iteration < 1000
    ensures Names(Glued("", name, "")) <= {name}
  {
    ScanIs("", name, "");
    CutIsNone("");
  }

  /** A known pair behind n unknown ones is replaced if and only if they are fewer
      than a thousand. */
  lemma OneThousandPairsIsTheLimit(look: Lookup, sub: Substitution, unknown: string, known: string, n: nat)
    requires PercentFree(unknown) && PercentFree(known) && !Known(sub, unknown) && Known(sub, known)
    requires ResolvesName(look, sub, unknown) && ResolvesName(look, sub, known) && n <= 1000
    ensures var content := PairsOf(unknown, n, Glued("", known, ""));
            Expansion(look, content, 0).0 == OnePass(sub, content) <==> n < 1000
  {
    var last := Glued("", known, "");
    var u := Unreached(sub, last, true, MaxAtSamePosition, n);
    UnknownsAreSkipped(sub, unknown, n, last, MaxAtSamePosition, 0, u);
    NamesOfPairs(unknown, n, last);
    LastPair(sub, known, n);
    ExpansionIsOnePassExactlyWhen(look, sub, PairsOf(unknown, n, last), 0);
  }
}
