/** Searching in and taking apart strings, as std::string does it. */
module Text {
  import opened Records


  predicate At(s: string, mark: string, k: nat) {
    k + |mark| <= |s| && s[k..k + |mark|] == mark
  }

  /** std::string::find; -1 stands for npos. */
  function Find(s: string, mark: string, from: nat): (r: int)
    requires mark != "" && from <= |s|
    ensures r == -1 || (from <= r && At(s, mark, r))
    decreases |s| - from
  {
    if from + |mark| > |s| then -1
    else if At(s, mark, from) then from
    else Find(s, mark, from + 1)
  }

  function FindChar(s: string, c: char, from: nat): (r: int)
    requires from <= |s|
    ensures r == -1 || (from <= r < |s| && s[r] == c)
    decreases |s| - from
  {
    if from == |s| then -1
    else if s[from] == c then from
    else FindChar(s, c, from + 1)
  }

  lemma {:induction false} FindCharIsFirst(s: string, c: char, from: nat)
    requires from <= |s|
    ensures var r := FindChar(s, c, from);
            forall k :: from <= k < |s| && (r == -1 || k < r) ==> s[k] != c
    decreases |s| - from
  {
    if from < |s| && s[from] != c { FindCharIsFirst(s, c, from + 1); }
  }

  lemma Assoc(a: string, b: string, c: string)
    ensures (a + b) + c == a + (b + c)
  {
  }

  /** What lies before and behind the first mark. */
  function Split(s: string, mark: string): (r: Option<(string, string)>)
    requires mark != ""
    ensures r.Some? ==> |r.value.0| + |mark| + |r.value.1| == |s|
  {
    if |s| < |mark| then None
    else if mark <= s then Some(("", s[|mark|..]))
    else
      match Split(s[1..], mark)
      case None => None
      case Some((a, b)) => Some(([s[0]] + a, b))
  }

  lemma {:induction false} SplitParts(s: string, mark: string)
    requires mark != "" && Split(s, mark).Some?
    ensures s == Split(s, mark).value.0 + (mark + Split(s, mark).value.1)
  {
    if !(mark <= s) {
      SplitParts(s[1..], mark);
      var (a, b) := Split(s[1..], mark).value;
      Assoc([s[0]], a, mark + b);
      assert s == [s[0]] + s[1..];
    }
  }

  /** Split cuts at the first place where the mark stands, if there is one. */
  lemma {:induction false} SplitIsFirst(s: string, mark: string)
    requires mark != ""
    ensures forall k: nat :: At(s, mark, k) ==> Split(s, mark).Some? && |Split(s, mark).value.0| <= k
  {
    if |s| >= |mark| && !(mark <= s) {
      SplitIsFirst(s[1..], mark);
      forall k: nat | At(s, mark, k) ensures Split(s, mark).Some? && |Split(s, mark).value.0| <= k {
        assert s[..|mark|] != mark ==> k > 0;
        assert s[1..][k - 1..k - 1 + |mark|] == s[k..k + |mark|];
        assert At(s[1..], mark, k - 1);
      }
    }
  }

  /** Searching on from the end of `done` finds the first mark of the rest. */
  lemma {:induction false} SplitFinds(done: string, rest: string, mark: string)
    requires mark != ""
    ensures Find(done + rest, mark, |done|) ==
              match Split(rest, mark) case None => -1 case Some((a, _)) => |done| + |a|
    decreases |rest|
  {
    var text := done + rest;
    if |rest| >= |mark| {
      assert text[|done|..|done| + |mark|] == rest[..|mark|];
      if !(mark <= rest) {
        Assoc(done, [rest[0]], rest[1..]);
        assert rest == [rest[0]] + rest[1..];
        SplitFinds(done + [rest[0]], rest[1..], mark);
      }
    }
  }

  /** The stretches between the marks, found left to right. */
  function Pieces(s: string, mark: string): (r: seq<string>)
    requires mark != ""
    ensures |r| > 0
    decreases |s|
  {
    match Split(s, mark)
    case None => [s]
    case Some((a, b)) => [a] + Pieces(b, mark)
  }

  function Join(pieces: seq<string>, sep: string): string
    requires |pieces| > 0
  {
    if |pieces| == 1 then pieces[0] else pieces[0] + (sep + Join(pieces[1..], sep))
  }

  lemma JoinFirst(piece: string, pieces: seq<string>, sep: string)
    requires |pieces| > 0
    ensures Join([piece] + pieces, sep) == piece + (sep + Join(pieces, sep))
  {
    assert ([piece] + pieces)[1..] == pieces;
  }

  lemma {:induction false} NoMarkBefore(s: string, mark: string)
    requires mark != "" && Split(s, mark).Some?
    ensures Split(Split(s, mark).value.0, mark).None?
  {
    if !(mark <= s) {
      NoMarkBefore(s[1..], mark);
      var a, b := Split(s[1..], mark).value.0, Split(s[1..], mark).value.1;
      SplitParts(s[1..], mark);
      var before := [s[0]] + a;
      assert before[1..] == a;
      assert s == before + (mark + b) by { Assoc([s[0]], a, mark + b); assert s == [s[0]] + s[1..]; }
      if |before| >= |mark| { assert before[..|mark|] == s[..|mark|]; }
    }
  }

  /** Pieces takes the string apart at its marks: joining with the mark gives it
      back, and no piece holds a mark. */
  lemma {:induction false} PiecesDecompose(s: string, mark: string)
    requires mark != ""
    ensures Join(Pieces(s, mark), mark) == s
    ensures forall p :: p in Pieces(s, mark) ==> Split(p, mark).None?
    decreases |s|
  {
    if Split(s, mark).Some? {
      var (a, b) := Split(s, mark).value;
      SplitParts(s, mark);
      NoMarkBefore(s, mark);
      PiecesDecompose(b, mark);
      JoinFirst(a, Pieces(b, mark), mark);
    }
  }
}
