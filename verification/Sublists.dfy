/** What is left of a list when some of its entries are taken out: all the
    others, as often as they were there, each at its place in the order. */
module Sublists {

  /** `t` is `s` without the entries that are not kept. */
  ghost predicate IsRest<T(!new)>(s: seq<T>, t: seq<T>, keep: T -> bool) {
    exists at: seq<nat> :: RestAt(s, t, keep, at)
  }

  ghost predicate RestAt<T(!new)>(s: seq<T>, t: seq<T>, keep: T -> bool, at: seq<nat>) {
    && |at| == |t|
    && (forall k :: 0 <= k < |at| ==> at[k] < |s| && t[k] == s[at[k]])
    && Increasing(at)
    && (forall i: nat :: i in at <==> i < |s| && keep(s[i]))
  }

  /** The entries to keep among the first n. */
  function Kept<T>(s: seq<T>, n: nat, keep: T -> bool): seq<T>
    requires n <= |s|
  {
    if n == 0 then [] else Kept(s, n - 1, keep) + if keep(s[n - 1]) then [s[n - 1]] else []
  }

  lemma {:induction false} KeptAreAt<T(!new)>(s: seq<T>, n: nat, keep: T -> bool) returns (at: seq<nat>)
    requires n <= |s|
    ensures RestAt(s[..n], Kept(s, n, keep), keep, at)
  {
    if n == 0 { return []; }
    at := KeptAreAt(s, n - 1, keep);
    at := OneMoreAt(s[..n - 1], Kept(s, n - 1, keep), keep, at, s[n - 1]);
    assert s[..n] == s[..n - 1] + [s[n - 1]];
  }

  lemma OneMoreAt<T(!new)>(s: seq<T>, t: seq<T>, keep: T -> bool, at: seq<nat>, x: T) returns (more: seq<nat>)
    requires RestAt(s, t, keep, at)
    ensures RestAt(s + [x], t + if keep(x) then [x] else [], keep, more)
  {
    if keep(x) {
      OneIsKept(s, t, keep, at, x);
      more := at + [|s|];
    } else {
      OneIsLeftOut(s, t, keep, at, x);
      assert t + [] == t;
      more := at;
    }
  }

  lemma OneIsLeftOut<T(!new)>(s: seq<T>, t: seq<T>, keep: T -> bool, at: seq<nat>, x: T)
    requires RestAt(s, t, keep, at) && !keep(x)
    ensures RestAt(s + [x], t, keep, at)
  {
  }

  lemma OneIsKept<T(!new)>(s: seq<T>, t: seq<T>, keep: T -> bool, at: seq<nat>, x: T)
    requires RestAt(s, t, keep, at) && keep(x)
    ensures RestAt(s + [x], t + [x], keep, at + [|s|])
  {
    var more := at + [|s|];
    forall i: nat ensures i in more <==> i < |s + [x]| && keep((s + [x])[i]) {
      assert i in more <==> i in at || i == |s|;
    }
  }

  lemma KeptIsTheRest<T(!new)>(s: seq<T>, keep: T -> bool)
    ensures IsRest(s, Kept(s, |s|, keep), keep)
  {
    var at := KeptAreAt(s, |s|, keep);
    assert s[..|s|] == s;
  }

  /** The rest of a list with one more entry in front. */
  lemma RestBehindFirst<T(!new)>(x: T, s: seq<T>, t: seq<T>, keep: T -> bool)
    requires IsRest(s, t, keep)
    ensures IsRest([x] + s, (if keep(x) then [x] else []) + t, keep)
  {
    var at :| RestAt(s, t, keep, at);
    var on := ShiftedBy(at);
    if keep(x) {
      FirstIsKept(x, s, t, keep, at, on);
    } else {
      FirstIsLeftOut(x, s, t, keep, at, on);
      assert [] + t == t;
    }
  }

  function ShiftedBy(at: seq<nat>): (on: seq<nat>)
    ensures |on| == |at| && forall k :: 0 <= k < |at| ==> on[k] == at[k] + 1
  {
    seq(|at|, k requires 0 <= k < |at| => at[k] + 1)
  }

  lemma ShiftedMembers(at: seq<nat>)
    ensures forall i: nat :: i in ShiftedBy(at) <==> i > 0 && i - 1 in at
  {
    forall i: nat | i > 0 && i - 1 in at ensures i in ShiftedBy(at) {
      var k :| 0 <= k < |at| && at[k] == i - 1;
      assert ShiftedBy(at)[k] == i;
    }
  }

  lemma FirstIsLeftOut<T(!new)>(x: T, s: seq<T>, t: seq<T>, keep: T -> bool, at: seq<nat>, on: seq<nat>)
    requires RestAt(s, t, keep, at) && on == ShiftedBy(at) && !keep(x)
    ensures RestAt([x] + s, t, keep, on)
  {
    ShiftedPlaces(x, s, t, at);
    LeftOutInFront(x, s, keep, at);
  }

  lemma ShiftedPlaces<T>(x: T, s: seq<T>, t: seq<T>, at: seq<nat>)
    requires |at| == |t| && (forall k :: 0 <= k < |at| ==> at[k] < |s| && t[k] == s[at[k]]) && Increasing(at)
    ensures var on := ShiftedBy(at);
            Increasing(on) && forall k :: 0 <= k < |on| ==> 0 < on[k] < |[x] + s| && t[k] == ([x] + s)[on[k]]
  {
  }

  lemma LeftOutInFront<T>(x: T, s: seq<T>, keep: T -> bool, at: seq<nat>)
    requires !keep(x) && forall i: nat :: i in at <==> i < |s| && keep(s[i])
    ensures forall i: nat :: i in ShiftedBy(at) <==> i < |[x] + s| && keep(([x] + s)[i])
  {
    ShiftedMembers(at);
    forall i: nat ensures i in ShiftedBy(at) <==> i < |[x] + s| && keep(([x] + s)[i]) {
      if i > 0 { assert i - 1 in at <==> i - 1 < |s| && keep(s[i - 1]); }
    }
  }

  lemma FirstIsKept<T(!new)>(x: T, s: seq<T>, t: seq<T>, keep: T -> bool, at: seq<nat>, on: seq<nat>)
    requires RestAt(s, t, keep, at) && on == ShiftedBy(at) && keep(x)
    ensures RestAt([x] + s, [x] + t, keep, [0] + on)
  {
    ShiftedPlaces(x, s, t, at);
    InFrontOfAll(on);
    KeptInFront(x, s, keep, at);
  }

  lemma InFrontOfAll(on: seq<nat>)
    requires Increasing(on) && forall k :: 0 <= k < |on| ==> on[k] > 0
    ensures Increasing([0] + on)
  {
  }

  lemma KeptInFront<T>(x: T, s: seq<T>, keep: T -> bool, at: seq<nat>)
    requires keep(x) && forall i: nat :: i in at <==> i < |s| && keep(s[i])
    ensures forall i: nat :: i in [0] + ShiftedBy(at) <==> i < |[x] + s| && keep(([x] + s)[i])
  {
    ShiftedMembers(at);
    forall i: nat ensures i in [0] + ShiftedBy(at) <==> i < |[x] + s| && keep(([x] + s)[i]) {
      assert i in [0] + ShiftedBy(at) <==> i == 0 || i in ShiftedBy(at);
      if i > 0 { assert i - 1 in at <==> i - 1 < |s| && keep(s[i - 1]); }
    }
  }

  lemma RestOfNothing<T(!new)>(keep: T -> bool)
    ensures IsRest([], [], keep)
  {
    assert RestAt([], [], keep, []);
  }

  /** Being the rest fixes the list: there is one way to be it. */
  lemma RestIsUnique<T(!new)>(s: seq<T>, t: seq<T>, u: seq<T>, keep: T -> bool)
    requires IsRest(s, t, keep) && IsRest(s, u, keep)
    ensures t == u
  {
    var a :| RestAt(s, t, keep, a);
    var b :| RestAt(s, u, keep, b);
    SameIncreasing(a, b);
  }

  /** A rest holds what is kept, and what is kept alone. */
  lemma RestMembers<T(!new)>(s: seq<T>, t: seq<T>, keep: T -> bool)
    requires IsRest(s, t, keep)
    ensures forall x :: x in t <==> x in s && keep(x)
  {
    var at :| RestAt(s, t, keep, at);
    forall x ensures x in t <==> x in s && keep(x) {
      if x in t {
        var k :| 0 <= k < |t| && t[k] == x;
        assert at[k] in at;
      }
      if x in s && keep(x) {
        var i :| 0 <= i < |s| && s[i] == x;
        var k :| 0 <= k < |at| && at[k] == i;
        assert t[k] == x;
      }
    }
  }

  /** Where everything is to be kept, the rest is the whole list. */
  lemma AllKept<T(!new)>(s: seq<T>, keep: T -> bool)
    requires forall x :: x in s ==> keep(x)
    ensures Kept(s, |s|, keep) == s
  {
    var at := seq(|s|, k requires 0 <= k < |s| => k);
    forall i: nat | i < |s| ensures i in at && keep(s[i]) { assert at[i] == i; }
    assert RestAt(s, s, keep, at);
    KeptIsTheRest(s, keep);
    RestIsUnique(s, Kept(s, |s|, keep), s, keep);
  }

  // ---- Increasing sequences ----

  lemma EmptyExactlyWithoutMembers(a: seq<nat>)
    ensures a == [] <==> forall i: nat :: i !in a
  {
    if a != [] { assert a[0] in a; }
  }

  lemma {:induction false} SameIncreasing(a: seq<nat>, b: seq<nat>)
    requires Increasing(a) && Increasing(b) && SameMembers(a, b)
    ensures a == b
  {
    if a == [] || b == [] {
      EmptyOnlyTogether(a, b);
    } else {
      SameLast(a, b);
      SameFronts(a, b);
      SameIncreasing(a[..|a| - 1], b[..|b| - 1]);
      assert a == a[..|a| - 1] + [a[|a| - 1]] && b == b[..|b| - 1] + [a[|a| - 1]];
    }
  }

  ghost predicate Increasing(a: seq<nat>) { forall j, k :: 0 <= j < k < |a| ==> a[j] < a[k] }

  ghost predicate SameMembers(a: seq<nat>, b: seq<nat>) { forall i: nat :: i in a <==> i in b }

  lemma EmptyOnlyTogether(a: seq<nat>, b: seq<nat>)
    requires SameMembers(a, b)
    ensures a == [] <==> b == []
  {
    EmptyExactlyWithoutMembers(a);
    EmptyExactlyWithoutMembers(b);
  }

  lemma SameLast(a: seq<nat>, b: seq<nat>)
    requires Increasing(a) && Increasing(b) && a != [] && b != [] && SameMembers(a, b)
    ensures a[|a| - 1] == b[|b| - 1]
  {
    assert a[|a| - 1] in b && b[|b| - 1] in a;
  }

  lemma SameFronts(a: seq<nat>, b: seq<nat>)
    requires Increasing(a) && Increasing(b) && SameMembers(a, b)
    requires a != [] && b != [] && a[|a| - 1] == b[|b| - 1]
    ensures Increasing(a[..|a| - 1]) && Increasing(b[..|b| - 1]) && SameMembers(a[..|a| - 1], b[..|b| - 1])
  {
    FrontMembers(a);
    FrontMembers(b);
    var a', b' := a[..|a| - 1], b[..|b| - 1];
    forall i: nat ensures i in a' <==> i in b' {
      assert i in a' <==> i in a && i != a[|a| - 1];
      assert i in b' <==> i in b && i != b[|b| - 1];
    }
  }

  lemma FrontMembers(a: seq<nat>)
    requires Increasing(a) && a != []
    ensures Increasing(a[..|a| - 1])
    ensures forall i: nat :: i in a[..|a| - 1] <==> i in a && i != a[|a| - 1]
  {
    var front, last := a[..|a| - 1], a[|a| - 1];
    assert a == front + [last];
    forall i: nat | i in a && i != last ensures i in front {
      var k :| 0 <= k < |a| && a[k] == i;
      assert front[k] == i;
    }
    forall i: nat | i in front ensures i != last {
      var k :| 0 <= k < |front| && front[k] == i;
      assert a[k] < a[|a| - 1];
    }
  }
}
