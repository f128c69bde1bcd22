/** Duplicate-free sequences and sizes of sets. */
module Collections {
  import opened Records

  lemma PrefixDistinct<T>(s: seq<T>, x: T)
    requires Distinct(s + [x])
    ensures Distinct(s) && x !in s
  {
    forall i, j | 0 <= i < j < |s| ensures s[i] != s[j] {
      assert (s + [x])[i] != (s + [x])[j];
    }
    forall i | 0 <= i < |s| ensures s[i] != x {
      assert (s + [x])[i] != (s + [x])[|s|];
    }
  }

  lemma {:induction false} DistinctCounts<T>(s: seq<T>, x: T)
    requires Distinct(s)
    ensures multiset(s)[x] <= 1
    decreases |s|
  {
    if s != [] {
      var t := s[..|s| - 1];
      assert s == t + [s[|s| - 1]];
      PrefixDistinct(t, s[|s| - 1]);
      DistinctCounts(t, x);
    }
  }

  lemma {:induction false} CountsDistinct<T>(s: seq<T>)
    requires forall x :: multiset(s)[x] <= 1
    ensures Distinct(s)
    decreases |s|
  {
    if s != [] {
      var t, last := s[..|s| - 1], s[|s| - 1];
      assert s == t + [last];
      forall x ensures multiset(t)[x] <= 1 {
        assert multiset(s)[x] == multiset(t)[x] + multiset([last])[x];
      }
      assert multiset(s)[last] == multiset(t)[last] + 1;
      assert last !in t by { assert last !in multiset(t); }
      CountsDistinct(t);
    }
  }

  lemma {:induction false} SetSizeTellsDuplicates(ids: seq<Id>)
    ensures |IdSet(ids)| <= |ids|
    ensures |IdSet(ids)| == |ids| <==> Distinct(ids)
    decreases |ids|
  {
    if ids != [] {
      var front, last := ids[..|ids| - 1], ids[|ids| - 1];
      assert ids == front + [last];
      SetSizeTellsDuplicates(front);
      assert IdSet(ids) == IdSet(front) + {last};
      if last in front {
        assert IdSet(ids) == IdSet(front);
        var i :| 0 <= i < |front| && front[i] == last;
        assert ids[i] == ids[|ids| - 1];
      } else {
        assert |IdSet(ids)| == |IdSet(front)| + 1;
        if Distinct(front) {
          assert Distinct(ids);
        } else if Distinct(ids) {
          PrefixDistinct(front, last);
          assert false;
        }
      }
    }
  }

  lemma ProperSubsetIsSmaller<T>(a: set<T>, b: set<T>)
    requires a < b
    ensures |a| < |b|
  {
    var x :| x in b && x !in a;
    assert a <= b - {x};
    SubsetIsNotLarger(a, b - {x});
  }

  lemma SubsetIsNotLarger<T>(a: set<T>, b: set<T>)
    requires a <= b
    ensures |a| <= |b|
  {
    assert b == a + (b - a);
  }

  /** erase(find(...)): one occurrence, the first. */
  function EraseFirst<T(==)>(s: seq<T>, x: T): seq<T> {
    if s == [] then []
    else if s[0] == x then s[1..]
    else [s[0]] + EraseFirst(s[1..], x)
  }

  /** `t` is `s` without its first `x`. */
  ghost predicate FirstErased<T(!new)>(s: seq<T>, x: T, t: seq<T>) {
    exists k: nat :: k < |s| && s[k] == x && x !in s[..k] && t == s[..k] + s[k + 1..]
  }

  lemma {:induction false} FirstErasedAt<T>(s: seq<T>, x: T) returns (k: nat)
    requires x in s
    ensures k < |s| && s[k] == x && x !in s[..k] && EraseFirst(s, x) == s[..k] + s[k + 1..]
  {
    if s[0] == x {
      k := 0;
      assert [] + s[1..] == s[1..];
    } else {
      k := FirstErasedAt(s[1..], x);
      SlicesBehind(s, k);
      k := k + 1;
    }
  }

  lemma SlicesBehind<T>(s: seq<T>, k: nat)
    requires k + 1 < |s|
    ensures s[1..][k] == s[k + 1] && s[..k + 1] == [s[0]] + s[1..][..k]
    ensures s[..k + 1] + s[k + 2..] == [s[0]] + (s[1..][..k] + s[1..][k + 1..])
  {
    assert s[k + 2..] == s[1..][k + 1..];
  }

  lemma EraseFirstErases<T(!new)>(s: seq<T>, x: T)
    requires x in s
    ensures FirstErased(s, x, EraseFirst(s, x))
    ensures multiset(EraseFirst(s, x)) == multiset(s) - multiset{x}
  {
    var k := FirstErasedAt(s, x);
    CountsWithout(s, k);
  }

  lemma CountsWithout<T>(s: seq<T>, k: nat)
    requires k < |s|
    ensures multiset(s[..k] + s[k + 1..]) == multiset(s) - multiset{s[k]}
  {
    assert s == s[..k] + ([s[k]] + s[k + 1..]);
  }

  lemma {:induction false} EraseFirstMembers<T>(s: seq<T>, x: T)
    ensures forall y :: y in EraseFirst(s, x) ==> y in s
    ensures forall y :: y in s && y != x ==> y in EraseFirst(s, x)
    ensures x in s <==> |EraseFirst(s, x)| < |s|
    ensures Distinct(s) ==> Distinct(EraseFirst(s, x)) && x !in EraseFirst(s, x)
    ensures x !in s ==> EraseFirst(s, x) == s
  {
    if s != [] {
      EraseFirstMembers(s[1..], x);
      assert s == [s[0]] + s[1..];
      if Distinct(s) {
        assert s[0] !in s[1..];
        assert Distinct(s[1..]);
        assert s[0] !in EraseFirst(s[1..], x);
      }
    }
  }
}
