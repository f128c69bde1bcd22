/** What deleting tags leaves of the tag lists of the files
    (src/core/notebook.cpp, DeleteTag; src/core/bundled_folder_manager.cpp,
    UpdateFileTags, TagFile, UntagFile). */
module FileTags {
  import opened Records
  import opened Collections
  import opened TagForest

  /** One occurrence of every tag in `gone` is erased. */
  function ErasedOnce(s: seq<string>, gone: set<string>): seq<string> {
    if s == [] then []
    else if s[0] in gone then ErasedOnce(s[1..], gone - {s[0]})
    else [s[0]] + ErasedOnce(s[1..], gone)
  }

  /** Every occurrence is erased. */
  function Kept(s: seq<string>, gone: set<string>): seq<string> {
    if s == [] then []
    else (if s[0] in gone then [] else [s[0]]) + Kept(s[1..], gone)
  }

  /** The tag list DeleteTag leaves: the shortened list, unless it is refused
      because a tag in it is not defined. */
  function AfterDelete(tags: Tags, s: seq<string>, gone: set<string>): seq<string> {
    var shorter := ErasedOnce(s, gone);
    if forall x :: x in shorter ==> Has(tags, x) then shorter else s
  }

  lemma {:induction false} EraseOneMore(s: seq<string>, gone: set<string>, x: string)
    requires x !in gone
    ensures EraseFirst(ErasedOnce(s, gone), x) == ErasedOnce(s, gone + {x})
  {
    if s != [] {
      if s[0] == x {
        assert gone + {x} - {x} == gone;
      } else if s[0] in gone {
        EraseOneMore(s[1..], gone - {s[0]}, x);
        assert gone + {x} - {s[0]} == gone - {s[0]} + {x};
      } else {
        EraseOneMore(s[1..], gone, x);
      }
    }
  }

  lemma {:induction false} ErasedNothing(s: seq<string>)
    ensures ErasedOnce(s, {}) == s
  {
    if s != [] { ErasedNothing(s[1..]); }
  }

  /** What is erased and what stays, by count. */
  lemma {:induction false} ErasedCounts(s: seq<string>, gone: set<string>, x: string)
    ensures multiset(ErasedOnce(s, gone))[x] == if x in gone && x in s then multiset(s)[x] - 1 else multiset(s)[x]
  {
    if s != [] {
      assert s == [s[0]] + s[1..];
      if s[0] in gone {
        ErasedCounts(s[1..], gone - {s[0]}, x);
      } else {
        ErasedCounts(s[1..], gone, x);
      }
      assert x in s[1..] <==> x in multiset(s[1..]);
    }
  }

  lemma {:induction false} ErasedMembers(s: seq<string>, gone: set<string>)
    ensures forall x :: x in ErasedOnce(s, gone) ==> x in s
    ensures forall x :: x in s && x !in gone ==> x in ErasedOnce(s, gone)
    ensures |ErasedOnce(s, gone)| <= |s|
    ensures ErasedOnce(s, gone) == s <==> forall x :: x in s ==> x !in gone
  {
    if s != [] {
      ErasedMembers(s[1..], if s[0] in gone then gone - {s[0]} else gone);
      assert s == [s[0]] + s[1..];
    }
  }

  lemma {:induction false} KeptMembers(s: seq<string>, gone: set<string>)
    ensures forall x :: x in Kept(s, gone) <==> x in s && x !in gone
    ensures Distinct(s) ==> Distinct(Kept(s, gone))
    ensures (forall x :: x in s ==> x !in gone) ==> Kept(s, gone) == s
  {
    if s != [] {
      KeptMembers(s[1..], gone);
      assert s == [s[0]] + s[1..];
    }
  }

  /** Each deleted tag is listed at most once. */
  ghost predicate ListedOnce(s: seq<string>, gone: set<string>) {
    forall x :: x in gone ==> multiset(s)[x] <= 1
  }

  lemma {:induction false} OnceIsEnough(s: seq<string>, gone: set<string>)
    requires ListedOnce(s, gone)
    ensures ErasedOnce(s, gone) == Kept(s, gone)
  {
    if s != [] {
      assert s == [s[0]] + s[1..];
      forall x | x in gone ensures multiset(s[1..])[x] <= 1 { assert multiset(s)[x] >= multiset(s[1..])[x]; }
      if s[0] in gone {
        assert multiset(s)[s[0]] == 1 + multiset(s[1..])[s[0]];
        assert s[0] !in multiset(s[1..]);
        OnceIsEnough(s[1..], gone - {s[0]});
        KeptWithoutAbsent(s[1..], gone, s[0]);
      } else {
        OnceIsEnough(s[1..], gone);
      }
    }
  }

  lemma {:induction false} KeptWithoutAbsent(s: seq<string>, gone: set<string>, x: string)
    requires x !in s
    ensures Kept(s, gone - {x}) == Kept(s, gone)
  {
    if s != [] { KeptWithoutAbsent(s[1..], gone, x); }
  }

  /** A file loses exactly the deleted tags, and keeps the others in order, if
      and only if it lists no deleted tag at all, or it lists each at most once
      and all its other tags are defined. */
  lemma DeleteCleansFileExactlyWhen(tags: Tags, s: seq<string>, gone: set<string>)
    requires forall x :: x in gone ==> Has(tags, x)
    ensures AfterDelete(tags, s, gone) == Kept(s, gone) <==>
            || (forall x :: x in s ==> x !in gone)
            || (ListedOnce(s, gone) && forall x :: x in s && x !in gone ==> Has(tags, x))
  {
    ErasedMembers(s, gone);
    KeptMembers(s, gone);
    if ListedOnce(s, gone) {
      OnceIsEnough(s, gone);
    } else {
      var x :| x in gone && multiset(s)[x] > 1;
      ErasedCounts(s, gone, x);
      assert x in multiset(s);
      assert x in multiset(ErasedOnce(s, gone));
      assert x in AfterDelete(tags, s, gone);
    }
  }

  /** The duplicate case: a tag listed twice survives its own deletion. */
  lemma DuplicateTagSurvives()
    ensures var tags := [TagNode("t", "", "{}")];
            Forest(tags) && AfterDelete(tags, ["t", "t"], {"t"}) == ["t"]
  {
    var tags := [TagNode("t", "", "{}")];
    assert Has(tags, "t");
    assert Parent(tags, "t") == "" && Up(tags, "", 0) == "";
    assert Up(tags, "t", 1) == "";
    assert ErasedOnce(["t"], {}) == ["t"];
    assert {"t"} - {"t"} == {};
    assert ErasedOnce(["t", "t"], {"t"}) == ["t"];
  }

}
