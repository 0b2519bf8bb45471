/** The list operations the map permission lists are edited with: Python's
    `list.remove` and the `list(set(a) | b)` merge of `Map.Create`. */
module RoleLists {
  import opened Base

  predicate NoDups(s: seq<Uid>)
  {
    forall i, j :: 0 <= i < j < |s| ==> s[i] != s[j]
  }

  /** `s.remove(x)` when `x in s`: drops the first occurrence; no change
      otherwise. */
  function RemoveFirst(s: seq<Uid>, x: Uid): (r: seq<Uid>)
    ensures x !in s ==> r == s
    ensures x in s ==> |r| == |s| - 1
    ensures forall y :: y in r ==> y in s
    decreases |s|
  {
    if |s| == 0 then []
    else if s[0] == x then s[1..]
    else [s[0]] + RemoveFirst(s[1..], x)
  }

  /** Removing `x` takes exactly one copy of `x` out of the list and leaves
      every other element's count alone. */
  lemma {:induction false} RemoveFirstMultiset(s: seq<Uid>, x: Uid)
    ensures multiset(RemoveFirst(s, x)) == multiset(s) - multiset{x}
    decreases |s|
  {
    if |s| > 0 {
      assert s == [s[0]] + s[1..];
      if s[0] != x {
        RemoveFirstMultiset(s[1..], x);
      }
    }
  }

  /** `x` is at index i, and i is its first occurrence. */
  predicate FirstAt(s: seq<Uid>, x: Uid, i: int)
  {
    0 <= i < |s| && s[i] == x && x !in s[..i]
  }

  /** Removal splices out the first occurrence, keeping the order of the
      rest. */
  lemma {:induction false} RemoveFirstSplices(s: seq<Uid>, x: Uid, i: int)
    requires FirstAt(s, x, i)
    ensures RemoveFirst(s, x) == s[..i] + s[i + 1..]
    decreases |s|
  {
    if i > 0 {
      assert s[1..][..i - 1] == s[1..i];
      assert x !in s[1..][..i - 1];
      RemoveFirstSplices(s[1..], x, i - 1);
      assert s[..i] == [s[0]] + s[1..i];
      assert s[1..][i..] == s[i + 1..];
    }
  }

  /** From a list without duplicates, removal deletes `x` altogether and
      keeps the list duplicate-free. */
  lemma {:induction false} RemoveFirstNoDups(s: seq<Uid>, x: Uid)
    requires NoDups(s)
    ensures x !in RemoveFirst(s, x)
    ensures NoDups(RemoveFirst(s, x))
    decreases |s|
  {
    if |s| > 0 {
      var t := s[1..];
      assert s[0] !in t by {
        forall k | 0 <= k < |t| ensures t[k] != s[0] { assert t[k] == s[k + 1]; }
      }
      assert NoDups(t) by {
        forall i, j | 0 <= i < j < |t| ensures t[i] != t[j] { assert t[i] == s[i + 1] && t[j] == s[j + 1]; }
      }
      if s[0] != x {
        RemoveFirstNoDups(t, x);
        var r := RemoveFirst(t, x);
        assert RemoveFirst(s, x) == [s[0]] + r;
      }
    }
  }

  /** The list with every repeat dropped, keeping first occurrences. */
  function Dedup(s: seq<Uid>): (r: seq<Uid>)
    decreases |s|
  {
    if |s| == 0 then []
    else
      var d := Dedup(s[..|s| - 1]);
      if s[|s| - 1] in d then d else d + [s[|s| - 1]]
  }

  /** `Dedup` keeps exactly the elements of the list, once each. */
  lemma {:induction false} DedupContents(s: seq<Uid>)
    ensures forall x :: x in Dedup(s) <==> x in s
    ensures NoDups(Dedup(s))
    decreases |s|
  {
    if |s| > 0 {
      var init := s[..|s| - 1];
      DedupContents(init);
      assert s == init + [s[|s| - 1]];
    }
  }

  /** In a list without duplicates every element occurs exactly once. */
  lemma {:induction false} NoDupsCount(s: seq<Uid>, x: Uid)
    requires NoDups(s)
    ensures multiset(s)[x] == if x in s then 1 else 0
    decreases |s|
  {
    if |s| > 0 {
      var init := s[..|s| - 1];
      assert NoDups(init);
      NoDupsCount(init, x);
      assert s == init + [s[|s| - 1]];
      assert s[|s| - 1] !in init by {
        forall k | 0 <= k < |init| ensures init[k] != s[|s| - 1] { assert s[k] != s[|s| - 1]; }
      }
    }
  }

  /** Two lists without duplicates and with the same members are
      permutations of each other: they hold the same multiset. */
  lemma SameMembersSameMultiset(a: seq<Uid>, b: seq<Uid>)
    requires NoDups(a) && NoDups(b)
    requires forall x :: x in a <==> x in b
    ensures multiset(a) == multiset(b)
  {
    forall x ensures multiset(a)[x] == multiset(b)[x] {
      NoDupsCount(a, x);
      NoDupsCount(b, x);
    }
  }

  /** Deduplicating a list without duplicates only reorders it, if at all. */
  lemma DedupOfNoDups(s: seq<Uid>)
    requires NoDups(s)
    ensures multiset(Dedup(s)) == multiset(s)
  {
    DedupContents(s);
    SameMembersSameMultiset(Dedup(s), s);
  }

  /** `list(set(base) | set(extra))`: the union of the two, without
      duplicates. The order of a Python set is unspecified; this one lists
      `base` first, then the new subjects, each at its first occurrence. */
  function Union(base: seq<Uid>, extra: seq<Uid>): (r: seq<Uid>)
    ensures forall x :: x in r <==> x in base || x in extra
    ensures NoDups(r)
  {
    DedupContents(base + extra);
    Dedup(base + extra)
  }

  /** Uniting a duplicate-free list with some of its own members gives the
      same users, each once: a permutation of the list. */
  lemma UnionWithOwnMembers(base: seq<Uid>, extra: seq<Uid>)
    requires NoDups(base)
    requires forall x :: x in extra ==> x in base
    ensures multiset(Union(base, extra)) == multiset(base)
  {
    SameMembersSameMultiset(Union(base, extra), base);
  }
}
