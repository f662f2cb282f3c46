/** The recently-played list kept by `VideoScanner.mark_played`: the played
    video moves to the front (its first earlier occurrence is removed) and
    the list is cut back to `MaxRecent` entries. */
module Recency {
  import opened Common

  /** `VideoScanner.max_recent`. */
  const MaxRecent: nat := 10

  /** `list.remove(x)` when `x` is present; the list itself otherwise. */
  function RemoveFirst<T(==)>(s: seq<T>, x: T): seq<T>
  {
    if s == [] then []
    else if s[0] == x then s[1..]
    else [s[0]] + RemoveFirst(s[1..], x)
  }

  /** The recency list after `mark_played(v)`. */
  function Touch<T(==)>(recent: seq<T>, v: T): seq<T>
  {
    Take([v] + RemoveFirst(recent, v), MaxRecent)
  }

  /** Index of the first occurrence of `x` in `s`. */
  function FirstIndex<T(==)>(s: seq<T>, x: T): (i: nat)
    requires x in s
    ensures i < |s| && s[i] == x && x !in s[..i]
  {
    if s[0] == x then 0 else 1 + FirstIndex(s[1..], x)
  }

  /** `list.remove` deletes exactly the first occurrence and keeps the
      order of everything else; an absent element leaves the list alone. */
  lemma {:induction false} RemoveFirstSpec<T>(s: seq<T>, x: T)
    ensures x !in s ==> RemoveFirst(s, x) == s
    ensures x in s ==> RemoveFirst(s, x) == s[..FirstIndex(s, x)] + s[FirstIndex(s, x) + 1..]
  {
    if s != [] && s[0] != x {
      RemoveFirstSpec(s[1..], x);
      if x in s {
        assert x in s[1..];
        assert s[1..][..FirstIndex(s[1..], x)] == s[1..FirstIndex(s, x)];
        assert s[1..][FirstIndex(s[1..], x) + 1..] == s[FirstIndex(s, x) + 1..];
      }
    }
  }

  /** After `mark_played(v)`: `v` heads the list and the list holds at most
      `MaxRecent` entries. Its length is that of the old list, plus one when
      `v` was new, up to the bound. */
  lemma TouchFront<T>(recent: seq<T>, v: T)
    ensures |Touch(recent, v)| <= MaxRecent && Touch(recent, v)[0] == v
    ensures |Touch(recent, v)| == Min(MaxRecent, if v in recent then |recent| else |recent| + 1)
  {
    RemoveFirstSpec(recent, v);
  }

  function Min(a: int, b: int): int { if a <= b then a else b }

  /** After `mark_played(v)`, the entries behind `v` are the old list with
      the first occurrence of `v` removed, in their old order, cut short. */
  lemma TouchKeepsOrder<T>(recent: seq<T>, v: T)
    ensures Touch(recent, v)[1..] <= RemoveFirst(recent, v)
  {
  }

  /** After `mark_played(v)` the list holds `v` and otherwise only entries
      it held before. */
  lemma TouchElements<T>(recent: seq<T>, v: T)
    ensures v in Touch(recent, v)
    ensures Elements(Touch(recent, v)) <= Elements(recent) + {v}
  {
    RemoveFirstSpec(recent, v);
    var moved := [v] + RemoveFirst(recent, v);
    assert Touch(recent, v) <= moved && Touch(recent, v)[0] == v;
    forall x | x in Touch(recent, v) ensures x in recent || x == v {
      assert x in moved;
    }
  }

  /** Removing an element keeps a list duplicate-free, and removes every
      occurrence of it. */
  lemma {:induction false} RemoveFirstNoDup<T>(s: seq<T>, x: T)
    requires NoDup(s)
    ensures NoDup(RemoveFirst(s, x)) && x !in RemoveFirst(s, x)
    ensures Elements(RemoveFirst(s, x)) == Elements(s) - {x}
  {
    RemoveFirstSpec(s, x);
    if x in s {
      var i := FirstIndex(s, x);
      var r := s[..i] + s[i + 1..];
      forall a, b | 0 <= a < b < |r| ensures r[a] != r[b] {
        var a', b' := if a < i then a else a + 1, if b < i then b else b + 1;
        assert r[a] == s[a'] && r[b] == s[b'];
      }
      forall k | 0 <= k < |r| ensures r[k] != x {
        assert r[k] == s[if k < i then k else k + 1];
      }
      assert s == s[..i] + [x] + s[i + 1..];
    }
  }

  /** If the recency list had no duplicates, it has none after `mark_played`. */
  lemma TouchNoDup<T>(recent: seq<T>, v: T)
    requires NoDup(recent)
    ensures NoDup(Touch(recent, v))
  {
    RemoveFirstNoDup(recent, v);
    var moved := [v] + RemoveFirst(recent, v);
    assert NoDup(moved) by {
      forall a, b | 0 <= a < b < |moved| ensures moved[a] != moved[b] {
        if a == 0 {
          assert moved[b] in RemoveFirst(recent, v);
        } else {
          assert moved[a] == RemoveFirst(recent, v)[a - 1];
          assert moved[b] == RemoveFirst(recent, v)[b - 1];
        }
      }
    }
  }

  // ---------------------------------------------------------------------
  // What the recency list holds after a whole history of plays.

  /** Every occurrence of `x` removed. */
  function RemoveAll<T(==)>(s: seq<T>, x: T): (r: seq<T>)
    ensures |r| <= |s| && forall i :: 0 <= i < |r| ==> r[i] != x && r[i] in s
  {
    if s == [] then []
    else if s[0] == x then RemoveAll(s[1..], x)
    else [s[0]] + RemoveAll(s[1..], x)
  }

  function Reverse<T>(s: seq<T>): seq<T>
  {
    if s == [] then [] else [s[|s| - 1]] + Reverse(s[..|s| - 1])
  }

  /** The first occurrence of each element, in order of first occurrence. */
  function Distinct<T(==)>(s: seq<T>): seq<T>
  {
    if s == [] then [] else [s[0]] + RemoveAll(Distinct(s[1..]), s[0])
  }

  /** The recency list after `mark_played` of each video of `history` in
      turn, starting from `recent`. */
  function PlayAll<T(==)>(recent: seq<T>, history: seq<T>): seq<T>
  {
    if history == [] then recent
    else Touch(PlayAll(recent, history[..|history| - 1]), history[|history| - 1])
  }

  lemma {:induction false} RemoveAllNoDup<T>(s: seq<T>, x: T)
    requires NoDup(s)
    ensures NoDup(RemoveAll(s, x))
  {
    if s != [] {
      assert NoDup(s[1..]);
      RemoveAllNoDup(s[1..], x);
      if s[0] != x {
        assert s[0] !in s[1..];
      }
    }
  }

  lemma {:induction false} DistinctNoDup<T>(s: seq<T>)
    ensures NoDup(Distinct(s))
  {
    if s != [] {
      DistinctNoDup(s[1..]);
      RemoveAllNoDup(Distinct(s[1..]), s[0]);
    }
  }

  /** On a duplicate-free list, removing the first occurrence removes all. */
  lemma {:induction false} RemoveFirstIsRemoveAll<T>(s: seq<T>, x: T)
    requires NoDup(s)
    ensures RemoveFirst(s, x) == RemoveAll(s, x)
  {
    if s != [] {
      assert NoDup(s[1..]);
      RemoveFirstIsRemoveAll(s[1..], x);
      if s[0] == x {
        assert x !in s[1..];
        RemoveAllAbsent(s[1..], x);
      }
    }
  }

  lemma {:induction false} RemoveAllAbsent<T>(s: seq<T>, x: T)
    requires x !in s
    ensures RemoveAll(s, x) == s
  {
    if s != [] {
      RemoveAllAbsent(s[1..], x);
    }
  }

  /** Removing from a prefix yields a prefix of removing from the whole. */
  lemma {:induction false} RemoveAllPrefix<T>(s: seq<T>, k: nat, x: T)
    requires k <= |s|
    ensures RemoveAll(s[..k], x) <= RemoveAll(s, x)
  {
    if k > 0 {
      assert s[..k][1..] == s[1..][..k - 1];
      RemoveAllPrefix(s[1..], k - 1, x);
    }
  }

  /** On a duplicate-free list, removal drops at most one entry. */
  lemma {:induction false} RemoveAllShrinksByOne<T>(s: seq<T>, x: T)
    requires NoDup(s)
    ensures |RemoveAll(s, x)| + 1 >= |s|
  {
    if s != [] {
      assert NoDup(s[1..]);
      RemoveAllShrinksByOne(s[1..], x);
      if s[0] == x {
        RemoveAllAbsent(s[1..], x);
      }
    }
  }

  /** One play on a list that is the first `MaxRecent` entries of a
      duplicate-free list `d`: the result is the first `MaxRecent` entries
      of `d` with `v` moved (or added) to the front. */
  lemma TouchOfTake<T>(d: seq<T>, v: T)
    requires NoDup(d)
    ensures Touch(Take(d, MaxRecent), v) == Take([v] + RemoveAll(d, v), MaxRecent)
  {
    var p := Take(d, MaxRecent);
    assert NoDup(p);
    RemoveFirstIsRemoveAll(p, v);
    RemoveAllPrefix(d, |p|, v);
    if |d| > MaxRecent {
      RemoveAllShrinksByOne(p, v);
    } else {
      assert p == d;
    }
    SameFront(v, RemoveAll(p, v), RemoveAll(d, v));
  }

  /** Two lists, one a prefix of the other and with at least
      `MaxRecent - 1` entries unless equal, agree after `v` is put in front
      and both are cut to `MaxRecent`. */
  lemma SameFront<T>(v: T, x: seq<T>, y: seq<T>)
    requires x <= y && (|x| >= MaxRecent - 1 || x == y)
    ensures Take([v] + x, MaxRecent) == Take([v] + y, MaxRecent)
  {
  }

  /** The recency list, started empty (after a reset or a fresh scan) and
      updated by `mark_played` for each video of `history` in turn, is
      exactly the `MaxRecent` most recently played distinct videos, most
      recent first, however often each was played. */
  lemma {:induction false} RecentIsLastDistinct<T>(history: seq<T>)
    ensures PlayAll([], history) == Take(Distinct(Reverse(history)), MaxRecent)
  {
    if history != [] {
      var earlier := history[..|history| - 1];
      var v := history[|history| - 1];
      RecentIsLastDistinct(earlier);
      var d := Distinct(Reverse(earlier));
      DistinctNoDup(Reverse(earlier));
      assert Reverse(history) == [v] + Reverse(earlier);
      assert Distinct(Reverse(history)) == [v] + RemoveAll(d, v);
      TouchOfTake(d, v);
    }
  }
}
