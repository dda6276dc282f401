/**
 * Sequence operations behind the entity manager's `spawned` list:
 * List<T>.Remove and the distinctness the list keeps.
 */
module Registry {

  /** List<T>.Remove: the list without the first occurrence of `x`, unchanged when there is none. */
  function RemoveFirst<T(==)>(s: seq<T>, x: T): (r: seq<T>)
    ensures x !in s ==> r == s
    ensures x in s ==> |r| == |s| - 1
    ensures multiset(r) == multiset(s) - multiset{x}
  {
    if s == [] then []
    else
      assert s == [s[0]] + s[1..];
      if s[0] == x then s[1..]
      else [s[0]] + RemoveFirst(s[1..], x)
  }

  /** One unfolding of RemoveFirst on a list with head `a` and tail `t`. */
  lemma RemoveFirstCons<T>(a: T, t: seq<T>, x: T)
    ensures RemoveFirst([a] + t, x) == if a == x then t else [a] + RemoveFirst(t, x)
  {
    var s := [a] + t;
    assert s[0] == a && s[1..] == t;
  }

  /** Splitting `s` around index `i`, seen from its tail. */
  lemma SplitAfterHead<T>(s: seq<T>, i: int)
    requires 0 < i < |s|
    ensures s[..i] + s[i + 1..] == [s[0]] + (s[1..][..i - 1] + s[1..][i..])
  {
    assert s[..i] == [s[0]] + s[1..][..i - 1];
    assert s[i + 1..] == s[1..][i..];
  }

  /** A prefix that does not contain `x` still does not once its head is dropped. */
  lemma NotInShorterPrefix<T>(s: seq<T>, x: T, i: int)
    requires 0 < i <= |s| && x !in s[..i]
    ensures s[0] != x && x !in s[1..][..i - 1]
  {
    assert s[0] == s[..i][0];
    var p := s[1..][..i - 1];
    forall k | 0 <= k < |p| ensures p[k] != x {
      assert p[k] == s[..i][k + 1];
    }
  }

  /** When `x` first occurs at `i`, removing it closes the gap at `i` and keeps everything else in order. */
  lemma {:induction false} RemoveFirstAt<T>(s: seq<T>, x: T, i: int)
    requires 0 <= i < |s| && s[i] == x && x !in s[..i]
    ensures RemoveFirst(s, x) == s[..i] + s[i + 1..]
  {
    if i == 0 {
      assert s[..0] + s[1..] == s[1..];
    } else {
      NotInShorterPrefix(s, x, i);
      RemoveFirstAt(s[1..], x, i - 1);
      SplitAfterHead(s, i);
    }
  }

  /** Every entry other than `hole` occurs at most once. */
  predicate DistinctExcept<T(==)>(s: seq<T>, hole: T)
  {
    forall i, j | 0 <= i < j < |s| && s[i] != hole :: s[i] != s[j]
  }

  /** The tail of a distinct list is distinct, and does not contain the head unless the head is `hole`. */
  lemma DistinctTail<T>(s: seq<T>, hole: T)
    requires DistinctExcept(s, hole) && s != []
    ensures DistinctExcept(s[1..], hole)
    ensures s[0] != hole ==> s[0] !in s[1..]
  {
    var t := s[1..];
    forall i, j | 0 <= i < j < |t| && t[i] != hole ensures t[i] != t[j] {
      assert t[i] == s[i + 1] && t[j] == s[j + 1];
    }
    if s[0] != hole {
      forall j | 0 <= j < |t| ensures t[j] != s[0] { assert t[j] == s[j + 1]; }
    }
  }

  /** Putting a new entry in front of a distinct list keeps it distinct. */
  lemma DistinctCons<T>(a: T, r: seq<T>, hole: T)
    requires DistinctExcept(r, hole) && (a != hole ==> a !in r)
    ensures DistinctExcept([a] + r, hole)
  {
    var out := [a] + r;
    forall i, j | 0 <= i < j < |out| && out[i] != hole ensures out[i] != out[j] {
      assert out[j] == r[j - 1];
      if i > 0 { assert out[i] == r[i - 1]; }
    }
  }

  /** Removing an entry brings in nothing new. */
  lemma RemoveFirstBringsNothing<T>(t: seq<T>, x: T, a: T)
    requires a !in t
    ensures a !in RemoveFirst(t, x)
  {
    var r := RemoveFirst(t, x);
    assert multiset(r)[a] <= multiset(t)[a];
  }

  /** Removing an entry keeps the other entries distinct. */
  lemma {:induction false} RemoveFirstKeepsDistinct<T>(s: seq<T>, x: T, hole: T)
    requires DistinctExcept(s, hole)
    ensures DistinctExcept(RemoveFirst(s, x), hole)
  {
    if s != [] {
      DistinctTail(s, hole);
      if s[0] != x {
        var t := s[1..];
        RemoveFirstKeepsDistinct(t, x, hole);
        if s[0] != hole {
          RemoveFirstBringsNothing(t, x, s[0]);
        }
        DistinctCons(s[0], RemoveFirst(t, x), hole);
      }
    }
  }

  /** Removing an entry that occurs once, a second time, changes nothing. */
  lemma {:induction false} RemoveFirstTwice<T>(s: seq<T>, x: T, hole: T)
    requires DistinctExcept(s, hole) && x != hole
    ensures RemoveFirst(RemoveFirst(s, x), x) == RemoveFirst(s, x)
  {
    if s != [] {
      var t := s[1..];
      assert s == [s[0]] + t;
      DistinctTail(s, hole);
      RemoveFirstCons(s[0], t, x);
      if s[0] != x {
        RemoveFirstTwice(t, x, hole);
        RemoveFirstCons(s[0], RemoveFirst(t, x), x);
      }
    }
  }

  /** The `hole` entries of `s`, in order: what stays behind when every other entry is removed. */
  function Holes<T(==)>(s: seq<T>, hole: T): (r: seq<T>)
    ensures |r| <= |s|
    ensures forall k | 0 <= k < |r| :: r[k] == hole
    ensures hole !in s ==> r == []
  {
    if s == [] then []
    else (if s[0] == hole then [hole] else []) + Holes(s[1..], hole)
  }

  /** The sweep's leftover from index `i` on: entry `i` if it is `hole`, then the leftover after it. */
  lemma HolesFrom<T>(s: seq<T>, i: int, hole: T)
    requires 0 <= i < |s|
    ensures Holes(s[i..], hole) == (if s[i] == hole then [hole] else []) + Holes(s[i + 1..], hole)
  {
    assert s[i..][0] == s[i] && s[i..][1..] == s[i + 1..];
  }

  /** Where entry `i` sits in the list whose entries after `i` have been swept to `h`. */
  lemma SweptLayout<T>(s: seq<T>, i: int, h: seq<T>)
    requires 0 <= i < |s|
    ensures var before := s[..i + 1] + h;
      && i < |before| && before[i] == s[i] && before[..i] == s[..i]
      && before[..i] + before[i + 1..] == s[..i] + h
      && before == s[..i] + ([s[i]] + h)
  {
    var before := s[..i + 1] + h;
    assert before[i + 1..] == h;
    assert s[..i + 1] == s[..i] + [s[i]];
  }

  /** In a distinct list, a non-`hole` entry does not occur before its own position. */
  lemma NotEarlier<T>(s: seq<T>, i: int, hole: T)
    requires DistinctExcept(s, hole) && 0 <= i < |s| && s[i] != hole
    ensures s[i] !in s[..i]
  {
    forall k | 0 <= k < i ensures s[..i][k] != s[i] {
      assert s[..i][k] == s[k];
    }
  }

  /**
   * One step of a back-to-front sweep that removes every non-`hole` entry:
   * with the entries after `i` already swept, sweeping entry `i` gives the
   * state with the entries from `i` on swept.
   */
  lemma BackToFrontStep<T>(s: seq<T>, i: int, hole: T)
    requires DistinctExcept(s, hole) && 0 <= i < |s|
    ensures var before := s[..i + 1] + Holes(s[i + 1..], hole);
      (if s[i] == hole then before else RemoveFirst(before, s[i])) == s[..i] + Holes(s[i..], hole)
  {
    var h := Holes(s[i + 1..], hole);
    HolesFrom(s, i, hole);
    SweptLayout(s, i, h);
    if s[i] != hole {
      NotEarlier(s, i, hole);
      RemoveFirstAt(s[..i + 1] + h, s[i], i);
    }
  }
}
