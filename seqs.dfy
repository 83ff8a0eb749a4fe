/**
 * Small facts about sequences shared by the containers: sequences without
 * repeats, the position of a member, and prefixes.
 */
module Seqs {

  predicate Distinct(s: seq<nat>) {
    forall i, j :: 0 <= i < j < |s| ==> s[i] != s[j]
  }

  /** The position of `x` in `s`. */
  function IndexOf(s: seq<nat>, x: nat): (i: nat)
    requires x in s
    ensures i < |s| && s[i] == x
  {
    if s[0] == x then 0 else 1 + IndexOf(s[1..], x)
  }

  /** In a sequence without repeats, a member's position is the one it is found at. */
  lemma IndexOfDistinct(s: seq<nat>, j: nat)
    requires Distinct(s) && j < |s|
    ensures IndexOf(s, s[j]) == j
  {
  }

  /** A prefix as long as the sequence is the sequence. */
  lemma PrefixAll<T>(s: seq<T>, n: nat)
    requires n == |s|
    ensures s[..n] == s && s[n..] == []
  {
  }

  /** A prefix one longer. */
  lemma PrefixStep<T>(s: seq<T>, n: nat)
    requires n < |s|
    ensures s[..n + 1] == s[..n] + [s[n]]
  {
  }

  /** A sequence cut in two and put back together. */
  lemma PrefixSuffix<T>(s: seq<T>, k: nat)
    requires k <= |s|
    ensures s[..k] + s[k..] == s
  {
  }

  /** The first `m` moved into an empty sequence, and what stays behind. */
  lemma CutFront<T>(s: seq<T>, m: nat)
    requires m <= |s|
    ensures [] + s[0..m] + [] == s[..m] && s[..0] + s[m..] == s[m..]
  {
  }

  /** The empty prefix and the whole suffix. */
  lemma PrefixNone<T>(s: seq<T>)
    ensures s[..0] == [] && [] + s[0..] == s
  {
  }

  /** `s` back to front. */
  function Reversed<T>(s: seq<T>): (r: seq<T>)
    ensures |r| == |s| && forall i :: 0 <= i < |s| ==> r[i] == s[|s| - 1 - i]
  {
    if s == [] then [] else Reversed(s[1..]) + [s[0]]
  }

  lemma DistinctReversed(s: seq<nat>)
    requires Distinct(s)
    ensures Distinct(Reversed(s)) && forall x :: x in Reversed(s) <==> x in s
  {
    var r := Reversed(s);
    forall x | x in s ensures x in r {
      var i :| 0 <= i < |s| && s[i] == x;
      assert r[|s| - 1 - i] == x;
    }
  }

  /** Removing position `|k|` of `k + t` leaves `k + t[1..]`. */
  lemma DropAfter(k: seq<nat>, t: seq<nat>)
    requires t != []
    ensures (k + t)[..|k|] + (k + t)[|k| + 1..] == k + t[1..] && (k + t)[|k|] == t[0]
  {
    assert (k + t)[..|k|] == k;
    assert (k + t)[|k| + 1..] == t[1..];
  }

  /** The halves of a sequence without repeats have no repeats and share no member. */
  lemma DistinctParts(c: seq<nat>, o: seq<nat>)
    requires Distinct(c + o)
    ensures Distinct(c) && Distinct(o)
    ensures forall i, j :: 0 <= i < |c| && 0 <= j < |o| ==> c[i] != o[j]
  {
    var s := c + o;
    forall i, j | 0 <= i < |c| && 0 <= j < |o| ensures c[i] != o[j] {
      assert s[i] == c[i] && s[|c| + j] == o[j];
    }
    forall i, j | 0 <= i < j < |o| ensures o[i] != o[j] {
      assert s[|c| + i] == o[i] && s[|c| + j] == o[j];
    }
    forall i, j | 0 <= i < j < |c| ensures c[i] != c[j] {
      assert s[i] == c[i] && s[j] == c[j];
    }
  }

  /** A member of a sequence without repeats occurs once. */
  lemma {:induction false} DistinctOnce(s: seq<nat>, x: nat)
    requires Distinct(s)
    ensures multiset(s)[x] <= 1
  {
    if s != [] {
      assert s == [s[0]] + s[1..];
      DistinctOnce(s[1..], x);
      if s[0] == x {
        assert x !in s[1..];
      }
    }
  }

  /** Rearranging a sequence without repeats gives one without repeats. */
  lemma DistinctPerm(s: seq<nat>, t: seq<nat>)
    requires Distinct(s) && multiset(s) == multiset(t)
    ensures Distinct(t)
  {
    forall i, j | 0 <= i < j < |t| ensures t[i] != t[j] {
      if t[i] == t[j] {
        assert t == t[..j] + t[j..];
        assert t[i] in t[..j] && t[j] in t[j..];
        assert multiset(t)[t[i]] == multiset(t[..j])[t[i]] + multiset(t[j..])[t[i]];
        DistinctOnce(s, t[i]);
        assert false;
      }
    }
  }

  /** The two parts of a sequence without repeats have no member in common. */
  lemma DistinctApart(a: seq<nat>, b: seq<nat>)
    requires Distinct(a + b)
    ensures forall x :: x in a ==> x !in b
  {
    forall x | x in a ensures x !in b {
      var i :| 0 <= i < |a| && a[i] == x;
      forall j | 0 <= j < |b| ensures b[j] != x {
        assert (a + b)[i] == x && (a + b)[|a| + j] == b[j];
      }
    }
  }

  /** A value larger than every member can be added without repeats. */
  lemma DistinctFresh(s: seq<nat>, x: nat)
    requires Distinct(s) && forall j :: 0 <= j < |s| ==> s[j] < x
    ensures Distinct(s + [x])
  {
  }
}
