/**
 * What the list operations compute, stated on sequences: the values a run
 * of nodes holds, the stable merge of two runs, the runs `remove_if` and
 * `unique` leave behind, and the lexicographic order of the comparisons.
 */
module ListOrder {
  import opened Seqs

  /** The values held by the nodes `s`, in order. */
  ghost function Values(d: map<nat, int>, s: seq<nat>): (r: seq<int>)
    requires forall i :: 0 <= i < |s| ==> s[i] in d
    ensures |r| == |s| && forall i :: 0 <= i < |s| ==> r[i] == d[s[i]]
  {
    if s == [] then [] else [d[s[0]]] + Values(d, s[1..])
  }

  lemma ValuesAppend(d: map<nat, int>, s: seq<nat>, t: seq<nat>)
    requires forall i :: 0 <= i < |s| ==> s[i] in d
    requires forall i :: 0 <= i < |t| ==> t[i] in d
    ensures Values(d, s + t) == Values(d, s) + Values(d, t)
  {
    assert forall i :: 0 <= i < |s + t| ==> (s + t)[i] in d by {
      forall i | 0 <= i < |s + t| ensures (s + t)[i] in d {
        if i >= |s| { assert (s + t)[i] == t[i - |s|]; }
      }
    }
  }

  /**
   * Putting the front node of `s` in front of `m` keeps an equation between
   * the values of `m` and those of the rest of `s`, as multisets.
   */
  lemma ValuesConsStep(d: map<nat, int>, m: seq<nat>, s: seq<nat>, o: multiset<int>)
    requires s != [] && (forall i :: 0 <= i < |m| ==> m[i] in d) && (forall i :: 0 <= i < |s| ==> s[i] in d)
    requires multiset(Values(d, m)) == multiset(Values(d, s[1..])) + o
    ensures multiset(Values(d, [s[0]] + m)) == multiset(Values(d, s)) + o
  {
    ValuesAppend(d, [s[0]], m);
  }

  /** `ValuesConsStep` with the other multiset on the left. */
  lemma ValuesConsStepLeft(d: map<nat, int>, m: seq<nat>, s: seq<nat>, o: multiset<int>)
    requires s != [] && (forall i :: 0 <= i < |m| ==> m[i] in d) && (forall i :: 0 <= i < |s| ==> s[i] in d)
    requires multiset(Values(d, m)) == o + multiset(Values(d, s[1..]))
    ensures multiset(Values(d, [s[0]] + m)) == o + multiset(Values(d, s))
  {
    ValuesAppend(d, [s[0]], m);
  }

  /** Nodes whose values did not change hold the same values. */
  lemma ValuesFrame(d: map<nat, int>, d': map<nat, int>, s: seq<nat>)
    requires forall i :: 0 <= i < |s| ==> s[i] in d && s[i] in d' && d'[s[i]] == d[s[i]]
    ensures Values(d', s) == Values(d, s)
  {
  }

  lemma ValuesReversed(d: map<nat, int>, s: seq<nat>)
    requires forall i :: 0 <= i < |s| ==> s[i] in d
    ensures forall i :: 0 <= i < |Reversed(s)| ==> Reversed(s)[i] in d
    ensures Values(d, Reversed(s)) == Reversed(Values(d, s))
  {
    var r := Reversed(s);
    assert forall i :: 0 <= i < |r| ==> r[i] == s[|s| - 1 - i];
    var a, b := Values(d, r), Reversed(Values(d, s));
    assert |a| == |b|;
    forall i | 0 <= i < |a| ensures a[i] == b[i] {
      assert a[i] == d[s[|s| - 1 - i]];
    }
  }

  /** `n` copies of `v`. */
  function Repeat(n: nat, v: int): (r: seq<int>)
    ensures |r| == n && forall i :: 0 <= i < n ==> r[i] == v
  {
    seq(n, _ => v)
  }

  predicate Sorted(s: seq<int>) {
    forall i, j :: 0 <= i < j < |s| ==> s[i] <= s[j]
  }

  /**
   * The merge of the node runs `a` and `b`: the smaller front value goes
   * first, and on a tie the node of `a` goes first.
   */
  ghost function MergeBy(d: map<nat, int>, a: seq<nat>, b: seq<nat>): (r: seq<nat>)
    requires forall i :: 0 <= i < |a| ==> a[i] in d
    requires forall i :: 0 <= i < |b| ==> b[i] in d
    ensures |r| == |a| + |b| && forall i :: 0 <= i < |r| ==> r[i] in d
    decreases |a| + |b|
  {
    if a == [] then b
    else if b == [] then a
    else if d[b[0]] < d[a[0]] then [b[0]] + MergeBy(d, a, b[1..])
    else [a[0]] + MergeBy(d, a[1..], b)
  }

  /** A merge loses no node and gains none. */
  lemma {:induction false} MergeByPermutation(d: map<nat, int>, a: seq<nat>, b: seq<nat>)
    requires forall i :: 0 <= i < |a| ==> a[i] in d
    requires forall i :: 0 <= i < |b| ==> b[i] in d
    ensures multiset(MergeBy(d, a, b)) == multiset(a) + multiset(b)
    decreases |a| + |b|
  {
    if a != [] && b != [] {
      if d[b[0]] < d[a[0]] {
        MergeByPermutation(d, a, b[1..]);
        assert MergeBy(d, a, b) == [b[0]] + MergeBy(d, a, b[1..]);
        assert b == [b[0]] + b[1..];
      } else {
        MergeByPermutation(d, a[1..], b);
        assert MergeBy(d, a, b) == [a[0]] + MergeBy(d, a[1..], b);
        assert a == [a[0]] + a[1..];
      }
    }
  }

  /** A merge loses no value and gains none. */
  lemma {:induction false} MergeByValues(d: map<nat, int>, a: seq<nat>, b: seq<nat>)
    requires forall i :: 0 <= i < |a| ==> a[i] in d
    requires forall i :: 0 <= i < |b| ==> b[i] in d
    ensures multiset(Values(d, MergeBy(d, a, b))) == multiset(Values(d, a)) + multiset(Values(d, b))
    decreases |a| + |b|
  {
    if a != [] && b != [] {
      if d[b[0]] < d[a[0]] {
        MergeByValues(d, a, b[1..]);
        MergeByOtherFirst(d, a, b);
        ValuesConsStepLeft(d, MergeBy(d, a, b[1..]), b, multiset(Values(d, a)));
      } else {
        MergeByValues(d, a[1..], b);
        MergeByOwnFirst(d, a, b);
        ValuesConsStep(d, MergeBy(d, a[1..], b), a, multiset(Values(d, b)));
      }
    }
  }

  /** The merge puts the front node of `b` first when its value is smaller. */
  lemma MergeByOtherFirst(d: map<nat, int>, a: seq<nat>, b: seq<nat>)
    requires (forall i :: 0 <= i < |a| ==> a[i] in d) && (forall i :: 0 <= i < |b| ==> b[i] in d)
    requires a != [] && b != [] && d[b[0]] < d[a[0]]
    ensures MergeBy(d, a, b) == [b[0]] + MergeBy(d, a, b[1..])
  {
  }

  /** The merge puts the front node of `a` first when its value is no larger. */
  lemma MergeByOwnFirst(d: map<nat, int>, a: seq<nat>, b: seq<nat>)
    requires (forall i :: 0 <= i < |a| ==> a[i] in d) && (forall i :: 0 <= i < |b| ==> b[i] in d)
    requires a != [] && b != [] && d[a[0]] <= d[b[0]]
    ensures MergeBy(d, a, b) == [a[0]] + MergeBy(d, a[1..], b)
  {
  }

  /**
   * `merge` moves the front node of `b` in front of position `i` of `e`
   * when its value is smaller: the merged prefix grows by that node.
   */
  lemma MergeTakeOther(d: map<nat, int>, e: seq<nat>, i: nat, b: seq<nat>, m: seq<nat>)
    requires (forall j :: 0 <= j < |e| ==> e[j] in d) && (forall j :: 0 <= j < |b| ==> b[j] in d)
    requires i < |e| && b != [] && d[b[0]] < d[e[i]]
    requires e[..i] + MergeBy(d, e[i..], b) == m
    ensures var e' := e[..i] + [b[0]] + e[i..];
      (forall j :: 0 <= j < |e'| ==> e'[j] in d) && e'[..i + 1] + MergeBy(d, e'[i + 1..], b[1..]) == m
  {
    var e' := e[..i] + [b[0]] + e[i..];
    assert e'[..i + 1] == e[..i] + [b[0]];
    assert e'[i + 1..] == e[i..];
    assert e[i..][0] == e[i];
    MergeByOtherFirst(d, e[i..], b);
    assert forall j :: 0 <= j < |e'| ==> e'[j] in d by {
      forall j | 0 <= j < |e'| ensures e'[j] in d {
        if j < i { assert e'[j] == e[j]; } else if j > i { assert e'[j] == e[j - 1]; }
      }
    }
  }

  /** `merge` steps past the node at position `i` of `e` when the front of `b` is not smaller. */
  lemma MergeTakeOwn(d: map<nat, int>, e: seq<nat>, i: nat, b: seq<nat>, m: seq<nat>)
    requires (forall j :: 0 <= j < |e| ==> e[j] in d) && (forall j :: 0 <= j < |b| ==> b[j] in d)
    requires i < |e| && b != [] && !(d[b[0]] < d[e[i]])
    requires e[..i] + MergeBy(d, e[i..], b) == m
    ensures e[..i + 1] + MergeBy(d, e[i + 1..], b) == m
  {
    assert e[i..][0] == e[i] && e[i..][1..] == e[i + 1..];
    MergeByOwnFirst(d, e[i..], b);
    assert e[..i + 1] == e[..i] + [e[i]];
  }

  /** When either side is used up, the merge is the merged prefix followed by the rest. */
  lemma MergeEnd(d: map<nat, int>, e: seq<nat>, i: nat, b: seq<nat>, m: seq<nat>)
    requires (forall j :: 0 <= j < |e| ==> e[j] in d) && (forall j :: 0 <= j < |b| ==> b[j] in d)
    requires i <= |e| && (b == [] || i == |e|)
    requires e[..i] + MergeBy(d, e[i..], b) == m
    ensures m == e + b
  {
    assert e == e[..i] + e[i..];
  }

  /** The merge of two sorted runs starts with the smaller of their fronts. */
  lemma {:induction false} MergeByFront(d: map<nat, int>, a: seq<nat>, b: seq<nat>)
    requires forall i :: 0 <= i < |a| ==> a[i] in d
    requires forall i :: 0 <= i < |b| ==> b[i] in d
    requires a != [] || b != []
    ensures MergeBy(d, a, b) != []
    ensures var m := MergeBy(d, a, b);
      (a != [] && m[0] == a[0]) || (b != [] && m[0] == b[0])
  {
  }

  /** A sorted run stays sorted behind a value no larger than its first. */
  lemma SortedCons(x: int, r: seq<int>)
    requires Sorted(r) && (r != [] ==> x <= r[0])
    ensures Sorted([x] + r)
  {
  }

  /** The nodes after the first of a sorted run are a sorted run. */
  lemma SortedRest(d: map<nat, int>, a: seq<nat>)
    requires forall i :: 0 <= i < |a| ==> a[i] in d
    requires a != [] && Sorted(Values(d, a))
    ensures Sorted(Values(d, a[1..])) && Values(d, a) == [d[a[0]]] + Values(d, a[1..])
  {
  }

  /** Merging two sorted runs gives a sorted run. */
  lemma {:induction false} MergeBySorted(d: map<nat, int>, a: seq<nat>, b: seq<nat>)
    requires forall i :: 0 <= i < |a| ==> a[i] in d
    requires forall i :: 0 <= i < |b| ==> b[i] in d
    requires Sorted(Values(d, a)) && Sorted(Values(d, b))
    ensures Sorted(Values(d, MergeBy(d, a, b)))
    decreases |a| + |b|
  {
    if a != [] && b != [] {
      var m := MergeBy(d, a, b);
      SortedRest(d, a);
      SortedRest(d, b);
      var takeB := d[b[0]] < d[a[0]];
      var x := if takeB then b[0] else a[0];
      var a', b' := if takeB then a else a[1..], if takeB then b[1..] else b;
      var rest := MergeBy(d, a', b');
      MergeBySorted(d, a', b');
      assert m == [x] + rest;
      if rest != [] {
        MergeByFront(d, a', b');
      }
      SortedCons(d[x], Values(d, rest));
      assert Values(d, m) == [d[x]] + Values(d, rest);
    }
  }

  /** The node runs of `s` whose values `p` rejects, in order: what `remove_if(p)` keeps. */
  ghost function Kept(d: map<nat, int>, p: int -> bool, s: seq<nat>): (r: seq<nat>)
    requires forall i :: 0 <= i < |s| ==> s[i] in d
    ensures |r| <= |s| && forall i :: 0 <= i < |r| ==> r[i] in d
  {
    if s == [] then [] else (if p(d[s[0]]) then [] else [s[0]]) + Kept(d, p, s[1..])
  }

  /** One round of `remove_if(p)` on the node `s[i]`: it goes to the kept run or is dropped. */
  lemma KeptStep(d: map<nat, int>, p: int -> bool, s: seq<nat>, i: nat, k: seq<nat>)
    requires forall j :: 0 <= j < |s| ==> s[j] in d
    requires i < |s| && k + Kept(d, p, s[i..]) == Kept(d, p, s)
    ensures (if p(d[s[i]]) then k else k + [s[i]]) + Kept(d, p, s[i + 1..]) == Kept(d, p, s)
  {
    assert s[i..][0] == s[i] && s[i..][1..] == s[i + 1..];
  }

  /** The predicate `remove(value)` passes to `remove_if`. */
  function IsValue(value: int): int -> bool {
    x => x == value
  }

  /** The values `p` rejects, in order. */
  function Rejected(p: int -> bool, s: seq<int>): seq<int> {
    if s == [] then [] else (if p(s[0]) then [] else [s[0]]) + Rejected(p, s[1..])
  }

  /** Keeping the nodes keeps their values. */
  lemma {:induction false} KeptValues(d: map<nat, int>, p: int -> bool, s: seq<nat>)
    requires forall i :: 0 <= i < |s| ==> s[i] in d
    ensures Values(d, Kept(d, p, s)) == Rejected(p, Values(d, s))
  {
    if s != [] {
      KeptValues(d, p, s[1..]);
      var h := if p(d[s[0]]) then [] else [s[0]];
      ValuesAppend(d, h, Kept(d, p, s[1..]));
    }
  }

  /** A value survives `remove_if(p)` exactly when it was there and `p` rejects it. */
  lemma {:induction false} RejectedMembers(p: int -> bool, s: seq<int>, x: int)
    ensures x in Rejected(p, s) <==> x in s && !p(x)
  {
    if s != [] {
      RejectedMembers(p, s[1..], x);
      assert s == [s[0]] + s[1..];
    }
  }

  /**
   * What `unique(p)` keeps of the runs `s` once the last value kept is
   * `cur`: a node goes when `p(cur, its value)` and is kept, becoming the
   * new `cur`, otherwise.
   */
  ghost function Dedup(d: map<nat, int>, p: (int, int) -> bool, cur: int, s: seq<nat>): (r: seq<nat>)
    requires forall i :: 0 <= i < |s| ==> s[i] in d
    ensures |r| <= |s| && forall i :: 0 <= i < |r| ==> r[i] in d
    decreases |s|
  {
    if s == [] then []
    else if p(cur, d[s[0]]) then Dedup(d, p, cur, s[1..])
    else [s[0]] + Dedup(d, p, d[s[0]], s[1..])
  }

  /** `unique(p)` on values: the first value stays, then as `Dedup`. */
  function Unique(p: (int, int) -> bool, s: seq<int>): seq<int> {
    if s == [] then [] else [s[0]] + UniqueFrom(p, s[0], s[1..])
  }

  function UniqueFrom(p: (int, int) -> bool, cur: int, s: seq<int>): seq<int>
    decreases |s|
  {
    if s == [] then []
    else if p(cur, s[0]) then UniqueFrom(p, cur, s[1..])
    else [s[0]] + UniqueFrom(p, s[0], s[1..])
  }

  lemma {:induction false} DedupValues(d: map<nat, int>, p: (int, int) -> bool, cur: int, s: seq<nat>)
    requires forall i :: 0 <= i < |s| ==> s[i] in d
    ensures Values(d, Dedup(d, p, cur, s)) == UniqueFrom(p, cur, Values(d, s))
    decreases |s|
  {
    if s != [] {
      DedupValues(d, p, cur, s[1..]);
      DedupValues(d, p, d[s[0]], s[1..]);
      ValuesAppend(d, [s[0]], Dedup(d, p, d[s[0]], s[1..]));
    }
  }

  /**
   * One round of `unique(p)` on the node `s[i]` after the kept value `cur`:
   * it is dropped, or kept and its value becomes `cur`.
   */
  lemma DedupStep(d: map<nat, int>, p: (int, int) -> bool, cur: int, s: seq<nat>, i: nat, k: seq<nat>, r: seq<nat>)
    requires forall j :: 0 <= j < |s| ==> s[j] in d
    requires i < |s| && k + Dedup(d, p, cur, s[i..]) == r
    ensures p(cur, d[s[i]]) ==> k + Dedup(d, p, cur, s[i + 1..]) == r
    ensures !p(cur, d[s[i]]) ==> (k + [s[i]]) + Dedup(d, p, d[s[i]], s[i + 1..]) == r
  {
    assert s[i..][0] == s[i] && s[i..][1..] == s[i + 1..];
  }

  /** The nodes `unique(p)` keeps of the run `s`: the first, then as `Dedup`. */
  ghost function UniqueNodes(d: map<nat, int>, p: (int, int) -> bool, s: seq<nat>): (r: seq<nat>)
    requires forall i :: 0 <= i < |s| ==> s[i] in d
    ensures |r| <= |s| && (s != [] ==> r != [] && r[0] == s[0])
  {
    if s == [] then [] else [s[0]] + Dedup(d, p, d[s[0]], s[1..])
  }

  /** `unique(p)` keeps the first node, and goes on from the second with its value. */
  lemma UniqueNodesFirst(d: map<nat, int>, p: (int, int) -> bool, s: seq<nat>)
    requires (forall i :: 0 <= i < |s| ==> s[i] in d) && s != []
    ensures [s[0]] + Dedup(d, p, d[s[0]], s[1..]) == UniqueNodes(d, p, s)
  {
  }

  /** Keeping the nodes `unique(p)` keeps keeps the values `Unique` keeps. */
  lemma UniqueNodesValues(d: map<nat, int>, p: (int, int) -> bool, s: seq<nat>)
    requires forall i :: 0 <= i < |s| ==> s[i] in d
    ensures Values(d, UniqueNodes(d, p, s)) == Unique(p, Values(d, s))
  {
    if s != [] {
      DedupValues(d, p, d[s[0]], s[1..]);
      ValuesAppend(d, [s[0]], Dedup(d, p, d[s[0]], s[1..]));
      assert Values(d, s)[1..] == Values(d, s[1..]);
    }
  }

  function Same(x: int, y: int): bool {
    x == y
  }

  /** After the kept value `cur`, no two neighbours of what `unique()` keeps are equal. */
  lemma {:induction false} UniqueFromSeparates(cur: int, s: seq<int>)
    ensures var r := UniqueFrom(Same, cur, s);
      (r != [] ==> r[0] != cur) && forall i :: 0 <= i < |r| - 1 ==> r[i] != r[i + 1]
    decreases |s|
  {
    if s != [] {
      UniqueFromSeparates(cur, s[1..]);
      UniqueFromSeparates(s[0], s[1..]);
    }
  }

  /** `unique()` leaves no two equal neighbours and loses no value. */
  lemma UniqueSeparates(s: seq<int>)
    ensures var r := Unique(Same, s);
      (forall i :: 0 <= i < |r| - 1 ==> r[i] != r[i + 1]) && (forall x :: x in s <==> x in r)
  {
    if s != [] {
      UniqueFromSeparates(s[0], s[1..]);
      forall x ensures x in s <==> x in Unique(Same, s) {
        UniqueFromKeeps(s[0], s[1..], x);
        assert s == [s[0]] + s[1..];
      }
    }
  }

  /** Every value after `cur` is `cur` or survives `unique()`, and nothing else does. */
  lemma {:induction false} UniqueFromKeeps(cur: int, s: seq<int>, x: int)
    ensures x in UniqueFrom(Same, cur, s) ==> x in s
    ensures x in s ==> x == cur || x in UniqueFrom(Same, cur, s)
    decreases |s|
  {
    if s != [] {
      UniqueFromKeeps(cur, s[1..], x);
      UniqueFromKeeps(s[0], s[1..], x);
    }
  }
}
