/**
 * Pure facts about the link vectors of a skip-list node arena.
 *
 * A node arena is a pair of sequences `prevs`, `nexts`, indexed by slot
 * number; `nexts[n][l]` is the successor of slot `n` on level `l` and
 * `heights[n]` is the number of levels the tower of slot `n` takes part in.
 * The members of level `l` are exactly the nodes whose tower is taller
 * than `l`; each level is a circular doubly linked list through the
 * sentinel.
 */
module SkipLevels {
  import opened Seqs

  /** `x` owns a link on level `l`. */
  predicate Tall(heights: seq<nat>, x: nat, l: nat) {
    x < |heights| && heights[x] > l
  }

  /** The members of `s` linked on level `l`, in the order of `s`. */
  function Level(heights: seq<nat>, s: seq<nat>, l: nat): (r: seq<nat>)
    ensures |r| <= |s|
  {
    if s == [] then []
    else (if Tall(heights, s[0], l) then [s[0]] else []) + Level(heights, s[1..], l)
  }

  /** The members of a level are the members of `s` tall enough for it. */
  lemma {:induction false} LevelMember(heights: seq<nat>, s: seq<nat>, l: nat, x: nat)
    ensures x in Level(heights, s, l) <==> x in s && Tall(heights, x, l)
    decreases |s|
  {
    if s != [] {
      LevelMember(heights, s[1..], l, x);
      assert s == [s[0]] + s[1..];
    }
  }

  lemma {:induction false} LevelAppend(heights: seq<nat>, a: seq<nat>, b: seq<nat>, l: nat)
    ensures Level(heights, a + b, l) == Level(heights, a, l) + Level(heights, b, l)
    decreases |a|
  {
    if a != [] {
      var head := if Tall(heights, a[0], l) then [a[0]] else [];
      assert (a + b)[0] == a[0];
      assert (a + b)[1..] == a[1..] + b;
      LevelAppend(heights, a[1..], b, l);
      calc {
        Level(heights, a + b, l);
        head + Level(heights, a[1..] + b, l);
        head + (Level(heights, a[1..], l) + Level(heights, b, l));
        (head + Level(heights, a[1..], l)) + Level(heights, b, l);
        Level(heights, a, l) + Level(heights, b, l);
      }
    } else {
      assert a + b == b;
    }
  }

  /** On level 0 and below every member's height, nothing is filtered out. */
  lemma {:induction false} LevelAll(heights: seq<nat>, s: seq<nat>, l: nat)
    requires forall i :: 0 <= i < |s| ==> Tall(heights, s[i], l)
    ensures Level(heights, s, l) == s
    decreases |s|
  {
    if s != [] {
      LevelAll(heights, s[1..], l);
    }
  }

  /** A level above every member's height is empty. */
  lemma {:induction false} LevelNone(heights: seq<nat>, s: seq<nat>, l: nat)
    requires forall i :: 0 <= i < |s| ==> !Tall(heights, s[i], l)
    ensures Level(heights, s, l) == []
    decreases |s|
  {
    if s != [] {
      LevelNone(heights, s[1..], l);
    }
  }

  /** Filtering for level `l2` after level `l1 <= l2` is filtering for `l2`. */
  lemma {:induction false} LevelNested(heights: seq<nat>, s: seq<nat>, l1: nat, l2: nat)
    requires l1 <= l2
    ensures Level(heights, Level(heights, s, l1), l2) == Level(heights, s, l2)
    decreases |s|
  {
    if s != [] {
      var head := if Tall(heights, s[0], l1) then [s[0]] else [];
      LevelAppend(heights, head, Level(heights, s[1..], l1), l2);
      LevelNested(heights, s[1..], l1, l2);
      if Tall(heights, s[0], l1) {
        assert Level(heights, head, l2) == (if Tall(heights, s[0], l2) then [s[0]] else []) + Level(heights, [], l2);
      }
    }
  }

  /** The level list only depends on the heights of the members. */
  lemma {:induction false} LevelFrame(h1: seq<nat>, h2: seq<nat>, s: seq<nat>, l: nat)
    requires forall i :: 0 <= i < |s| ==> (Tall(h1, s[i], l) <==> Tall(h2, s[i], l))
    ensures Level(h1, s, l) == Level(h2, s, l)
    decreases |s|
  {
    if s != [] {
      LevelFrame(h1, h2, s[1..], l);
    }
  }

  lemma {:induction false} LevelDistinct(heights: seq<nat>, s: seq<nat>, l: nat)
    requires Distinct(s)
    ensures Distinct(Level(heights, s, l))
    decreases |s|
  {
    if s != [] {
      LevelDistinct(heights, s[1..], l);
      var r := Level(heights, s[1..], l);
      assert s[0] !in s[1..];
      LevelMember(heights, s[1..], l, s[0]);
      assert s[0] !in r;
    }
  }

  /** Slot `x` has a link on level `l` in both vectors. */
  predicate HasLink(prevs: seq<seq<nat>>, nexts: seq<seq<nat>>, x: nat, l: nat) {
    x < |nexts| && x < |prevs| && l < |nexts[x]| && l < |prevs[x]|
  }

  /**
   * `c` is the cyclic order of level `l`: every member's successor is the
   * next member (the last wraps to the first), and the successor's
   * predecessor is the member itself.
   */
  ghost predicate Ring(prevs: seq<seq<nat>>, nexts: seq<seq<nat>>, c: seq<nat>, l: nat) {
    |c| > 0
    && (forall j :: 0 <= j < |c| ==> HasLink(prevs, nexts, c[j], l))
    && (forall j :: 0 <= j < |c| - 1 ==> nexts[c[j]][l] == c[j + 1] && prevs[c[j + 1]][l] == c[j])
    && nexts[c[|c| - 1]][l] == c[0] && prevs[c[0]][l] == c[|c| - 1]
  }

  /** The successor of member `c[j]` in the ring. */
  function After(c: seq<nat>, j: nat): nat
    requires j < |c|
  {
    if j + 1 < |c| then c[j + 1] else c[0]
  }

  /** The predecessor of member `c[j]` in the ring. */
  function Before(c: seq<nat>, j: nat): nat
    requires j < |c|
  {
    if j > 0 then c[j - 1] else c[|c| - 1]
  }

  lemma RingNeighbours(prevs: seq<seq<nat>>, nexts: seq<seq<nat>>, c: seq<nat>, l: nat, j: nat)
    requires Ring(prevs, nexts, c, l) && j < |c|
    ensures nexts[c[j]][l] == After(c, j) && prevs[c[j]][l] == Before(c, j)
  {
    if j > 0 {
      assert prevs[c[(j - 1) + 1]][l] == c[j - 1];
    }
  }

  /**
   * Every link on level `l` of the first vector is present, unchanged, in
   * the second (which may have more slots or taller towers).
   */
  ghost predicate SameLinks(n1: seq<seq<nat>>, n2: seq<seq<nat>>, l: nat) {
    |n2| >= |n1|
    && forall x :: 0 <= x < |n1| && l < |n1[x]| ==> l < |n2[x]| && n2[x][l] == n1[x][l]
  }

  ghost predicate SameLevel(p1: seq<seq<nat>>, n1: seq<seq<nat>>, p2: seq<seq<nat>>, n2: seq<seq<nat>>, l: nat) {
    SameLinks(p1, p2, l) && SameLinks(n1, n2, l)
  }

  lemma SameLinksTrans(n1: seq<seq<nat>>, n2: seq<seq<nat>>, n3: seq<seq<nat>>, l: nat)
    requires SameLinks(n1, n2, l) && SameLinks(n2, n3, l)
    ensures SameLinks(n1, n3, l)
  {
  }

  lemma RingFrame(p1: seq<seq<nat>>, n1: seq<seq<nat>>, p2: seq<seq<nat>>, n2: seq<seq<nat>>, c: seq<nat>, l: nat)
    requires Ring(p1, n1, c, l) && SameLevel(p1, n1, p2, n2, l)
    ensures Ring(p2, n2, c, l)
  {
  }

  /** `link_(l, a, b)`: `a`'s successor and `b`'s predecessor on level `l` become each other. */
  function SetNext(nexts: seq<seq<nat>>, a: nat, l: nat, b: nat): (r: seq<seq<nat>>)
    requires a < |nexts| && l < |nexts[a]|
    ensures |r| == |nexts|
    ensures forall x :: 0 <= x < |nexts| && x != a ==> r[x] == nexts[x]
    ensures |r[a]| == |nexts[a]| && r[a][l] == b
    ensures forall m :: 0 <= m < |nexts[a]| && m != l ==> r[a][m] == nexts[a][m]
  {
    var row: seq<nat> := nexts[a][l := b];
    nexts[a := row]
  }

  /** Levels `lo` to `hi - 1` are the rings of the sentinel `0` followed by the members of `s` tall enough. */
  ghost predicate Rings(prevs: seq<seq<nat>>, nexts: seq<seq<nat>>, heights: seq<nat>, s: seq<nat>, lo: nat, hi: nat) {
    forall l :: lo <= l < hi ==> Ring(prevs, nexts, [0] + Level(heights, s, l), l)
  }

  /** A `link_` on level `l` leaves every other level as it was. */
  lemma SetNextOther(nexts: seq<seq<nat>>, a: nat, l: nat, b: nat, m: nat)
    requires a < |nexts| && l < |nexts[a]| && m != l
    ensures SameLinks(nexts, SetNext(nexts, a, l, b), m)
  {
  }

  /** Dropping or keeping the first of the unvisited slots `s[i..]` behind the kept ones `r`. */
  lemma SliceStep(r: seq<nat>, s: seq<nat>, i: nat)
    requires i < |s|
    ensures var c := r + s[i..];
      |r| < |c| && c[|r|] == s[i] && c[..|r|] + c[|r| + 1..] == r + s[i + 1..] && c == r + [s[i]] + s[i + 1..]
  {
    assert s[i..] == [s[i]] + s[i + 1..];
  }

  function Last(s: seq<nat>): nat
    requires s != []
  {
    s[|s| - 1]
  }

  /**
   * One backward step of the walk in `insert_node_`: a node too short for
   * level `i` joins the stretch of the ring that has no member on level `i`.
   */
  lemma WalkStep(heights: seq<nat>, c: seq<nat>, i: nat, j: nat, t: nat)
    requires 0 < j <= t < |c| && !Tall(heights, c[j], i)
    requires Level(heights, c[j + 1..t + 1], i) == []
    ensures Level(heights, c[j..t + 1], i) == []
  {
    assert c[j..t + 1] == [c[j]] + c[j + 1..t + 1];
    LevelAppend(heights, [c[j]], c[j + 1..t + 1], i);
  }

  /**
   * Where the walk stops: the first node at or before `c[t]` tall enough
   * for level `i` is the last member of level `i` among `c[..t + 1]`.
   */
  lemma WalkExit(heights: seq<nat>, c: seq<nat>, i: nat, j: nat, t: nat)
    requires j <= t < |c| && Tall(heights, c[j], i)
    requires Level(heights, c[j + 1..t + 1], i) == []
    ensures Level(heights, c[..t + 1], i) != []
    ensures Last(Level(heights, c[..t + 1], i)) == c[j]
  {
    assert c[..t + 1] == c[..j] + [c[j]] + c[j + 1..t + 1];
    LevelAppend(heights, c[..j] + [c[j]], c[j + 1..t + 1], i);
    LevelAppend(heights, c[..j], [c[j]], i);
    assert Level(heights, [c[j]], i) == [c[j]] + Level(heights, [], i);
  }

  /**
   * Splicing `x` into the ring after member `c[t]`, with the two `link_`
   * steps `insert_node_` performs, yields the ring with `x` at index `t + 1`.
   */
  lemma {:induction false} RingInsert(prevs: seq<seq<nat>>, nexts: seq<seq<nat>>, c: seq<nat>, l: nat, t: nat, x: nat)
    requires Ring(prevs, nexts, c, l) && Distinct(c) && t < |c| && x !in c
    requires HasLink(prevs, nexts, x, l)
    ensures
      var p := c[t];
      var q := After(c, t);
      var n1 := SetNext(nexts, p, l, x);
      var p1 := SetNext(prevs, x, l, p);
      var n2 := SetNext(n1, x, l, q);
      var p2 := SetNext(p1, q, l, x);
      Ring(p2, n2, c[..t + 1] + [x] + c[t + 1..], l)
  {
    var p := c[t];
    RingNeighbours(prevs, nexts, c, l, t);
    var q := nexts[p][l];
    var n2 := SetNext(SetNext(nexts, p, l, x), x, l, q);
    var p2 := SetNext(SetNext(prevs, x, l, p), q, l, x);
    var d := c[..t + 1] + [x] + c[t + 1..];
    forall j | 0 <= j < |d|
      ensures HasLink(p2, n2, d[j], l)
    {
      assert d[j] == x || d[j] in c;
    }
    forall j | 0 <= j < |d| - 1
      ensures n2[d[j]][l] == d[j + 1] && p2[d[j + 1]][l] == d[j]
    {
      RingInsertAt(prevs, nexts, c, l, t, x, j);
    }
    RingInsertWrap(prevs, nexts, c, l, t, x);
  }

  /** The links of `RingInsert` between the `j`th and the next member of the new ring. */
  lemma RingInsertAt(prevs: seq<seq<nat>>, nexts: seq<seq<nat>>, c: seq<nat>, l: nat, t: nat, x: nat, j: nat)
    requires Ring(prevs, nexts, c, l) && Distinct(c) && t < |c| && x !in c && j < |c|
    requires HasLink(prevs, nexts, x, l)
    ensures
      var p := c[t];
      var q := After(c, t);
      var n2 := SetNext(SetNext(nexts, p, l, x), x, l, q);
      var p2 := SetNext(SetNext(prevs, x, l, p), q, l, x);
      var d := c[..t + 1] + [x] + c[t + 1..];
      n2[d[j]][l] == d[j + 1] && p2[d[j + 1]][l] == d[j]
  {
    var p := c[t];
    RingNeighbours(prevs, nexts, c, l, t);
    var q := After(c, t);
    var d := c[..t + 1] + [x] + c[t + 1..];
    if j < t {
      assert d[j] == c[j] && d[j + 1] == c[j + 1];
      assert c[j] != p && c[j + 1] != q;
    } else if j == t {
      assert d[j] == p && d[j + 1] == x;
    } else if j == t + 1 {
      assert d[j] == x && d[j + 1] == c[t + 1] == q;
    } else {
      assert d[j] == c[j - 1] && d[j + 1] == c[j];
      assert c[j - 1] != p && c[j] != q;
    }
  }

  /** The wrap-around links of `RingInsert`: the last member of the new ring leads back to the sentinel. */
  lemma RingInsertWrap(prevs: seq<seq<nat>>, nexts: seq<seq<nat>>, c: seq<nat>, l: nat, t: nat, x: nat)
    requires Ring(prevs, nexts, c, l) && Distinct(c) && t < |c| && x !in c
    requires HasLink(prevs, nexts, x, l)
    ensures
      var p := c[t];
      var q := After(c, t);
      var n2 := SetNext(SetNext(nexts, p, l, x), x, l, q);
      var p2 := SetNext(SetNext(prevs, x, l, p), q, l, x);
      var d := c[..t + 1] + [x] + c[t + 1..];
      n2[d[|d| - 1]][l] == d[0] && p2[d[0]][l] == d[|d| - 1]
  {
    var p := c[t];
    var q := After(c, t);
    var d := c[..t + 1] + [x] + c[t + 1..];
    assert d[0] == c[0];
    if t + 1 == |c| {
      assert d[|d| - 1] == x && q == c[0];
    } else {
      assert d[|d| - 1] == c[|c| - 1] && q == c[t + 1];
      assert c[|c| - 1] != p && c[0] != q;
    }
  }

  /**
   * Joining the neighbours of member `c[t]` (`t > 0`, so never the
   * sentinel) with one `link_`, as `unlink_node_` does, yields the ring
   * without `c[t]`.
   */
  lemma {:induction false} RingRemove(prevs: seq<seq<nat>>, nexts: seq<seq<nat>>, c: seq<nat>, l: nat, t: nat)
    requires Ring(prevs, nexts, c, l) && Distinct(c) && 0 < t < |c|
    ensures
      var a := c[t - 1];
      var b := After(c, t);
      Ring(SetNext(prevs, b, l, a), SetNext(nexts, a, l, b), c[..t] + c[t + 1..], l)
  {
    var x := c[t];
    RingNeighbours(prevs, nexts, c, l, t);
    var a := prevs[x][l];
    var b := nexts[x][l];
    assert a == c[t - 1];
    var n2 := SetNext(nexts, a, l, b);
    var p2 := SetNext(prevs, b, l, a);
    var d := c[..t] + c[t + 1..];
    assert |d| == |c| - 1;
    assert forall j :: 0 <= j < t ==> d[j] == c[j];
    assert forall j :: t <= j < |d| ==> d[j] == c[j + 1];
    forall j | 0 <= j < |d| - 1
      ensures n2[d[j]][l] == d[j + 1] && p2[d[j + 1]][l] == d[j]
    {
      if j < t - 1 {
        assert d[j] != a;
        assert d[j + 1] != b || (t + 1 == |c| && j + 1 == 0);
      } else if j == t - 1 {
      } else {
        assert d[j] == c[j + 1] && d[j + 1] == c[j + 2];
        assert d[j] != a;
        assert d[j + 1] != b;
      }
    }
    if t + 1 == |c| {
      assert d[|d| - 1] == a;
      assert n2[a][l] == c[0];
    } else {
      assert d[|d| - 1] == c[|c| - 1];
      assert c[|c| - 1] != a;
      assert c[0] != b;
    }
  }

  /** Where a single member sits in the level list of a concatenation. */
  lemma LevelSplit(heights: seq<nat>, a: seq<nat>, x: nat, b: seq<nat>, l: nat)
    ensures Level(heights, a + [x] + b, l) == Level(heights, a, l) + (if Tall(heights, x, l) then [x] else []) + Level(heights, b, l)
  {
    LevelAppend(heights, a + [x], b, l);
    LevelAppend(heights, a, [x], l);
    assert Level(heights, [x], l) == (if Tall(heights, x, l) then [x] else []) + Level(heights, [], l);
  }

  /** The ring of level `i` with its sentinel, split before position `q` of `s`. */
  lemma RingSplit(heights: seq<nat>, s: seq<nat>, q: nat, i: nat)
    requires q <= |s|
    ensures var r := [0] + Level(heights, s, i);
      var t := |Level(heights, s[..q], i)|;
      t < |r| && r[..t + 1] == [0] + Level(heights, s[..q], i) && r[t + 1..] == Level(heights, s[q..], i)
  {
    assert s == s[..q] + s[q..];
    LevelAppend(heights, s[..q], s[q..], i);
    var a, b := Level(heights, s[..q], i), Level(heights, s[q..], i);
    assert [0] + Level(heights, s, i) == ([0] + a) + b;
  }

  /** `link_(i, p, x, q)`, the successor side. */
  function SpliceNexts(nexts: seq<seq<nat>>, p: nat, i: nat, x: nat, q: nat): (r: seq<seq<nat>>)
    requires p < |nexts| && i < |nexts[p]| && x < |nexts| && i < |nexts[x]|
    ensures |r| == |nexts|
  {
    SetNext(SetNext(nexts, p, i, x), x, i, q)
  }

  /** `link_(i, p, x, q)`, the predecessor side. */
  function SplicePrevs(prevs: seq<seq<nat>>, p: nat, i: nat, x: nat, q: nat): (r: seq<seq<nat>>)
    requires x < |prevs| && i < |prevs[x]| && q < |prevs| && i < |prevs[q]|
    ensures |r| == |prevs|
  {
    SetNext(SetNext(prevs, x, i, p), q, i, x)
  }

  lemma SpliceOther(prevs: seq<seq<nat>>, nexts: seq<seq<nat>>, p: nat, i: nat, x: nat, q: nat, l: nat)
    requires p < |nexts| && i < |nexts[p]| && x < |nexts| && i < |nexts[x]|
    requires x < |prevs| && i < |prevs[x]| && q < |prevs| && i < |prevs[q]|
    requires l != i
    ensures SameLevel(prevs, nexts, SplicePrevs(prevs, p, i, x, q), SpliceNexts(nexts, p, i, x, q), l)
  {
    SetNextOther(nexts, p, i, x, l);
    SetNextOther(SetNext(nexts, p, i, x), x, i, q, l);
    SameLinksTrans(nexts, SetNext(nexts, p, i, x), SpliceNexts(nexts, p, i, x, q), l);
    SetNextOther(prevs, x, i, p, l);
    SetNextOther(SetNext(prevs, x, i, p), q, i, x, l);
    SameLinksTrans(prevs, SetNext(prevs, x, i, p), SplicePrevs(prevs, p, i, x, q), l);
  }

  /** A level ring never visits a node twice. */
  lemma SentinelRingDistinct(heights: seq<nat>, s: seq<nat>, i: nat)
    requires 0 !in s && Distinct(s)
    ensures Distinct([0] + Level(heights, s, i))
  {
    LevelDistinct(heights, s, i);
    LevelMember(heights, s, i, 0);
  }

  /** Where `x` goes in the ring of level `i` when it is inserted at position `q` of `s`. */
  lemma SpliceSeq(heights: seq<nat>, s: seq<nat>, q: nat, x: nat, i: nat)
    requires q <= |s| && Tall(heights, x, i)
    ensures var r := [0] + Level(heights, s, i);
      var t := |Level(heights, s[..q], i)|;
      t < |r| && r[t] == Last([0] + Level(heights, s[..q], i))
      && r[..t + 1] + [x] + r[t + 1..] == [0] + Level(heights, s[..q] + [x] + s[q..], i)
  {
    RingSplit(heights, s, q, i);
    LevelSplit(heights, s[..q], x, s[q..], i);
  }

  /** The level `i` part of a round of `insert_node_`. */
  lemma SpliceRing(prevs: seq<seq<nat>>, nexts: seq<seq<nat>>, heights: seq<nat>, s: seq<nat>, q: nat, x: nat, i: nat, p: nat)
    requires q <= |s| && 0 !in s && Distinct(s) && x !in s && x != 0
    requires Tall(heights, x, i) && HasLink(prevs, nexts, x, i)
    requires Ring(prevs, nexts, [0] + Level(heights, s, i), i)
    requires p == Last([0] + Level(heights, s[..q], i))
    ensures HasLink(prevs, nexts, p, i) && HasLink(prevs, nexts, nexts[p][i], i)
    ensures Ring(SplicePrevs(prevs, p, i, x, nexts[p][i]), SpliceNexts(nexts, p, i, x, nexts[p][i]),
                 [0] + Level(heights, s[..q] + [x] + s[q..], i), i)
  {
    var r := [0] + Level(heights, s, i);
    var t := |Level(heights, s[..q], i)|;
    SpliceSeq(heights, s, q, x, i);
    SentinelRingDistinct(heights, s, i);
    LevelMember(heights, s, i, x);
    RingNeighbours(prevs, nexts, r, i, t);
    RingInsert(prevs, nexts, r, i, t, x);
  }

  /** Levels that a splice on level `i` does not touch keep their rings. */
  lemma SpliceKeeps(prevs: seq<seq<nat>>, nexts: seq<seq<nat>>, heights: seq<nat>, s: seq<nat>, p: nat, i: nat, x: nat, q: nat, lo: nat, hi: nat)
    requires p < |nexts| && i < |nexts[p]| && x < |nexts| && i < |nexts[x]|
    requires x < |prevs| && i < |prevs[x]| && q < |prevs| && i < |prevs[q]|
    requires Rings(prevs, nexts, heights, s, lo, hi) && (hi <= i || i < lo)
    ensures Rings(SplicePrevs(prevs, p, i, x, q), SpliceNexts(nexts, p, i, x, q), heights, s, lo, hi)
  {
    forall l | lo <= l < hi
      ensures Ring(SplicePrevs(prevs, p, i, x, q), SpliceNexts(nexts, p, i, x, q), [0] + Level(heights, s, l), l)
    {
      SpliceOther(prevs, nexts, p, i, x, q, l);
      RingFrame(prevs, nexts, SplicePrevs(prevs, p, i, x, q), SpliceNexts(nexts, p, i, x, q), [0] + Level(heights, s, l), l);
    }
  }

  /**
   * One round of `insert_node_`'s loop: with levels below `i` already
   * holding `x` and levels from `i` up not yet, linking `x` after the last
   * node of level `i` that precedes position `q` extends the first range by
   * level `i`.
   */
  lemma SpliceLevel(prevs: seq<seq<nat>>, nexts: seq<seq<nat>>, heights: seq<nat>, s: seq<nat>, q: nat, x: nat, i: nat, hi: nat, p: nat)
    requires q <= |s| && 0 !in s && Distinct(s) && x !in s && x != 0
    requires i < hi && Tall(heights, x, i) && HasLink(prevs, nexts, x, i)
    requires Rings(prevs, nexts, heights, s[..q] + [x] + s[q..], 0, i)
    requires Rings(prevs, nexts, heights, s, i, hi)
    requires p == Last([0] + Level(heights, s[..q], i))
    ensures HasLink(prevs, nexts, p, i) && HasLink(prevs, nexts, nexts[p][i], i)
    ensures Rings(SplicePrevs(prevs, p, i, x, nexts[p][i]), SpliceNexts(nexts, p, i, x, nexts[p][i]),
                  heights, s[..q] + [x] + s[q..], 0, i + 1)
    ensures Rings(SplicePrevs(prevs, p, i, x, nexts[p][i]), SpliceNexts(nexts, p, i, x, nexts[p][i]),
                  heights, s, i + 1, hi)
  {
    assert Ring(prevs, nexts, [0] + Level(heights, s, i), i);
    SpliceRing(prevs, nexts, heights, s, q, x, i, p);
    SpliceKeeps(prevs, nexts, heights, s[..q] + [x] + s[q..], p, i, x, nexts[p][i], 0, i);
    SpliceKeeps(prevs, nexts, heights, s, p, i, x, nexts[p][i], i + 1, hi);
  }

  /** `link_(i, a, b)` on both vectors. */
  lemma JoinOther(prevs: seq<seq<nat>>, nexts: seq<seq<nat>>, a: nat, i: nat, b: nat, l: nat)
    requires a < |nexts| && i < |nexts[a]| && b < |prevs| && i < |prevs[b]| && l != i
    ensures SameLevel(prevs, nexts, SetNext(prevs, b, i, a), SetNext(nexts, a, i, b), l)
  {
    SetNextOther(nexts, a, i, b, l);
    SetNextOther(prevs, b, i, a, l);
  }

  /** Where `s[k]` sits in the ring of level `i`, and what the ring is without it. */
  lemma UnspliceSeq(heights: seq<nat>, s: seq<nat>, k: nat, i: nat)
    requires k < |s| && Tall(heights, s[k], i)
    ensures var r := [0] + Level(heights, s, i);
      var t := 1 + |Level(heights, s[..k], i)|;
      t < |r| && r[t] == s[k]
      && r[..t] + r[t + 1..] == [0] + Level(heights, s[..k] + s[k + 1..], i)
  {
    assert s == s[..k] + [s[k]] + s[k + 1..];
    LevelSplit(heights, s[..k], s[k], s[k + 1..], i);
    LevelAppend(heights, s[..k], s[k + 1..], i);
  }

  /** The level `i` part of a round of `unlink_node_`. */
  lemma UnspliceRing(prevs: seq<seq<nat>>, nexts: seq<seq<nat>>, heights: seq<nat>, s: seq<nat>, k: nat, i: nat)
    requires k < |s| && 0 !in s && Distinct(s) && Tall(heights, s[k], i)
    requires Ring(prevs, nexts, [0] + Level(heights, s, i), i)
    ensures HasLink(prevs, nexts, s[k], i)
    ensures var a := prevs[s[k]][i];
      var b := nexts[s[k]][i];
      HasLink(prevs, nexts, a, i) && HasLink(prevs, nexts, b, i) && a != s[k] && b != s[k]
      && Ring(SetNext(prevs, b, i, a), SetNext(nexts, a, i, b), [0] + Level(heights, s[..k] + s[k + 1..], i), i)
  {
    var r := [0] + Level(heights, s, i);
    var t := 1 + |Level(heights, s[..k], i)|;
    UnspliceSeq(heights, s, k, i);
    SentinelRingDistinct(heights, s, i);
    RingNeighbours(prevs, nexts, r, i, t);
    RingNeighbours(prevs, nexts, r, i, t - 1);
    RingRemove(prevs, nexts, r, i, t);
  }

  lemma JoinKeeps(prevs: seq<seq<nat>>, nexts: seq<seq<nat>>, heights: seq<nat>, s: seq<nat>, a: nat, i: nat, b: nat, lo: nat, hi: nat)
    requires a < |nexts| && i < |nexts[a]| && b < |prevs| && i < |prevs[b]|
    requires Rings(prevs, nexts, heights, s, lo, hi) && (hi <= i || i < lo)
    ensures Rings(SetNext(prevs, b, i, a), SetNext(nexts, a, i, b), heights, s, lo, hi)
  {
    forall l | lo <= l < hi
      ensures Ring(SetNext(prevs, b, i, a), SetNext(nexts, a, i, b), [0] + Level(heights, s, l), l)
    {
      JoinOther(prevs, nexts, a, i, b, l);
      RingFrame(prevs, nexts, SetNext(prevs, b, i, a), SetNext(nexts, a, i, b), [0] + Level(heights, s, l), l);
    }
  }

  /**
   * One round of `unlink_node_`'s loop: with levels below `i` already
   * without `s[k]`, joining its neighbours on level `i` extends that range
   * by level `i`.
   */
  lemma UnspliceLevel(prevs: seq<seq<nat>>, nexts: seq<seq<nat>>, heights: seq<nat>, s: seq<nat>, k: nat, i: nat, hi: nat)
    requires k < |s| && 0 !in s && Distinct(s)
    requires i < hi && Tall(heights, s[k], i)
    requires Rings(prevs, nexts, heights, s[..k] + s[k + 1..], 0, i)
    requires Rings(prevs, nexts, heights, s, i, hi)
    ensures HasLink(prevs, nexts, s[k], i)
    ensures var a := prevs[s[k]][i];
      var b := nexts[s[k]][i];
      HasLink(prevs, nexts, a, i) && HasLink(prevs, nexts, b, i) && a != s[k] && b != s[k]
      && Rings(SetNext(prevs, b, i, a), SetNext(nexts, a, i, b), heights, s[..k] + s[k + 1..], 0, i + 1)
      && Rings(SetNext(prevs, b, i, a), SetNext(nexts, a, i, b), heights, s, i + 1, hi)
  {
    assert Ring(prevs, nexts, [0] + Level(heights, s, i), i);
    UnspliceRing(prevs, nexts, heights, s, k, i);
    var a := prevs[s[k]][i];
    var b := nexts[s[k]][i];
    JoinKeeps(prevs, nexts, heights, s[..k] + s[k + 1..], a, i, b, 0, i);
    JoinKeeps(prevs, nexts, heights, s, a, i, b, i + 1, hi);
  }

  /** The stretch of the updated ring below level `i` that precedes `x` is the old one. */
  lemma WalkStart(heights: seq<nat>, s: seq<nat>, q: nat, x: nat, i: nat)
    requires q <= |s|
    ensures var c := [0] + Level(heights, s[..q] + [x] + s[q..], i);
      var t := |Level(heights, s[..q], i)|;
      t < |c| && c[..t + 1] == [0] + Level(heights, s[..q], i)
  {
    LevelSplit(heights, s[..q], x, s[q..], i);
  }

  /** Filtering the sentinel ring of level `i - 1` for level `i` gives the sentinel ring of level `i`. */
  lemma WalkTarget(heights: seq<nat>, s: seq<nat>, i: nat)
    requires 0 < i && Tall(heights, 0, i)
    ensures Level(heights, [0] + Level(heights, s, i - 1), i) == [0] + Level(heights, s, i)
  {
    LevelAppend(heights, [0], Level(heights, s, i - 1), i);
    LevelNested(heights, s, i - 1, i);
    assert Level(heights, [0], i) == [0] + Level(heights, [], i);
  }

  /**
   * The rings after an insertion: below the new tower's height they were
   * relinked around it, above it they are those of the old sequence.
   */
  lemma RingsInsertJoin(prevs: seq<seq<nat>>, nexts: seq<seq<nat>>, heights: seq<nat>, s: seq<nat>, q: nat, x: nat, h: nat)
    requires q <= |s| && x < |heights| && heights[x] <= h
    requires Rings(prevs, nexts, heights, s[..q] + [x] + s[q..], 0, heights[x])
    requires Rings(prevs, nexts, heights, s, heights[x], h)
    ensures Rings(prevs, nexts, heights, s[..q] + [x] + s[q..], 0, h)
  {
    assert s == s[..q] + s[q..];
    forall l | heights[x] <= l < h
      ensures Ring(prevs, nexts, [0] + Level(heights, s[..q] + [x] + s[q..], l), l)
    {
      LevelAbove(heights, s[..q], x, s[q..], l);
    }
  }

  /**
   * The rings after a removal: below the removed tower's height they were
   * relinked around it, above it they are those of the old sequence.
   */
  lemma RingsRemoveJoin(prevs: seq<seq<nat>>, nexts: seq<seq<nat>>, heights: seq<nat>, s: seq<nat>, k: nat, h: nat)
    requires k < |s| && s[k] < |heights| && heights[s[k]] <= h
    requires Rings(prevs, nexts, heights, s[..k] + s[k + 1..], 0, heights[s[k]])
    requires Rings(prevs, nexts, heights, s, heights[s[k]], h)
    ensures Rings(prevs, nexts, heights, s[..k] + s[k + 1..], 0, h)
  {
    var x, r := s[k], s[..k] + s[k + 1..];
    assert s == s[..k] + [x] + s[k + 1..];
    forall l | heights[x] <= l < h
      ensures Ring(prevs, nexts, [0] + Level(heights, r, l), l)
    {
      LevelAbove(heights, s[..k], x, s[k + 1..], l);
    }
  }

  /** Above the tower of `x`, inserting or removing `x` does not change a level. */
  lemma LevelAbove(heights: seq<nat>, a: seq<nat>, x: nat, b: seq<nat>, l: nat)
    requires !Tall(heights, x, l)
    ensures Level(heights, a + [x] + b, l) == Level(heights, a + b, l)
  {
    LevelSplit(heights, a, x, b, l);
    LevelAppend(heights, a, b, l);
  }
}
