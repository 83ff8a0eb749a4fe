/**
 * Pure facts about the links of a doubly linked list's nodes.
 *
 * Node memory is a pair of sequences `prev`, `next` indexed by slot number.
 * A list is a ring through its sentinel: from the sentinel, `next` visits
 * the elements in order and comes back, and `prev` walks the same ring the
 * other way. `link_(a, b)` is the update `next[a := b]`, `prev[b := a]`.
 */
module ListRings {
  import opened Seqs

  /** Consecutive members of `b` are linked both ways. */
  ghost predicate Chained(prev: seq<nat>, next: seq<nat>, b: seq<nat>) {
    (forall j :: 0 <= j < |b| ==> b[j] < |next| && b[j] < |prev|)
    && (forall j :: 0 <= j < |b| - 1 ==> next[b[j]] == b[j + 1] && prev[b[j + 1]] == b[j])
  }

  /** `c` is a ring: chained, and its last member is linked back to its first. */
  ghost predicate Linked(prev: seq<nat>, next: seq<nat>, c: seq<nat>) {
    |c| > 0 && Chained(prev, next, c) && next[c[|c| - 1]] == c[0] && prev[c[0]] == c[|c| - 1]
  }

  /** The member that follows `c[j]` around the ring. */
  function After(c: seq<nat>, j: nat): nat
    requires j < |c|
  {
    if j + 1 < |c| then c[j + 1] else c[0]
  }

  /** The member that precedes `c[j]` around the ring. */
  function Before(c: seq<nat>, j: nat): nat
    requires j < |c|
  {
    if j == 0 then c[|c| - 1] else c[j - 1]
  }

  lemma Neighbours(prev: seq<nat>, next: seq<nat>, c: seq<nat>, j: nat)
    requires Linked(prev, next, c) && j < |c|
    ensures next[c[j]] == After(c, j) && prev[c[j]] == Before(c, j)
  {
  }

  /**
   * The frame of a list operation: the slots that existed before keep their
   * links and their values unless they belong to `own`; slots are only ever
   * added.
   */
  ghost predicate Keeps(p0: seq<nat>, n0: seq<nat>, d0: map<nat, int>,
                        p1: seq<nat>, n1: seq<nat>, d1: map<nat, int>, own: seq<nat>) {
    |p0| == |n0| <= |n1| == |p1|
    && (forall x :: 0 <= x < |n0| && x !in own ==> n1[x] == n0[x] && p1[x] == p0[x])
    && (forall x :: 0 <= x < |n0| && x !in own && x in d0 ==> x in d1 && d1[x] == d0[x])
  }

  lemma KeepsTrans(p0: seq<nat>, n0: seq<nat>, d0: map<nat, int>,
                   p1: seq<nat>, n1: seq<nat>, d1: map<nat, int>,
                   p2: seq<nat>, n2: seq<nat>, d2: map<nat, int>, own: seq<nat>, own1: seq<nat>)
    requires Keeps(p0, n0, d0, p1, n1, d1, own) && Keeps(p1, n1, d1, p2, n2, d2, own1)
    requires forall x :: x in own1 && x < |n0| ==> x in own
    ensures Keeps(p0, n0, d0, p2, n2, d2, own)
  {
  }

  /** `KeepsTrans` for a second step that owns the same slots, rearranged. */
  lemma KeepsPerm(p0: seq<nat>, n0: seq<nat>, d0: map<nat, int>,
                  p1: seq<nat>, n1: seq<nat>, d1: map<nat, int>,
                  p2: seq<nat>, n2: seq<nat>, d2: map<nat, int>, own: seq<nat>, own1: seq<nat>)
    requires Keeps(p0, n0, d0, p1, n1, d1, own) && Keeps(p1, n1, d1, p2, n2, d2, own1)
    requires multiset(own1) == multiset(own)
    ensures Keeps(p0, n0, d0, p2, n2, d2, own)
  {
    forall x | x in own1 ensures x in own {
      assert x in multiset(own1);
    }
    KeepsTrans(p0, n0, d0, p1, n1, d1, p2, n2, d2, own, own1);
  }

  /** A chain whose members kept their links is still a chain. */
  lemma Reframe(prev: seq<nat>, next: seq<nat>, prev': seq<nat>, next': seq<nat>, c: seq<nat>)
    requires Chained(prev, next, c)
    requires forall j :: 0 <= j < |c| ==> c[j] < |next'| && c[j] < |prev'| && next'[c[j]] == next[c[j]] && prev'[c[j]] == prev[c[j]]
    ensures Chained(prev', next', c)
    ensures Linked(prev, next, c) ==> Linked(prev', next', c)
  {
  }

  /** A ring of slots that an operation did not own survives it. */
  lemma Untouched(p0: seq<nat>, n0: seq<nat>, d0: map<nat, int>,
                  p1: seq<nat>, n1: seq<nat>, d1: map<nat, int>, own: seq<nat>, c: seq<nat>)
    requires Keeps(p0, n0, d0, p1, n1, d1, own) && Linked(p0, n0, c)
    requires forall j :: 0 <= j < |c| ==> c[j] !in own
    ensures Linked(p1, n1, c)
    ensures forall j :: 0 <= j < |c| && c[j] in d0 ==> c[j] in d1 && d1[c[j]] == d0[c[j]]
  {
    Reframe(p0, n0, p1, n1, c);
  }

  /**
   * Cutting the block `d[a + 1..b + 1]` out of a ring with one `link_` from
   * the member before it to the member after it: what is left is a ring and
   * the block keeps its inner links.
   */
  lemma Cut(prev: seq<nat>, next: seq<nat>, d: seq<nat>, a: nat, b: nat)
    requires Linked(prev, next, d) && Distinct(d) && a < b < |d|
    ensures Linked(prev[After(d, b) := d[a]], next[d[a] := After(d, b)], d[..a + 1] + d[b + 1..])
    ensures Chained(prev[After(d, b) := d[a]], next[d[a] := After(d, b)], d[a + 1..b + 1])
  {
    var last := After(d, b);
    var p1, n1 := prev[last := d[a]], next[d[a] := last];
    var e := d[..a + 1] + d[b + 1..];
    assert |e| == |d| - (b - a);
    forall j | 0 <= j < |e|
      ensures e[j] < |n1| && e[j] < |p1|
    {
      if j > a { assert e[j] == d[j + b - a]; }
    }
    forall j | 0 <= j < |e| - 1
      ensures n1[e[j]] == e[j + 1] && p1[e[j + 1]] == e[j]
    {
      if j < a {
        assert e[j] == d[j] && e[j + 1] == d[j + 1];
      } else if j == a {
        assert e[j + 1] == d[b + 1];
      } else {
        assert e[j] == d[j + b - a] && e[j + 1] == d[j + 1 + b - a];
      }
    }
    assert e[0] == d[0];
    if b + 1 < |d| {
      assert e[|e| - 1] == d[|d| - 1];
    }
    var blk := d[a + 1..b + 1];
    forall j | 0 <= j < |blk| - 1
      ensures n1[blk[j]] == blk[j + 1] && p1[blk[j + 1]] == blk[j]
    {
      assert blk[j] == d[a + 1 + j] && blk[j + 1] == d[a + 2 + j];
    }
  }

  /** One link of a grafted ring, in the five places it can fall. */
  lemma GraftAt(prev: seq<nat>, next: seq<nat>, c: seq<nat>, k: nat, b: seq<nat>, j: nat)
    requires Linked(prev, next, c) && Chained(prev, next, b) && |b| > 0 && k < |c|
    requires Distinct(c) && Distinct(b) && forall i :: 0 <= i < |b| ==> b[i] !in c
    requires j < |c| + |b| - 1
    ensures var pos, fin := After(c, k), b[|b| - 1];
      var p1 := prev[b[0] := c[k]][pos := fin];
      var n1 := next[c[k] := b[0]][fin := pos];
      var e := c[..k + 1] + b + c[k + 1..];
      n1[e[j]] == e[j + 1] && p1[e[j + 1]] == e[j]
  {
    var m := |b|;
    var e := c[..k + 1] + b + c[k + 1..];
    var pos, fin := After(c, k), b[m - 1];
    if j < k {
      assert e[j] == c[j] && e[j + 1] == c[j + 1];
      assert c[j] != c[k] && c[j] != fin && c[j + 1] != b[0];
      assert c[j + 1] != pos by {
        if k + 1 < |c| { assert c[j + 1] != c[k + 1]; } else { assert c[j + 1] != c[0]; }
      }
    } else if j == k {
      assert e[j] == c[k] && e[j + 1] == b[0];
      assert c[k] != fin && b[0] != pos;
    } else if j < k + m {
      var i := j - k - 1;
      assert e[j] == b[i] && e[j + 1] == b[i + 1];
      assert b[i] != c[k] && b[i] != fin && b[i + 1] != pos && b[i + 1] != b[0];
    } else if j == k + m {
      assert e[j] == fin && e[j + 1] == c[k + 1];
    } else {
      var i := j - m;
      assert e[j] == c[i] && e[j + 1] == c[i + 1];
      assert c[i] != c[k] && c[i] != fin && c[i + 1] != b[0] && c[i + 1] != c[k + 1];
    }
  }

  /**
   * Grafting the chain `b` into a ring after `c[k]` with `link_(c[k], b[0])`
   * and `link_(b[|b| - 1], next of c[k])`.
   */
  lemma Graft(prev: seq<nat>, next: seq<nat>, c: seq<nat>, k: nat, b: seq<nat>)
    requires Linked(prev, next, c) && Chained(prev, next, b) && |b| > 0 && k < |c|
    requires Distinct(c) && Distinct(b) && forall i :: 0 <= i < |b| ==> b[i] !in c
    ensures var pos, fin := After(c, k), b[|b| - 1];
      Linked(prev[b[0] := c[k]][pos := fin], next[c[k] := b[0]][fin := pos], c[..k + 1] + b + c[k + 1..])
  {
    var pos, fin := After(c, k), b[|b| - 1];
    var p1, n1 := prev[b[0] := c[k]][pos := fin], next[c[k] := b[0]][fin := pos];
    var e := c[..k + 1] + b + c[k + 1..];
    var m := |b|;
    forall j | 0 <= j < |e|
      ensures e[j] < |n1| && e[j] < |p1|
    {
      if j <= k { assert e[j] == c[j]; }
      else if j <= k + m { assert e[j] == b[j - k - 1]; }
      else { assert e[j] == c[j - m]; }
    }
    forall j | 0 <= j < |e| - 1
      ensures n1[e[j]] == e[j + 1] && p1[e[j + 1]] == e[j]
    {
      GraftAt(prev, next, c, k, b, j);
    }
    assert e[0] == c[0] && c[0] != b[0];
    if k + 1 < |c| {
      assert e[|e| - 1] == c[|c| - 1];
      assert c[|c| - 1] != c[k] && c[|c| - 1] != fin && c[0] != c[k + 1];
    } else {
      assert e[|e| - 1] == fin;
    }
  }

  /** `Graft`, with the four slots it links named as `splice` names them. */
  lemma GraftBetween(prev: seq<nat>, next: seq<nat>, c: seq<nat>, k: nat, b: seq<nat>,
                     bef: nat, pos: nat, first: nat, fin: nat)
    requires Linked(prev, next, c) && Chained(prev, next, b) && |b| > 0 && k < |c|
    requires Distinct(c) && Distinct(b) && forall i :: 0 <= i < |b| ==> b[i] !in c
    requires bef == c[k] && pos == After(c, k) && first == b[0] && fin == b[|b| - 1]
    ensures Linked(prev[first := bef][pos := fin], next[bef := first][fin := pos], c[..k + 1] + b + c[k + 1..])
  {
    Graft(prev, next, c, k, b);
  }

  /** `Turned` for a ring given as its first member `h` and the rest `e`. */
  lemma TurnedFrom(prev: seq<nat>, next: seq<nat>, h: nat, e: seq<nat>)
    requires Linked(prev, next, [h] + e)
    ensures Linked(next, prev, [h] + Reversed(e))
  {
    Turned(prev, next, [h] + e);
    assert ([h] + e)[1..] == e;
  }

  /** Swapping `prev` and `next` of every member turns a ring around. */
  lemma Turned(prev: seq<nat>, next: seq<nat>, c: seq<nat>)
    requires Linked(prev, next, c)
    ensures Linked(next, prev, [c[0]] + Reversed(c[1..]))
  {
    var r := [c[0]] + Reversed(c[1..]);
    assert |r| == |c|;
    forall j | 0 < j < |r| ensures r[j] == c[|c| - j] {
      assert r[j] == Reversed(c[1..])[j - 1];
    }
    forall j | 0 <= j < |r| ensures r[j] < |next| && r[j] < |prev| {
      if j > 0 { assert r[j] == c[|c| - j]; }
    }
    forall j | 0 <= j < |r| - 1
      ensures prev[r[j]] == r[j + 1] && next[r[j + 1]] == r[j]
    {
      assert r[j + 1] == c[|c| - j - 1];
      if j > 0 {
        assert r[j] == c[|c| - j];
      }
    }
    if |c| > 1 {
      assert r[|r| - 1] == c[1];
    }
  }
}
