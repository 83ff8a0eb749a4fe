/**
 * `wijagels::skiplist`: an ordered set without duplicate keys, kept as a
 * tower of circular doubly linked lists through a sentinel node.
 *
 * The nodes live in an arena indexed by slot number. Slot 0 is the
 * sentinel `d_head`, which is also `end()`. `nexts[n]` and `prevs[n]` are
 * the vectors `d_nexts` and `d_prevs` of slot `n`, and `vals[n]` is its
 * `d_data`. Allocating a node takes a fresh slot; destroying one removes
 * its data. Two ghost fields carry the abstraction: `heights` mirrors the
 * tower heights `links()`, and `elems` lists the element slots in level-0
 * order.
 */
module SkipLists {
  import opened Seqs
  import opened SkipLevels
  import opened SkipOrder

  /** An iterator: the node it points at and the level `++` and `--` follow. */
  datatype Iter = Iter(node: nat, level: nat)

  /** `node_type`: empty, or holding what an unlinked node carries (its element and tower height). */
  datatype NodeHandle<V> = NoNode | Holding(data: Entry<V>, height: nat)

  /** `insert_return_type`. */
  datatype InsertReturn<V> = InsertReturn(position: nat, inserted: bool, node: NodeHandle<V>)

  /** The elements stored in slots `ns`, in order. */
  function Entries<V>(vals: map<nat, Entry<V>>, ns: seq<nat>): (r: seq<Entry<V>>)
    requires forall i :: 0 <= i < |ns| ==> ns[i] in vals
    ensures |r| == |ns| && forall i :: 0 <= i < |ns| ==> r[i] == vals[ns[i]]
  {
    seq(|ns|, i requires 0 <= i < |ns| => vals[ns[i]])
  }

  /**
   * The height `hs` records for the element of `c` holding `k`, where `hs`
   * runs parallel to `c`; 0 when `k` is absent.
   */
  function HeightFor<V>(c: seq<Entry<V>>, hs: seq<nat>, k: int): nat
    requires |hs| == |c|
  {
    var q := LowerBound(KeysOf(c), k);
    if q < |c| && c[q].key == k then hs[q] else 0
  }

  /** With distinct ascending keys, the height recorded for the key of the `i`th element is its own. */
  lemma HeightForAt<V>(c: seq<Entry<V>>, hs: seq<nat>, i: nat)
    requires |hs| == |c| && i < |c| && StrictlySorted(KeysOf(c))
    ensures HeightFor(c, hs, c[i].key) == hs[i]
  {
    forall j | 0 <= j < i
      ensures KeysOf(c)[j] < c[i].key
    {
      assert KeysOf(c)[j] < KeysOf(c)[i];
    }
    LowerBoundIs(KeysOf(c), c[i].key, i);
  }

  /** The tower heights of slots `ns`, in order. */
  function TowerHeights(heights: seq<nat>, ns: seq<nat>): (r: seq<nat>)
    requires forall i :: 0 <= i < |ns| ==> ns[i] < |heights|
    ensures |r| == |ns| && forall i :: 0 <= i < |ns| ==> r[i] == heights[ns[i]]
  {
    seq(|ns|, i requires 0 <= i < |ns| => heights[ns[i]])
  }

  lemma EntriesInsert<V>(vals: map<nat, Entry<V>>, ns: seq<nat>, q: nat, x: nat)
    requires q <= |ns| && x in vals && forall i :: 0 <= i < |ns| ==> ns[i] in vals
    ensures Entries(vals, ns[..q] + [x] + ns[q..]) == Entries(vals, ns)[..q] + [vals[x]] + Entries(vals, ns)[q..]
  {
  }

  lemma EntriesRemove<V>(vals: map<nat, Entry<V>>, ns: seq<nat>, k: nat)
    requires k < |ns| && forall i :: 0 <= i < |ns| ==> ns[i] in vals
    ensures Entries(vals, ns[..k] + ns[k + 1..]) == Entries(vals, ns)[..k] + Entries(vals, ns)[k + 1..]
  {
  }

  lemma DistinctInsert(s: seq<nat>, q: nat, x: nat)
    requires Distinct(s) && q <= |s| && x !in s
    ensures Distinct(s[..q] + [x] + s[q..])
  {
    var d := s[..q] + [x] + s[q..];
    forall i, j | 0 <= i < j < |d|
      ensures d[i] != d[j]
    {
      if i < q && j > q {
        assert d[j] == s[j - 1];
      } else if i > q {
        assert d[i] == s[i - 1] && d[j] == s[j - 1];
      }
    }
  }

  class SkipList<V> {
    /** `d_prevs` of every slot. */
    var prevs: seq<seq<nat>>
    /** `d_nexts` of every slot. */
    var nexts: seq<seq<nat>>
    /** `d_data` of every live node. */
    var vals: map<nat, Entry<V>>
    /** `links()` of every slot. */
    ghost var heights: seq<nat>
    /** The element slots in level-0 order. */
    ghost var elems: seq<nat>

    /** Every slot has a tower of at least one level, with both link vectors that long. */
    ghost predicate Shape()
      reads this
    {
      |nexts| > 0 && |prevs| == |nexts| && |heights| == |nexts|
      && forall n :: 0 <= n < |nexts| ==> heights[n] >= 1 && |nexts[n]| == heights[n] && |prevs[n]| == heights[n]
    }

    /** The elements are distinct live slots, none taller than the sentinel. */
    ghost predicate Stored()
      reads this
    {
      Shape() && 0 !in elems && Distinct(elems)
      && forall i :: 0 <= i < |elems| ==> elems[i] < |nexts| && elems[i] in vals && heights[elems[i]] <= heights[0]
    }

    /**
     * The invariant: every level below the sentinel's height is the
     * circular list of the sentinel and the elements tall enough for it,
     * and the keys ascend strictly along level 0.
     */
    ghost predicate Valid()
      reads this
    {
      Stored() && Rings(prevs, nexts, heights, elems, 0, heights[0]) && StrictlySorted(Keys())
    }

    /** The elements in iteration order. */
    ghost function Contents(): seq<Entry<V>>
      reads this
      requires Stored()
    {
      Entries(vals, elems)
    }

    ghost function Keys(): seq<int>
      reads this
      requires Stored()
    {
      KeysOf(Contents())
    }

    /** The tower heights of the elements, in iteration order. */
    ghost function Heights(): (r: seq<nat>)
      reads this
      requires Stored()
      ensures |r| == |elems|
    {
      TowerHeights(heights, elems)
    }

    /** The tower height of the element holding `k`; 0 when there is none. */
    ghost function HeightOf(k: int): nat
      reads this
      requires Stored()
    {
      HeightFor(Contents(), Heights(), k)
    }

    /** The slot of the `i`th element, or the sentinel for `i == |elems|`: `begin() + i`. */
    ghost function At(i: nat): nat
      reads this
      requires i <= |elems|
    {
      if i < |elems| then elems[i] else 0
    }

    /** The ring of level `l`. */
    ghost function Chain(l: nat): seq<nat>
      reads this
    {
      [0] + Level(heights, elems, l)
    }

    /** `iterator::operator++`. */
    function Next(it: Iter): Iter
      reads this
      requires it.node < |nexts| && it.level < |nexts[it.node]|
    {
      Iter(nexts[it.node][it.level], it.level)
    }

    /** `iterator::operator--`. */
    function Prev(it: Iter): Iter
      reads this
      requires it.node < |prevs| && it.level < |prevs[it.node]|
    {
      Iter(prevs[it.node][it.level], it.level)
    }

    /** `iterator::up`: climbs one level when the tower has one more; never leaves the tower. */
    function Up(it: Iter): (r: Iter)
      reads this
      requires it.node < |nexts| && it.level < |nexts[it.node]|
      ensures r.node == it.node && r.level < |nexts[r.node]|
      ensures r.level == it.level || r.level == it.level + 1
      ensures it.level + 1 < |nexts[it.node]| ==> r.level == it.level + 1
    {
      if it.level + 1 < |nexts[it.node]| then Iter(it.node, it.level + 1) else it
    }

    /** `iterator::down`: one level lower on the same tower. */
    function Down(it: Iter): (r: Iter)
      requires it.level > 0
      ensures r.node == it.node && r.level < it.level
    {
      Iter(it.node, it.level - 1)
    }

    /**
     * Level 0 visits the sentinel and then every element in order: `++`
     * from the `i`th element reaches the next one (the sentinel after the
     * last), and `--` goes the other way.
     */
    lemma Level0(i: nat)
      requires Valid() && i <= |elems|
      ensures Next(Iter(At(i), 0)) == Iter(if i < |elems| then At(i + 1) else At(0), 0)
      ensures Prev(Iter(At(i), 0)) == Iter(if i > 0 then At(i - 1) else At(|elems|), 0)
    {
      LevelAll(heights, elems, 0);
      var c := [0] + elems;
      assert Ring(prevs, nexts, Chain(0), 0);
      var j := if i < |elems| then i + 1 else 0;
      assert c[j] == At(i);
      RingNeighbours(prevs, nexts, c, 0, j);
      assert After(c, j) == if i < |elems| then At(i + 1) else At(0);
      assert Before(c, j) == if i > 0 then At(i - 1) else At(|elems|);
    }

    /** `Level0` for every element at once. */
    lemma Level0All()
      requires Valid()
      ensures nexts[0][0] == At(0)
      ensures forall i :: 0 <= i < |elems| ==> elems[i] < |nexts| && nexts[elems[i]][0] == At(i + 1)
    {
      forall i | 0 <= i < |elems|
        ensures elems[i] < |nexts| && nexts[elems[i]][0] == At(i + 1)
      {
        Level0(i);
      }
      Level0(|elems|);
    }

    /**
     * What `verify_integrity` checks: on every level of every tower,
     * stepping forward and then back, or back and then forward, returns to
     * the start.
     */
    lemma Integrity(it: Iter)
      requires Valid() && (it.node == 0 || it.node in elems) && it.level < heights[it.node]
      ensures it.node < |nexts| && it.level < |nexts[it.node]|
      ensures var n := Next(it); n.node < |prevs| && n.level < |prevs[n.node]| && Prev(n) == it
      ensures var p := Prev(it); p.node < |nexts| && p.level < |nexts[p.node]| && Next(p) == it
    {
      var l := it.level;
      var c := Chain(l);
      LevelMember(heights, elems, l, it.node);
      var j := IndexOf(c, it.node);
      assert Ring(prevs, nexts, c, l);
      RingNeighbours(prevs, nexts, c, l, j);
      var jn := if j + 1 < |c| then j + 1 else 0;
      RingNeighbours(prevs, nexts, c, l, jn);
      var jp := if j > 0 then j - 1 else |c| - 1;
      RingNeighbours(prevs, nexts, c, l, jp);
    }

    /** The `i`th key is the key of the `i`th element, and a stored key sits at its lower bound. */
    lemma KeyIndex(x: nat)
      requires Valid() && x in elems
      ensures IndexOf(elems, x) < |Keys()|
      ensures Keys()[IndexOf(elems, x)] == vals[x].key
      ensures LowerBound(Keys(), vals[x].key) == IndexOf(elems, x)
      ensures At(IndexOf(elems, x)) == x
    {
      var q := IndexOf(elems, x);
      assert Keys()[q] == vals[x].key;
      forall i | 0 <= i < q
        ensures Keys()[i] < vals[x].key
      {
        assert Keys()[i] < Keys()[q];
      }
      LowerBoundIs(Keys(), vals[x].key, q);
    }

    /** Where a node of a tower taller than `l` sits in the ring of level `l`. */
    lemma ChainIndex(x: nat, l: nat) returns (j: nat)
      requires Valid() && (x == 0 || x in elems) && l < heights[x]
      ensures j < |Chain(l)| && Chain(l)[j] == x
    {
      LevelMember(heights, elems, l, x);
      j := IndexOf(Chain(l), x);
    }

    /** The successor of a ring member on its level is the sentinel or the next member. */
    lemma ChainStep(l: nat, j: nat)
      requires Valid() && l < heights[0] && j < |Chain(l)|
      ensures Chain(l)[j] < |nexts| && l < |nexts[Chain(l)[j]]|
      ensures var n := nexts[Chain(l)[j]][l];
        n == 0 || (j + 1 < |Chain(l)| && Chain(l)[j + 1] == n && n in elems && heights[n] > l)
    {
      assert Ring(prevs, nexts, Chain(l), l);
      RingNeighbours(prevs, nexts, Chain(l), l, j);
      LevelMember(heights, elems, l, nexts[Chain(l)[j]][l]);
    }

    /** Where the level-0 scan of `find_pos_` starts from an element below `k`. */
    lemma ScanStart(x: nat, k: int) returns (q: nat)
      requires Valid() && x in elems && vals[x].key < k
      ensures q < |elems| && At(q) == x
      ensures forall i :: 0 <= i < q ==> vals[elems[i]].key < k
    {
      KeyIndex(x);
      q := IndexOf(elems, x);
      forall i | 0 <= i < q
        ensures vals[elems[i]].key < k
      {
        assert Keys()[i] < Keys()[q];
      }
    }

    /** Where the level-0 scan of `find_pos_` stops is the lower bound, holding `k` exactly when `k` is present. */
    lemma ScanResult(q: nat, k: int)
      requires Valid() && q <= |elems|
      requires forall i :: 0 <= i < q ==> vals[elems[i]].key < k
      requires q < |elems| ==> vals[At(q)].key >= k
      ensures At(q) == At(LowerBound(Keys(), k))
      ensures k in Keys() <==> q < |elems| && vals[At(q)].key == k
    {
      LowerBoundIs(Keys(), k, q);
      LowerBoundSorted(Keys(), k);
    }

    /** `link_(l, a, b)`: `b` follows `a` on level `l`. */
    method Link(l: nat, a: nat, b: nat)
      requires a < |nexts| && l < |nexts[a]| && b < |prevs| && l < |prevs[b]|
      modifies this
      ensures nexts == SetNext(old(nexts), a, l, b) && prevs == SetNext(old(prevs), b, l, a)
      ensures vals == old(vals) && heights == old(heights) && elems == old(elems)
    {
      nexts := SetNext(nexts, a, l, b);
      prevs := SetNext(prevs, b, l, a);
    }

    /**
     * `expand(size)`: a tower lower than `size` grows to `size`, each new
     * level linking the node to itself. Growing the sentinel or a node that
     * is not an element keeps the list valid; each new sentinel level is an
     * empty level.
     */
    method Expand(n: nat, size: nat)
      requires Shape() && n < |nexts|
      modifies this
      ensures nexts == old(nexts)[n := Grown(old(nexts[n]), n, size)]
      ensures prevs == old(prevs)[n := Grown(old(prevs[n]), n, size)]
      ensures heights == old(heights)[n := |Grown(old(nexts[n]), n, size)|]
      ensures Shape() && vals == old(vals) && elems == old(elems)
      ensures old(Valid()) && (n == 0 || n !in elems) ==> Valid() && Contents() == old(Contents())
      ensures n == 0 && old(Valid()) ==> forall l :: old(heights[0]) <= l < heights[0] ==> Chain(l) == [0]
    {
      ghost var p0, n0, h0 := prevs, nexts, heights;
      nexts := nexts[n := Grown(nexts[n], n, size)];
      prevs := prevs[n := Grown(prevs[n], n, size)];
      heights := heights[n := |nexts[n]|];
      if old(Valid()) && (n == 0 || n !in elems) {
        GrowKeeps(p0, n0, h0, elems, n, size);
      }
    }

    /** `allocate_node_`: a fresh slot holding `e`, with a tower of height `h` linked to itself. */
    method AllocNode(e: Entry<V>, h: nat) returns (x: nat)
      requires Valid() && h >= 1
      modifies this
      ensures x == old(|nexts|) && x != 0 && x !in elems
      ensures Valid() && elems == old(elems) && Contents() == old(Contents())
      ensures vals == old(vals)[x := e] && heights == old(heights) + [h]
      ensures nexts[..x] == old(nexts) && prevs[..x] == old(prevs)
    {
      ghost var p0, n0, h0 := prevs, nexts, heights;
      x := |nexts|;
      var tower: seq<nat> := seq(h, _ => x);
      nexts := nexts + [tower];
      prevs := prevs + [tower];
      heights := heights + [h];
      vals := vals[x := e];
      forall l | 0 <= l < heights[0]
        ensures Ring(prevs, nexts, [0] + Level(heights, elems, l), l)
      {
        LevelFrame(h0, heights, elems, l);
        assert SameLevel(p0, n0, prevs, nexts, l);
        RingFrame(p0, n0, prevs, nexts, [0] + Level(h0, elems, l), l);
      }
      assert Contents() == old(Contents());
    }

    /**
     * The upper-level part of `find_pos_`'s forward search: from `start`
     * (the sentinel or an element below `k`), move right while the next
     * key on the level is below `k` and down otherwise, stopping early on
     * an element holding `k`. It ends on level 0 at the sentinel or an
     * element below `k`.
     */
    method Descend(start: nat, k: int) returns (it: Iter, found: bool)
      requires Valid() && (start == 0 || (start in elems && vals[start].key < k))
      ensures found ==> it.node in elems && vals[it.node].key == k
      ensures !found ==> it.level == 0 && (it.node == 0 || (it.node in elems && vals[it.node].key < k))
    {
      it := Iter(start, |nexts[start]| - 1);
      ghost var j: nat := ChainIndex(start, it.level);
      while it.level > 0
        invariant it.node == 0 || (it.node in elems && vals[it.node].key < k)
        invariant it.level < heights[it.node] && it.node < |nexts|
        invariant j < |Chain(it.level)| && Chain(it.level)[j] == it.node
        decreases it.level, |Chain(it.level)| - j
      {
        ChainStep(it.level, j);
        var next := Next(it);
        if next.node == 0 {
          it := Down(it);
          j := ChainIndex(it.node, it.level);
        } else if vals[next.node].key < k {
          it := next;
          j := j + 1;
        } else if k < vals[next.node].key {
          it := Down(it);
          j := ChainIndex(it.node, it.level);
        } else {
          return Iter(next.node, 0), true;
        }
      }
      return it, false;
    }

    /**
     * `find_pos_(hint, k)` searching forwards (the hint is `end()` or an
     * element whose key is not above `k`): it reports whether `k` is absent
     * and returns the first element whose key is not below `k`, or `end()`.
     * When `k` is present that is the element holding it.
     */
    method FindPos(hint: nat, k: int) returns (pos: nat, absent: bool)
      requires Valid()
      requires hint == 0 || (hint in elems && vals[hint].key <= k)
      ensures absent <==> k !in Keys()
      ensures pos == At(LowerBound(Keys(), k))
    {
      Level0(|elems|);
      if Next(Iter(0, 0)).node == 0 {
        return 0, true;
      }
      if hint == 0 || vals[hint].key < k {
        var it, found := Descend(hint, k);
        if found {
          KeyIndex(it.node);
          return it.node, false;
        }
        ghost var q: nat := 0;
        if it.node == 0 {
          it := Next(it);
        } else {
          q := ScanStart(it.node, k);
        }
        it := ScanFrom(it, q, k);
        if it.node != 0 && !(k < vals[it.node].key) {
          return it.node, false;
        }
        return it.node, true;
      } else {
        KeyIndex(hint);
        return hint, false;
      }
    }

    /** The level-0 scan of `find_pos_`: forward from the `q`th position while the keys are below `k`. */
    method ScanFrom(it: Iter, ghost q: nat, k: int) returns (r: Iter)
      requires Valid() && q <= |elems| && it == Iter(At(q), 0)
      requires forall i :: 0 <= i < q ==> vals[elems[i]].key < k
      ensures r.level == 0 && r.node == At(LowerBound(Keys(), k))
      ensures k in Keys() <==> r.node != 0 && r.node in vals && vals[r.node].key == k
      ensures r.node != 0 ==> r.node in elems && vals[r.node].key >= k
    {
      r := it;
      ghost var n := q;
      while r.node != 0 && vals[r.node].key < k
        invariant n <= |elems| && r == Iter(At(n), 0)
        invariant forall i :: 0 <= i < n ==> vals[elems[i]].key < k
        decreases |elems| - n
      {
        Level0(n);
        r := Next(r);
        n := n + 1;
      }
      ScanResult(n, k);
    }

    /**
     * `insert_node_(loc, x)`: splices the allocated node `x` in before
     * `loc`, its lower bound, on every level of its tower. The sentinel is
     * first grown to at least that height; then, level by level, the walk
     * goes back from the predecessor on the level below to the first node
     * tall enough and links `x` after it.
     */
    method InsertNode(loc: nat, x: nat)
      requires Valid() && 0 < x < |nexts| && x !in elems && x in vals
      requires vals[x].key !in Keys()
      requires loc == At(LowerBound(Keys(), vals[x].key))
      modifies this
      ensures Valid() && vals == old(vals) && |nexts| == old(|nexts|) && heights == old(heights)[0 := heights[0]]
      ensures var q := old(LowerBound(Keys(), vals[x].key)); elems == old(elems[..q] + [x] + elems[q..])
      ensures Contents() == InsertOne(old(Contents()), vals[x])
    {
      ghost var E := elems;
      ghost var C := Contents();
      ghost var q: nat := LowerBound(Keys(), vals[x].key);
      var lvl := |nexts[x]|;
      Expand(0, lvl);
      Level0(q);
      LinkTower(Prev(Iter(loc, 0)), x, q, E);
      InsertDone(x, q, E, C);
    }

    /** The level loop of `insert_node_`, from the predecessor of the lower bound on level 0. */
    method LinkTower(start: Iter, x: nat, ghost q: nat, ghost E: seq<nat>)
      requires Stored() && elems == E && q <= |E| && x !in E && 0 < x < |nexts| && heights[x] <= heights[0]
      requires Rings(prevs, nexts, heights, E, 0, heights[0])
      requires start == Iter(Last([0] + E[..q]), 0)
      modifies this
      ensures Stored() && elems == old(elems) && vals == old(vals) && heights == old(heights) && |nexts| == old(|nexts|)
      ensures Rings(prevs, nexts, heights, E[..q] + [x] + E[q..], 0, heights[x])
      ensures Rings(prevs, nexts, heights, E, heights[x], heights[0])
    {
      var cur := start;
      LevelAll(heights, E[..q], 0);
      var i := 0;
      while i < |nexts[x]|
        invariant Stored() && elems == E && vals == old(vals) && heights == old(heights) && |nexts| == old(|nexts|)
        invariant i <= heights[x] && q <= |E|
        invariant Rings(prevs, nexts, heights, E[..q] + [x] + E[q..], 0, i)
        invariant Rings(prevs, nexts, heights, E, i, heights[0])
        invariant cur.level == (if i == 0 then 0 else i - 1)
        invariant cur.node == Last([0] + Level(heights, E[..q], cur.level))
      {
        if i > 0 {
          cur := WalkBack(cur, x, q, i, E);
          cur := Up(cur);
        }
        LinkLevel(cur.node, x, i, q, E);
        i := i + 1;
      }
    }

    /** One level of `insert_node_`: `x` is linked after `p`, the last node of level `i` before position `q`. */
    method LinkLevel(p: nat, x: nat, i: nat, ghost q: nat, ghost E: seq<nat>)
      requires Shape() && E == elems && q <= |E| && 0 !in E && Distinct(E) && x !in E && 0 < x < |nexts|
      requires i < heights[x] <= heights[0]
      requires Rings(prevs, nexts, heights, E[..q] + [x] + E[q..], 0, i)
      requires Rings(prevs, nexts, heights, E, i, heights[0])
      requires p == Last([0] + Level(heights, E[..q], i))
      modifies this
      ensures Shape() && elems == old(elems) && vals == old(vals) && heights == old(heights)
      ensures |nexts| == old(|nexts|)
      ensures Rings(prevs, nexts, heights, E[..q] + [x] + E[q..], 0, i + 1)
      ensures Rings(prevs, nexts, heights, E, i + 1, heights[0])
    {
      SpliceLevel(prevs, nexts, heights, E, q, x, i, heights[0], p);
      var succ := nexts[p][i];
      Link(i, p, x);
      Link(i, x, succ);
    }

    /** The end of `insert_node_`: every level of the tower of `x` holds it; the list is valid again. */
    ghost method InsertDone(x: nat, q: nat, E: seq<nat>, C: seq<Entry<V>>)
      requires Stored() && E == elems && C == Contents() && q <= |E| && 0 < x < |nexts| && x !in E && x in vals
      requires heights[x] <= heights[0] && StrictlySorted(Keys()) && q == LowerBound(Keys(), vals[x].key)
      requires vals[x].key !in Keys()
      requires Rings(prevs, nexts, heights, E[..q] + [x] + E[q..], 0, heights[x])
      requires Rings(prevs, nexts, heights, E, heights[x], heights[0])
      modifies this
      ensures Valid() && elems == E[..q] + [x] + E[q..] && Contents() == InsertOne(C, vals[x])
      ensures vals == old(vals) && nexts == old(nexts) && prevs == old(prevs) && heights == old(heights)
    {
      ghost var E' := E[..q] + [x] + E[q..];
      RingsInsertJoin(prevs, nexts, heights, E, q, x, heights[0]);
      elems := E';
      DistinctInsert(E, q, x);
      EntriesInsert(vals, E, q, x);
      InsertOneKeys(C, vals[x]);
    }

    /**
     * The inner walk of `insert_node_` on level `i - 1`: step back from the
     * last node before position `q` until a tower taller than `i` is found.
     * That node is the last one on level `i` before position `q`.
     */
    method WalkBack(cur: Iter, x: nat, ghost q: nat, i: nat, ghost E: seq<nat>) returns (r: Iter)
      requires Shape() && 0 < i && x < |heights| && i < heights[x] && i < heights[0] && q <= |E| && E == elems
      requires 0 !in E && Distinct(E) && x !in E && x != 0
      requires Ring(prevs, nexts, [0] + Level(heights, E[..q] + [x] + E[q..], i - 1), i - 1)
      requires cur.level == i - 1 && cur.node == Last([0] + Level(heights, E[..q], i - 1))
      ensures r.level == i - 1 && r.node == Last([0] + Level(heights, E[..q], i))
      ensures r.node < |nexts| && i < |nexts[r.node]|
    {
      ghost var c := [0] + Level(heights, E[..q] + [x] + E[q..], i - 1);
      ghost var t: nat := |Level(heights, E[..q], i - 1)|;
      WalkStart(heights, E, q, x, i - 1);
      assert c[t] == cur.node;
      r := cur;
      ghost var j: nat := t;
      while |nexts[r.node]| <= i
        invariant j <= t < |c| && r == Iter(c[j], i - 1)
        invariant r.node < |nexts|
        invariant Level(heights, c[j + 1..t + 1], i) == []
        decreases j
      {
        RingNeighbours(prevs, nexts, c, i - 1, j);
        WalkStep(heights, c, i, j, t);
        r := Prev(r);
        j := j - 1;
      }
      WalkExit(heights, c, i, j, t);
      WalkTarget(heights, E[..q], i);
    }

    /**
     * `unlink_node_(x)`: joins the neighbours of element `x` on every level
     * of its tower. `x` leaves the list; its own links are not touched.
     */
    method UnlinkNode(x: nat)
      requires Valid() && x in elems
      modifies this
      ensures Valid() && vals == old(vals) && heights == old(heights)
      ensures var k := IndexOf(old(elems), x); elems == old(elems[..k] + elems[k + 1..])
      ensures var k := IndexOf(old(elems), x); Contents() == old(Contents()[..k] + Contents()[k + 1..])
      ensures nexts[x] == old(nexts[x]) && prevs[x] == old(prevs[x]) && |nexts| == old(|nexts|)
    {
      ghost var E := elems;
      ghost var C := Contents();
      ghost var k: nat := IndexOf(E, x);
      var i := 0;
      while i < |prevs[x]|
        invariant Stored() && heights == old(heights) && vals == old(vals) && elems == E && |nexts| == old(|nexts|)
        invariant x < |nexts| && i <= heights[x] && nexts[x] == old(nexts[x]) && prevs[x] == old(prevs[x])
        invariant Rings(prevs, nexts, heights, E[..k] + E[k + 1..], 0, i)
        invariant Rings(prevs, nexts, heights, E, i, heights[0])
      {
        UnlinkLevel(x, i, k, E);
        i := i + 1;
      }
      UnlinkDone(x, k, E, C);
    }

    /** One level of `unlink_node_`: the neighbours of `x` on level `i` are linked to each other. */
    method UnlinkLevel(x: nat, i: nat, ghost k: nat, ghost E: seq<nat>)
      requires Shape() && E == elems && k < |E| && E[k] == x && 0 !in E && Distinct(E)
      requires x < |nexts| && i < heights[x] <= heights[0]
      requires Rings(prevs, nexts, heights, E[..k] + E[k + 1..], 0, i)
      requires Rings(prevs, nexts, heights, E, i, heights[0])
      modifies this
      ensures Shape() && elems == old(elems) && vals == old(vals) && heights == old(heights)
      ensures |nexts| == old(|nexts|) && nexts[x] == old(nexts[x]) && prevs[x] == old(prevs[x])
      ensures Rings(prevs, nexts, heights, E[..k] + E[k + 1..], 0, i + 1)
      ensures Rings(prevs, nexts, heights, E, i + 1, heights[0])
    {
      UnspliceLevel(prevs, nexts, heights, E, k, i, heights[0]);
      Link(i, prevs[x][i], nexts[x][i]);
    }

    /** The end of `unlink_node_`: `x` is no longer an element; the list is valid again. */
    ghost method UnlinkDone(x: nat, k: nat, E: seq<nat>, C: seq<Entry<V>>)
      requires Stored() && E == elems && C == Contents() && k < |E| && E[k] == x
      requires StrictlySorted(Keys())
      requires Rings(prevs, nexts, heights, E[..k] + E[k + 1..], 0, heights[x])
      requires Rings(prevs, nexts, heights, E, heights[x], heights[0])
      modifies this
      ensures Valid() && elems == E[..k] + E[k + 1..] && Contents() == C[..k] + C[k + 1..]
      ensures vals == old(vals) && nexts == old(nexts) && prevs == old(prevs) && heights == old(heights)
    {
      ghost var E' := E[..k] + E[k + 1..];
      RingsRemoveJoin(prevs, nexts, heights, E, k, heights[0]);
      elems := E';
      EntriesRemove(vals, E, k);
      RemoveSorted(C, k);
    }

    /** A present key sits at its lower bound. */
    lemma KeyAt(k: int)
      requires Valid() && k in Keys()
      ensures LowerBound(Keys(), k) < |elems|
      ensures At(LowerBound(Keys(), k)) in elems && vals[At(LowerBound(Keys(), k))].key == k
    {
      LowerBoundSorted(Keys(), k);
    }

    /** The key of every element is one of the keys. */
    lemma KeysHeld()
      requires Stored()
      ensures forall y :: y in elems ==> y in vals && vals[y].key in Keys()
    {
      forall y | y in elems
        ensures y in vals && vals[y].key in Keys()
      {
        var i :| 0 <= i < |elems| && elems[i] == y;
        assert Keys()[i] == vals[y].key;
      }
    }

    /* ---- Construction ---- */

    /** `skiplist()`: an empty list whose sentinel has a single level linked to itself. */
    constructor()
      ensures Valid() && Contents() == [] && vals == map[]
    {
      prevs, nexts := [[0]], [[0]];
      vals := map[];
      heights, elems := [1], [];
    }

    /* ---- Capacity ---- */

    /** `empty()`: `begin() == end()`. */
    function Empty(): (r: bool)
      reads this
      requires Valid()
      ensures r <==> Contents() == []
    {
      Level0(|elems|);
      nexts[0][0] == 0
    }

    /** `size()`: the distance from `begin()` to `end()` along level 0. */
    method Size() returns (n: nat)
      requires Valid()
      ensures n == |Contents()|
    {
      Level0(|elems|);
      var it := Next(Iter(0, 0));
      n := 0;
      while it.node != 0
        invariant n <= |elems| && it == Iter(At(n), 0)
        decreases |elems| - n
      {
        Level0(n);
        it := Next(it);
        n := n + 1;
      }
    }

    /* ---- Lookup ---- */

    /** `find(k)`: the element holding `k`, or `end()`. */
    method Find(k: int) returns (pos: nat)
      requires Valid()
      ensures k in Keys() ==> pos in elems && vals[pos].key == k && pos == At(LowerBound(Keys(), k))
      ensures k !in Keys() ==> pos == 0
    {
      var p, absent := FindPos(0, k);
      if !absent {
        KeyAt(k);
        return p;
      }
      return 0;
    }

    /* ---- Insertion ---- */

    /**
     * `insert(hint, e)`: when the key of `e` is absent, a node of height
     * `lvl` (the random draw plus one) holding `e` is linked in at its
     * place; otherwise nothing changes. Either way the position is the
     * element holding the key.
     */
    method InsertHint(hint: nat, e: Entry<V>, lvl: nat) returns (pos: nat, inserted: bool)
      requires Valid() && lvl >= 1
      requires hint == 0 || (hint in elems && vals[hint].key <= e.key)
      modifies this
      ensures Valid() && Contents() == InsertOne(old(Contents()), e)
      ensures inserted <==> e.key !in old(Keys())
      ensures pos in elems && vals[pos].key == e.key
      ensures inserted ==> vals[pos] == e && heights[pos] == lvl
      ensures !inserted ==> unchanged(this)
    {
      var p, absent := FindPos(hint, e.key);
      if !absent {
        KeyAt(e.key);
        return p, false;
      }
      var x := AllocNode(e, lvl);
      InsertNode(p, x);
      return x, true;
    }

    /** `insert(e)`: `insert(end(), e)`. */
    method Insert(e: Entry<V>, lvl: nat) returns (pos: nat, inserted: bool)
      requires Valid() && lvl >= 1
      modifies this
      ensures Valid() && Contents() == InsertOne(old(Contents()), e)
      ensures inserted <==> e.key !in old(Keys())
      ensures pos in elems && vals[pos].key == e.key
      ensures inserted ==> vals[pos] == e && heights[pos] == lvl
      ensures !inserted ==> unchanged(this)
    {
      pos, inserted := InsertHint(0, e, lvl);
    }

    /**
     * `insert(node_type&&)`: an empty handle changes nothing. A handle
     * whose key is present stays full and reports the element holding the
     * key. Otherwise its node, grown to at least `lvl` levels, is linked in
     * and the handle is emptied.
     */
    method InsertHandle(nh: NodeHandle<V>, lvl: nat) returns (ret: InsertReturn<V>, rest: NodeHandle<V>)
      requires Valid() && lvl >= 1 && (nh.Holding? ==> nh.height >= 1)
      modifies this
      ensures Valid()
      ensures nh == NoNode ==> ret == InsertReturn(0, false, NoNode) && rest == NoNode && unchanged(this)
      ensures nh.Holding? ==> ret.node == NoNode && Contents() == InsertOne(old(Contents()), nh.data)
      ensures nh.Holding? ==> (ret.inserted <==> nh.data.key !in old(Keys()))
      ensures nh.Holding? ==> ret.position in elems && vals[ret.position].key == nh.data.key
      ensures ret.inserted ==> rest == NoNode && vals[ret.position] == nh.data
      ensures ret.inserted ==> heights[ret.position] == (if nh.height < lvl then lvl else nh.height)
      ensures nh.Holding? && !ret.inserted ==> rest == nh && unchanged(this)
    {
      if nh == NoNode {
        return InsertReturn(0, false, NoNode), NoNode;
      }
      var p, absent := FindPos(0, nh.data.key);
      if !absent {
        KeyAt(nh.data.key);
        return InsertReturn(p, false, NoNode), nh;
      }
      var x := AllocNode(nh.data, nh.height);
      Expand(x, lvl);
      InsertNode(p, x);
      return InsertReturn(x, true, NoNode), NoNode;
    }

    /**
     * `insert(hint, node_type&&)`: `end()` for an empty handle; otherwise
     * as `insert(node_type&&)` searching from the hint, returning only the
     * position.
     */
    method InsertHandleHint(hint: nat, nh: NodeHandle<V>, lvl: nat) returns (pos: nat, rest: NodeHandle<V>)
      requires Valid() && lvl >= 1 && (nh.Holding? ==> nh.height >= 1)
      requires nh.Holding? ==> hint == 0 || (hint in elems && vals[hint].key <= nh.data.key)
      modifies this
      ensures Valid()
      ensures nh == NoNode ==> pos == 0 && rest == NoNode && unchanged(this)
      ensures nh.Holding? ==> Contents() == InsertOne(old(Contents()), nh.data)
      ensures nh.Holding? ==> pos in elems && vals[pos].key == nh.data.key
      ensures nh.Holding? && nh.data.key in old(Keys()) ==> rest == nh && unchanged(this)
      ensures nh.Holding? && nh.data.key !in old(Keys()) ==> rest == NoNode && vals[pos] == nh.data
      ensures nh.Holding? && nh.data.key !in old(Keys()) ==> heights[pos] == (if nh.height < lvl then lvl else nh.height)
    {
      if nh == NoNode {
        return 0, NoNode;
      }
      var p, absent := FindPos(hint, nh.data.key);
      if !absent {
        KeyAt(nh.data.key);
        return p, nh;
      }
      var x := AllocNode(nh.data, nh.height);
      Expand(x, lvl);
      InsertNode(p, x);
      return x, NoNode;
    }

    /* ---- Removal ---- */

    /** `erase(pos)`: unlinks and destroys the element, returning its successor. */
    method Erase(pos: nat) returns (next: nat)
      requires Valid() && pos in elems
      modifies this
      ensures Valid() && vals == old(vals) - {pos}
      ensures var k := IndexOf(old(elems), pos);
        next == old(At(k + 1)) && Contents() == old(Contents()[..k] + Contents()[k + 1..])
    {
      ghost var k := IndexOf(elems, pos);
      Level0(k);
      next := nexts[pos][0];
      UnlinkNode(pos);
      DestroyNode(pos);
    }

    /** `erase(k)`: removes the element holding `k`, if any, and reports how many were removed. */
    method EraseKey(k: int) returns (count: nat)
      requires Valid()
      modifies this
      ensures Valid() && k !in Keys()
      ensures count == (if k in old(Keys()) then 1 else 0)
      ensures k in old(Keys()) ==> var q := old(LowerBound(Keys(), k));
        Contents() == old(Contents()[..q] + Contents()[q + 1..])
      ensures k !in old(Keys()) ==> unchanged(this)
    {
      var pos := Find(k);
      if pos != 0 {
        KeyIndex(pos);
        ExtractReinsert(Contents(), IndexOf(elems, pos));
        var _ := Erase(pos);
        return 1;
      }
      return 0;
    }

    /**
     * `extract(pos)`: unlinks the element and hands over, in a handle,
     * its element and its tower height.
     */
    method Extract(pos: nat) returns (nh: NodeHandle<V>)
      requires Valid() && pos in elems
      modifies this
      ensures Valid() && vals == old(vals) - {pos}
      ensures nh == Holding(old(vals[pos]), old(heights[pos]))
      ensures var k := IndexOf(old(elems), pos); Contents() == old(Contents()[..k] + Contents()[k + 1..])
    {
      UnlinkNode(pos);
      nh := Holding(vals[pos], |nexts[pos]|);
      DestroyNode(pos);
    }

    /** `destroy_node_`: the data of a node that is not an element is dropped. */
    method DestroyNode(x: nat)
      requires Valid() && x !in elems
      modifies this
      ensures Valid() && vals == old(vals) - {x} && Contents() == old(Contents())
      ensures nexts == old(nexts) && prevs == old(prevs) && heights == old(heights) && elems == old(elems)
    {
      ghost var C := Contents();
      vals := vals - {x};
      assert forall i :: 0 <= i < |elems| ==> elems[i] != x;
      assert Contents() == C;
    }

    /** `extract(e)`: extracts the element whose key is that of `e`, or returns an empty handle. */
    method ExtractValue(e: Entry<V>) returns (nh: NodeHandle<V>)
      requires Valid()
      modifies this
      ensures Valid() && e.key !in Keys()
      ensures e.key in old(Keys()) ==> var q := old(LowerBound(Keys(), e.key));
        nh.Holding? && nh.data == old(Contents()[q]) && Contents() == old(Contents()[..q] + Contents()[q + 1..])
      ensures e.key !in old(Keys()) ==> nh == NoNode && unchanged(this)
    {
      var p, absent := FindPos(0, e.key);
      if !absent {
        KeyAt(e.key);
        KeyIndex(p);
        ExtractReinsert(Contents(), IndexOf(elems, p));
        nh := Extract(p);
      } else {
        nh := NoNode;
      }
    }

    /**
     * `clear()`: when the list is not empty, every element node is
     * destroyed and the sentinel is reset to a single level linked to
     * itself; an empty list is left as it is.
     */
    method Clear()
      requires Valid()
      modifies this
      ensures Valid() && Contents() == [] && elems == []
      ensures vals == old(vals) - (set n | n in old(elems))
      ensures old(elems) != [] ==> nexts == old(nexts)[0 := [0]] && prevs == old(prevs)[0 := [0]]
      ensures old(elems) == [] ==> unchanged(this)
    {
      if nexts[0][0] == 0 {
        Level0(|elems|);
        return;
      }
      Level0All();
      DestroyNodes();
      nexts := nexts[0 := [0]];
      prevs := prevs[0 := [0]];
      heights := heights[0 := 1];
      elems := [];
      ClearedValid();
    }

    /** The sentinel reset to one level linked to itself, with no elements, is a valid empty list. */
    lemma ClearedValid()
      requires Shape() && elems == [] && nexts[0] == [0] && prevs[0] == [0] && heights[0] == 1
      ensures Valid() && Contents() == []
    {
      assert Level(heights, elems, 0) == [];
    }

    /** The node loop of `clear()`: the data of every element is dropped; no link is touched. */
    method DestroyNodes()
      requires Shape() && 0 !in elems && elems != [] && nexts[0][0] == elems[0]
      requires forall i :: 0 <= i < |elems| ==> elems[i] < |nexts| && nexts[elems[i]][0] == At(i + 1)
      modifies this
      ensures vals == old(vals) - (set n | n in elems)
      ensures nexts == old(nexts) && prevs == old(prevs) && heights == old(heights) && elems == old(elems)
    {
      ghost var E := elems;
      var it := nexts[0][0];
      ghost var n: nat := 0;
      while it != 0
        invariant n <= |E| && elems == E && it == At(n)
        invariant nexts == old(nexts) && prevs == old(prevs) && heights == old(heights)
        invariant vals == old(vals) - (set m | m in E[..n])
        decreases |E| - n
      {
        assert n < |E|;
        var nx := nexts[it][0];
        vals := vals - {it};
        PrefixStep(E, n);
        it := nx;
        n := n + 1;
      }
      PrefixAll(E, n);
    }

    /**
     * Copy construction: each element of `other`, in order, is inserted
     * with the previously inserted node as the hint, the `n`th one with a
     * tower of height `lvls[n]`.
     */
    constructor Copy(other: SkipList<V>, lvls: seq<nat>)
      requires other.Valid() && |lvls| == |other.elems| && forall i :: 0 <= i < |lvls| ==> lvls[i] >= 1
      ensures Valid() && Contents() == other.Contents()
    {
      prevs, nexts := [[0]], [[0]];
      vals := map[];
      heights, elems := [1], [];
      new;
      ClearedValid();
      var it := 0;
      other.Level0(|other.elems|);
      var src := other.nexts[0][0];
      var n := 0;
      ghost var OC := other.Contents();
      while src != 0
        invariant n <= |other.elems| && src == other.At(n) && OC == other.Contents()
        invariant Valid() && Contents() == OC[..n]
        invariant it == 0 || (n > 0 && it in elems && vals[it] == OC[n - 1])
        decreases |other.elems| - n
      {
        it, src := CopyStep(other, OC, src, n, it, lvls[n]);
        n := n + 1;
      }
      assert n == |OC|;
      PrefixAll(OC, n);
    }

    /**
     * One element of a copy: the `n`th element of `other` goes after the
     * `n` copied before it, searching from `hint` (`end()` or the last
     * copied node).
     */
    method CopyStep(other: SkipList<V>, ghost OC: seq<Entry<V>>, src: nat, ghost n: nat, hint: nat, lvl: nat)
      returns (pos: nat, next: nat)
      requires Valid() && other.Valid() && other != this && OC == other.Contents()
      requires n < |other.elems| && src == other.elems[n] && lvl >= 1
      requires Contents() == OC[..n]
      requires hint == 0 || (n > 0 && hint in elems && vals[hint] == OC[n - 1])
      modifies this
      ensures Valid() && Contents() == OC[..n + 1]
      ensures pos in elems && vals[pos] == OC[n] && n + 1 <= |other.elems| && next == other.At(n + 1)
    {
      other.Level0(n);
      next := other.nexts[src][0];
      var e := other.vals[src];
      other.SortedBefore(n);
      InsertOneLast(Contents(), e);
      assert other.Contents()[..n + 1] == other.Contents()[..n] + [e];
      var inserted;
      pos, inserted := InsertHint(hint, e, lvl);
    }

    /** The elements before the `n`th have smaller keys. */
    lemma SortedBefore(n: nat)
      requires Valid() && n < |elems|
      ensures forall i :: 0 <= i < n ==> Contents()[..n][i].key < Contents()[n].key
      ensures n > 0 ==> Contents()[n - 1].key <= Contents()[n].key
    {
      forall i | 0 <= i < n
        ensures Contents()[i].key < Contents()[n].key
      {
        assert Keys()[i] < Keys()[n];
      }
    }

    /**
     * Copy assignment: a no-op on self-assignment; otherwise the list is
     * cleared and each element of `other` inserted in turn, the `n`th with
     * a tower of height `lvls[n]`.
     */
    method Assign(other: SkipList<V>, lvls: seq<nat>)
      requires Valid() && other.Valid()
      requires other != this ==> |lvls| == |other.elems| && forall i :: 0 <= i < |lvls| ==> lvls[i] >= 1
      modifies this
      ensures Valid() && Contents() == old(other.Contents())
      ensures other == this ==> unchanged(this)
    {
      if other == this {
        return;
      }
      Clear();
      other.Level0(|other.elems|);
      var src := other.nexts[0][0];
      var n := 0;
      ghost var OC := other.Contents();
      while src != 0
        invariant n <= |other.elems| && src == other.At(n) && OC == other.Contents()
        invariant Valid() && Contents() == OC[..n]
        decreases |other.elems| - n
      {
        var _, next := CopyStep(other, OC, src, n, 0, lvls[n]);
        src := next;
        n := n + 1;
      }
      assert n == |OC|;
      PrefixAll(OC, n);
    }

    /**
     * Construction from an initializer list: each element is emplaced in
     * turn, the `i`th with a tower of height `lvls[i]`; of several
     * elements with one key the first is kept.
     */
    constructor FromList(init: seq<Entry<V>>, lvls: seq<nat>)
      requires |lvls| == |init| && forall i :: 0 <= i < |lvls| ==> lvls[i] >= 1
      ensures Valid() && Contents() == InsertEach([], init)
    {
      prevs, nexts := [[0]], [[0]];
      vals := map[];
      heights, elems := [1], [];
      new;
      ClearedValid();
      var i := 0;
      while i < |init|
        invariant i <= |init| && Valid() && Contents() == InsertEach([], init[..i])
      {
        InsertEachStep([], init, i);
        var _, _ := Insert(init[i], lvls[i]);
        i := i + 1;
      }
      PrefixAll(init, i);
    }

    /**
     * `merge(source)`: walks the source along level 0 and moves every
     * element whose key the target lacks, with its tower height, into the
     * target; the others stay in the source. Merging a list into itself
     * finds every key present and changes nothing.
     */
    method Merge(source: SkipList<V>)
      requires Valid() && source.Valid()
      modifies this, source
      ensures Valid() && source.Valid()
      ensures Contents() == InsertEach(old(Contents()), old(source.Contents()))
      ensures source.Contents() == Sift(old(source.Contents()), old(Keys()), true)
      ensures forall x :: x in elems && vals[x].key !in old(Keys()) ==> var k := vals[x].key; heights[x] == old(source.HeightOf(k))
      ensures source == this ==> unchanged(this)
    {
      if source == this {
        MergeSelf(Contents());
        KeysHeld();
        return;
      }
      ghost var T, KT := Contents(), Keys();
      ghost var SC, SE, SH := source.Contents(), source.elems, source.Heights();
      KeysHeld();
      ghost var RS: seq<nat> := [];
      source.Level0(|source.elems|);
      var it := source.nexts[0][0];
      ghost var i: nat := 0;
      ghost var Kept: seq<Entry<V>> := [];
      ghost var Acc := T;
      assert StrictlySorted(KeysOf(T)) && StrictlySorted(KeysOf(SC)) && |SC| == |SE| && KT == KeysOf(T);
      MergeInit(T, SC, KT);
      PrefixNone(SE);
      assert it == 0 <==> |SE| == 0;
      while it != 0
        invariant StrictlySorted(KeysOf(T)) && StrictlySorted(KeysOf(SC)) && |SC| == |SE| && KT == KeysOf(T)
        invariant i <= |SE| && Valid() && source.Valid() && source.vals == old(source.vals)
        invariant source.elems == RS + SE[i..] && it == source.At(|RS|) && (it == 0 <==> i == |SE|)
        invariant Acc == InsertEach(T, SC[..i]) && Contents() == Acc
        invariant Kept == Sift(SC[..i], KT, true) && source.Contents() == Kept + SC[i..]
        invariant source.heights == old(source.heights)
        invariant forall y :: y in elems && vals[y].key !in KT ==> heights[y] == HeightFor(SC, SH, vals[y].key)
        decreases |SE| - i
      {
        it, RS, i, Acc, Kept := MergeAdvance(source, it, T, KT, SC, SE, SH, RS, i, Acc, Kept);
      }
      assert i == |SC|;
      PrefixAll(SC, i);
      assert Contents() == Acc;
      assert source.Contents() == Kept;
    }

    /** The loop step of `merge`, stated over the bookkeeping of the walk over the source. */
    method MergeAdvance(source: SkipList<V>, it: nat, ghost T: seq<Entry<V>>, ghost KT: seq<int>,
                        ghost SC: seq<Entry<V>>, ghost SE: seq<nat>, ghost SH: seq<nat>, ghost RS: seq<nat>, ghost i: nat,
                        ghost Acc: seq<Entry<V>>, ghost Kept: seq<Entry<V>>)
      returns (next: nat, ghost RS': seq<nat>, ghost i': nat, ghost Acc': seq<Entry<V>>, ghost Kept': seq<Entry<V>>)
      requires StrictlySorted(KeysOf(T)) && StrictlySorted(KeysOf(SC)) && |SC| == |SE| && KT == KeysOf(T)
      requires i <= |SE| && Valid() && source.Valid() && source != this
      requires source.elems == RS + SE[i..] && it == source.At(|RS|) && it != 0
      requires Acc == InsertEach(T, SC[..i]) && Contents() == Acc
      requires Kept == Sift(SC[..i], KT, true) && source.Contents() == Kept + SC[i..]
      requires |SH| == |SE| && forall j :: 0 <= j < |SE| ==> SE[j] < |source.heights| && source.heights[SE[j]] == SH[j]
      requires forall y :: y in elems && vals[y].key !in KT ==> heights[y] == HeightFor(SC, SH, vals[y].key)
      modifies this, source
      ensures i' == i + 1 && i' <= |SE| && Valid() && source.Valid() && source.vals == old(source.vals)
      ensures source.heights == old(source.heights)
      ensures forall y :: y in elems && vals[y].key !in KT ==> heights[y] == HeightFor(SC, SH, vals[y].key)
      ensures source.elems == RS' + SE[i'..] && next == source.At(|RS'|) && (next == 0 <==> i' == |SE|)
      ensures Acc' == InsertEach(T, SC[..i']) && Contents() == Acc'
      ensures Kept' == Sift(SC[..i'], KT, true) && source.Contents() == Kept' + SC[i'..]
    {
      ghost var c, cc := source.elems, source.Contents();
      ghost var k := |RS|;
      assert k < |c|;
      MergeBookStart(SC, SE, KT, RS, i, c, cc);
      assert it == c[k];
      ghost var E0, V0, H0 := elems, vals, heights;
      var moved;
      next, moved := MergeNode(source, it, k);
      MergeBook(T, KT, SC, SE, RS, i, c, cc, moved);
      forall y | y in elems && vals[y].key !in KT
        ensures heights[y] == HeightFor(SC, SH, vals[y].key)
      {
        if y in E0 {
          assert y != 0 && y < |H0| && vals[y] == V0[y];
        } else {
          HeightForAt(SC, SH, i);
        }
      }
      i', Acc', Kept' := i + 1, InsertEach(T, SC[..i + 1]), Sift(SC[..i + 1], KT, true);
      RS' := if moved then RS else RS + [SE[i]];
    }

    /** One step of `merge`: the source element `node` moves over when its key is absent here. */
    method MergeNode(source: SkipList<V>, node: nat, ghost k: nat) returns (next: nat, moved: bool)
      requires Valid() && source.Valid() && source != this && k < |source.elems| && node == source.elems[k]
      modifies this, source
      ensures Valid() && source.Valid() && source.vals == old(source.vals) && source.heights == old(source.heights)
      ensures forall y :: y in old(elems) ==> y in vals && vals[y] == old(vals[y])
      ensures |heights| >= old(|heights|) && forall y :: 0 < y < old(|heights|) ==> heights[y] == old(heights[y])
      ensures forall y :: y in elems && y !in old(elems) ==> vals[y] == old(source.vals[node]) && heights[y] == old(source.heights[node])
      ensures next == old(source.At(k + 1))
      ensures moved == (old(source.vals[node].key) !in old(Keys()))
      ensures Contents() == InsertOne(old(Contents()), old(source.vals[node]))
      ensures moved ==> source.elems == old(source.elems[..k] + source.elems[k + 1..])
      ensures moved ==> source.Contents() == old(source.Contents()[..k] + source.Contents()[k + 1..])
      ensures !moved ==> source.elems == old(source.elems) && source.Contents() == old(source.Contents())
    {
      var e := source.vals[node];
      var pos, absent := FindPos(0, e.key);
      IndexOfDistinct(source.elems, k);
      source.Level0(k);
      next := source.nexts[node][0];
      if absent {
        var h := |source.nexts[node]|;
        source.UnlinkNode(node);
        LinkNew(pos, e, h);
      }
      moved := absent;
    }

    /** The target side of one `merge` step: a node of height `h` holding `e` is linked in at `pos`. */
    method LinkNew(pos: nat, e: Entry<V>, h: nat)
      requires Valid() && h >= 1 && e.key !in Keys() && pos == At(LowerBound(Keys(), e.key))
      modifies this
      ensures Valid() && Contents() == InsertOne(old(Contents()), e)
      ensures forall y :: y in old(elems) ==> y in vals && vals[y] == old(vals[y])
      ensures |heights| >= old(|heights|) && forall y :: 0 < y < old(|heights|) ==> heights[y] == old(heights[y])
      ensures forall y :: y in elems && y !in old(elems) ==> vals[y] == e && heights[y] == h
    {
      ghost var E0 := elems;
      var x := AllocNode(e, h);
      assert forall y :: y in E0 ==> y != x;
      InsertNode(pos, x);
      assert forall y :: y in elems && y !in E0 ==> y == x;
    }
  }

  /** Where `merge` stands in the source: the `i`th source element is the next one left in it. */
  lemma MergeBookStart<V>(SC: seq<Entry<V>>, SE: seq<nat>, KT: seq<int>, RS: seq<nat>, i: nat, c: seq<nat>, cc: seq<Entry<V>>)
    requires |SC| == |SE| && i <= |SE| && c == RS + SE[i..] && cc == Sift(SC[..i], KT, true) + SC[i..] && |cc| == |c|
    requires |RS| < |c|
    ensures i < |SE| && c[|RS|] == SE[i] && cc[|RS|] == SC[i]
  {
  }

  /**
   * The bookkeeping of one `merge` step: the `i`th source element, at
   * index `|RS|` of what is left in the source, is inserted into the
   * target and leaves the source exactly when its key was absent.
   */
  lemma MergeBook<V>(T: seq<Entry<V>>, KT: seq<int>, SC: seq<Entry<V>>, SE: seq<nat>, RS: seq<nat>, i: nat,
                     c: seq<nat>, cc: seq<Entry<V>>, moved: bool)
    requires StrictlySorted(KeysOf(T)) && StrictlySorted(KeysOf(SC)) && |SC| == |SE| && KT == KeysOf(T)
    requires i < |SE| && c == RS + SE[i..] && cc == Sift(SC[..i], KT, true) + SC[i..] && |cc| == |c|
    requires moved == (SC[i].key !in KeysOf(InsertEach(T, SC[..i])))
    ensures |RS| < |c| && |RS| < |cc| && moved == (SC[i].key !in KT)
    ensures InsertEach(T, SC[..i + 1]) == InsertOne(InsertEach(T, SC[..i]), SC[i])
    ensures moved ==> c[..|RS|] + c[|RS| + 1..] == RS + SE[i + 1..]
    ensures moved ==> cc[..|RS|] + cc[|RS| + 1..] == Sift(SC[..i + 1], KT, true) + SC[i + 1..]
    ensures !moved ==> c == RS + [SE[i]] + SE[i + 1..] && cc == Sift(SC[..i + 1], KT, true) + SC[i + 1..]
  {
    SliceStep(RS, SE, i);
    MergeSourceStep(SC, KT, i, cc);
    MergeStep(T, SC, i);
    InsertEachStep(T, SC, i);
  }

  /** A link vector after `expand(size)` on node `n`. */
  function Grown(row: seq<nat>, n: nat, size: nat): (r: seq<nat>)
    ensures |r| == (if |row| < size then size else |row|) && r[..|row|] == row
    ensures forall l :: |row| <= l < |r| ==> r[l] == n
  {
    if |row| < size then row + seq(size - |row|, _ => n) else row
  }

  /** `expand` on a slot of a well-formed arena: the rings of `s` survive, with the new sentinel levels empty. */
  lemma GrowKeeps(p0: seq<seq<nat>>, n0: seq<seq<nat>>, h0: seq<nat>, s: seq<nat>, n: nat, size: nat)
    requires |p0| == |n0| == |h0| && n < |h0| && |n0[n]| == h0[n] && |p0[n]| == h0[n]
    requires n == 0 || n !in s
    requires forall i :: 0 <= i < |s| ==> s[i] < |h0| && h0[s[i]] <= h0[0] && s[i] != 0
    requires Rings(p0, n0, h0, s, 0, h0[0])
    ensures var h1 := h0[n := |Grown(n0[n], n, size)|];
      Rings(p0[n := Grown(p0[n], n, size)], n0[n := Grown(n0[n], n, size)], h1, s, 0, h1[0])
      && forall l :: h0[0] <= l < h1[0] ==> Level(h1, s, l) == []
  {
    var p1, n1 := p0[n := Grown(p0[n], n, size)], n0[n := Grown(n0[n], n, size)];
    var h1 := h0[n := |Grown(n0[n], n, size)|];
    forall l
      ensures SameLevel(p0, n0, p1, n1, l)
    {
    }
    GrowRings(p0, n0, h0, p1, n1, h1, s, n);
  }

  /**
   * Growing the tower of the sentinel, or of a slot that is not an
   * element, with levels that link the slot to itself keeps every ring;
   * each new sentinel level is empty.
   */
  lemma GrowRings(p0: seq<seq<nat>>, n0: seq<seq<nat>>, h0: seq<nat>, p1: seq<seq<nat>>, n1: seq<seq<nat>>, h1: seq<nat>, s: seq<nat>, n: nat)
    requires |h0| == |h1| && n < |h0| && h1 == h0[n := h1[n]] && h1[n] >= h0[n]
    requires n == 0 || n !in s
    requires forall i :: 0 <= i < |s| ==> s[i] < |h0| && h0[s[i]] <= h0[0] && s[i] != 0
    requires Rings(p0, n0, h0, s, 0, h0[0])
    requires forall l :: SameLevel(p0, n0, p1, n1, l)
    requires forall l :: h0[n] <= l < h1[n] ==> HasLink(p1, n1, n, l) && n1[n][l] == n && p1[n][l] == n
    ensures Rings(p1, n1, h1, s, 0, h1[0])
    ensures forall l :: h0[0] <= l < h1[0] ==> Level(h1, s, l) == []
  {
    forall l | 0 <= l < h1[0]
      ensures Ring(p1, n1, [0] + Level(h1, s, l), l)
    {
      LevelFrame(h0, h1, s, l);
      if l < h0[0] {
        RingFrame(p0, n0, p1, n1, [0] + Level(h0, s, l), l);
      } else {
        LevelNone(h1, s, l);
      }
    }
    forall l | h0[0] <= l < h1[0]
      ensures Level(h1, s, l) == []
    {
      LevelNone(h1, s, l);
    }
  }
}
