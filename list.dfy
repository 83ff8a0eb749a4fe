/**
 * The doubly linked list `wijagels::list<T>` of include/List.hpp, for
 * `T = int`.
 *
 * Every node, of every list, lives in one `Memory`: slot `n` has the links
 * `prev[n]` and `next[n]` (`d_prev_p`, `d_next_p`), and an element node
 * also holds `data[n]` (`d_data`). A list is its sentinel slot `head`
 * (`d_head`) and, as ghost state, the slots of its elements in order. An
 * iterator is the slot it points at; `end()` is `head`.
 */
module Lists {
  import opened Seqs
  import opened ListRings
  import opened ListOrder
  import opened Lex

  /** The node memory shared by all lists. */
  class Memory {
    var prev: seq<nat>
    var next: seq<nat>
    var data: map<nat, int>

    constructor()
      ensures prev == [] && next == [] && data == map[]
    {
      prev, next, data := [], [], map[];
    }

    /** A sentinel: a `Node_Base` linked to itself. */
    method NewBase() returns (x: nat)
      modifies this
      ensures x == old(|next|) && prev == old(prev) + [x] && next == old(next) + [x] && data == old(data)
    {
      x := |next|;
      prev, next := prev + [x], next + [x];
    }

    /** `allocate` and `construct`: a node holding `v`, linked to itself. */
    method NewNode(v: int) returns (x: nat)
      modifies this
      ensures x == old(|next|) && prev == old(prev) + [x] && next == old(next) + [x]
      ensures data == old(data)[x := v]
    {
      x := |next|;
      prev, next, data := prev + [x], next + [x], data[x := v];
    }

    /** `link_(a, b)`: `b` follows `a`. */
    method Link(a: nat, b: nat)
      requires a < |next| && b < |prev|
      modifies this
      ensures next == old(next)[a := b] && prev == old(prev)[b := a] && data == old(data)
    {
      next := next[a := b];
      prev := prev[b := a];
    }

    /** `destroy` and `deallocate`. */
    method Free(x: nat)
      modifies this
      ensures data == old(data) - {x} && prev == old(prev) && next == old(next)
    {
      data := data - {x};
    }

    /** `std::swap(x->d_prev_p, x->d_next_p)`. */
    method Turn(x: nat)
      requires x < |next| && x < |prev|
      modifies this
      ensures next == old(next)[x := old(prev[x])] && prev == old(prev)[x := old(next[x])]
      ensures data == old(data)
    {
      prev, next := prev[x := next[x]], next[x := prev[x]];
    }
  }

  /**
   * The list with sentinel `h` and element slots `e` is well formed: its
   * slots are distinct slots of the memory and form a ring through the
   * sentinel, and each element slot holds a value.
   */
  ghost predicate ListOk(prev: seq<nat>, next: seq<nat>, data: map<nat, int>, h: nat, e: seq<nat>) {
    |prev| == |next| && h < |next| && h !in e && Distinct(e)
    && (forall i :: 0 <= i < |e| ==> e[i] < |next| && e[i] in data)
    && Linked(prev, next, [h] + e)
  }

  lemma DistinctCons(h: nat, e: seq<nat>)
    requires h !in e && Distinct(e)
    ensures Distinct([h] + e)
  {
    var c := [h] + e;
    forall i, j | 0 <= i < j < |c| ensures c[i] != c[j] {
      assert c[j] == e[j - 1];
      if i > 0 { assert c[i] == e[i - 1]; }
    }
  }

  /** The ring of a list with `x` linked in after position `k` of the ring. */
  lemma InsertRing(p0: seq<nat>, n0: seq<nat>, h: nat, e: seq<nat>, k: nat)
    requires |p0| == |n0| && h < |n0| && h !in e && Distinct(e) && k <= |e|
    requires (forall i :: 0 <= i < |e| ==> e[i] < |n0|) && Linked(p0, n0, [h] + e)
    ensures var c, x := [h] + e, |n0|;
      var pos := After(c, k);
      Linked((p0 + [x])[x := c[k]][pos := x], (n0 + [x])[c[k] := x][x := pos], [h] + (e[..k] + [x] + e[k..]))
  {
    var c, x := [h] + e, |n0|;
    var p, n := p0 + [x], n0 + [x];
    DistinctCons(h, e);
    Reframe(p0, n0, p, n, c);
    Graft(p, n, c, k, [x]);
    ConsSlices(h, e, k);
    assert c[..k + 1] + [x] + c[k + 1..] == [h] + (e[..k] + [x] + e[k..]);
  }

  /** `insert` links only the slots around position `k` and a new slot. */
  lemma InsertKeeps(p0: seq<nat>, n0: seq<nat>, d0: map<nat, int>, c: seq<nat>, k: nat, v: int)
    requires |p0| == |n0| && k < |c| && forall j :: 0 <= j < |c| ==> c[j] < |n0|
    ensures var x := |n0|;
      var pos := After(c, k);
      Keeps(p0, n0, d0, (p0 + [x])[x := c[k]][pos := x], (n0 + [x])[c[k] := x][x := pos], d0[x := v], c)
  {
  }

  /**
   * Linking a new node `x` in front of the element at position `k`
   * (`insert`) leaves a well-formed list with `x` at position `k`.
   */
  lemma InsertLinks(p0: seq<nat>, n0: seq<nat>, d0: map<nat, int>, h: nat, e: seq<nat>, k: nat, v: int)
    requires ListOk(p0, n0, d0, h, e) && k <= |e|
    ensures var c, x := [h] + e, |n0|;
      var pos := After(c, k);
      ListOk((p0 + [x])[x := c[k]][pos := x], (n0 + [x])[c[k] := x][x := pos], d0[x := v], h, e[..k] + [x] + e[k..])
  {
    var c, x := [h] + e, |n0|;
    var e' := e[..k] + [x] + e[k..];
    InsertRing(p0, n0, h, e, k);
    DistinctInsert(e, k, x);
    forall i | 0 <= i < |e'| ensures e'[i] < x + 1 && e'[i] in d0[x := v] {
    }
  }

  lemma DistinctInsert(e: seq<nat>, k: nat, x: nat)
    requires Distinct(e) && k <= |e| && x !in e
    ensures var e' := e[..k] + [x] + e[k..];
      Distinct(e') && |e'| == |e| + 1
      && forall i :: 0 <= i < |e'| ==> e'[i] == if i < k then e[i] else if i == k then x else e[i - 1]
  {
    var e' := e[..k] + [x] + e[k..];
    assert forall i :: 0 <= i < |e'| ==> e'[i] == if i < k then e[i] else if i == k then x else e[i - 1];
  }

  lemma ValuesInsert(d0: map<nat, int>, x: nat, v: int, e: seq<nat>, k: nat)
    requires (forall i :: 0 <= i < |e| ==> e[i] in d0) && x !in e && k <= |e|
    ensures var e' := e[..k] + [x] + e[k..];
      (forall i :: 0 <= i < |e'| ==> e'[i] in d0[x := v])
      && Values(d0[x := v], e') == Values(d0, e)[..k] + [v] + Values(d0, e)[k..]
  {
    var e' := e[..k] + [x] + e[k..];
    var d1 := d0[x := v];
    forall i | 0 <= i < |e'| ensures e'[i] in d1 && d1[e'[i]] == if i < k then d0[e[i]] else if i == k then v else d0[e[i - 1]] {
      if i < k { assert e'[i] == e[i]; } else if i > k { assert e'[i] == e[i - 1]; }
    }
  }

  /** The ring of a list with the element at position `k` unlinked. */
  lemma EraseRing(p0: seq<nat>, n0: seq<nat>, h: nat, e: seq<nat>, k: nat)
    requires h !in e && Distinct(e) && k < |e| && Linked(p0, n0, [h] + e)
    requires |p0| == |n0| && forall i :: 0 <= i < |e| ==> e[i] < |n0|
    ensures p0[e[k]] == ([h] + e)[k] && n0[e[k]] == After([h] + e, k + 1)
    ensures var x := e[k];
      Linked(p0[n0[x] := p0[x]], n0[p0[x] := n0[x]], [h] + (e[..k] + e[k + 1..]))
  {
    var c := [h] + e;
    DistinctCons(h, e);
    assert c[k + 1] == e[k];
    Neighbours(p0, n0, c, k + 1);
    Cut(p0, n0, c, k, k + 1);
    ConsSlices(h, e, k);
    ConsSlices(h, e, k + 1);
    assert c[..k + 1] + c[k + 2..] == [h] + (e[..k] + e[k + 1..]);
  }

  /**
   * Unlinking the element at position `k` (`erase`): its neighbours are
   * linked to each other, its value is freed, and nothing else changes.
   */
  lemma EraseLinks(p0: seq<nat>, n0: seq<nat>, d0: map<nat, int>, h: nat, e: seq<nat>, k: nat)
    requires ListOk(p0, n0, d0, h, e) && k < |e|
    ensures p0[e[k]] == ([h] + e)[k] && n0[e[k]] == After([h] + e, k + 1)
    ensures var c, x := [h] + e, e[k];
      var a, b := p0[x], n0[x];
      var p1, n1, d1 := p0[b := a], n0[a := b], d0 - {x};
      var e' := e[..k] + e[k + 1..];
      ListOk(p1, n1, d1, h, e') && Keeps(p0, n0, d0, p1, n1, d1, c)
      && Values(d1, e') == Values(d0, e)[..k] + Values(d0, e)[k + 1..]
  {
    EraseOk(p0, n0, d0, h, e, k);
    ValuesRemove(d0, e, k);
  }

  /** What is left once `erase` has unlinked and freed member `k` is a list. */
  lemma EraseOk(p0: seq<nat>, n0: seq<nat>, d0: map<nat, int>, h: nat, e: seq<nat>, k: nat)
    requires ListOk(p0, n0, d0, h, e) && k < |e|
    ensures p0[e[k]] == ([h] + e)[k] && n0[e[k]] == After([h] + e, k + 1)
    ensures var x := e[k];
      ListOk(p0[n0[x] := p0[x]], n0[p0[x] := n0[x]], d0 - {x}, h, e[..k] + e[k + 1..])
  {
    EraseRing(p0, n0, h, e, k);
    DistinctRemove(e, k);
    AbsentRemove(e, k, h);
  }

  /** A slot missing from `e` is missing from `e` without its member `k`. */
  lemma AbsentRemove(e: seq<nat>, k: nat, h: nat)
    requires h !in e && k < |e|
    ensures h !in e[..k] + e[k + 1..]
  {
    assert h !in e[..k] && h !in e[k + 1..];
  }

  lemma DistinctRemove(e: seq<nat>, k: nat)
    requires Distinct(e) && k < |e|
    ensures var e' := e[..k] + e[k + 1..];
      Distinct(e') && |e'| == |e| - 1
      && (forall i :: 0 <= i < |e'| ==> e'[i] == if i < k then e[i] else e[i + 1])
      && forall i :: 0 <= i < |e'| ==> e'[i] != e[k]
  {
    var e' := e[..k] + e[k + 1..];
    forall i | 0 <= i < |e'| ensures e'[i] == if i < k then e[i] else e[i + 1] {}
  }

  lemma ValuesRemove(d0: map<nat, int>, e: seq<nat>, k: nat)
    requires (forall i :: 0 <= i < |e| ==> e[i] in d0) && Distinct(e) && k < |e|
    ensures var e' := e[..k] + e[k + 1..];
      (forall i :: 0 <= i < |e'| ==> e'[i] in d0 - {e[k]})
      && Values(d0 - {e[k]}, e') == Values(d0, e)[..k] + Values(d0, e)[k + 1..]
  {
    DistinctRemove(e, k);
  }

  /** The slots of a list that has lost some front elements were slots of it before. */
  lemma SuffixOwned(h: nat, e: seq<nat>, n: nat)
    requires n <= |e|
    ensures forall x :: x in [h] + e[n..] ==> x in [h] + e
  {
    forall x | x in [h] + e[n..] ensures x in [h] + e {
      if x != h {
        var i :| 0 <= i < |e[n..]| && e[n..][i] == x;
        assert e[n + i] == x;
      }
    }
  }

  lemma PrefixOwned(h: nat, e: seq<nat>, n: nat)
    requires n <= |e|
    ensures forall x :: x in [h] + e[..n] ==> x in [h] + e
  {
    forall x | x in [h] + e[..n] ensures x in [h] + e {
      if x != h {
        var i :| 0 <= i < n && e[..n][i] == x;
        assert e[i] == x;
      }
    }
  }

  /** A list that has only gained fresh slots at its back owns no other old slot. */
  lemma FreshOwned(h: nat, e: seq<nat>, added: seq<nat>, bound: nat)
    requires forall j :: 0 <= j < |added| ==> added[j] >= bound
    ensures forall x :: x in [h] + (e + added) && x < bound ==> x in [h] + e
  {
  }

  /** A list that has only gained fresh slots at its back owns no other old slot. */
  lemma GrownOwned(h: nat, e: seq<nat>, e1: seq<nat>, bound: nat)
    requires |e| <= |e1| && e1[..|e|] == e
    requires forall i :: |e| <= i < |e1| ==> e1[i] >= bound
    ensures forall x :: x in [h] + e1 && x < bound ==> x in [h] + e
  {
    forall x | x in [h] + e1 && x < bound ensures x in [h] + e {
      if x != h {
        var i :| 0 <= i < |e1| && e1[i] == x;
        assert e1[..|e|][i] == x;
      }
    }
  }

  /** The slots `splice` reads: the block `o[a + 1..b + 1]` and its neighbours, and the slots around `After(c, k)`. */
  lemma SpliceEnds(p0: seq<nat>, n0: seq<nat>, c: seq<nat>, o: seq<nat>, k: nat, a: nat, b: nat)
    requires Linked(p0, n0, c) && Linked(p0, n0, o) && Distinct(c + o) && k < |c| && a < b < |o|
    ensures p0[o[a + 1]] == o[a] && p0[After(o, b)] == o[b] && p0[After(o, b) := o[a]][After(c, k)] == c[k]
  {
    DistinctParts(c, o);
    Neighbours(p0, n0, o, a + 1);
    Neighbours(p0, n0, o, if b + 1 < |o| then b + 1 else 0);
    Neighbours(p0, n0, c, if k + 1 < |c| then k + 1 else 0);
    assert After(c, k) != After(o, b);
  }

  /** The block `o[a + 1..b + 1]` grafted into `c` after `c[k]` by `splice` makes a ring. */
  lemma SpliceGraft(p0: seq<nat>, n0: seq<nat>, c: seq<nat>, o: seq<nat>, k: nat, a: nat, b: nat)
    requires Linked(p0, n0, c) && Linked(p0, n0, o) && Distinct(c + o) && k < |c| && a < b < |o|
    ensures var first, last, fin, pos, bef := o[a + 1], After(o, b), o[b], After(c, k), c[k];
      var p1, n1 := p0[last := o[a]], n0[o[a] := last];
      Linked(p1[first := bef][pos := fin], n1[bef := first][fin := pos], c[..k + 1] + o[a + 1..b + 1] + c[k + 1..])
  {
    DistinctParts(c, o);
    var last := After(o, b);
    var p1, n1 := p0[last := o[a]], n0[o[a] := last];
    Cut(p0, n0, o, a, b);
    forall j | 0 <= j < |c| ensures c[j] != last && c[j] != o[a] {}
    Reframe(p0, n0, p1, n1, c);
    var blk := o[a + 1..b + 1];
    forall i, j | 0 <= i < j < |blk| ensures blk[i] != blk[j] {
      assert blk[i] == o[a + 1 + i] && blk[j] == o[a + 1 + j];
    }
    forall i | 0 <= i < |blk| ensures blk[i] !in c {
      assert blk[i] == o[a + 1 + i];
    }
    assert blk[0] == o[a + 1] && blk[|blk| - 1] == o[b];
    Graft(p1, n1, c, k, blk);
  }

  /** What `splice` leaves of `o` once the block `o[a + 1..b + 1]` is gone is a ring. */
  lemma SpliceRest(p0: seq<nat>, n0: seq<nat>, c: seq<nat>, o: seq<nat>, k: nat, a: nat, b: nat)
    requires Linked(p0, n0, c) && Linked(p0, n0, o) && Distinct(c + o) && k < |c| && a < b < |o|
    ensures var first, last, fin, pos, bef := o[a + 1], After(o, b), o[b], After(c, k), c[k];
      var p1, n1 := p0[last := o[a]], n0[o[a] := last];
      Linked(p1[first := bef][pos := fin], n1[bef := first][fin := pos], o[..a + 1] + o[b + 1..])
  {
    DistinctParts(c, o);
    var first, last, fin, pos, bef := o[a + 1], After(o, b), o[b], After(c, k), c[k];
    var p1, n1 := p0[last := o[a]], n0[o[a] := last];
    var p2, n2 := p1[first := bef][pos := fin], n1[bef := first][fin := pos];
    Cut(p0, n0, o, a, b);
    var o' := o[..a + 1] + o[b + 1..];
    forall j | 0 <= j < |o'|
      ensures o'[j] < |n2| && o'[j] < |p2| && n2[o'[j]] == n1[o'[j]] && p2[o'[j]] == p1[o'[j]]
    {
      if j <= a {
        assert o'[j] == o[j];
      } else {
        assert o'[j] == o[j + b - a];
      }
    }
    Reframe(p1, n1, p2, n2, o');
  }

  /** The old slots `splice` writes all belong to the two rings. */
  lemma SpliceKeeps(p0: seq<nat>, n0: seq<nat>, d0: map<nat, int>, c: seq<nat>, o: seq<nat>, k: nat, a: nat, b: nat)
    requires |p0| == |n0| && k < |c| && a < b < |o|
    requires (forall j :: 0 <= j < |c| ==> c[j] < |n0|) && forall j :: 0 <= j < |o| ==> o[j] < |n0|
    ensures var first, last, fin, pos, bef := o[a + 1], After(o, b), o[b], After(c, k), c[k];
      var p1, n1 := p0[last := o[a]], n0[o[a] := last];
      Keeps(p0, n0, d0, p1[first := bef][pos := fin], n1[bef := first][fin := pos], d0, c + o)
  {
    var s := c + o;
    assert s[k] == c[k] && s[|c| + a] == o[a] && s[|c| + a + 1] == o[a + 1] && s[|c| + b] == o[b];
    assert s[|c| + (if b + 1 < |o| then b + 1 else 0)] == After(o, b);
    assert s[if k + 1 < |c| then k + 1 else 0] == After(c, k);
  }

  /** The element slots of the two lists after `splice`, position by position. */
  lemma SpliceShape(e: seq<nat>, oe: seq<nat>, k: nat, a: nat, b: nat)
    requires k <= |e| && a <= b <= |oe|
    ensures var e', oe' := e[..k] + oe[a..b] + e[k..], oe[..a] + oe[b..];
      |e'| == |e| + (b - a) && |oe'| == |oe| - (b - a)
      && (forall i :: 0 <= i < |e'| ==> e'[i] == if i < k then e[i] else if i < k + (b - a) then oe[a + (i - k)] else e[i - (b - a)])
      && (forall i :: 0 <= i < |oe'| ==> oe'[i] == if i < a then oe[i] else oe[i + (b - a)])
  {
  }

  lemma ValuesSlice(d: map<nat, int>, s: seq<nat>, i: nat, j: nat)
    requires (forall m :: 0 <= m < |s| ==> s[m] in d) && i <= j <= |s|
    ensures (forall m :: 0 <= m < j - i ==> s[i..j][m] in d) && Values(d, s[i..j]) == Values(d, s)[i..j]
  {
    assert forall m :: 0 <= m < j - i ==> s[i..j][m] == s[i + m];
  }

  /** The values of the receiving list after `splice`. */
  lemma ValuesSpliceIn(d: map<nat, int>, e: seq<nat>, oe: seq<nat>, k: nat, a: nat, b: nat)
    requires (forall i :: 0 <= i < |e| ==> e[i] in d) && (forall i :: 0 <= i < |oe| ==> oe[i] in d)
    requires k <= |e| && a <= b <= |oe|
    ensures forall i :: 0 <= i < |e[..k] + oe[a..b] + e[k..]| ==> (e[..k] + oe[a..b] + e[k..])[i] in d
    ensures Values(d, e[..k] + oe[a..b] + e[k..]) == Values(d, e)[..k] + Values(d, oe)[a..b] + Values(d, e)[k..]
  {
    ValuesTake(d, e, k);
    ValuesDrop(d, e, k);
    ValuesSlice(d, oe, a, b);
    ValuesJoin(d, e[..k], oe[a..b], e[k..]);
  }

  /** The values of three runs laid end to end. */
  lemma ValuesJoin(d: map<nat, int>, x: seq<nat>, y: seq<nat>, z: seq<nat>)
    requires (forall i :: 0 <= i < |x| ==> x[i] in d) && (forall i :: 0 <= i < |y| ==> y[i] in d)
    requires forall i :: 0 <= i < |z| ==> z[i] in d
    ensures forall i :: 0 <= i < |x + y + z| ==> (x + y + z)[i] in d
    ensures Values(d, x + y + z) == Values(d, x) + Values(d, y) + Values(d, z)
  {
    InJoin(d, x, y);
    ValuesAppend(d, x, y);
    InJoin(d, x + y, z);
    ValuesAppend(d, x + y, z);
  }

  /** Every node of two runs laid end to end has a value. */
  lemma InJoin(d: map<nat, int>, s: seq<nat>, t: seq<nat>)
    requires (forall i :: 0 <= i < |s| ==> s[i] in d) && (forall i :: 0 <= i < |t| ==> t[i] in d)
    ensures forall i :: 0 <= i < |s + t| ==> (s + t)[i] in d
  {
    forall i | 0 <= i < |s + t| ensures (s + t)[i] in d {
      if i >= |s| { assert (s + t)[i] == t[i - |s|]; }
    }
  }

  lemma ValuesTake(d: map<nat, int>, s: seq<nat>, k: nat)
    requires (forall m :: 0 <= m < |s| ==> s[m] in d) && k <= |s|
    ensures (forall m :: 0 <= m < k ==> s[..k][m] in d) && Values(d, s[..k]) == Values(d, s)[..k]
  {
  }

  lemma ValuesDrop(d: map<nat, int>, s: seq<nat>, k: nat)
    requires (forall m :: 0 <= m < |s| ==> s[m] in d) && k <= |s|
    ensures (forall m :: 0 <= m < |s| - k ==> s[k..][m] in d) && Values(d, s[k..]) == Values(d, s)[k..]
  {
    assert forall m :: 0 <= m < |s| - k ==> s[k..][m] == s[k + m];
  }

  /** The values of the giving list after `splice`. */
  lemma ValuesSpliceOut(d: map<nat, int>, oe: seq<nat>, a: nat, b: nat)
    requires (forall i :: 0 <= i < |oe| ==> oe[i] in d) && a <= b <= |oe|
    ensures forall i :: 0 <= i < |oe[..a] + oe[b..]| ==> (oe[..a] + oe[b..])[i] in d
    ensures Values(d, oe[..a] + oe[b..]) == Values(d, oe)[..a] + Values(d, oe)[b..]
  {
    ValuesSlice(d, oe, 0, a);
    ValuesSlice(d, oe, b, |oe|);
    assert oe[0..a] == oe[..a] && oe[b..|oe|] == oe[b..];
    ValuesAppend(d, oe[..a], oe[b..]);
  }

  /** After `splice` the slots of the two lists are the slots they had, rearranged, so they still share none. */
  lemma SpliceDistinct(h: nat, e: seq<nat>, oh: nat, oe: seq<nat>, k: nat, a: nat, b: nat)
    requires Distinct([h] + e + ([oh] + oe)) && k <= |e| && a <= b <= |oe|
    ensures var e', oe' := e[..k] + oe[a..b] + e[k..], oe[..a] + oe[b..];
      Distinct([h] + e' + ([oh] + oe')) && h !in e' && Distinct(e') && oh !in oe' && Distinct(oe')
      && multiset([h] + e' + ([oh] + oe')) == multiset([h] + e + ([oh] + oe))
  {
    var e', oe' := e[..k] + oe[a..b] + e[k..], oe[..a] + oe[b..];
    assert e == e[..k] + e[k..];
    assert oe == oe[..a] + oe[a..b] + oe[b..];
    assert multiset([h] + e' + ([oh] + oe')) == multiset([h] + e + ([oh] + oe));
    DistinctPerm([h] + e + ([oh] + oe), [h] + e' + ([oh] + oe'));
    DistinctParts([h] + e', [oh] + oe');
    DistinctParts([h], e');
    DistinctParts([oh], oe');
  }

  /** The rings `SpliceGraft` and `SpliceRest` build are the two lists' new rings. */
  lemma SpliceSeqs(h: nat, e: seq<nat>, oh: nat, oe: seq<nat>, k: nat, a: nat, b: nat)
    requires k <= |e| && a < b <= |oe|
    ensures var c, o := [h] + e, [oh] + oe;
      c[..k + 1] + o[a + 1..b + 1] + c[k + 1..] == [h] + (e[..k] + oe[a..b] + e[k..])
      && o[..a + 1] + o[b + 1..] == [oh] + (oe[..a] + oe[b..])
  {
    var c, o := [h] + e, [oh] + oe;
    assert c[..k + 1] == [h] + e[..k] && o[a + 1..b + 1] == oe[a..b] && c[k + 1..] == e[k..];
    assert o[..a + 1] == [oh] + oe[..a] && o[b + 1..] == oe[b..];
  }

  /** Splicing an empty range changes neither list. */
  lemma SpliceNothing(e: seq<nat>, oe: seq<nat>, k: nat, a: nat)
    requires k <= |e| && a <= |oe|
    ensures e[..k] + oe[a..a] + e[k..] == e && oe[..a] + oe[a..] == oe
  {
    assert e == e[..k] + e[k..];
    assert oe == oe[..a] + oe[a..];
  }

  /** The slots of the two lists after `splice` are slots of the memory that hold values. */
  lemma SpliceBounds(d: map<nat, int>, bound: nat, e: seq<nat>, oe: seq<nat>, k: nat, a: nat, b: nat)
    requires (forall i :: 0 <= i < |e| ==> e[i] < bound && e[i] in d)
    requires (forall i :: 0 <= i < |oe| ==> oe[i] < bound && oe[i] in d)
    requires k <= |e| && a <= b <= |oe|
    ensures var e', oe' := e[..k] + oe[a..b] + e[k..], oe[..a] + oe[b..];
      (forall i :: 0 <= i < |e'| ==> e'[i] < bound && e'[i] in d)
      && (forall i :: 0 <= i < |oe'| ==> oe'[i] < bound && oe'[i] in d)
  {
    SpliceShape(e, oe, k, a, b);
  }

  /**
   * `splice` leaves two well-formed lists that still share no slot: the
   * elements at positions `a` to `b` of the second list now stand at
   * position `k` of the first.
   */
  lemma SpliceLinks(p0: seq<nat>, n0: seq<nat>, d0: map<nat, int>, h: nat, e: seq<nat>, oh: nat, oe: seq<nat>, k: nat, a: nat, b: nat)
    requires ListOk(p0, n0, d0, h, e) && ListOk(p0, n0, d0, oh, oe) && Distinct([h] + e + ([oh] + oe))
    requires k <= |e| && a < b <= |oe|
    ensures var c, o := [h] + e, [oh] + oe;
      var first, last, fin, pos, bef := o[a + 1], After(o, b), o[b], After(c, k), c[k];
      var p1, n1 := p0[last := o[a]], n0[o[a] := last];
      var p2, n2 := p1[first := bef][pos := fin], n1[bef := first][fin := pos];
      var e', oe' := e[..k] + oe[a..b] + e[k..], oe[..a] + oe[b..];
      ListOk(p2, n2, d0, h, e') && ListOk(p2, n2, d0, oh, oe') && Distinct([h] + e' + ([oh] + oe'))
      && multiset([h] + e' + ([oh] + oe')) == multiset([h] + e + ([oh] + oe))
  {
    var c, o := [h] + e, [oh] + oe;
    SpliceGraft(p0, n0, c, o, k, a, b);
    SpliceRest(p0, n0, c, o, k, a, b);
    SpliceSeqs(h, e, oh, oe, k, a, b);
    SpliceDistinct(h, e, oh, oe, k, a, b);
    SpliceBounds(d0, |n0|, e, oe, k, a, b);
  }

  /**
   * The state `splice(pos, other, first, last)` leaves, written as its
   * three `link_` calls write it, for a non-empty range `[first, last)` at
   * positions `a` to `b` of the list `oh`, `oe` and the position `k` of
   * `pos` in the list `h`, `e`.
   */
  lemma SpliceState(p0: seq<nat>, n0: seq<nat>, d0: map<nat, int>, h: nat, e: seq<nat>, oh: nat, oe: seq<nat>,
                    k: nat, a: nat, b: nat, pos: nat, first: nat, last: nat)
    requires ListOk(p0, n0, d0, h, e) && ListOk(p0, n0, d0, oh, oe) && Distinct([h] + e + ([oh] + oe))
    requires k <= |e| && a < b <= |oe|
    requires pos == After([h] + e, k) && first == ([oh] + oe)[a + 1] && last == After([oh] + oe, b)
    ensures first < |p0| && last < |p0| && pos < |p0| && p0[first] < |n0| && p0[last] < |n0|
    ensures p0[last := p0[first]][pos] < |n0|
    ensures var fin := p0[last];
      var n1, p1 := n0[p0[first] := last], p0[last := p0[first]];
      var n2, p2 := n1[p1[pos] := first], p1[first := p1[pos]];
      var n3, p3 := n2[fin := pos], p2[pos := fin];
      var e', oe' := e[..k] + oe[a..b] + e[k..], oe[..a] + oe[b..];
      ListOk(p3, n3, d0, h, e') && ListOk(p3, n3, d0, oh, oe') && Distinct([h] + e' + ([oh] + oe'))
      && multiset([h] + e' + ([oh] + oe')) == multiset([h] + e + ([oh] + oe))
      && Keeps(p0, n0, d0, p3, n3, d0, [h] + e + ([oh] + oe))
  {
    var c, o := [h] + e, [oh] + oe;
    DistinctCons(h, e);
    DistinctCons(oh, oe);
    SpliceEnds(p0, n0, c, o, k, a, b);
    SpliceLinks(p0, n0, d0, h, e, oh, oe, k, a, b);
    SpliceKeeps(p0, n0, d0, c, o, k, a, b);
  }

  /**
   * The order of a list after `splice` moves its own block `e[a..b]` in
   * front of its position `k`, which lies outside the block: the block is
   * cut out, and goes back in front of the element that stood at `k`,
   * which now stands at `Shifted(k, a, b)` of what is left.
   */
  function Moved<T>(e: seq<T>, k: nat, a: nat, b: nat): (r: seq<T>)
    requires a <= b <= |e| && k <= |e| && (k <= a || b <= k)
    ensures |r| == |e|
  {
    var rest := e[..a] + e[b..];
    rest[..Shifted(k, a, b)] + e[a..b] + rest[Shifted(k, a, b)..]
  }

  /** Where position `k`, outside the block `[a, b)`, stands once the block is cut out. */
  function Shifted(k: nat, a: nat, b: nat): nat
    requires a <= b && (k <= a || b <= k)
  {
    if k <= a then k else k - (b - a)
  }

  /** The position in `e` of the element that `Moved(e, k, a, b)` holds at `i`. */
  function MovedFrom(k: nat, a: nat, b: nat, i: nat): nat
    requires a <= b && (k <= a || b <= k)
  {
    var k' := Shifted(k, a, b);
    if i < k' then (if i < a then i else i + (b - a))
    else if i < k' + (b - a) then a + (i - k')
    else if i - (b - a) < a then i - (b - a) else i
  }

  lemma MovedAt<T>(e: seq<T>, k: nat, a: nat, b: nat)
    requires a <= b <= |e| && k <= |e| && (k <= a || b <= k)
    ensures forall i :: 0 <= i < |e| ==> MovedFrom(k, a, b, i) < |e| && Moved(e, k, a, b)[i] == e[MovedFrom(k, a, b, i)]
  {
    var rest, k' := e[..a] + e[b..], Shifted(k, a, b);
    assert forall j :: 0 <= j < |rest| ==> rest[j] == e[if j < a then j else j + (b - a)];
    var r := Moved(e, k, a, b);
    assert r == rest[..k'] + e[a..b] + rest[k'..];
    forall i | 0 <= i < |e|
      ensures MovedFrom(k, a, b, i) < |e| && r[i] == e[MovedFrom(k, a, b, i)]
    {
      if i < k' {
        assert r[i] == rest[i];
      } else if i < k' + (b - a) {
        assert r[i] == e[a..b][i - k'];
      } else {
        assert r[i] == rest[k'..][i - k' - (b - a)] == rest[i - (b - a)];
      }
    }
  }

  /** After the move the block stands where `pos` stood, the rest keep their order around it, and nothing is lost or gained. */
  lemma MovedBlock<T>(e: seq<T>, k: nat, a: nat, b: nat)
    requires a <= b <= |e| && k <= |e| && (k <= a || b <= k)
    ensures var r, k' := Moved(e, k, a, b), Shifted(k, a, b);
      r[k'..k' + (b - a)] == e[a..b] && r[..k'] + r[k' + (b - a)..] == e[..a] + e[b..]
      && multiset(r) == multiset(e)
  {
    var rest, k' := e[..a] + e[b..], Shifted(k, a, b);
    assert rest[..k'] + rest[k'..] == rest;
    ThreeParts(rest[..k'], e[a..b], rest[k'..]);
    CutMultiset(e, a, b);
  }

  /** The middle of three sequences put side by side, and what is left around it. */
  lemma ThreeParts<T>(x: seq<T>, y: seq<T>, z: seq<T>)
    ensures var r := x + y + z;
      r[|x|..|x| + |y|] == y && r[..|x|] + r[|x| + |y|..] == x + z
      && multiset(r) == multiset(x + z) + multiset(y)
  {
    var r := x + y + z;
    assert r[..|x|] == x;
    assert r[|x| + |y|..] == z;
  }

  /** Cutting `e[a..b]` out of `e` loses no element. */
  lemma CutMultiset<T>(e: seq<T>, a: nat, b: nat)
    requires a <= b <= |e|
    ensures multiset(e[..a] + e[b..]) + multiset(e[a..b]) == multiset(e)
  {
    assert e == e[..a] + e[a..b] + e[b..];
  }

  /** Moving a block in front of its own first element, in front of its follower, or moving an empty block changes nothing. */
  lemma MovedNothing<T>(e: seq<T>, k: nat, a: nat, b: nat)
    requires a <= b <= |e| && k <= |e| && (k == a || k == b || a == b)
    ensures Moved(e, k, a, b) == e
  {
    MovedAt(e, k, a, b);
  }

  /** Moving slots moves their values. */
  lemma ValuesMoved(d: map<nat, int>, e: seq<nat>, k: nat, a: nat, b: nat)
    requires (forall i :: 0 <= i < |e| ==> e[i] in d)
    requires a <= b <= |e| && k <= |e| && (k <= a || b <= k)
    ensures multiset(Moved<nat>(e, k, a, b)) == multiset(e)
    ensures forall i :: 0 <= i < |Moved<nat>(e, k, a, b)| ==> Moved<nat>(e, k, a, b)[i] in d
    ensures Values(d, Moved<nat>(e, k, a, b)) == Moved(Values(d, e), k, a, b)
  {
    MovedBlock(e, k, a, b);
    MovedIn(d, e, k, a, b);
    MovedValues(d, e, k, a, b);
  }

  /** The moved slots are the same slots, so they all hold values. */
  lemma MovedIn(d: map<nat, int>, e: seq<nat>, k: nat, a: nat, b: nat)
    requires (forall i :: 0 <= i < |e| ==> e[i] in d)
    requires a <= b <= |e| && k <= |e| && (k <= a || b <= k)
    ensures forall i :: 0 <= i < |Moved<nat>(e, k, a, b)| ==> Moved<nat>(e, k, a, b)[i] in d
  {
    MovedAt(e, k, a, b);
  }

  /** Position by position, the values of the moved slots are the moved values. */
  lemma MovedValues(d: map<nat, int>, e: seq<nat>, k: nat, a: nat, b: nat)
    requires (forall i :: 0 <= i < |e| ==> e[i] in d)
    requires a <= b <= |e| && k <= |e| && (k <= a || b <= k)
    requires forall i :: 0 <= i < |Moved<nat>(e, k, a, b)| ==> Moved<nat>(e, k, a, b)[i] in d
    ensures Values(d, Moved<nat>(e, k, a, b)) == Moved(Values(d, e), k, a, b)
  {
    MovedAt(e, k, a, b);
    MovedAt(Values(d, e), k, a, b);
  }

  /** Putting `x` in front of a sequence shifts its slices by one. */
  lemma ConsSlices<T>(x: T, s: seq<T>, j: nat)
    requires j <= |s|
    ensures ([x] + s)[..j + 1] == [x] + s[..j] && ([x] + s)[j + 1..] == s[j..]
  {
  }

  /** The ring `Graft` builds when it puts the cut-out block back after position `k'` of the rest is the ring of the moved list. */
  lemma MovedRing(h: nat, e: seq<nat>, k: nat, a: nat, b: nat)
    requires k <= |e| && a < b <= |e| && (k < a || b <= k)
    ensures var d: seq<nat>, k': nat := [h] + e, if k < a then k else k - (b - a);
      var d': seq<nat> := d[..a + 1] + d[b + 1..];
      k' < |d'| && d'[..k' + 1] + d[a + 1..b + 1] + d'[k' + 1..] == [h] + Moved<nat>(e, k, a, b)
  {
    var k' := Shifted(k, a, b);
    var rest := e[..a] + e[b..];
    CutRing(h, e, a, b);
    ConsSlices(h, rest, k');
    ConsJoin(h, rest[..k'], e[a..b], rest[k'..]);
  }

  /** Cutting the block `e[a..b]` out of the ring `[h] + e`. */
  lemma CutRing(h: nat, e: seq<nat>, a: nat, b: nat)
    requires a <= b <= |e|
    ensures var d: seq<nat> := [h] + e;
      d[..a + 1] + d[b + 1..] == [h] + (e[..a] + e[b..]) && d[a + 1..b + 1] == e[a..b]
  {
    ConsSlices(h, e, a);
    assert ([h] + e)[b + 1..] == e[b..];
  }

  /** Putting `x` in front of three runs laid end to end. */
  lemma ConsJoin<T>(x: T, s: seq<T>, t: seq<T>, u: seq<T>)
    ensures [x] + s + t + u == [x] + (s + t + u)
  {
  }

  /** Cutting the block `d[a + 1..b + 1]` out of the ring `d` leaves two parts that share no slot. */
  lemma CutParts(d: seq<nat>, a: nat, b: nat)
    requires Distinct(d) && a < b < |d|
    ensures var d', blk := d[..a + 1] + d[b + 1..], d[a + 1..b + 1];
      Distinct(d') && Distinct(blk) && (forall i :: 0 <= i < |blk| ==> blk[i] !in d')
      && (forall i :: 0 <= i < |d'| ==> d'[i] in d)
  {
    var d', blk := d[..a + 1] + d[b + 1..], d[a + 1..b + 1];
    assert d == d[..a + 1] + blk + d[b + 1..];
    assert multiset(d' + blk) == multiset(d);
    DistinctPerm(d, d' + blk);
    DistinctParts(d', blk);
    forall i | 0 <= i < |d'| ensures d'[i] in d {
      assert d'[i] in multiset(d);
    }
  }

  /** A position `k` outside the block `[a, b)` of `[h] + e` keeps its follower once the block is cut out, at index `k'`. */
  lemma CutAfter(h: nat, e: seq<nat>, k: nat, a: nat, b: nat)
    requires k <= |e| && a < b <= |e| && (k < a || b <= k)
    ensures var d: seq<nat>, k': nat := [h] + e, if k < a then k else k - (b - a);
      var d': seq<nat> := d[..a + 1] + d[b + 1..];
      k' < |d'| && After(d', k') == After(d, k)
  {
    var d: seq<nat>, k': nat := [h] + e, if k < a then k else k - (b - a);
    var d': seq<nat> := d[..a + 1] + d[b + 1..];
    if k < a {
      assert d'[k + 1] == d[k + 1];
    } else if k < |e| {
      assert d'[k' + 1] == d[k + 1];
    }
  }

  /**
   * The first `link_` of a same-list `splice` cuts the block `d[a + 1..b + 1]`
   * out of the ring `d`; `pos`, at index `k'` of what is left, then follows
   * the slot the second `link_` reads as its predecessor.
   */
  lemma MoveCut(p0: seq<nat>, n0: seq<nat>, d: seq<nat>, a: nat, b: nat, k': nat, pos: nat)
    requires Linked(p0, n0, d) && Distinct(d) && a < b < |d| && k' < |d| - (b - a)
    requires pos == After(d[..a + 1] + d[b + 1..], k')
    ensures var p1: seq<nat>, n1: seq<nat> := p0[After(d, b) := d[a]], n0[d[a] := After(d, b)];
      var d': seq<nat>, blk: seq<nat> := d[..a + 1] + d[b + 1..], d[a + 1..b + 1];
      Linked(p1, n1, d') && Chained(p1, n1, blk) && Distinct(d') && Distinct(blk)
      && (forall i :: 0 <= i < |blk| ==> blk[i] !in d')
      && pos < |p1| && p1[pos] == d'[k'] && p1[pos] in d
  {
    var p1: seq<nat>, n1: seq<nat> := p0[After(d, b) := d[a]], n0[d[a] := After(d, b)];
    var d': seq<nat> := d[..a + 1] + d[b + 1..];
    Cut(p0, n0, d, a, b);
    CutParts(d, a, b);
    var j: nat := if k' + 1 < |d'| then k' + 1 else 0;
    Neighbours(p1, n1, d', j);
  }

  /** The block `d[a + 1..b + 1]` of a ring: its first member and the member after it follow `d[a]` and `d[b]`. */
  lemma MoveEnds(p0: seq<nat>, n0: seq<nat>, d: seq<nat>, a: nat, b: nat)
    requires Linked(p0, n0, d) && a < b < |d|
    ensures After(d, a) < |p0| && After(d, b) < |p0| && d[b] < |n0|
    ensures p0[After(d, a)] == d[a] && p0[After(d, b)] == d[b]
  {
    Neighbours(p0, n0, d, a + 1);
    Neighbours(p0, n0, d, if b + 1 < |d| then b + 1 else 0);
  }

  /** The three `link_` calls of a same-list `splice` make the ring of the moved list. */
  lemma MoveLinks(p0: seq<nat>, n0: seq<nat>, h: nat, e: seq<nat>, k: nat, a: nat, b: nat)
    requires Linked(p0, n0, [h] + e) && Distinct([h] + e) && k <= |e| && a < b <= |e| && (k < a || b <= k)
    ensures var d: seq<nat> := [h] + e;
      var pos: nat, first: nat, last: nat := After(d, k), After(d, a), After(d, b);
      var p1: seq<nat>, n1: seq<nat> := p0[last := d[a]], n0[d[a] := last];
      p0[first] == d[a] && p0[last] == d[b] && p1[pos] in d
      && Linked(p1[first := p1[pos]][pos := d[b]], n1[p1[pos] := first][d[b] := pos], [h] + Moved<nat>(e, k, a, b))
  {
    var d: seq<nat> := [h] + e;
    var pos: nat, first: nat, last: nat := After(d, k), After(d, a), After(d, b);
    MoveEnds(p0, n0, d, a, b);
    var p1: seq<nat>, n1: seq<nat> := p0[last := d[a]], n0[d[a] := last];
    var k': nat := if k < a then k else k - (b - a);
    CutAfter(h, e, k, a, b);
    MoveCut(p0, n0, d, a, b, k', pos);
    MoveGraft(p1, n1, h, e, k, a, b, d, d[..a + 1] + d[b + 1..], d[a + 1..b + 1], k', p1[pos], pos, first, d[b]);
  }

  /**
   * The last two `link_` calls of a same-list `splice` put the block cut out
   * of `[h] + e` back after `pos`, at index `k'` of what was left: the ring
   * of the moved list.
   */
  lemma MoveGraft(p1: seq<nat>, n1: seq<nat>, h: nat, e: seq<nat>, k: nat, a: nat, b: nat,
                  d: seq<nat>, d': seq<nat>, blk: seq<nat>, k': nat, bef: nat, pos: nat, first: nat, fin: nat)
    requires k <= |e| && a < b <= |e| && (k < a || b <= k) && k' == (if k < a then k else k - (b - a))
    requires d == [h] + e && d' == d[..a + 1] + d[b + 1..] && blk == d[a + 1..b + 1]
    requires Linked(p1, n1, d') && Chained(p1, n1, blk) && Distinct(d') && Distinct(blk)
    requires forall i :: 0 <= i < |blk| ==> blk[i] !in d'
    requires k' < |d'| && bef == d'[k'] && pos == After(d', k') && first == After(d, a) && fin == d[b]
    requires first < |p1| && fin < |n1|
    ensures Linked(p1[first := bef][pos := fin], n1[bef := first][fin := pos], [h] + Moved<nat>(e, k, a, b))
  {
    MovedRing(h, e, k, a, b);
    BlockEnds(d, a, b);
    GraftBetween(p1, n1, d', k', blk, bef, pos, first, fin);
  }

  /** The block `d[a + 1..b + 1]` starts at the member after `d[a]` and ends at `d[b]`. */
  lemma BlockEnds(d: seq<nat>, a: nat, b: nat)
    requires a < b < |d|
    ensures var blk := d[a + 1..b + 1];
      |blk| > 0 && blk[0] == After(d, a) && blk[|blk| - 1] == d[b]
  {
  }

  /** Three `link_` calls between slots of `own` change no other slot. */
  lemma KeepsLinks(p0: seq<nat>, n0: seq<nat>, d0: map<nat, int>, own: seq<nat>,
                   u1: nat, v1: nat, u2: nat, v2: nat, u3: nat, v3: nat)
    requires |p0| == |n0| && u1 < |n0| && v1 < |n0| && u2 < |n0| && v2 < |n0| && u3 < |n0| && v3 < |n0|
    requires u1 in own && v1 in own && u2 in own && v2 in own && u3 in own && v3 in own
    ensures Keeps(p0, n0, d0, p0[v1 := u1][v2 := u2][v3 := u3], n0[u1 := v1][u2 := v2][u3 := v3], d0, own)
  {
  }

  /**
   * The state `splice(pos, *this, first, last)` leaves, written as its three
   * `link_` calls write it, for a non-empty range at positions `a` to `b` of
   * the list `h`, `e` and a position `k` outside it.
   */
  lemma MoveState(p0: seq<nat>, n0: seq<nat>, d0: map<nat, int>, h: nat, e: seq<nat>,
                  k: nat, a: nat, b: nat, pos: nat, first: nat, last: nat)
    requires ListOk(p0, n0, d0, h, e) && k <= |e| && a < b <= |e| && (k < a || b <= k)
    requires pos == After([h] + e, k) && first == After([h] + e, a) && last == After([h] + e, b)
    ensures first < |p0| && last < |p0| && pos < |p0| && p0[first] < |n0| && p0[last] < |n0|
    ensures p0[last := p0[first]][pos] < |n0|
    ensures var fin := p0[last];
      var n1, p1 := n0[p0[first] := last], p0[last := p0[first]];
      var n2, p2 := n1[p1[pos] := first], p1[first := p1[pos]];
      var n3, p3 := n2[fin := pos], p2[pos := fin];
      ListOk(p3, n3, d0, h, Moved<nat>(e, k, a, b)) && Keeps(p0, n0, d0, p3, n3, d0, [h] + e)
  {
    var d := [h] + e;
    DistinctCons(h, e);
    MoveLinks(p0, n0, h, e, k, a, b);
    var bef := p0[last := d[a]][pos];
    assert d[a] in d && d[b] in d && pos in d && first in d && last in d;
    KeepsLinks(p0, n0, d0, d, d[a], last, bef, first, d[b], pos);
    MovedBlock(e, k, a, b);
    var e' := Moved<nat>(e, k, a, b);
    assert multiset([h] + e') == multiset(d);
    DistinctPerm(d, [h] + e');
    DistinctParts([h], e');
    forall i | 0 <= i < |e'| ensures e'[i] < |n0| && e'[i] in d0 {
      assert e'[i] in multiset(e);
    }
  }

  /**
   * The links after the source's `splice(pos, other, first, last)`, which
   * makes its three `link_` calls without checking for an empty range.
   */
  function SpliceAsWritten(prev: seq<nat>, next: seq<nat>, pos: nat, first: nat, last: nat): (r: (seq<nat>, seq<nat>))
    requires |prev| == |next| && pos < |prev| && first < |prev| && last < |prev|
    requires forall x :: 0 <= x < |prev| ==> prev[x] < |prev| && next[x] < |prev|
    ensures |r.0| == |prev| && |r.1| == |next|
  {
    var fin := prev[last];
    var p1, n1 := prev[last := prev[first]], next[prev[first] := last];
    var p2, n2 := p1[first := p1[pos]], n1[p1[pos] := first];
    (p2[pos := fin], n2[fin := pos])
  }

  /**
   * With an empty range `first == last == end()` of an empty `other` (what
   * `splice(pos, other)` and `list(list&&)` pass when `other` is empty),
   * the source links the sentinel of `other` into this list in front of
   * `pos`, and takes it out of its own ring.
   */
  lemma SpliceEmptyRange(prev: seq<nat>, next: seq<nat>, pos: nat, oh: nat)
    requires |prev| == |next| && pos < |prev| && oh < |prev| && pos != oh
    requires forall x :: 0 <= x < |prev| ==> prev[x] < |prev| && next[x] < |prev|
    requires prev[oh] == oh && next[oh] == oh && prev[pos] != oh
    ensures var r := SpliceAsWritten(prev, next, pos, oh, oh);
      r.1[prev[pos]] == oh && r.1[oh] == pos && r.0[pos] == oh && r.0[oh] == prev[pos]
      && !Linked(r.0, r.1, [oh])
  {
  }

  /** The smallest instance: both lists empty, in slots 0 and 1. */
  lemma SpliceEmptyRangeExample()
    ensures SpliceAsWritten([0, 1], [0, 1], 0, 1, 1) == ([1, 0], [1, 0])
    ensures Linked([1, 0], [1, 0], [0, 1]) && !Linked([1, 0], [1, 0], [1])
  {
    var r := SpliceAsWritten([0, 1], [0, 1], 0, 1, 1);
    SpliceEmptyRange([0, 1], [0, 1], 0, 1);
    assert r.0 == [1, 0] && r.1 == [1, 0];
  }

  /**
   * `list = ilist` as written appends (`AppendAll`) where the values alone
   * were meant (`AssignInit`): the two results agree exactly when the list
   * was empty. On the list `[1]`, assigning `[2]` leaves `[1, 2]`.
   */
  lemma AssignAppends(c: seq<int>, vs: seq<int>)
    ensures c + vs == vs <==> c == []
  {
    if c != [] {
      assert |c + vs| > |vs|;
    }
  }

  /**
   * `splice(pos, other, it)` as written (`SpliceFrom`) moves the whole tail
   * of `other` from index `k` to index `r` of this list; the standard moves
   * the one element (`SpliceOne`). Both lists come out the same exactly
   * when `it` is the last element of `other`.
   */
  lemma SpliceFromMovesTail(e: seq<nat>, r: nat, oe: seq<nat>, k: nat)
    requires r <= |e| && k < |oe|
    ensures e[..r] + oe[k..] + e[r..] == e[..r] + [oe[k]] + e[r..] <==> k + 1 == |oe|
    ensures oe[..k] == oe[..k] + oe[k + 1..] <==> k + 1 == |oe|
  {
    if k + 1 == |oe| {
      assert oe[k..] == [oe[k]];
      assert oe[k + 1..] == [];
    } else {
      assert |e[..r] + oe[k..] + e[r..]| != |e[..r] + [oe[k]] + e[r..]|;
      assert |oe[..k] + oe[k + 1..]| != |oe[..k]|;
    }
  }

  /** Slot `x` has exchanged its `prev` and `next`. */
  ghost predicate Swapped(p0: seq<nat>, n0: seq<nat>, p1: seq<nat>, n1: seq<nat>, x: nat) {
    x < |p0| && x < |n0| && x < |p1| && x < |n1| && p1[x] == n0[x] && n1[x] == p0[x]
  }

  /** Slot `x` has kept its `prev` and `next`. */
  ghost predicate Unmoved(p0: seq<nat>, n0: seq<nat>, p1: seq<nat>, n1: seq<nat>, x: nat) {
    x < |p0| && x < |n0| && x < |p1| && x < |n1| && p1[x] == p0[x] && n1[x] == n0[x]
  }

  /**
   * `reverse` on the ring `c` after its first `k + 1` rounds: the sentinel
   * `c[0]` and the last `k` members are turned, nothing else is.
   */
  ghost predicate TurnedUpTo(p0: seq<nat>, n0: seq<nat>, p1: seq<nat>, n1: seq<nat>, c: seq<nat>, k: nat) {
    k < |c| && |p1| == |p0| && |n1| == |n0|
    && (forall j :: 0 <= j < |c| && (j == 0 || |c| - k <= j) ==> Swapped(p0, n0, p1, n1, c[j]))
    && (forall j :: 0 < j < |c| - k ==> Unmoved(p0, n0, p1, n1, c[j]))
    && (forall x :: 0 <= x < |p0| && x !in c ==> Unmoved(p0, n0, p1, n1, x))
  }

  /** A round of `reverse` turns the member before the turned ones. */
  lemma TurnOne(p0: seq<nat>, n0: seq<nat>, p1: seq<nat>, n1: seq<nat>, c: seq<nat>, k: nat)
    requires TurnedUpTo(p0, n0, p1, n1, c, k) && Distinct(c) && k + 1 < |c|
    ensures var it := c[|c| - 1 - k];
      it < |p1| && it < |n1| && TurnedUpTo(p0, n0, p1[it := n1[it]], n1[it := p1[it]], c, k + 1)
  {
    var it := c[|c| - 1 - k];
    assert Unmoved(p0, n0, p1, n1, it);
  }

  /** Exchanging `prev` and `next` of every slot of a ring gives the ring in the opposite order. */
  lemma ReverseRing(p0: seq<nat>, n0: seq<nat>, h: nat, e: seq<nat>, p1: seq<nat>, n1: seq<nat>)
    requires Linked(p0, n0, [h] + e) && TurnedUpTo(p0, n0, p1, n1, [h] + e, |e|)
    ensures Linked(p1, n1, [h] + Reversed(e))
  {
    var c := [h] + e;
    var r := [h] + Reversed(e);
    TurnedFrom(p0, n0, h, e);
    forall j | 0 <= j < |r| ensures Swapped(p0, n0, p1, n1, r[j]) {
      if j > 0 {
        ReversedAt(h, e, Reversed(e), j);
        assert Swapped(p0, n0, p1, n1, c[|c| - j]);
      } else {
        assert Swapped(p0, n0, p1, n1, c[0]);
      }
    }
    Reframe(n0, p0, p1, n1, r);
  }

  /** Member `j` of the turned ring `[h] + r`, past the sentinel, is member `|e| + 1 - j` of the ring `[h] + e`. */
  lemma ReversedAt(h: nat, e: seq<nat>, r: seq<nat>, j: nat)
    requires |r| == |e| && (forall i :: 0 <= i < |e| ==> r[i] == e[|e| - 1 - i]) && 0 < j <= |e|
    ensures ([h] + r)[j] == ([h] + e)[|e| + 1 - j]
  {
    assert ([h] + r)[j] == r[j - 1];
    assert ([h] + e)[|e| + 1 - j] == e[|e| - j];
  }

  /**
   * Exchanging `prev` and `next` of every slot of a ring, and of no other
   * slot, reverses the list and owns only its ring.
   */
  lemma ReverseLinks(p0: seq<nat>, n0: seq<nat>, d0: map<nat, int>, h: nat, e: seq<nat>, p1: seq<nat>, n1: seq<nat>)
    requires ListOk(p0, n0, d0, h, e) && TurnedUpTo(p0, n0, p1, n1, [h] + e, |e|)
    ensures ListOk(p1, n1, d0, h, Reversed(e)) && Keeps(p0, n0, d0, p1, n1, d0, [h] + e)
    ensures Values(d0, Reversed(e)) == Reversed(Values(d0, e))
  {
    ReverseRing(p0, n0, h, e, p1, n1);
    DistinctReversed(e);
    ValuesReversed(d0, e);
  }

  /** A list none of whose slots an operation owned is still a list, with the same values. */
  lemma ListKept(p0: seq<nat>, n0: seq<nat>, d0: map<nat, int>, p1: seq<nat>, n1: seq<nat>, d1: map<nat, int>,
                 own: seq<nat>, h: nat, e: seq<nat>)
    requires ListOk(p0, n0, d0, h, e) && Keeps(p0, n0, d0, p1, n1, d1, own)
    requires forall x :: x in [h] + e ==> x !in own
    ensures ListOk(p1, n1, d1, h, e) && Values(d1, e) == Values(d0, e)
  {
    var c := [h] + e;
    assert forall j :: 0 <= j < |c| ==> c[j] in c;
    Untouched(p0, n0, d0, p1, n1, d1, own, c);
    forall j | 0 <= j < |e| ensures e[j] in d1 && d1[e[j]] == d0[e[j]] {
      assert e[j] == c[j + 1];
    }
    ValuesFrame(d0, d1, e);
  }

  /**
   * The state in the middle of `sort`: the list with sentinel `h` is empty,
   * its elements `e0` are shared out between the lists `lh` and `rh`, all
   * three rings are apart, and only slots of the list and the two new
   * sentinels have changed.
   */
  ghost predicate Halved(p: seq<nat>, n: seq<nat>, d: map<nat, int>, h: nat, lh: nat, le: seq<nat>, rh: nat, re: seq<nat>,
                         p0: seq<nat>, n0: seq<nat>, d0: map<nat, int>, e0: seq<nat>) {
    ListOk(p, n, d, h, []) && ListOk(p, n, d, lh, le) && ListOk(p, n, d, rh, re)
    && Distinct([h] + ([lh] + le) + ([rh] + re))
    && d == d0 && |n0| <= lh && |n0| <= rh && multiset(le) + multiset(re) == multiset(e0)
    && Keeps(p0, n0, d0, p, n, d, [h] + e0)
  }

  /** Sorting the list `lh` in the middle of `sort` rearranges its elements and disturbs nothing else. */
  lemma ResortLeft(p1: seq<nat>, n1: seq<nat>, h: nat, lh: nat, le: seq<nat>, rh: nat, re: seq<nat>,
                   p0: seq<nat>, n0: seq<nat>, d0: map<nat, int>, e0: seq<nat>, p2: seq<nat>, n2: seq<nat>, le': seq<nat>)
    requires Halved(p1, n1, d0, h, lh, le, rh, re, p0, n0, d0, e0)
    requires ListOk(p2, n2, d0, lh, le') && Keeps(p1, n1, d0, p2, n2, d0, [lh] + le) && multiset(le') == multiset(le)
    ensures Halved(p2, n2, d0, h, lh, le', rh, re, p0, n0, d0, e0)
  {
    var a, b, c := [h], [lh] + le, [rh] + re;
    DistinctParts(a + b, c);
    DistinctParts(a, b);
    DistinctApart(a, b);
    DistinctApart(a + b, c);
    ListKept(p1, n1, d0, p2, n2, d0, b, h, []);
    ListKept(p1, n1, d0, p2, n2, d0, b, rh, re);
    DistinctPerm(a + b + c, a + ([lh] + le') + c);
    forall x | x in b && x < |n0| ensures x in [h] + e0 {
      if x != lh {
        assert x in multiset(e0);
      }
    }
    KeepsTrans(p0, n0, d0, p1, n1, d0, p2, n2, d0, [h] + e0, b);
  }

  /** Sorting the list `rh` in the middle of `sort` rearranges its elements and disturbs nothing else. */
  lemma ResortRight(p1: seq<nat>, n1: seq<nat>, h: nat, lh: nat, le: seq<nat>, rh: nat, re: seq<nat>,
                    p0: seq<nat>, n0: seq<nat>, d0: map<nat, int>, e0: seq<nat>, p2: seq<nat>, n2: seq<nat>, re': seq<nat>)
    requires Halved(p1, n1, d0, h, lh, le, rh, re, p0, n0, d0, e0)
    requires ListOk(p2, n2, d0, rh, re') && Keeps(p1, n1, d0, p2, n2, d0, [rh] + re) && multiset(re') == multiset(re)
    ensures Halved(p2, n2, d0, h, lh, le, rh, re', p0, n0, d0, e0)
  {
    var a, b, c := [h], [lh] + le, [rh] + re;
    DistinctApart(a + b, c);
    DistinctParts(a + b, c);
    ListKept(p1, n1, d0, p2, n2, d0, c, h, []);
    ListKept(p1, n1, d0, p2, n2, d0, c, lh, le);
    DistinctPerm(a + b + c, a + b + ([rh] + re'));
    forall x | x in c && x < |n0| ensures x in [h] + e0 {
      if x != rh {
        assert x in multiset(e0);
      }
    }
    KeepsTrans(p0, n0, d0, p1, n1, d0, p2, n2, d0, [h] + e0, c);
  }

  /** After `left.merge(right)` in `sort`: the merged run is sorted and holds the nodes of both halves. */
  lemma MergedRun(d0: map<nat, int>, sl: seq<nat>, sr: seq<nat>, e0: seq<nat>, d4: map<nat, int>, me: seq<nat>)
    requires (forall i :: 0 <= i < |sl| ==> sl[i] in d0) && (forall i :: 0 <= i < |sr| ==> sr[i] in d0)
    requires d4 == d0 && me == MergeBy(d0, sl, sr) && Sorted(Values(d0, sl)) && Sorted(Values(d0, sr))
    requires multiset(sl) + multiset(sr) == multiset(e0)
    ensures Sorted(Values(d4, me)) && multiset(me) == multiset(e0)
    ensures multiset(Values(d4, me)) == multiset(Values(d0, sl)) + multiset(Values(d0, sr))
  {
    MergeBySorted(d0, sl, sr);
    MergeByPermutation(d0, sl, sr);
    MergeByValues(d0, sl, sr);
  }

  /**
   * After `left.merge(right)` in `sort`: nothing outside the original list
   * moved, and the ring `lr` of `left` lies apart from the ring `r` of the
   * emptied list.
   */
  lemma Merged(p3: seq<nat>, n3: seq<nat>, h: nat, lh: nat, sl: seq<nat>, rh: nat, sr: seq<nat>,
               p0: seq<nat>, n0: seq<nat>, d0: map<nat, int>, e0: seq<nat>,
               p4: seq<nat>, n4: seq<nat>, d4: map<nat, int>, e: seq<nat>, me: seq<nat>, r: seq<nat>, lr: seq<nat>)
    requires Halved(p3, n3, d0, h, lh, sl, rh, sr, p0, n0, d0, e0) && ListOk(p0, n0, d0, h, e0) && e == []
    requires d4 == d0 && Keeps(p3, n3, d0, p4, n4, d4, [lh] + sl + ([rh] + sr)) && ListOk(p4, n4, d4, lh, me)
    requires multiset(me) == multiset(e0) && r == [h] + e && lr == [lh] + me
    ensures ListOk(p4, n4, d4, h, e) && Keeps(p0, n0, d0, p4, n4, d4, [h] + e0) && Distinct(r + lr)
  {
    MergedFrame(p3, n3, h, lh, sl, rh, sr, p0, n0, d0, e0, p4, n4);
    MergedNodes(h, lh, me, e0);
    assert r + lr == [h] + ([lh] + me);
  }

  /** The final splice of `sort` moves the merged run back and disturbs nothing outside the original list. */
  lemma MergedBack(p0: seq<nat>, n0: seq<nat>, d0: map<nat, int>, e0: seq<nat>, p4: seq<nat>, n4: seq<nat>,
                   p5: seq<nat>, n5: seq<nat>, d5: map<nat, int>, h: nat, lh: nat, me: seq<nat>, r: seq<nat>, lr: seq<nat>)
    requires ListOk(p0, n0, d0, h, e0) && |n0| <= lh && lh !in me && Distinct(me) && multiset(me) == multiset(e0)
    requires Keeps(p0, n0, d0, p4, n4, d0, [h] + e0) && Keeps(p4, n4, d0, p5, n5, d5, r + lr)
    requires r == [h] && lr == [lh] + me
    ensures Keeps(p0, n0, d0, p5, n5, d5, [h] + e0)
  {
    MergedNodes(h, lh, me, e0);
    assert r + lr == [h] + ([lh] + me);
    KeepsTrans(p0, n0, d0, p4, n4, d0, p5, n5, d5, [h] + e0, r + lr);
  }

  lemma HalvesApart(h: nat, lh: nat, le: seq<nat>, rh: nat, re: seq<nat>)
    requires Distinct([h] + ([lh] + le) + ([rh] + re))
    ensures Distinct(([lh] + le) + ([rh] + re))
  {
    assert [h] + ([lh] + le) + ([rh] + re) == [h] + (([lh] + le) + ([rh] + re));
    DistinctParts([h], ([lh] + le) + ([rh] + re));
  }

  lemma MergedNodes(h: nat, lh: nat, me: seq<nat>, e0: seq<nat>)
    requires lh !in me && Distinct(me) && h != lh && h !in e0 && lh !in e0
    requires multiset(me) == multiset(e0)
    ensures Distinct([h] + ([lh] + me))
    ensures forall x :: x in [h] + ([lh] + me) && x != lh ==> x in [h] + e0
  {
    forall x | x in me ensures x in e0 {
      assert x in multiset(me);
    }
    DistinctCons(lh, me);
    DistinctCons(h, [lh] + me);
  }

  /** The frame of the first half of `sort` up to the merge: only slots of `h`'s list or new slots changed. */
  lemma MergedFrame(p1: seq<nat>, n1: seq<nat>, h: nat, lh: nat, le: seq<nat>, rh: nat, re: seq<nat>,
                    p0: seq<nat>, n0: seq<nat>, d0: map<nat, int>, e0: seq<nat>, p2: seq<nat>, n2: seq<nat>)
    requires Halved(p1, n1, d0, h, lh, le, rh, re, p0, n0, d0, e0)
    requires Keeps(p1, n1, d0, p2, n2, d0, [lh] + le + ([rh] + re))
    ensures ListOk(p2, n2, d0, h, []) && Keeps(p0, n0, d0, p2, n2, d0, [h] + e0)
  {
    var a, b, c := [h], [lh] + le, [rh] + re;
    assert a + b + c == a + (b + c);
    DistinctApart(a, b + c);
    ListKept(p1, n1, d0, p2, n2, d0, b + c, h, []);
    forall x | x in b + c && x < |n0| ensures x in [h] + e0 {
      if x != lh && x != rh {
        assert x in multiset(le) + multiset(re);
      }
    }
    KeepsTrans(p0, n0, d0, p1, n1, d0, p2, n2, d0, [h] + e0, b + c);
  }

  /** The two new sentinels of `sort` leave the list alone and are apart from it and from each other. */
  lemma HalveFresh(p0: seq<nat>, n0: seq<nat>, d0: map<nat, int>, e0: seq<nat>, p1: seq<nat>, n1: seq<nat>,
                   p2: seq<nat>, n2: seq<nat>, h: nat, lh: nat, rh: nat)
    requires ListOk(p0, n0, d0, h, e0) && Keeps(p0, n0, d0, p1, n1, d0, []) && Keeps(p1, n1, d0, p2, n2, d0, [])
    requires lh == |n0| && rh == |n1| == |n0| + 1
    ensures ListOk(p2, n2, d0, h, e0) && Keeps(p0, n0, d0, p2, n2, d0, [])
    ensures Distinct([lh] + ([h] + e0)) && Distinct([h] + e0 + [lh] + [rh])
  {
    ListKept(p0, n0, d0, p1, n1, d0, [], h, e0);
    ListKept(p1, n1, d0, p2, n2, d0, [], h, e0);
    KeepsTrans(p0, n0, d0, p1, n1, d0, p2, n2, d0, [], []);
    DistinctCons(h, e0);
    DistinctCons(lh, [h] + e0);
    DistinctFresh([h] + e0, lh);
    DistinctFresh([h] + e0 + [lh], rh);
  }

  /** The slots of the three lists after `sort`'s split are those before it, so they are still apart. */
  lemma HalveNodes(h: nat, e0: seq<nat>, lh: nat, rh: nat, m: nat)
    requires Distinct([h] + e0 + [lh] + [rh]) && m <= |e0|
    ensures Distinct([h] + ([lh] + e0[..m]) + ([rh] + e0[m..]))
    ensures forall x :: x in [lh] + e0[..m] ==> x !in [rh] + ([h] + e0[m..])
  {
    var l, r := e0[..m], e0[m..];
    assert e0 == l + r;
    var all := [h] + e0 + [lh] + [rh];
    var t := [h] + ([lh] + l) + ([rh] + r);
    assert multiset(all) == multiset{h} + multiset(l) + multiset(r) + multiset{lh} + multiset{rh};
    assert multiset(t) == multiset{h} + multiset{lh} + multiset(l) + multiset{rh} + multiset(r);
    DistinctPerm(all, t);
    DistinctParts([h] + ([lh] + l), [rh] + r);
    DistinctApart([h] + ([lh] + l), [rh] + r);
    DistinctApart([h], [lh] + l);
    forall x | x in [lh] + l
      ensures x !in [rh] + ([h] + r)
    {
      assert x in [h] + ([lh] + l) && x != h;
      assert x !in [rh] + r;
    }
  }

  /** Between the two splices of `sort`'s split: `right` is untouched and apart from what is left. */
  lemma HalveMid(p2: seq<nat>, n2: seq<nat>, d0: map<nat, int>, p3: seq<nat>, n3: seq<nat>,
                 h: nat, e0: seq<nat>, lh: nat, rh: nat, m: nat)
    requires Distinct([h] + e0 + [lh] + [rh]) && m <= |e0|
    requires ListOk(p2, n2, d0, rh, []) && Keeps(p2, n2, d0, p3, n3, d0, [lh] + ([h] + e0))
    ensures ListOk(p3, n3, d0, rh, []) && Distinct([rh] + ([h] + e0[m..]))
  {
    HalveNodes(h, e0, lh, rh, m);
    var t := [h] + ([lh] + e0[..m]) + ([rh] + e0[m..]);
    DistinctApart([h] + e0 + [lh], [rh]);
    ListKept(p2, n2, d0, p3, n3, d0, [lh] + ([h] + e0), rh, []);
    assert multiset([rh] + ([h] + e0[m..])) + multiset([lh] + e0[..m]) == multiset(t);
    DistinctPerm(t, [rh] + ([h] + e0[m..]) + ([lh] + e0[..m]));
    DistinctParts([rh] + ([h] + e0[m..]), [lh] + e0[..m]);
  }

  /** After the two splices of `sort`'s split, the lists are as `Halved` says. */
  lemma HalveEnd(p0: seq<nat>, n0: seq<nat>, d0: map<nat, int>, e0: seq<nat>, p2: seq<nat>, n2: seq<nat>,
                 p3: seq<nat>, n3: seq<nat>, p4: seq<nat>, n4: seq<nat>, d4: map<nat, int>,
                 h: nat, lh: nat, le: seq<nat>, rh: nat, re: seq<nat>, m: nat)
    requires ListOk(p0, n0, d0, h, e0) && m <= |e0| && Distinct([h] + e0 + [lh] + [rh]) && |n0| <= lh && |n0| <= rh
    requires d4 == d0 && le == e0[..m] && re == e0[m..]
    requires Keeps(p0, n0, d0, p2, n2, d0, [])
    requires Keeps(p2, n2, d0, p3, n3, d0, [lh] + ([h] + e0))
    requires Keeps(p3, n3, d0, p4, n4, d4, [rh] + ([h] + e0[m..]))
    requires ListOk(p4, n4, d4, h, []) && ListOk(p3, n3, d0, lh, le) && ListOk(p4, n4, d4, rh, re)
    ensures Halved(p4, n4, d4, h, lh, le, rh, re, p0, n0, d0, e0)
  {
    assert e0 == e0[..m] + e0[m..];
    HalveNodes(h, e0, lh, rh, m);
    ListKept(p3, n3, d0, p4, n4, d0, [rh] + ([h] + e0[m..]), lh, e0[..m]);
    SuffixOwned(h, e0, m);
    KeepsTrans(p0, n0, d0, p2, n2, d0, p3, n3, d0, [h] + e0, [lh] + ([h] + e0));
    KeepsTrans(p0, n0, d0, p3, n3, d0, p4, n4, d0, [h] + e0, [rh] + ([h] + e0[m..]));
  }

  class List {
    const mem: Memory
    const head: nat
    ghost var elems: seq<nat>

    /** The sentinel followed by the element slots: the ring `next` walks. */
    ghost function Ring(): seq<nat>
      reads this
    {
      [head] + elems
    }

    ghost predicate Valid()
      reads this, mem
    {
      ListOk(mem.prev, mem.next, mem.data, head, elems)
    }

    /** The values of the list, front to back. */
    ghost function Contents(): (r: seq<int>)
      reads this, mem
      requires Valid()
      ensures |r| == |elems|
    {
      Values(mem.data, elems)
    }

    /** The iterator at position `k`; position `|elems|` is `end()`. */
    ghost function At(k: nat): nat
      reads this
      requires k <= |elems|
    {
      if k < |elems| then elems[k] else head
    }

    /** The position of the iterator `pos`; `end()` is at `|elems|`. */
    ghost function Rank(pos: nat): (k: nat)
      reads this
      requires pos in Ring()
      ensures k <= |elems|
    {
      if pos == head then |elems| else IndexOf(elems, pos)
    }

    /** `other` is another list in the same memory: the two share no slot. */
    ghost predicate Apart(other: List)
      reads this, other
    {
      other.mem == mem && Distinct(Ring() + other.Ring())
    }

    constructor(m: Memory)
      requires |m.prev| == |m.next|
      modifies m
      ensures mem == m && head == old(|m.next|) && Valid() && elems == []
      ensures |m.next| == old(|m.next|) + 1 && m.data == old(m.data)
      ensures Keeps(old(m.prev), old(m.next), old(m.data), m.prev, m.next, m.data, [])
    {
      mem := m;
      var h := m.NewBase();
      head := h;
      elems := [];
    }

    /** Walking the ring: `++` from position `k` reaches position `k + 1`, and `--` from it reaches `k - 1`. */
    lemma Walk(k: nat)
      requires Valid() && k <= |elems|
      ensures At(k) == head <==> k == |elems|
      ensures k < |elems| ==> mem.next[At(k)] == At(k + 1)
      ensures At(k) == After(Ring(), k) && mem.prev[At(k)] == Ring()[k]
    {
      var c := Ring();
      if k < |elems| {
        assert c[k + 1] == elems[k];
        Neighbours(mem.prev, mem.next, c, k + 1);
        if k + 1 < |elems| {
          assert c[k + 2] == elems[k + 1];
        }
      } else {
        Neighbours(mem.prev, mem.next, c, 0);
      }
      if k < |elems| {
        assert c[0] != c[k + 1];
      }
    }

    /** The iterator `pos` sits at position `Rank(pos)`. */
    lemma Position(pos: nat)
      requires Valid() && pos in Ring()
      ensures pos == At(Rank(pos))
    {
      if pos != head {
        assert pos in elems;
      }
    }

    /** `++it` from an element reaches the next position; the range `[it, ++it)` is `it` alone. */
    lemma Successor(it: nat)
      requires Valid() && it in elems
      ensures it in Ring() && mem.next[it] in Ring() && Rank(mem.next[it]) == Rank(it) + 1
      ensures elems[Rank(it)..Rank(it) + 1] == [it]
    {
      var r := Rank(it);
      Position(it);
      Walk(r);
      Walk(r + 1);
      if r + 1 < |elems| {
        IndexOfDistinct(elems, r + 1);
      }
    }

    /** `insert(pos, v)` and `emplace(pos, v)`: a new node holding `v` in front of `pos`. */
    method Insert(pos: nat, v: int) returns (node: nat)
      requires Valid() && pos in Ring()
      modifies this, mem
      ensures Valid() && node == old(|mem.next|) && mem.data == old(mem.data)[node := v]
      ensures elems == old(elems[..Rank(pos)] + [node] + elems[Rank(pos)..])
      ensures Contents() == old(Contents()[..Rank(pos)] + [v] + Contents()[Rank(pos)..])
      ensures Keeps(old(mem.prev), old(mem.next), old(mem.data), mem.prev, mem.next, mem.data, old(Ring()))
    {
      ghost var p0, n0, d0, e, k := mem.prev, mem.next, mem.data, elems, Rank(pos);
      Position(pos);
      Walk(k);
      var before := mem.prev[pos];
      node := mem.NewNode(v);
      mem.Link(before, node);
      mem.Link(node, pos);
      elems := elems[..k] + [node] + elems[k..];
      InsertLinks(p0, n0, d0, head, e, k, v);
      InsertKeeps(p0, n0, d0, [head] + e, k, v);
      ValuesInsert(d0, node, v, e, k);
    }

    /** `erase(it)`: unlinks and frees the element `it`. */
    method Erase(it: nat)
      requires Valid() && it in elems
      modifies this, mem
      ensures Valid() && mem.data == old(mem.data) - {it}
      ensures elems == old(elems[..Rank(it)] + elems[Rank(it) + 1..])
      ensures Contents() == old(Contents()[..Rank(it)] + Contents()[Rank(it) + 1..])
      ensures Keeps(old(mem.prev), old(mem.next), old(mem.data), mem.prev, mem.next, mem.data, old(Ring()))
    {
      ghost var p0, n0, d0, e, k := mem.prev, mem.next, mem.data, elems, Rank(it);
      EraseLinks(p0, n0, d0, head, e, k);
      var a := mem.prev[it];
      var b := mem.next[it];
      mem.Link(a, b);
      mem.Free(it);
      elems := elems[..k] + elems[k + 1..];
    }

    /** `push_back(v)`: `insert(end(), v)`. */
    method PushBack(v: int)
      requires Valid()
      modifies this, mem
      ensures Valid() && Contents() == old(Contents()) + [v]
      ensures elems == old(elems) + [old(|mem.next|)]
      ensures Keeps(old(mem.prev), old(mem.next), old(mem.data), mem.prev, mem.next, mem.data, old(Ring()))
    {
      ghost var e, c := elems, Contents();
      var _ := Insert(head, v);
      PrefixAll(e, |e|);
      PrefixAll(c, |c|);
    }

    /** `emplace_back(v)`: as `push_back`, and yields the new element. */
    method EmplaceBack(v: int) returns (node: nat)
      requires Valid()
      modifies this, mem
      ensures Valid() && Contents() == old(Contents()) + [v]
      ensures elems == old(elems) + [node] && node !in old(Ring()) && mem.data[node] == v
      ensures Keeps(old(mem.prev), old(mem.next), old(mem.data), mem.prev, mem.next, mem.data, old(Ring()))
    {
      ghost var e, c := elems, Contents();
      node := Insert(head, v);
      PrefixAll(e, |e|);
      PrefixAll(c, |c|);
    }

    /** `push_front(v)`: `insert(begin(), v)`. */
    method PushFront(v: int)
      requires Valid()
      modifies this, mem
      ensures Valid() && Contents() == [v] + old(Contents())
      ensures elems == [old(|mem.next|)] + old(elems)
      ensures Keeps(old(mem.prev), old(mem.next), old(mem.data), mem.prev, mem.next, mem.data, old(Ring()))
    {
      Walk(0);
      ghost var e, c := elems, Contents();
      var _ := Insert(mem.next[head], v);
      PrefixNone(e);
      PrefixNone(c);
    }

    /** `emplace_front(v)`: as `push_front`, and yields the new element. */
    method EmplaceFront(v: int) returns (node: nat)
      requires Valid()
      modifies this, mem
      ensures Valid() && Contents() == [v] + old(Contents())
      ensures elems == [node] + old(elems) && node !in old(Ring()) && mem.data[node] == v
      ensures Keeps(old(mem.prev), old(mem.next), old(mem.data), mem.prev, mem.next, mem.data, old(Ring()))
    {
      Walk(0);
      ghost var e, c := elems, Contents();
      node := Insert(mem.next[head], v);
      PrefixNone(e);
      PrefixNone(c);
    }

    /** `pop_back()`: `erase(--end())`; the source leaves an empty list undefined. */
    method PopBack()
      requires Valid() && elems != []
      modifies this, mem
      ensures Valid() && Contents() == old(Contents()[..|Contents()| - 1])
      ensures elems == old(elems[..|elems| - 1]) && mem.data == old(mem.data) - {old(elems[|elems| - 1])}
      ensures Keeps(old(mem.prev), old(mem.next), old(mem.data), mem.prev, mem.next, mem.data, old(Ring()))
    {
      Walk(|elems|);
      IndexOfDistinct(elems, |elems| - 1);
      Erase(mem.prev[head]);
    }

    /** `pop_front()`: `erase(begin())`; the source leaves an empty list undefined. */
    method PopFront()
      requires Valid() && elems != []
      modifies this, mem
      ensures Valid() && Contents() == old(Contents()[1..])
      ensures elems == old(elems[1..]) && mem.data == old(mem.data) - {old(elems[0])}
      ensures Keeps(old(mem.prev), old(mem.next), old(mem.data), mem.prev, mem.next, mem.data, old(Ring()))
    {
      Walk(0);
      IndexOfDistinct(elems, 0);
      Erase(mem.next[head]);
    }

    /** `front()`: the first value; the source leaves an empty list undefined. */
    function Front(): (r: int)
      reads this, mem
      requires Valid() && elems != []
      ensures r == Contents()[0]
    {
      Walk(0);
      mem.data[mem.next[head]]
    }

    /** `back()`: `*(--end())`, the last value; the source leaves an empty list undefined. */
    function Back(): (r: int)
      reads this, mem
      requires Valid() && elems != []
      ensures r == Contents()[|Contents()| - 1]
    {
      Walk(|elems|);
      mem.data[mem.prev[head]]
    }

    /** `empty()`: `begin() == end()`. */
    function Empty(): (r: bool)
      reads this, mem
      requires Valid()
      ensures r <==> Contents() == []
    {
      Walk(0);
      mem.next[head] == head
    }

    /** `size()`: counts the steps from `begin()` to `end()`. */
    method Size() returns (n: nat)
      requires Valid()
      ensures n == |Contents()|
    {
      n := 0;
      var it := mem.next[head];
      Walk(0);
      while it != head
        invariant n <= |elems| && it == At(n)
        decreases |elems| - n
      {
        Walk(n);
        it := mem.next[it];
        n := n + 1;
        Walk(n);
      }
    }

    /** Iterating from `begin()` to `end()`, as a range-`for` over the list does. */
    method Elements() returns (s: seq<int>)
      requires Valid()
      ensures s == Contents()
    {
      s := [];
      var it := mem.next[head];
      Walk(0);
      while it != head
        invariant |s| <= |elems| && it == At(|s|) && s == Contents()[..|s|]
        decreases |elems| - |s|
      {
        Walk(|s|);
        PrefixStep(Contents(), |s|);
        s := s + [mem.data[it]];
        it := mem.next[it];
        Walk(|s|);
      }
      PrefixAll(Contents(), |s|);
    }

    /** `clear()`: erases `begin()` until the list is empty. */
    method Clear()
      requires Valid()
      modifies this, mem
      ensures Valid() && elems == [] && Contents() == []
      ensures Keeps(old(mem.prev), old(mem.next), old(mem.data), mem.prev, mem.next, mem.data, old(Ring()))
    {
      ghost var p0, n0, d0, e := mem.prev, mem.next, mem.data, elems;
      ghost var n := 0;
      Walk(0);
      while mem.next[head] != head
        invariant Valid() && n <= |e| && elems == e[n..]
        invariant Keeps(p0, n0, d0, mem.prev, mem.next, mem.data, [head] + e)
        decreases |elems|
      {
        Walk(0);
        ghost var p1, n1, d1 := mem.prev, mem.next, mem.data;
        PopFront();
        assert elems == e[n + 1..];
        SuffixOwned(head, e, n);
        KeepsTrans(p0, n0, d0, p1, n1, d1, mem.prev, mem.next, mem.data, [head] + e, [head] + e[n..]);
        n := n + 1;
        Walk(0);
      }
      Walk(0);
    }

    /** What a run of `push_back`s keeps: the list is its old slots `e` followed by the fresh slots `added`, holding the first values of `vs`. */
    ghost predicate Appended(p0: seq<nat>, n0: seq<nat>, d0: map<nat, int>, e: seq<nat>, c: seq<int>, added: seq<nat>,
                             vs: seq<int>)
      reads this, mem
    {
      Valid() && elems == e + added && |added| <= |vs| && Contents() == c + vs[..|added|]
      && (forall j :: 0 <= j < |added| ==> added[j] >= |n0|)
      && Keeps(p0, n0, d0, mem.prev, mem.next, mem.data, [head] + e)
    }

    /** One `push_back` of a run: the next value of `vs`. */
    method PushBackStep(ghost p0: seq<nat>, ghost n0: seq<nat>, ghost d0: map<nat, int>, ghost e: seq<nat>,
                        ghost c: seq<int>, ghost added: seq<nat>, vs: seq<int>, i: nat) returns (ghost added': seq<nat>)
      requires Appended(p0, n0, d0, e, c, added, vs) && i == |added| < |vs|
      modifies this, mem
      ensures Appended(p0, n0, d0, e, c, added', vs) && |added'| == |added| + 1
    {
      ghost var p1, n1, d1 := mem.prev, mem.next, mem.data;
      PrefixStep(vs, i);
      assert c + vs[..i + 1] == c + vs[..i] + [vs[i]];
      PushBack(vs[i]);
      FreshOwned(head, e, added, |n0|);
      KeepsTrans(p0, n0, d0, p1, n1, d1, mem.prev, mem.next, mem.data, [head] + e, [head] + (e + added));
      added' := added + [|n1|];
    }

    /**
     * `list = ilist`: pushes each value of `vs` at the back, one
     * `push_back` at a time, without clearing the list first (see
     * `AssignInit` for the assignment that was evidently meant). The
     * constructors from a range or an initializer list run the same loop on
     * an empty list.
     */
    method AppendAll(vs: seq<int>)
      requires Valid()
      modifies this, mem
      ensures Valid() && Contents() == old(Contents()) + vs
      ensures Keeps(old(mem.prev), old(mem.next), old(mem.data), mem.prev, mem.next, mem.data, old(Ring()))
    {
      ghost var p0, n0, d0, e, c := mem.prev, mem.next, mem.data, elems, Contents();
      ghost var added: seq<nat> := [];
      assert elems == e + added;
      var i := 0;
      while i < |vs|
        invariant i <= |vs| && |added| == i && Appended(p0, n0, d0, e, c, added, vs)
      {
        added := PushBackStep(p0, n0, d0, e, c, added, vs, i);
        i := i + 1;
      }
      assert vs[..|vs|] == vs;
    }

    /** Pushes `n` copies of `v` at the back: the loop of `list(count, value)` and of `resize`. */
    method PushBackCopies(n: nat, v: int)
      requires Valid()
      modifies this, mem
      ensures Valid() && Contents() == old(Contents()) + Repeat(n, v)
      ensures Keeps(old(mem.prev), old(mem.next), old(mem.data), mem.prev, mem.next, mem.data, old(Ring()))
    {
      AppendAll(Repeat(n, v));
    }

    /** What `PopBackTimes` keeps: the list is a prefix of its old slots `e`. */
    ghost predicate Truncated(p0: seq<nat>, n0: seq<nat>, d0: map<nat, int>, e: seq<nat>, c: seq<int>)
      reads this, mem
    {
      Valid() && |elems| <= |e| && |e| == |c| && elems == e[..|elems|] && Contents() == c[..|elems|]
      && Keeps(p0, n0, d0, mem.prev, mem.next, mem.data, [head] + e)
    }

    /** Before `PopBackTimes` pops anything, the list is its own untruncated self. */
    lemma TruncatedStart()
      requires Valid()
      ensures Truncated(mem.prev, mem.next, mem.data, elems, Contents())
    {
      PrefixAll(Contents(), |elems|);
      PrefixAll(elems, |elems|);
    }

    /** One `pop_back()` of `PopBackTimes`. */
    method PopBackStep(ghost p0: seq<nat>, ghost n0: seq<nat>, ghost d0: map<nat, int>, ghost e: seq<nat>, ghost c: seq<int>)
      requires Truncated(p0, n0, d0, e, c) && elems != []
      modifies this, mem
      ensures Truncated(p0, n0, d0, e, c) && |elems| == old(|elems|) - 1
    {
      ghost var p1, n1, d1, m := mem.prev, mem.next, mem.data, |elems|;
      PopBack();
      PrefixOwned(head, e, m);
      KeepsTrans(p0, n0, d0, p1, n1, d1, mem.prev, mem.next, mem.data, [head] + e, [head] + e[..m]);
    }

    /** Pops `n` elements from the back, one `pop_back` at a time. */
    method PopBackTimes(n: nat)
      requires Valid() && n <= |elems|
      modifies this, mem
      ensures Valid() && elems == old(elems[..|elems| - n]) && Contents() == old(Contents()[..|elems| - n])
      ensures Keeps(old(mem.prev), old(mem.next), old(mem.data), mem.prev, mem.next, mem.data, old(Ring()))
    {
      ghost var p0, n0, d0, e, c := mem.prev, mem.next, mem.data, elems, Contents();
      TruncatedStart();
      var i := n;
      while i > 0
        invariant 0 <= i <= n && |elems| == |e| - n + i && Truncated(p0, n0, d0, e, c)
      {
        PopBackStep(p0, n0, d0, e, c);
        i := i - 1;
      }
      TruncatedEnd(p0, n0, d0, e, c, |e| - n);
    }

    /** Once `PopBackTimes` stops, the list is the first `k` of its old slots and values. */
    lemma TruncatedEnd(p0: seq<nat>, n0: seq<nat>, d0: map<nat, int>, e: seq<nat>, c: seq<int>, k: nat)
      requires Truncated(p0, n0, d0, e, c) && |elems| == k
      ensures Valid() && elems == e[..k] && Contents() == c[..k]
      ensures Keeps(p0, n0, d0, mem.prev, mem.next, mem.data, [head] + e)
    {
    }

    /** `resize(count, value)`: pops from the back, or pushes copies of `value`, until `count` elements remain. */
    method Resize(count: nat, v: int)
      requires Valid()
      modifies this, mem
      ensures Valid()
      ensures count <= old(|elems|) ==> Contents() == old(Contents()[..count]) && elems == old(elems[..count])
      ensures count > old(|elems|) ==> Contents() == old(Contents()) + Repeat(count - old(|elems|), v)
      ensures Keeps(old(mem.prev), old(mem.next), old(mem.data), mem.prev, mem.next, mem.data, old(Ring()))
    {
      var sz := Size();
      if sz == count {
        PrefixAll(Contents(), sz);
        PrefixAll(elems, sz);
      } else if sz < count {
        PushBackCopies(count - sz, v);
      } else {
        PopBackTimes(sz - count);
      }
    }

    /** Two lists that share no slot are two objects. */
    lemma ApartObjects(other: List)
      requires Apart(other)
      ensures this != other && head != other.head
    {
      DistinctParts(Ring(), other.Ring());
      assert Ring()[0] == head && other.Ring()[0] == other.head;
    }

    /** What `Relink` needs to know about the slots it reads, and the state it leaves. */
    lemma RelinkFacts(pos: nat, other: List, first: nat, last: nat)
      requires Valid() && other.Valid() && Apart(other)
      requires pos in Ring() && first in other.Ring() && last in other.Ring()
      requires other.Rank(first) < other.Rank(last)
      ensures this != other
      ensures first < |mem.prev| && last < |mem.prev| && pos < |mem.prev| && mem.prev[first] < |mem.next| && mem.prev[last] < |mem.next|
      ensures mem.prev[last := mem.prev[first]][pos] < |mem.next|
      ensures var p0, n0, d0 := mem.prev, mem.next, mem.data;
        var fin := p0[last];
        var n1, p1 := n0[p0[first] := last], p0[last := p0[first]];
        var n2, p2 := n1[p1[pos] := first], p1[first := p1[pos]];
        var n3, p3 := n2[fin := pos], p2[pos := fin];
        var k, a, b := Rank(pos), other.Rank(first), other.Rank(last);
        var e', oe' := elems[..k] + other.elems[a..b] + elems[k..], other.elems[..a] + other.elems[b..];
        ListOk(p3, n3, d0, head, e') && ListOk(p3, n3, d0, other.head, oe') && Distinct([head] + e' + ([other.head] + oe'))
        && multiset([head] + e' + ([other.head] + oe')) == multiset(Ring() + other.Ring())
        && Keeps(p0, n0, d0, p3, n3, d0, Ring() + other.Ring())
    {
      var k, a, b := Rank(pos), other.Rank(first), other.Rank(last);
      ApartObjects(other);
      Position(pos);
      other.Position(first);
      other.Position(last);
      Walk(k);
      other.Walk(a);
      other.Walk(b);
      SpliceState(mem.prev, mem.next, mem.data, head, elems, other.head, other.elems, k, a, b, pos, first, last);
    }

    /**
     * The three `link_` calls of `splice`, for a range `[first, last)` of
     * `other` that holds at least one element.
     */
    method Relink(pos: nat, other: List, first: nat, last: nat)
      requires Valid() && other.Valid() && Apart(other)
      requires pos in Ring() && first in other.Ring() && last in other.Ring()
      requires other.Rank(first) < other.Rank(last)
      modifies this, other, mem
      ensures Valid() && other.Valid() && Apart(other) && mem.data == old(mem.data)
      ensures elems == old(elems[..Rank(pos)] + other.elems[other.Rank(first)..other.Rank(last)] + elems[Rank(pos)..])
      ensures other.elems == old(other.elems[..other.Rank(first)] + other.elems[other.Rank(last)..])
      ensures multiset(Ring() + other.Ring()) == old(multiset(Ring() + other.Ring()))
      ensures Keeps(old(mem.prev), old(mem.next), old(mem.data), mem.prev, mem.next, mem.data, old(Ring() + other.Ring()))
    {
      ghost var e, oe := elems, other.elems;
      ghost var k, a, b := Rank(pos), other.Rank(first), other.Rank(last);
      RelinkFacts(pos, other, first, last);
      var fin := mem.prev[last];
      mem.Link(mem.prev[first], last);
      mem.Link(mem.prev[pos], first);
      mem.Link(fin, pos);
      elems := e[..k] + oe[a..b] + e[k..];
      other.elems := oe[..a] + oe[b..];
    }

    /** What `MoveWithin` needs to know about the slots it reads, and the state it leaves. */
    lemma MoveFacts(pos: nat, first: nat, last: nat)
      requires Valid() && pos in Ring() && first in Ring() && last in Ring()
      requires Rank(first) < Rank(last) && (Rank(pos) < Rank(first) || Rank(last) <= Rank(pos))
      ensures first < |mem.prev| && last < |mem.prev| && pos < |mem.prev| && mem.prev[first] < |mem.next| && mem.prev[last] < |mem.next|
      ensures mem.prev[last := mem.prev[first]][pos] < |mem.next|
      ensures var p0, n0, d0 := mem.prev, mem.next, mem.data;
        var fin := p0[last];
        var n1, p1 := n0[p0[first] := last], p0[last := p0[first]];
        var n2, p2 := n1[p1[pos] := first], p1[first := p1[pos]];
        var n3, p3 := n2[fin := pos], p2[pos := fin];
        ListOk(p3, n3, d0, head, Moved<nat>(elems, Rank(pos), Rank(first), Rank(last)))
        && Keeps(p0, n0, d0, p3, n3, d0, Ring())
    {
      var k, a, b := Rank(pos), Rank(first), Rank(last);
      Position(pos);
      Position(first);
      Position(last);
      Walk(k);
      Walk(a);
      Walk(b);
      MoveState(mem.prev, mem.next, mem.data, head, elems, k, a, b, pos, first, last);
    }

    /**
     * The three `link_` calls of `splice` for a range `[first, last)` of
     * this list that holds at least one element, with `pos` outside it.
     */
    method MoveWithin(pos: nat, first: nat, last: nat)
      requires Valid() && pos in Ring() && first in Ring() && last in Ring()
      requires Rank(first) < Rank(last) && (Rank(pos) < Rank(first) || Rank(last) <= Rank(pos))
      modifies this, mem
      ensures Valid() && mem.data == old(mem.data)
      ensures elems == old(Moved<nat>(elems, Rank(pos), Rank(first), Rank(last)))
      ensures Keeps(old(mem.prev), old(mem.next), old(mem.data), mem.prev, mem.next, mem.data, old(Ring()))
    {
      ghost var e := elems;
      ghost var k, a, b := Rank(pos), Rank(first), Rank(last);
      MoveFacts(pos, first, last);
      var fin := mem.prev[last];
      mem.Link(mem.prev[first], last);
      mem.Link(mem.prev[pos], first);
      mem.Link(fin, pos);
      elems := Moved<nat>(e, k, a, b);
    }

    /**
     * `splice(pos, other, first, last)`: moves the elements `[first, last)`
     * of `other` in front of `pos`, by relinking; values stay in their
     * nodes. `other` may be this list, with `pos` outside the range; the
     * block then moves within the list. An empty range moves nothing (see
     * `SpliceAsWritten` for what the source does then).
     */
    method Splice(pos: nat, other: List, first: nat, last: nat)
      requires Valid() && other.Valid() && (other == this || Apart(other))
      requires pos in Ring() && first in other.Ring() && last in other.Ring()
      requires other.Rank(first) <= other.Rank(last)
      requires other == this ==> Rank(pos) < Rank(first) || Rank(last) <= Rank(pos)
      modifies this, other, mem
      ensures Valid() && other.Valid() && mem.data == old(mem.data)
      ensures other != this ==> Apart(other)
      ensures other != this ==> elems == old(elems[..Rank(pos)] + other.elems[other.Rank(first)..other.Rank(last)] + elems[Rank(pos)..])
      ensures other != this ==> other.elems == old(other.elems[..other.Rank(first)] + other.elems[other.Rank(last)..])
      ensures other != this ==> Contents() == old(Contents()[..Rank(pos)] + other.Contents()[other.Rank(first)..other.Rank(last)] + Contents()[Rank(pos)..])
      ensures other != this ==> other.Contents() == old(other.Contents()[..other.Rank(first)] + other.Contents()[other.Rank(last)..])
      ensures other == this ==> elems == old(Moved<nat>(elems, Rank(pos), Rank(first), Rank(last)))
      ensures other == this ==> Contents() == old(Moved(Contents(), Rank(pos), Rank(first), Rank(last)))
      ensures multiset(Ring() + other.Ring()) == old(multiset(Ring() + other.Ring()))
      ensures Keeps(old(mem.prev), old(mem.next), old(mem.data), mem.prev, mem.next, mem.data, old(Ring() + other.Ring()))
    {
      ghost var d0, e, oe := mem.data, elems, other.elems;
      ghost var k, a, b := Rank(pos), other.Rank(first), other.Rank(last);
      if other == this {
        ValuesMoved(d0, e, k, a, b);
        if first == last {
          MovedNothing(e, k, a, b);
          MovedNothing(Contents(), k, a, b);
          return;
        }
        MoveWithin(pos, first, last);
        return;
      }
      ApartObjects(other);
      ValuesSpliceIn(d0, e, oe, k, a, b);
      ValuesSpliceOut(d0, oe, a, b);
      if first == last {
        SpliceNothing(e, oe, k, a);
        return;
      }
      Relink(pos, other, first, last);
    }

    /** `splice(pos, other)`: moves every element of `other` in front of `pos`. */
    method SpliceAll(pos: nat, other: List)
      requires Valid() && other.Valid() && Apart(other) && pos in Ring()
      modifies this, other, mem
      ensures Valid() && other.Valid() && Apart(other) && mem.data == old(mem.data)
      ensures elems == old(elems[..Rank(pos)] + other.elems + elems[Rank(pos)..]) && other.elems == []
      ensures Contents() == old(Contents()[..Rank(pos)] + other.Contents() + Contents()[Rank(pos)..])
      ensures multiset(Ring() + other.Ring()) == old(multiset(Ring() + other.Ring()))
      ensures Keeps(old(mem.prev), old(mem.next), old(mem.data), mem.prev, mem.next, mem.data, old(Ring() + other.Ring()))
    {
      other.Walk(0);
      PrefixAll(other.elems, |other.elems|);
      PrefixAll(other.Contents(), |other.elems|);
      PrefixNone(other.elems);
      PrefixNone(other.Contents());
      ApartObjects(other);
      Splice(pos, other, other.mem.next[other.head], other.head);
    }

    /**
     * `splice(pos, other, it)` as the source writes it: forwards to
     * `splice(pos, other, it, other.cend())`, so it moves `it` and every
     * element after it, not `it` alone (see `SpliceOne`). Within one list
     * `pos` must lie outside that range.
     */
    method SpliceFrom(pos: nat, other: List, it: nat)
      requires Valid() && other.Valid() && (other == this || Apart(other)) && pos in Ring() && it in other.Ring()
      requires other == this ==> Rank(pos) < Rank(it) || pos == head
      modifies this, other, mem
      ensures Valid() && other.Valid() && mem.data == old(mem.data)
      ensures other != this ==> Apart(other)
      ensures other != this ==> elems == old(elems[..Rank(pos)] + other.elems[other.Rank(it)..] + elems[Rank(pos)..])
      ensures other != this ==> other.elems == old(other.elems[..other.Rank(it)])
      ensures other == this ==> elems == old(Moved<nat>(elems, Rank(pos), Rank(it), |elems|))
      ensures multiset(Ring() + other.Ring()) == old(multiset(Ring() + other.Ring()))
      ensures Keeps(old(mem.prev), old(mem.next), old(mem.data), mem.prev, mem.next, mem.data, old(Ring() + other.Ring()))
    {
      PrefixAll(other.elems, |other.elems|);
      Splice(pos, other, it, other.head);
    }

    /**
     * `splice(pos, other, it)` as the standard defines it: moves the element
     * `it` alone. Within one list, `pos == it` and `pos == ++it` leave the
     * order as it is.
     */
    method SpliceOne(pos: nat, other: List, it: nat)
      requires Valid() && other.Valid() && (other == this || Apart(other)) && pos in Ring() && it in other.elems
      modifies this, other, mem
      ensures Valid() && other.Valid() && mem.data == old(mem.data)
      ensures other != this ==> Apart(other)
      ensures other != this ==> elems == old(elems[..Rank(pos)] + [it] + elems[Rank(pos)..])
      ensures other != this ==> other.elems == old(other.elems[..other.Rank(it)] + other.elems[other.Rank(it) + 1..])
      ensures other == this ==> elems == old(Moved<nat>(elems, Rank(pos), Rank(it), Rank(it) + 1))
      ensures multiset(Ring() + other.Ring()) == old(multiset(Ring() + other.Ring()))
      ensures Keeps(old(mem.prev), old(mem.next), old(mem.data), mem.prev, mem.next, mem.data, old(Ring() + other.Ring()))
    {
      if other == this {
        ghost var e, k, a := elems, Rank(pos), Rank(it);
        MoveOne(pos, it);
        MovedBlock(e, k, a, a + 1);
        return;
      }
      ApartObjects(other);
      other.Successor(it);
      Splice(pos, other, it, other.mem.next[it]);
    }

    /** `SpliceOne` within this list: the block `[it, ++it)`, unless `pos` is `it` itself. */
    method MoveOne(pos: nat, it: nat)
      requires Valid() && pos in Ring() && it in elems
      modifies this, mem
      ensures Valid() && mem.data == old(mem.data)
      ensures elems == old(Moved<nat>(elems, Rank(pos), Rank(it), Rank(it) + 1))
      ensures Keeps(old(mem.prev), old(mem.next), old(mem.data), mem.prev, mem.next, mem.data, old(Ring()))
    {
      if pos == it {
        StayPut(it);
      } else {
        MoveApart(pos, it);
      }
    }

    /** `MoveOne` when `pos` is not `it`: one `MoveWithin` of the block `[it, ++it)`. */
    method MoveApart(pos: nat, it: nat)
      requires Valid() && pos in Ring() && it in elems && pos != it
      modifies this, mem
      ensures Valid() && mem.data == old(mem.data)
      ensures elems == old(Moved<nat>(elems, Rank(pos), Rank(it), Rank(it) + 1))
      ensures Keeps(old(mem.prev), old(mem.next), old(mem.data), mem.prev, mem.next, mem.data, old(Ring()))
    {
      Beside(pos, it);
      var last := mem.next[it];
      MoveWithin(pos, it, last);
    }

    /** Moving the element `it` in front of itself leaves the list as it is. */
    lemma StayPut(it: nat)
      requires Valid() && it in elems
      ensures Rank(it) < |elems| && Moved<nat>(elems, Rank(it), Rank(it), Rank(it) + 1) == elems
      ensures Keeps(mem.prev, mem.next, mem.data, mem.prev, mem.next, mem.data, Ring())
    {
      Position(it);
      MovedNothing(elems, Rank(it), Rank(it), Rank(it) + 1);
    }

    /** An iterator `pos` other than the element `it` lies outside the range `[it, ++it)`. */
    lemma Beside(pos: nat, it: nat)
      requires Valid() && pos in Ring() && it in elems && pos != it
      ensures mem.next[it] in Ring() && Rank(mem.next[it]) == Rank(it) + 1
      ensures Rank(pos) < Rank(it) || Rank(it) + 1 <= Rank(pos)
    {
      Successor(it);
      Position(pos);
      Position(it);
    }

    /**
     * What `Merge` keeps: the first `i` elements of this list followed by
     * the merge of the rest with what is left of `other` make the merge of
     * the two old lists `a0` and `b0`; the node values do not change.
     */
    ghost predicate Merging(other: List, p0: seq<nat>, n0: seq<nat>, d0: map<nat, int>, a0: seq<nat>, b0: seq<nat>, i: nat)
      reads this, other, mem, other.mem
    {
      Valid() && other.Valid() && Apart(other) && mem.data == d0 && i <= |elems|
      && (forall j :: 0 <= j < |a0| ==> a0[j] in d0) && (forall j :: 0 <= j < |b0| ==> b0[j] in d0)
      && elems[..i] + MergeBy(d0, elems[i..], other.elems) == MergeBy(d0, a0, b0)
      && multiset(Ring() + other.Ring()) == multiset([head] + a0 + ([other.head] + b0))
      && Keeps(p0, n0, d0, mem.prev, mem.next, mem.data, [head] + a0 + ([other.head] + b0))
    }

    /** The positions of `lhs` and `rhs` in a round of `merge`. */
    lemma MergeFacts(other: List, i: nat, lhs: nat, rhs: nat)
      requires Valid() && other.Valid() && i < |elems| && lhs == At(i) && other.elems != [] && rhs == other.At(0)
      ensures lhs in Ring() && Rank(lhs) == i && lhs == elems[i] && rhs in other.elems && other.Rank(rhs) == 0 && rhs == other.elems[0]
      ensures other.mem.next[rhs] == other.At(1)
    {
      other.Walk(0);
      IndexOfDistinct(elems, i);
      IndexOfDistinct(other.elems, 0);
    }

    /** After the front `b[0]` of `other` moved in front of position `i`, the merge invariant holds one position further. */
    lemma MergeTaken(other: List, p0: seq<nat>, n0: seq<nat>, d0: map<nat, int>, a0: seq<nat>, b0: seq<nat>, i: nat,
                     e: seq<nat>, b: seq<nat>)
      requires Valid() && other.Valid() && Apart(other) && mem.data == d0
      requires (forall j :: 0 <= j < |a0| ==> a0[j] in d0) && (forall j :: 0 <= j < |b0| ==> b0[j] in d0)
      requires (forall j :: 0 <= j < |e| ==> e[j] in d0) && (forall j :: 0 <= j < |b| ==> b[j] in d0)
      requires i < |e| && b != [] && d0[b[0]] < d0[e[i]]
      requires e[..i] + MergeBy(d0, e[i..], b) == MergeBy(d0, a0, b0)
      requires elems == e[..i] + [b[0]] + e[i..] && other.elems == b[1..]
      requires multiset(Ring() + other.Ring()) == multiset([head] + a0 + ([other.head] + b0))
      requires Keeps(p0, n0, d0, mem.prev, mem.next, mem.data, [head] + a0 + ([other.head] + b0))
      ensures Merging(other, p0, n0, d0, a0, b0, i + 1)
      ensures i + 1 <= |elems| && At(i) == b[0] && mem.next[At(i)] == At(i + 1) && At(i + 1) == e[i]
    {
      MergeTakeOther(d0, e, i, b, MergeBy(d0, a0, b0));
      Walk(i);
    }

    /** One round of `merge` that moves the front of `other` in front of `lhs`. */
    method MergeTake(other: List, lhs: nat, rhs: nat, ghost p0: seq<nat>, ghost n0: seq<nat>, ghost d0: map<nat, int>,
                     ghost a0: seq<nat>, ghost b0: seq<nat>, ghost i: nat) returns (lhs': nat, rhs': nat)
      requires Merging(other, p0, n0, d0, a0, b0, i) && i < |elems| && lhs == At(i)
      requires other.elems != [] && rhs == other.At(0) && mem.data[rhs] < mem.data[lhs]
      modifies this, other, mem
      ensures Merging(other, p0, n0, d0, a0, b0, i + 1) && lhs' == At(i + 1) && rhs' == other.At(0)
      ensures |elems| - (i + 1) + |other.elems| < old(|elems| - i + |other.elems|)
    {
      ghost var p1, n1, e, b := mem.prev, mem.next, elems, other.elems;
      ghost var own := Ring() + other.Ring();
      MergeFacts(other, i, lhs, rhs);
      var node := rhs;
      rhs' := mem.next[rhs];
      ApartObjects(other);
      SpliceOne(lhs, other, node);
      KeepsPerm(p0, n0, d0, p1, n1, d0, mem.prev, mem.next, mem.data, [head] + a0 + ([other.head] + b0), own);
      MergeTaken(other, p0, n0, d0, a0, b0, i, e, b);
      lhs' := node;
      lhs' := mem.next[lhs'];
      other.Walk(0);
    }

    /** A round of `merge` that keeps `lhs` in place and only advances it. */
    lemma MergeKept(other: List, p0: seq<nat>, n0: seq<nat>, d0: map<nat, int>, a0: seq<nat>, b0: seq<nat>, i: nat)
      requires Merging(other, p0, n0, d0, a0, b0, i) && i < |elems| && other.elems != []
      requires !(d0[other.elems[0]] < d0[elems[i]])
      ensures Merging(other, p0, n0, d0, a0, b0, i + 1) && mem.next[At(i)] == At(i + 1)
    {
      Walk(i);
      MergeTakeOwn(d0, elems, i, other.elems, MergeBy(d0, a0, b0));
    }

    /** Once either run is exhausted, the list followed by what is left of `other` is the whole merge. */
    lemma MergeDone(other: List, p0: seq<nat>, n0: seq<nat>, d0: map<nat, int>, a0: seq<nat>, b0: seq<nat>, i: nat)
      requires Merging(other, p0, n0, d0, a0, b0, i) && (other.elems == [] || i == |elems|)
      ensures elems + other.elems == MergeBy(d0, a0, b0)
    {
      MergeEnd(d0, elems, i, other.elems, MergeBy(d0, a0, b0));
    }

    /** Before the first round of `merge`, nothing is merged yet. */
    lemma MergeStart(other: List)
      requires Valid() && other.Valid() && Apart(other)
      ensures Merging(other, mem.prev, mem.next, mem.data, elems, other.elems, 0)
      ensures At(0) == mem.next[head] && other.At(0) == mem.next[other.head]
    {
      Walk(0);
      other.Walk(0);
    }

    /** The loop of `merge`: rounds until one of the two runs is exhausted. */
    method MergeRuns(other: List, ghost p0: seq<nat>, ghost n0: seq<nat>, ghost d0: map<nat, int>,
                     ghost a0: seq<nat>, ghost b0: seq<nat>) returns (ghost i: nat)
      requires Merging(other, p0, n0, d0, a0, b0, 0)
      modifies this, other, mem
      ensures Merging(other, p0, n0, d0, a0, b0, i) && (other.elems == [] || i == |elems|)
    {
      Fronts(other);
      var lhs := mem.next[head];
      var rhs := mem.next[other.head];
      i := 0;
      while rhs != other.head && lhs != head
        invariant Merging(other, p0, n0, d0, a0, b0, i) && lhs == At(i) && rhs == other.At(0)
        decreases |elems| - i + |other.elems|
      {
        lhs, rhs := MergeRound(other, lhs, rhs, p0, n0, d0, a0, b0, i);
        i := i + 1;
      }
      RoundsDone(other, lhs, rhs, i);
    }

    /** The first iterators of this list and of `other`. */
    lemma Fronts(other: List)
      requires Valid() && other.Valid()
      ensures At(0) == mem.next[head] && other.At(0) == other.mem.next[other.head]
    {
      Walk(0);
      other.Walk(0);
    }

    /** The rounds of `merge` stop when either iterator reaches its `end()`. */
    lemma RoundsDone(other: List, lhs: nat, rhs: nat, i: nat)
      requires Valid() && other.Valid() && i <= |elems| && lhs == At(i) && rhs == other.At(0)
      requires rhs == other.head || lhs == head
      ensures other.elems == [] || i == |elems|
    {
      Walk(i);
      other.Walk(0);
    }

    /** One round of `merge`: the smaller of the two fronts comes next. */
    method MergeRound(other: List, lhs: nat, rhs: nat, ghost p0: seq<nat>, ghost n0: seq<nat>, ghost d0: map<nat, int>,
                      ghost a0: seq<nat>, ghost b0: seq<nat>, ghost i: nat) returns (lhs': nat, rhs': nat)
      requires Merging(other, p0, n0, d0, a0, b0, i) && lhs == At(i) && rhs == other.At(0)
      requires rhs != other.head && lhs != head
      modifies this, other, mem
      ensures Merging(other, p0, n0, d0, a0, b0, i + 1) && lhs' == At(i + 1) && rhs' == other.At(0)
      ensures |elems| - (i + 1) + |other.elems| < old(|elems| - i + |other.elems|)
    {
      Walk(i);
      other.Walk(0);
      if mem.data[rhs] < mem.data[lhs] {
        lhs', rhs' := MergeTake(other, lhs, rhs, p0, n0, d0, a0, b0, i);
      } else {
        MergeKept(other, p0, n0, d0, a0, b0, i);
        lhs', rhs' := mem.next[lhs], rhs;
      }
    }

    /** The end of `merge`: what is left of `other` goes to the back. */
    method MergeRest(other: List, ghost p0: seq<nat>, ghost n0: seq<nat>, ghost d0: map<nat, int>,
                     ghost a0: seq<nat>, ghost b0: seq<nat>, ghost i: nat)
      requires Merging(other, p0, n0, d0, a0, b0, i) && (other.elems == [] || i == |elems|)
      modifies this, other, mem
      ensures Valid() && other.Valid() && Apart(other) && mem.data == d0
      ensures other.elems == [] && elems == MergeBy(d0, a0, b0)
      ensures multiset(Ring() + other.Ring()) == multiset([head] + a0 + ([other.head] + b0))
      ensures Keeps(p0, n0, d0, mem.prev, mem.next, mem.data, [head] + a0 + ([other.head] + b0))
    {
      MergeDone(other, p0, n0, d0, a0, b0, i);
      other.Walk(0);
      if mem.next[other.head] != other.head {
        MergeAppend(other, p0, n0, d0, [head] + a0 + ([other.head] + b0));
      }
    }

    /** Moves all of `other` to the back, keeping the frame `own0` that the merge started from. */
    method MergeAppend(other: List, ghost p0: seq<nat>, ghost n0: seq<nat>, ghost d0: map<nat, int>, ghost own0: seq<nat>)
      requires Valid() && other.Valid() && Apart(other) && mem.data == d0
      requires multiset(Ring() + other.Ring()) == multiset(own0)
      requires Keeps(p0, n0, d0, mem.prev, mem.next, mem.data, own0)
      modifies this, other, mem
      ensures Valid() && other.Valid() && Apart(other) && mem.data == d0
      ensures elems == old(elems + other.elems) && other.elems == []
      ensures multiset(Ring() + other.Ring()) == multiset(own0)
      ensures Keeps(p0, n0, d0, mem.prev, mem.next, mem.data, own0)
    {
      ghost var p1, n1, own := mem.prev, mem.next, Ring() + other.Ring();
      PrefixAll(elems, |elems|);
      SpliceAll(head, other);
      KeepsPerm(p0, n0, d0, p1, n1, d0, mem.prev, mem.next, mem.data, own0, own);
    }

    /**
     * `merge(other)`: moves every node of `other` into this list; each one
     * goes in front of the first node whose value is larger than its own,
     * so two sorted lists give one sorted list. Merging a list with itself
     * does nothing.
     */
    method Merge(other: List)
      requires Valid() && other.Valid() && (other == this || Apart(other))
      modifies this, other, mem
      ensures Valid() && other.Valid() && mem.data == old(mem.data)
      ensures other == this ==> elems == old(elems) && mem.prev == old(mem.prev) && mem.next == old(mem.next)
      ensures other != this ==> Apart(other) && other.elems == []
      ensures other != this ==> elems == MergeBy(old(mem.data), old(elems), old(other.elems))
      ensures other != this ==> multiset(Ring() + other.Ring()) == old(multiset(Ring() + other.Ring()))
      ensures Keeps(old(mem.prev), old(mem.next), old(mem.data), mem.prev, mem.next, mem.data, old(Ring() + other.Ring()))
    {
      if other == this {
        return;
      }
      ghost var p0, n0, d0, a0, b0 := mem.prev, mem.next, mem.data, elems, other.elems;
      MergeStart(other);
      ghost var i := MergeRuns(other, p0, n0, d0, a0, b0);
      MergeRest(other, p0, n0, d0, a0, b0, i);
    }

    /** `reverse` after `k + 1` rounds: the sentinel and the last `k` elements are turned. */
    ghost predicate Reversing(p0: seq<nat>, n0: seq<nat>, d0: map<nat, int>, k: nat)
      reads this, mem
    {
      ListOk(p0, n0, d0, head, elems) && k <= |elems| && mem.data == d0
      && TurnedUpTo(p0, n0, mem.prev, mem.next, [head] + elems, k)
    }

    /** The first round of `reverse`, on the sentinel; `++it` then reaches the last element. */
    method ReverseStart() returns (it: nat)
      requires Valid()
      modifies mem
      ensures Reversing(old(mem.prev), old(mem.next), old(mem.data), 0)
      ensures it == (if 0 < |elems| then elems[|elems| - 1] else head)
    {
      Neighbours(mem.prev, mem.next, Ring(), 0);
      assert Ring()[|Ring()| - 1] == (if 0 < |elems| then elems[|elems| - 1] else head);
      DistinctCons(head, elems);
      mem.Turn(head);
      it := mem.next[head];
    }

    /** One round of `reverse`, on the element `it`; `++it` then reaches the element before it. */
    method ReverseStep(it: nat, ghost p0: seq<nat>, ghost n0: seq<nat>, ghost d0: map<nat, int>, ghost k: nat) returns (it': nat)
      requires Reversing(p0, n0, d0, k) && k < |elems| && it == elems[|elems| - 1 - k]
      modifies mem
      ensures Reversing(p0, n0, d0, k + 1)
      ensures it' == (if k + 1 < |elems| then elems[|elems| - 2 - k] else head)
    {
      ghost var c := [head] + elems;
      Neighbours(p0, n0, c, |elems| - k);
      assert c[|c| - 1 - k] == it && Before(c, |elems| - k) == c[|c| - 2 - k];
      DistinctCons(head, elems);
      TurnOne(p0, n0, mem.prev, mem.next, c, k);
      mem.Turn(it);
      it' := mem.next[it];
    }

    /** `reverse()`: turns every node of the ring, so the elements come in the opposite order. */
    method Reverse()
      requires Valid()
      modifies this, mem
      ensures Valid() && mem.data == old(mem.data)
      ensures elems == Reversed(old(elems)) && Contents() == Reversed(old(Contents()))
      ensures Keeps(old(mem.prev), old(mem.next), old(mem.data), mem.prev, mem.next, mem.data, old(Ring()))
    {
      ghost var p0, n0, d0, e := mem.prev, mem.next, mem.data, elems;
      var it := ReverseStart();
      ghost var k := 0;
      while it != head
        invariant elems == e && Reversing(p0, n0, d0, k) && it == (if k < |elems| then elems[|elems| - 1 - k] else head)
        decreases |elems| - k
      {
        it := ReverseStep(it, p0, n0, d0, k);
        k := k + 1;
      }
      ReverseLinks(p0, n0, d0, head, elems, mem.prev, mem.next);
      elems := Reversed(elems);
    }

    /**
     * A pass of `remove_if` or `unique` over the elements `e0` after `i`
     * rounds: `k` is what was kept of `e0[..i]`, the rest is untouched,
     * erased nodes have left the memory and nothing else has changed.
     */
    ghost predicate Filtering(p0: seq<nat>, n0: seq<nat>, d0: map<nat, int>, e0: seq<nat>, k: seq<nat>, i: nat)
      reads this, mem
    {
      Valid() && i <= |e0| && elems == k + e0[i..]
      && (forall j :: 0 <= j < |e0| ==> e0[j] in d0) && (forall j :: 0 <= j < |k| ==> k[j] in e0)
      && (forall x :: x in mem.data ==> x in d0 && mem.data[x] == d0[x])
      && Keeps(p0, n0, d0, mem.prev, mem.next, mem.data, [head] + e0)
    }

    lemma FilterStart()
      requires Valid()
      ensures Filtering(mem.prev, mem.next, mem.data, elems, [], 0)
      ensures mem.next[head] == At(0)
    {
      Walk(0);
    }

    /** Where a round of a pass starts: `it` is the node `e0[i]`. */
    lemma FilterHere(p0: seq<nat>, n0: seq<nat>, d0: map<nat, int>, e0: seq<nat>, k: seq<nat>, i: nat)
      requires Filtering(p0, n0, d0, e0, k, i) && At(|k|) != head
      ensures i < |e0| && At(|k|) == e0[i] && e0[i] in mem.data && mem.data[e0[i]] == d0[e0[i]]
    {
      Walk(|k|);
      assert elems[|k|] == e0[i];
    }

    /** Keeping the node `e0[i]`: `++it` reaches the next one. */
    lemma FilterKeep(p0: seq<nat>, n0: seq<nat>, d0: map<nat, int>, e0: seq<nat>, k: seq<nat>, i: nat)
      requires Filtering(p0, n0, d0, e0, k, i) && i < |e0|
      ensures Filtering(p0, n0, d0, e0, k + [e0[i]], i + 1)
      ensures e0[i] < |mem.next| && |k| + 1 <= |elems| && mem.next[e0[i]] == At(|k| + 1)
    {
      assert k + [e0[i]] + e0[i + 1..] == k + e0[i..];
      assert elems[|k|] == e0[i];
      Walk(|k|);
    }

    /** The node `e0[i]` of a pass is at position `|k|`, behind `Ring()[|k|]`. */
    lemma FilterAt(p0: seq<nat>, n0: seq<nat>, d0: map<nat, int>, e0: seq<nat>, k: seq<nat>, i: nat)
      requires Filtering(p0, n0, d0, e0, k, i) && i < |e0|
      ensures e0[i] in elems && Rank(e0[i]) == |k| && mem.prev[e0[i]] == Ring()[|k|]
      ensures e0[i] in mem.data && mem.data[e0[i]] == d0[e0[i]]
      ensures elems[..|k|] + elems[|k| + 1..] == k + e0[i + 1..]
      ensures forall x :: x in Ring() && x < |n0| ==> x in [head] + e0
    {
      DropAfter(k, e0[i..]);
      assert e0[i..][1..] == e0[i + 1..];
      IndexOfDistinct(elems, |k|);
      Walk(|k|);
      forall x | x in Ring() && x < |n0| ensures x in [head] + e0 {
        if x != head {
          var j :| 0 <= j < |elems| && elems[j] == x;
          if j >= |k| { assert elems[j] == e0[i + j - |k|]; }
        }
      }
    }

    /** After erasing position `|k|`, `++` from the node before it reaches the next one. */
    lemma FilterBack(p0: seq<nat>, n0: seq<nat>, d0: map<nat, int>, e0: seq<nat>, k: seq<nat>, i: nat, back: nat)
      requires Filtering(p0, n0, d0, e0, k, i) && back == Ring()[|k|]
      ensures mem.next[back] == At(|k|)
    {
      Walk(|k|);
      Neighbours(mem.prev, mem.next, Ring(), |k|);
    }

    /** Erasing the node `e0[i]` with `erase(it--)`; `++it` then reaches the next one. */
    method FilterDrop(it: nat, ghost p0: seq<nat>, ghost n0: seq<nat>, ghost d0: map<nat, int>, ghost e0: seq<nat>,
                      ghost k: seq<nat>, ghost i: nat) returns (it': nat)
      requires Filtering(p0, n0, d0, e0, k, i) && i < |e0| && it == e0[i]
      modifies this, mem
      ensures Filtering(p0, n0, d0, e0, k, i + 1) && it' == At(|k|)
    {
      ghost var p1, n1, d1, own := mem.prev, mem.next, mem.data, Ring();
      FilterAt(p0, n0, d0, e0, k, i);
      it' := mem.prev[it];
      Erase(it);
      KeepsTrans(p0, n0, d0, p1, n1, d1, mem.prev, mem.next, mem.data, [head] + e0, own);
      FilterBack(p0, n0, d0, e0, k, i + 1, it');
      it' := mem.next[it'];
    }

    /** A pass ends when `it` is back at the sentinel: then the list is what was kept. */
    lemma FilterEnd(p0: seq<nat>, n0: seq<nat>, d0: map<nat, int>, e0: seq<nat>, k: seq<nat>, i: nat)
      requires Filtering(p0, n0, d0, e0, k, i) && At(|k|) == head
      ensures i == |e0| && elems == k && (forall j :: 0 <= j < |k| ==> k[j] in d0) && Contents() == Values(d0, k)
    {
      Walk(|k|);
      assert e0[i..] == [] && elems == k;
      ValuesFrame(d0, mem.data, k);
    }

    /**
     * Where `remove_if(p)` stands after `i` rounds: `it` is at the `|k|`-th
     * node of a pass that has kept `k`, and `k` followed by what the rest
     * keeps is what the whole pass keeps.
     */
    ghost predicate RemoveIfAt(p: int -> bool, p0: seq<nat>, n0: seq<nat>, d0: map<nat, int>, e0: seq<nat>,
                               k: seq<nat>, i: nat, it: nat)
      reads this, mem
    {
      Filtering(p0, n0, d0, e0, k, i) && it == At(|k|) && k + Kept(d0, p, e0[i..]) == Kept(d0, p, e0)
    }

    /** `remove_if(p)` starts at `begin()` with nothing kept yet. */
    lemma RemoveIfStart(p: int -> bool)
      requires Valid()
      ensures RemoveIfAt(p, mem.prev, mem.next, mem.data, elems, [], 0, mem.next[head])
    {
      FilterStart();
      assert elems[0..] == elems;
    }

    /** One round of `remove_if(p)`: `erase(it--)` when `p` accepts the value, then `++it`. */
    method RemoveIfStep(p: int -> bool, it: nat, ghost p0: seq<nat>, ghost n0: seq<nat>, ghost d0: map<nat, int>,
                        ghost e0: seq<nat>, ghost k: seq<nat>, ghost i: nat) returns (it': nat, ghost k': seq<nat>)
      requires RemoveIfAt(p, p0, n0, d0, e0, k, i, it) && it != head
      modifies this, mem
      ensures RemoveIfAt(p, p0, n0, d0, e0, k', i + 1, it')
    {
      FilterHere(p0, n0, d0, e0, k, i);
      KeptStep(d0, p, e0, i, k);
      FilterKeep(p0, n0, d0, e0, k, i);
      if p(mem.data[it]) {
        it' := FilterDrop(it, p0, n0, d0, e0, k, i);
        k' := k;
      } else {
        it' := mem.next[it];
        k' := k + [e0[i]];
      }
    }

    /** When `remove_if(p)` is back at the sentinel, the list holds what `p` rejects. */
    lemma RemoveIfEnd(p: int -> bool, p0: seq<nat>, n0: seq<nat>, d0: map<nat, int>, e0: seq<nat>, k: seq<nat>, i: nat)
      requires RemoveIfAt(p, p0, n0, d0, e0, k, i, head)
      ensures Valid() && elems == Kept(d0, p, e0) && Contents() == Rejected(p, Values(d0, e0))
      ensures forall x :: x in mem.data ==> x in d0 && mem.data[x] == d0[x]
      ensures Keeps(p0, n0, d0, mem.prev, mem.next, mem.data, [head] + e0)
    {
      FilterEnd(p0, n0, d0, e0, k, i);
      assert e0[i..] == [];
      KeptValues(d0, p, e0);
    }

    /** `remove_if(p)`: erases every element whose value `p` accepts, keeping the order of the rest. */
    method RemoveIf(p: int -> bool)
      requires Valid()
      modifies this, mem
      ensures Valid() && elems == Kept(old(mem.data), p, old(elems)) && Contents() == Rejected(p, old(Contents()))
      ensures forall x :: x in mem.data ==> x in old(mem.data) && mem.data[x] == old(mem.data)[x]
      ensures Keeps(old(mem.prev), old(mem.next), old(mem.data), mem.prev, mem.next, mem.data, old(Ring()))
    {
      ghost var p0, n0, d0, e0 := mem.prev, mem.next, mem.data, elems;
      ghost var k: seq<nat> := [];
      ghost var i := 0;
      RemoveIfStart(p);
      var it := mem.next[head];
      while it != head
        invariant RemoveIfAt(p, p0, n0, d0, e0, k, i, it)
        decreases |e0| - i
      {
        it, k := RemoveIfStep(p, it, p0, n0, d0, e0, k, i);
        i := i + 1;
      }
      RemoveIfEnd(p, p0, n0, d0, e0, k, i);
    }

    /** `remove(value)`: `remove_if` with `== value`; exactly the other values stay. */
    method Remove(value: int)
      requires Valid()
      modifies this, mem
      ensures Valid() && Contents() == Rejected(IsValue(value), old(Contents()))
      ensures forall x :: x in Contents() <==> x in old(Contents()) && x != value
      ensures Keeps(old(mem.prev), old(mem.next), old(mem.data), mem.prev, mem.next, mem.data, old(Ring()))
    {
      ghost var c := Contents();
      RemoveIf(IsValue(value));
      forall x ensures x in Contents() <==> x in c && x != value {
        RejectedMembers(IsValue(value), c, x);
      }
    }

    /**
     * Where `unique(p)` stands after `i` rounds: `it` is at the `|k|`-th
     * node of a pass that has kept `k`, `current` is the value of the last
     * node kept, and `k` followed by what the rest keeps is what the whole
     * pass keeps.
     */
    ghost predicate UniqueAt(p: (int, int) -> bool, p0: seq<nat>, n0: seq<nat>, d0: map<nat, int>, e0: seq<nat>,
                             k: seq<nat>, i: nat, it: nat, current: int)
      reads this, mem
    {
      Filtering(p0, n0, d0, e0, k, i) && it == At(|k|) && k + Dedup(d0, p, current, e0[i..]) == UniqueNodes(d0, p, e0)
    }

    /**
     * One round of `unique(p)`: `erase(it--)` when `p(current, *it)`,
     * otherwise `current = *it`; then `++it`.
     */
    method UniqueStep(p: (int, int) -> bool, current: int, it: nat, ghost p0: seq<nat>, ghost n0: seq<nat>,
                      ghost d0: map<nat, int>, ghost e0: seq<nat>, ghost k: seq<nat>, ghost i: nat)
      returns (current': int, it': nat, ghost k': seq<nat>)
      requires UniqueAt(p, p0, n0, d0, e0, k, i, it, current) && it != head
      modifies this, mem
      ensures UniqueAt(p, p0, n0, d0, e0, k', i + 1, it', current')
    {
      FilterHere(p0, n0, d0, e0, k, i);
      DedupStep(d0, p, current, e0, i, k, UniqueNodes(d0, p, e0));
      FilterKeep(p0, n0, d0, e0, k, i);
      if p(current, mem.data[it]) {
        it' := FilterDrop(it, p0, n0, d0, e0, k, i);
        current', k' := current, k;
      } else {
        current' := mem.data[it];
        it' := mem.next[it];
        k' := k + [e0[i]];
      }
    }

    /** The first element stays; `unique(p)` starts after it, with its value as `current`. */
    lemma UniqueStart(p: (int, int) -> bool)
      requires Valid() && elems != []
      ensures mem.next[head] == elems[0] && elems[0] in mem.data
      ensures UniqueAt(p, mem.prev, mem.next, mem.data, elems, [elems[0]], 1, mem.next[elems[0]], mem.data[elems[0]])
    {
      ghost var e := elems;
      FilterStart();
      FilterKeep(mem.prev, mem.next, mem.data, e, [], 0);
      assert [] + [e[0]] == [e[0]];
      UniqueNodesFirst(mem.data, p, e);
    }

    /** When `unique(p)` is back at the sentinel, the list holds what `UniqueNodes` keeps. */
    lemma UniqueEnd(p: (int, int) -> bool, p0: seq<nat>, n0: seq<nat>, d0: map<nat, int>, e0: seq<nat>,
                    k: seq<nat>, i: nat, current: int)
      requires UniqueAt(p, p0, n0, d0, e0, k, i, head, current)
      ensures Valid() && elems == UniqueNodes(d0, p, e0) && Contents() == ListOrder.Unique(p, Values(d0, e0))
      ensures forall x :: x in mem.data ==> x in d0 && mem.data[x] == d0[x]
      ensures Keeps(p0, n0, d0, mem.prev, mem.next, mem.data, [head] + e0)
    {
      FilterEnd(p0, n0, d0, e0, k, i);
      assert e0[i..] == [];
      UniqueNodesValues(d0, p, e0);
    }

    /**
     * `unique(p)`: walking from the second element, erases each element
     * for which `p(current, value)` holds, where `current` is the value of
     * the last element kept.
     */
    method UniqueBy(p: (int, int) -> bool)
      requires Valid()
      modifies this, mem
      ensures Valid() && elems == UniqueNodes(old(mem.data), p, old(elems))
      ensures Contents() == ListOrder.Unique(p, old(Contents()))
      ensures forall x :: x in mem.data ==> x in old(mem.data) && mem.data[x] == old(mem.data)[x]
      ensures Keeps(old(mem.prev), old(mem.next), old(mem.data), mem.prev, mem.next, mem.data, old(Ring()))
    {
      ghost var p0, n0, d0, e0 := mem.prev, mem.next, mem.data, elems;
      Walk(0);
      if mem.next[head] == head {
        UniqueNodesValues(d0, p, e0);
        return;
      }
      UniqueStart(p);
      var current := mem.data[mem.next[head]];
      var it := mem.next[mem.next[head]];
      ghost var k: seq<nat> := [e0[0]];
      ghost var i := 1;
      while it != head
        invariant UniqueAt(p, p0, n0, d0, e0, k, i, it, current)
        decreases |e0| - i
      {
        current, it, k := UniqueStep(p, current, it, p0, n0, d0, e0, k, i);
        i := i + 1;
      }
      UniqueEnd(p, p0, n0, d0, e0, k, i, current);
    }

    /** `unique()`: `unique` with `==`; no two neighbours are equal afterwards and no value is lost. */
    method Unique()
      requires Valid()
      modifies this, mem
      ensures Valid() && Contents() == ListOrder.Unique(Same, old(Contents()))
      ensures forall i :: 0 <= i < |Contents()| - 1 ==> Contents()[i] != Contents()[i + 1]
      ensures forall x :: x in Contents() <==> x in old(Contents())
      ensures Keeps(old(mem.prev), old(mem.next), old(mem.data), mem.prev, mem.next, mem.data, old(Ring()))
    {
      ghost var c := Contents();
      UniqueBy(Same);
      UniqueSeparates(c);
    }

    /** The position of the iterator at position `k` is `k`. */
    lemma RankAt(k: nat)
      requires Valid() && k <= |elems|
      ensures At(k) in Ring() && Rank(At(k)) == k
    {
      if k < |elems| {
        IndexOfDistinct(elems, k);
      }
    }

    /**
     * The tortoise and hare of `sort`: the hare moves two steps for each
     * step of the tortoise, which stops in the middle. The source's
     * condition also advances the hare once more on its way out; the hare
     * is not used after the loop.
     */
    method Middle() returns (tortoise: nat)
      requires Valid() && 2 <= |elems|
      ensures tortoise == At(|elems| / 2)
    {
      Walk(0);
      tortoise := mem.next[head];
      var hare := mem.next[head];
      ghost var t := 0;
      while hare != head && mem.next[hare] != head
        invariant 2 * t <= |elems| && tortoise == At(t) && hare == At(2 * t)
        decreases |elems| - 2 * t
      {
        Walk(t);
        Walk(2 * t);
        Walk(2 * t + 1);
        tortoise := mem.next[tortoise];
        hare := mem.next[mem.next[hare]];
        t := t + 1;
      }
      Walk(2 * t);
      if hare != head {
        Walk(2 * t + 1);
      }
    }

    /** The two new lists `left` and `right` that `sort` splits into, in the same memory. */
    method NewPair() returns (left: List, right: List)
      requires Valid()
      modifies mem
      ensures fresh(left) && fresh(right) && left != right && left.mem == mem && right.mem == mem
      ensures Valid() && left.Valid() && right.Valid() && left.elems == [] && right.elems == []
      ensures old(|mem.next|) <= left.head && old(|mem.next|) <= right.head && mem.data == old(mem.data)
      ensures Keeps(old(mem.prev), old(mem.next), old(mem.data), mem.prev, mem.next, mem.data, [])
      ensures Distinct([left.head] + Ring()) && Distinct(Ring() + [left.head] + [right.head])
    {
      ghost var p0, n0, d0 := mem.prev, mem.next, mem.data;
      left := new List(mem);
      ghost var p1, n1 := mem.prev, mem.next;
      right := new List(mem);
      HalveFresh(p0, n0, d0, elems, p1, n1, mem.prev, mem.next, head, left.head, right.head);
      ListKept(p1, n1, d0, mem.prev, mem.next, mem.data, [], left.head, []);
    }

    /** The first splice of `sort`'s split: `left` takes the elements before `tortoise`. */
    method SplitFront(left: List, right: List, tortoise: nat, ghost m: nat)
      requires Valid() && left.Valid() && right.Valid() && left.mem == mem && right.mem == mem
      requires this != left && this != right && left != right && left.elems == [] && right.elems == []
      requires m == |elems| / 2 && 2 <= |elems| && tortoise == At(m)
      requires Distinct([left.head] + Ring()) && Distinct(Ring() + [left.head] + [right.head])
      modifies this, left, mem
      ensures Valid() && left.Valid() && right.Valid() && mem.data == old(mem.data)
      ensures left.elems == old(elems[..m]) && elems == old(elems[m..])
      ensures Keeps(old(mem.prev), old(mem.next), old(mem.data), mem.prev, mem.next, mem.data, [left.head] + old(Ring()))
      ensures right.Apart(this)
    {
      ghost var p2, n2, e0 := mem.prev, mem.next, elems;
      SplitStart(left, tortoise, m);
      var first := mem.next[head];
      left.Relink(left.head, this, first, tortoise);
      CutFront(e0, m);
      HalveMid(p2, n2, mem.data, mem.prev, mem.next, head, e0, left.head, right.head, m);
      ApartEmpty(right);
    }

    /** An empty list whose `end()` is not in this list's ring is apart from it. */
    lemma ApartEmpty(other: List)
      requires other.elems == [] && other.mem == mem && Distinct([other.head] + Ring())
      ensures other.Apart(this)
    {
      assert other.Ring() == [other.head];
    }

    /** Before `SplitFront`: `begin()` and `tortoise` bound the first `m` elements, and `left` is apart. */
    lemma SplitStart(left: List, tortoise: nat, m: nat)
      requires Valid() && left.Valid() && left.mem == mem && left.elems == []
      requires m == |elems| / 2 && 2 <= |elems| && tortoise == At(m)
      requires Distinct([left.head] + Ring())
      ensures left.Apart(this) && left.Ring() + Ring() == [left.head] + Ring()
      ensures mem.next[head] in Ring() && tortoise in Ring()
      ensures Rank(mem.next[head]) == 0 && Rank(tortoise) == m
    {
      Walk(0);
      RankAt(0);
      RankAt(m);
      assert left.Ring() + Ring() == [left.head] + Ring();
    }

    /** The second splice of `sort`'s split: `right` takes what `SplitFront` left behind. */
    method SplitBack(left: List, right: List, ghost p0: seq<nat>, ghost n0: seq<nat>, ghost d0: map<nat, int>,
                     ghost e0: seq<nat>, ghost p2: seq<nat>, ghost n2: seq<nat>, ghost m: nat)
      requires Valid() && left.Valid() && right.Valid() && left.mem == mem && right.mem == mem
      requires this != left && this != right && left != right && right.Apart(this)
      requires m <= |e0| && elems == e0[m..] && left.elems == e0[..m] && right.elems == [] && mem.data == d0
      requires ListOk(p0, n0, d0, head, e0) && Distinct([head] + e0 + [left.head] + [right.head])
      requires |n0| <= left.head && |n0| <= right.head
      requires Keeps(p0, n0, d0, p2, n2, d0, [])
      requires Keeps(p2, n2, d0, mem.prev, mem.next, d0, [left.head] + ([head] + e0))
      modifies this, right, mem
      ensures Valid() && left.Valid() && right.Valid() && elems == [] && right.elems == e0[m..]
      ensures Halved(mem.prev, mem.next, mem.data, head, left.head, left.elems, right.head, right.elems, p0, n0, d0, e0)
    {
      ghost var p3, n3 := mem.prev, mem.next;
      assert right.Ring() + Ring() == [right.head] + ([head] + e0[m..]);
      right.SpliceAll(right.head, this);
      HalveEnd(p0, n0, d0, e0, p2, n2, p3, n3, mem.prev, mem.next, mem.data,
               head, left.head, left.elems, right.head, right.elems, m);
    }

    /**
     * The split of `sort`: two new lists `left` and `right` in the same
     * memory; `left` takes the elements before `tortoise`, `right` the rest.
     */
    method Halve(tortoise: nat) returns (left: List, right: List)
      requires Valid() && 2 <= |elems| && tortoise == At(|elems| / 2)
      modifies this, mem
      ensures fresh(left) && fresh(right) && left != right && left.mem == mem && right.mem == mem
      ensures Valid() && left.Valid() && right.Valid() && elems == []
      ensures left.elems == old(elems[..|elems| / 2]) && right.elems == old(elems[|elems| / 2..])
      ensures Halved(mem.prev, mem.next, mem.data, head, left.head, left.elems, right.head, right.elems,
                     old(mem.prev), old(mem.next), old(mem.data), old(elems))
    {
      ghost var p0, n0, d0, e0 := mem.prev, mem.next, mem.data, elems;
      ghost var m := |elems| / 2;
      left, right := NewPair();
      ghost var p2, n2 := mem.prev, mem.next;
      SplitFront(left, right, tortoise, m);
      SplitBack(left, right, p0, n0, d0, e0, p2, n2, m);
    }

    /** The last splice of `sort`: the merged run in `left` goes back into this emptied list. */
    method MergeBack(left: List, ghost p0: seq<nat>, ghost n0: seq<nat>, ghost d0: map<nat, int>, ghost e0: seq<nat>,
                     ghost me: seq<nat>)
      requires Valid() && left.Valid() && this != left && Apart(left) && elems == [] && left.elems == me
      requires ListOk(p0, n0, d0, head, e0) && |n0| <= left.head && multiset(me) == multiset(e0)
      requires mem.data == d0 && Keeps(p0, n0, d0, mem.prev, mem.next, mem.data, [head] + e0)
      modifies this, left, mem
      ensures Valid() && mem.data == d0 && elems == me
      ensures Keeps(p0, n0, d0, mem.prev, mem.next, mem.data, [head] + e0)
    {
      ghost var p4, n4, r, lr := mem.prev, mem.next, Ring(), left.Ring();
      SpliceAll(head, left);
      MergedBack(p0, n0, d0, e0, p4, n4, mem.prev, mem.next, mem.data, head, left.head, me, r, lr);
    }

    /** The end of `sort`: `left` merges `right` in, and the merged run goes back into this list. */
    method MergeHalves(left: List, right: List, ghost p0: seq<nat>, ghost n0: seq<nat>, ghost d0: map<nat, int>,
                       ghost e0: seq<nat>)
      requires Valid() && left.Valid() && right.Valid() && left.mem == mem && right.mem == mem
      requires this != left && this != right && left != right && elems == [] && ListOk(p0, n0, d0, head, e0)
      requires Halved(mem.prev, mem.next, mem.data, head, left.head, left.elems, right.head, right.elems, p0, n0, d0, e0)
      requires Sorted(Values(d0, left.elems)) && Sorted(Values(d0, right.elems))
      modifies this, left, right, mem
      ensures Valid() && mem.data == d0 && Sorted(Contents()) && multiset(elems) == multiset(e0)
      ensures multiset(Contents()) == old(multiset(Values(d0, left.elems)) + multiset(Values(d0, right.elems)))
      ensures Keeps(p0, n0, d0, mem.prev, mem.next, mem.data, [head] + e0)
    {
      ghost var p3, n3, sl, sr := mem.prev, mem.next, left.elems, right.elems;
      HalvesApart(head, left.head, sl, right.head, sr);
      left.Merge(right);
      ghost var p4, n4, me, r, lr := mem.prev, mem.next, left.elems, Ring(), left.Ring();
      MergedRun(d0, sl, sr, e0, mem.data, me);
      Merged(p3, n3, head, left.head, sl, right.head, sr, p0, n0, d0, e0, p4, n4, mem.data, elems, me, r, lr);
      MergeBack(left, p0, n0, d0, e0, me);
    }

    /** The middle of `sort`, second half: `right` sorts itself, then `MergeHalves`. */
    method SortRight(left: List, right: List, ghost p0: seq<nat>, ghost n0: seq<nat>, ghost d0: map<nat, int>,
                     ghost e0: seq<nat>, ghost n: nat)
      requires Valid() && left.Valid() && right.Valid() && left.mem == mem && right.mem == mem
      requires this != left && this != right && left != right && elems == [] && ListOk(p0, n0, d0, head, e0)
      requires Halved(mem.prev, mem.next, mem.data, head, left.head, left.elems, right.head, right.elems, p0, n0, d0, e0)
      requires Sorted(Values(d0, left.elems)) && |right.elems| < n
      requires multiset(Values(d0, left.elems)) + multiset(Values(d0, right.elems)) == multiset(Values(d0, e0))
      modifies this, left, right, mem
      decreases n, 0
      ensures Valid() && mem.data == d0 && Sorted(Contents()) && multiset(elems) == multiset(e0)
      ensures multiset(Contents()) == multiset(Values(d0, e0))
      ensures Keeps(p0, n0, d0, mem.prev, mem.next, mem.data, [head] + e0)
    {
      ghost var p2, n2, sl, re := mem.prev, mem.next, left.elems, right.elems;
      right.Sort();
      ResortRight(p2, n2, head, left.head, sl, right.head, re, p0, n0, d0, e0, mem.prev, mem.next, right.elems);
      MergeHalves(left, right, p0, n0, d0, e0);
    }

    /** The middle of `sort`: each half sorts itself, then `MergeHalves`. */
    method SortHalves(left: List, right: List, ghost p0: seq<nat>, ghost n0: seq<nat>, ghost d0: map<nat, int>,
                      ghost e0: seq<nat>, ghost n: nat)
      requires Valid() && left.Valid() && right.Valid() && left.mem == mem && right.mem == mem
      requires this != left && this != right && left != right && elems == [] && ListOk(p0, n0, d0, head, e0)
      requires Halved(mem.prev, mem.next, mem.data, head, left.head, left.elems, right.head, right.elems, p0, n0, d0, e0)
      requires left.elems + right.elems == e0 && |left.elems| < n && |right.elems| < n
      modifies this, left, right, mem
      decreases n, 1
      ensures Valid() && mem.data == d0 && Sorted(Contents()) && multiset(elems) == multiset(e0)
      ensures multiset(Contents()) == multiset(Values(d0, e0))
      ensures Keeps(p0, n0, d0, mem.prev, mem.next, mem.data, [head] + e0)
    {
      ghost var p1, n1, le := mem.prev, mem.next, left.elems;
      ValuesAppend(d0, le, right.elems);
      left.Sort();
      ResortLeft(p1, n1, head, left.head, le, right.head, right.elems, p0, n0, d0, e0, mem.prev, mem.next, left.elems);
      SortRight(left, right, p0, n0, d0, e0, n);
    }

    /**
     * `sort()`: a merge sort that relinks the nodes; a list of fewer than
     * two elements is already sorted.
     */
    method Sort()
      requires Valid()
      modifies this, mem
      decreases |elems|, 2
      ensures Valid() && mem.data == old(mem.data) && Sorted(Contents())
      ensures multiset(elems) == old(multiset(elems)) && multiset(Contents()) == old(multiset(Contents()))
      ensures Keeps(old(mem.prev), old(mem.next), old(mem.data), mem.prev, mem.next, mem.data, old(Ring()))
    {
      Walk(0);
      if mem.next[head] == head {
        return;
      }
      Walk(1);
      if mem.next[mem.next[head]] == head {
        return;
      }
      ghost var p0, n0, d0, e0 := mem.prev, mem.next, mem.data, elems;
      var tortoise := Middle();
      var left, right := Halve(tortoise);
      PrefixSuffix(e0, |e0| / 2);
      SortHalves(left, right, p0, n0, d0, e0, |e0|);
    }

    /** `list = ilist` as evidently meant: the list afterwards holds exactly `vs`. */
    method AssignInit(vs: seq<int>)
      requires Valid()
      modifies this, mem
      ensures Valid() && Contents() == vs
      ensures Keeps(old(mem.prev), old(mem.next), old(mem.data), mem.prev, mem.next, mem.data, old(Ring()))
    {
      ghost var p0, n0, d0, r0 := mem.prev, mem.next, mem.data, Ring();
      Clear();
      ghost var p1, n1, d1 := mem.prev, mem.next, mem.data;
      AppendAll(vs);
      KeepsTrans(p0, n0, d0, p1, n1, d1, mem.prev, mem.next, mem.data, r0, [head]);
    }

    /** `lhs == rhs`: walks both lists together; equal exactly when they hold the same values in the same order. */
    method Equal(other: List) returns (r: bool)
      requires Valid() && other.Valid()
      ensures r <==> Contents() == other.Contents()
    {
      ghost var a, b := Contents(), other.Contents();
      var lit, rit := mem.next[head], other.mem.next[other.head];
      ghost var k := 0;
      Walk(0);
      other.Walk(0);
      while lit != head && rit != other.head
        invariant k <= |elems| && k <= |other.elems| && lit == At(k) && rit == other.At(k)
        invariant a[..k] == b[..k]
        decreases |elems| - k
      {
        Walk(k);
        other.Walk(k);
        if !(mem.data[lit] == other.mem.data[rit]) {
          assert a[k] != b[k];
          return false;
        }
        PrefixStep(a, k);
        PrefixStep(b, k);
        lit, rit, k := mem.next[lit], other.mem.next[rit], k + 1;
      }
      Walk(k);
      other.Walk(k);
      r := lit == head && rit == other.head;
      if r {
        PrefixAll(a, k);
        PrefixAll(b, k);
      }
    }

    /** `lhs < rhs`: the comparison loop; it decides exactly the lexicographic order of the values. */
    method Less(other: List) returns (r: bool)
      requires Valid() && other.Valid()
      ensures r == LexLess(Contents(), other.Contents())
    {
      ghost var a, b := Contents(), other.Contents();
      var lit, rit := mem.next[head], other.mem.next[other.head];
      ghost var k := 0;
      Walk(0);
      other.Walk(0);
      assert a[0..] == a && b[0..] == b;
      while lit != head && rit != other.head
        invariant k <= |elems| && k <= |other.elems| && lit == At(k) && rit == other.At(k)
        invariant LexLess(a[k..], b[k..]) == LexLess(a, b)
        decreases |elems| - k
      {
        Walk(k);
        other.Walk(k);
        LexFront(a, b, k);
        if mem.data[lit] < other.mem.data[rit] {
          return true;
        }
        if other.mem.data[rit] < mem.data[lit] {
          return false;
        }
        lit, rit, k := mem.next[lit], other.mem.next[rit], k + 1;
      }
      Walk(k);
      other.Walk(k);
      r := lit == head && rit != other.head;
    }

    /** `lhs <= rhs`: the same loop; running out together counts as `<=`. */
    method LessEq(other: List) returns (r: bool)
      requires Valid() && other.Valid()
      ensures r == LexLessEq(Contents(), other.Contents())
      ensures r <==> LexLess(Contents(), other.Contents()) || Contents() == other.Contents()
    {
      ghost var a, b := Contents(), other.Contents();
      var lit, rit := mem.next[head], other.mem.next[other.head];
      ghost var k := 0;
      Walk(0);
      other.Walk(0);
      assert a[0..] == a && b[0..] == b;
      while lit != head && rit != other.head
        invariant k <= |elems| && k <= |other.elems| && lit == At(k) && rit == other.At(k)
        invariant LexLessEq(a[k..], b[k..]) == LexLessEq(a, b)
        decreases |elems| - k
      {
        Walk(k);
        other.Walk(k);
        LexFront(a, b, k);
        if mem.data[lit] < other.mem.data[rit] {
          LexLessEqIsLessOrEqual(a, b);
          return true;
        }
        if other.mem.data[rit] < mem.data[lit] {
          LexLessEqIsLessOrEqual(a, b);
          return false;
        }
        lit, rit, k := mem.next[lit], other.mem.next[rit], k + 1;
      }
      Walk(k);
      other.Walk(k);
      r := lit == head;
      LexLessEqIsLessOrEqual(a, b);
    }
  }
}
