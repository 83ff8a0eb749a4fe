/**
 * `wijagels::stack<int>`: a last-in first-out adapter over the list `c`,
 * whose back is the top of the stack.
 */
module Stacks {
  import opened ListRings
  import opened Lists

  /** The stack after pushing `v`: it goes on top. */
  function Pushed(s: seq<int>, v: int): (r: seq<int>)
    ensures |r| == |s| + 1 && r[..|s|] == s && r[|s|] == v
  {
    s + [v]
  }

  /** The top of a non-empty stack: its last element. */
  function TopOf(s: seq<int>): int
    requires s != []
  {
    s[|s| - 1]
  }

  /** The stack after popping: its top removed. */
  function Popped(s: seq<int>): seq<int>
    requires s != []
  {
    s[..|s| - 1]
  }

  /** The last-in first-out laws: a pushed value is the top, and popping it restores the stack. */
  lemma PushPop(s: seq<int>, v: int)
    ensures TopOf(Pushed(s, v)) == v && Popped(Pushed(s, v)) == s
  {
  }

  class Stack {
    /** The underlying container `c`. */
    const c: List

    ghost predicate Valid()
      reads this, c, c.mem
    {
      c.Valid()
    }

    /** The values from the bottom to the top. */
    ghost function Contents(): seq<int>
      reads this, c, c.mem
      requires Valid()
    {
      c.Contents()
    }

    /** `stack()`: over an empty list allocated in `m`. */
    constructor(m: Memory)
      requires |m.prev| == |m.next|
      modifies m
      ensures Valid() && Contents() == [] && c.mem == m && fresh(c)
      ensures Keeps(old(m.prev), old(m.next), old(m.data), m.prev, m.next, m.data, [])
    {
      c := new List(m);
    }

    /** `top()`: `c.back()`; the source leaves an empty stack undefined. */
    function Top(): (r: int)
      reads this, c, c.mem
      requires Valid() && Contents() != []
      ensures r == TopOf(Contents())
    {
      c.Back()
    }

    /** `empty()`: `c.empty()`. */
    function Empty(): (r: bool)
      reads this, c, c.mem
      requires Valid()
      ensures r <==> Contents() == []
    {
      c.Empty()
    }

    /** `push(v)`: `c.push_back(v)`. */
    method Push(v: int)
      requires Valid()
      modifies c, c.mem
      ensures Valid() && Contents() == Pushed(old(Contents()), v) && Top() == v
      ensures Keeps(old(c.mem.prev), old(c.mem.next), old(c.mem.data), c.mem.prev, c.mem.next, c.mem.data, old(c.Ring()))
    {
      c.PushBack(v);
    }

    /** `emplace(v)`: `c.emplace_back(v)`, yielding the node of the new top. */
    method Emplace(v: int) returns (node: nat)
      requires Valid()
      modifies c, c.mem
      ensures Valid() && Contents() == Pushed(old(Contents()), v) && Top() == v
      ensures c.elems[|c.elems| - 1] == node && c.mem.data[node] == v
      ensures Keeps(old(c.mem.prev), old(c.mem.next), old(c.mem.data), c.mem.prev, c.mem.next, c.mem.data, old(c.Ring()))
    {
      node := c.EmplaceBack(v);
    }

    /** `pop()`: `c.pop_back()`; the source leaves an empty stack undefined. */
    method Pop()
      requires Valid() && Contents() != []
      modifies c, c.mem
      ensures Valid() && Contents() == Popped(old(Contents()))
      ensures Keeps(old(c.mem.prev), old(c.mem.next), old(c.mem.data), c.mem.prev, c.mem.next, c.mem.data, old(c.Ring()))
    {
      c.PopBack();
    }

    /** `lhs == rhs`: the containers compare equal. */
    method Equal(other: Stack) returns (r: bool)
      requires Valid() && other.Valid()
      ensures r <==> Contents() == other.Contents()
    {
      r := c.Equal(other.c);
    }
  }
}
