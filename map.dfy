/**
 * `wijagels::map<int, int>`: an ordered map kept in a skip list of
 * key/value pairs whose comparator looks at the keys alone. Iterators are
 * the skip list's node slots, with slot 0 (the sentinel) as `end()`.
 */
module Maps {
  import opened Seqs
  import opened SkipOrder
  import opened SkipLists

  /** `mapped_type{}`, the value `operator[]` inserts for a missing key. */
  const DefaultValue: int := 0

  /** The outcome of `at`: the mapped value, or the `out_of_range` exception. */
  datatype Mapped = Mapped(value: int) | OutOfRange

  /** `value_compare` on two pairs: their keys alone decide. */
  predicate ValueLess(a: Entry<int>, b: Entry<int>) {
    a.key < b.key
  }

  /** `value_compare` on a key and a pair. */
  predicate KeyValueLess(k: int, b: Entry<int>) {
    k < b.key
  }

  /** `value_compare` on a pair and a key. */
  predicate ValueKeyLess(a: Entry<int>, k: int) {
    a.key < k
  }

  /**
   * `value_compare` is the skip list's order on pairs; it ignores the
   * mapped values, and the mixed overloads agree with comparing the pair
   * that carries the key.
   */
  lemma ValueCompareKeysOnly(a: Entry<int>, b: Entry<int>, v: int, w: int)
    ensures ValueLess(a, b) == Less(a, b)
    ensures ValueLess(a, b) == ValueLess(Entry(a.key, v), Entry(b.key, w))
    ensures KeyValueLess(a.key, b) == ValueLess(a, b) && ValueKeyLess(a, b.key) == ValueLess(a, b)
  {
  }

  /**
   * Among the keys `[1, 3]` the key 2 is absent, yet an element not below
   * it (and one above it) exists at index 1: `lower_bound(2)` and
   * `upper_bound(2)` should point there, while the map's versions give
   * `end()`.
   */
  lemma AbsentKeyHasBounds()
    ensures var keys := [1, 3]; 2 !in keys && LowerBound(keys, 2) == 1 && keys[1] > 2
  {
    assert LowerBound([3], 2) == 0;
  }

  class Map {
    /** `container_`. */
    const tree: SkipList<int>

    ghost predicate Valid()
      reads this, tree
    {
      tree.Valid()
    }

    /** The pairs in iteration order. */
    ghost function Contents(): seq<Entry<int>>
      reads this, tree
      requires Valid()
    {
      tree.Contents()
    }

    ghost function Keys(): (r: seq<int>)
      reads this, tree
      requires Valid()
      ensures |r| == |tree.elems|
    {
      tree.Keys()
    }

    /** How many keys are below `k`: the index of the element holding `k` when it is present. */
    ghost function Rank(k: int): (r: nat)
      reads this, tree
      requires Valid()
      ensures r <= |tree.elems| && (k in Keys() ==> r < |tree.elems|)
    {
      LowerBoundSorted(Keys(), k);
      SkipOrder.LowerBound(Keys(), k)
    }

    /** How many keys are not above `k`. */
    ghost function UpperRank(k: int): (r: nat)
      reads this, tree
      requires Valid()
      ensures r <= |tree.elems|
    {
      if k in Keys() then Rank(k) + 1 else Rank(k)
    }

    /** The value mapped to a present key. */
    ghost function Value(k: int): int
      reads this, tree
      requires Valid() && k in Keys()
    {
      Contents()[Rank(k)].val
    }

    /** Iteration visits the pairs in strictly ascending key order. */
    lemma Ascending()
      requires Valid()
      ensures forall i, j :: 0 <= i < j < |Contents()| ==> Contents()[i].key < Contents()[j].key
    {
      forall i, j | 0 <= i < j < |Contents()|
        ensures Contents()[i].key < Contents()[j].key
      {
        assert Keys()[i] < Keys()[j];
      }
    }

    /** `UpperRank(k)` is the index of the first key above `k`. */
    lemma UpperRankIs(k: int)
      requires Valid()
      ensures forall i :: 0 <= i < UpperRank(k) ==> Keys()[i] <= k
      ensures UpperRank(k) < |Keys()| ==> Keys()[UpperRank(k)] > k
    {
      LowerBoundSorted(Keys(), k);
    }

    /** An element's pair is the key and value the map holds for it. */
    lemma ValueOf(pos: nat)
      requires Valid() && pos in tree.elems
      ensures tree.vals[pos].key in Keys() && Rank(tree.vals[pos].key) == IndexOf(tree.elems, pos)
      ensures tree.At(Rank(tree.vals[pos].key)) == pos && Value(tree.vals[pos].key) == tree.vals[pos].val
    {
      tree.KeyIndex(pos);
    }

    /** `map()`: an empty map. */
    constructor()
      ensures Valid() && Contents() == [] && fresh(tree)
    {
      tree := new SkipList<int>();
    }

    /** `find(k)`: the element holding `k`, or `end()`. */
    method Find(k: int) returns (pos: nat)
      requires Valid()
      ensures k in Keys() ==> pos == tree.At(Rank(k)) && pos != 0
      ensures k !in Keys() ==> pos == 0
    {
      pos := tree.Find(k);
    }

    /** `at(k)`: the mapped value, or `out_of_range` exactly when `k` is absent. */
    method At(k: int) returns (r: Mapped)
      requires Valid()
      ensures k !in Keys() <==> r == OutOfRange
      ensures k in Keys() ==> r == Mapped(Value(k))
    {
      var pos := Find(k);
      if pos == 0 {
        return OutOfRange;
      }
      ValueOf(pos);
      r := Mapped(tree.vals[pos].val);
    }

    /**
     * `operator[](k)`: the value mapped to `k`; when `k` is absent,
     * `(k, mapped_type{})` is emplaced first, with a tower of height `lvl`.
     */
    method Index(k: int, lvl: nat) returns (v: int)
      requires Valid() && lvl >= 1
      modifies tree
      ensures Valid() && k in Keys() && Value(k) == v
      ensures k in old(Keys()) ==> v == old(Value(k)) && unchanged(tree)
      ensures k !in old(Keys()) ==> v == DefaultValue && Contents() == InsertOne(old(Contents()), Entry(k, DefaultValue))
    {
      var pos := Find(k);
      if pos != 0 {
        ValueOf(pos);
        return tree.vals[pos].val;
      }
      var inserted;
      pos, inserted := tree.Insert(Entry(k, DefaultValue), lvl);
      ValueOf(pos);
      v := tree.vals[pos].val;
    }

    /**
     * `insert(value)` and `emplace(k, v)`: the pair goes in when its key is
     * absent; a present key keeps its value.
     */
    method Insert(e: Entry<int>, lvl: nat) returns (pos: nat, inserted: bool)
      requires Valid() && lvl >= 1
      modifies tree
      ensures Valid() && Contents() == InsertOne(old(Contents()), e)
      ensures inserted <==> e.key !in old(Keys())
      ensures e.key in Keys() && pos == tree.At(Rank(e.key))
      ensures Value(e.key) == if inserted then e.val else old(Value(e.key))
      ensures !inserted ==> unchanged(tree)
    {
      pos, inserted := tree.Insert(e, lvl);
      ValueOf(pos);
    }

    /** `erase(k)`: the skip list's count of removed elements, 0 or 1. */
    method EraseKey(k: int) returns (count: nat)
      requires Valid()
      modifies tree
      ensures Valid() && k !in Keys()
      ensures count == (if k in old(Keys()) then 1 else 0)
      ensures k in old(Keys()) ==> var q := old(Rank(k));
        Contents() == old(Contents()[..q] + Contents()[q + 1..])
      ensures k !in old(Keys()) ==> unchanged(tree)
    {
      count := tree.EraseKey(k);
    }

    /**
     * `extract(k)`: the node holding `k`, unlinked, or an empty handle when
     * `k` is absent. Inserting the extracted pair again restores the map.
     */
    method Extract(k: int) returns (nh: NodeHandle<int>)
      requires Valid()
      modifies tree
      ensures Valid() && k !in Keys()
      ensures k in old(Keys()) ==> var q := old(Rank(k));
        nh.Holding? && nh.data == Entry(k, old(Value(k))) && Contents() == old(Contents()[..q] + Contents()[q + 1..])
      ensures k !in old(Keys()) ==> nh == NoNode && unchanged(tree)
      ensures nh.Holding? ==> InsertOne(Contents(), nh.data) == old(Contents())
    {
      var pos := Find(k);
      if pos != 0 {
        ValueOf(pos);
        ExtractReinsert(Contents(), Rank(k));
        nh := tree.Extract(pos);
      } else {
        nh := NoNode;
      }
    }

    /** `count(k)`: 1 when `find(k)` is not `end()`, else 0. */
    method Count(k: int) returns (n: nat)
      requires Valid()
      ensures n == (if k in Keys() then 1 else 0)
    {
      var pos := Find(k);
      n := if pos != 0 then 1 else 0;
    }

    /** `equal_range(k)`: the element holding `k` and its successor, or `(end(), end())`. */
    method EqualRange(k: int) returns (lo: nat, hi: nat)
      requires Valid()
      ensures k in Keys() ==> lo == tree.At(Rank(k)) && hi == tree.At(Rank(k) + 1)
      ensures k !in Keys() ==> lo == 0 && hi == 0
    {
      lo := Find(k);
      hi := lo;
      if lo != 0 {
        tree.Level0(Rank(k));
        hi := tree.Next(Iter(lo, 0)).node;
      }
    }

    /** `lower_bound(k)` as written: `find(k)`, so `end()` for every absent key (see `AbsentKeyHasBounds`). */
    method LowerBoundAsWritten(k: int) returns (pos: nat)
      requires Valid()
      ensures pos == if k in Keys() then tree.At(Rank(k)) else 0
    {
      pos := Find(k);
    }

    /** `lower_bound(k)` as evidently meant: the first element whose key is not below `k`, or `end()`. */
    method LowerBound(k: int) returns (pos: nat)
      requires Valid()
      ensures pos == tree.At(Rank(k))
    {
      var absent;
      pos, absent := tree.FindPos(0, k);
    }

    /** `upper_bound(k)` as written: the successor of the element holding `k`, or `end()` when `k` is absent. */
    method UpperBoundAsWritten(k: int) returns (pos: nat)
      requires Valid()
      ensures pos == if k in Keys() then tree.At(Rank(k) + 1) else 0
    {
      pos := Find(k);
      if pos != 0 {
        tree.Level0(Rank(k));
        pos := tree.Next(Iter(pos, 0)).node;
      }
    }

    /** `upper_bound(k)` as evidently meant: the first element whose key is above `k` (see `UpperRankIs`), or `end()`. */
    method UpperBound(k: int) returns (pos: nat)
      requires Valid()
      ensures pos == tree.At(UpperRank(k))
    {
      var absent;
      pos, absent := tree.FindPos(0, k);
      if !absent {
        tree.Level0(Rank(k));
        pos := tree.Next(Iter(pos, 0)).node;
      }
    }
  }
}
