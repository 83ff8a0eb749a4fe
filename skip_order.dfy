/**
 * The order a skip list keeps: its elements, the comparator, where a key
 * belongs, and what a run of insertions leaves behind.
 *
 * An element is an `Entry`: the comparator looks at `key` alone and `val`
 * is the part of the value it ignores. A `skiplist<int>` is a skip list of
 * `Entry<()>`; the container behind `map<int, int>` is one of `Entry<int>`.
 */
module SkipOrder {
  import opened Seqs
  import Lex

  datatype Entry<V> = Entry(key: int, val: V)

  /** The comparator `d_comp`: a strict order on keys. */
  predicate Less<V>(a: Entry<V>, b: Entry<V>) {
    a.key < b.key
  }

  /** The keys of `s`, in order. */
  function KeysOf<V>(s: seq<Entry<V>>): seq<int> {
    seq(|s|, i requires 0 <= i < |s| => s[i].key)
  }

  lemma KeysOfAppend<V>(a: seq<Entry<V>>, b: seq<Entry<V>>)
    ensures KeysOf(a + b) == KeysOf(a) + KeysOf(b)
  {
    assert |KeysOf(a + b)| == |KeysOf(a) + KeysOf(b)|;
    forall i | 0 <= i < |a + b|
      ensures KeysOf(a + b)[i] == (KeysOf(a) + KeysOf(b))[i]
    {
    }
  }

  lemma KeysOfSlice<V>(s: seq<Entry<V>>, i: nat, j: nat)
    requires i <= j <= |s|
    ensures KeysOf(s[i..j]) == KeysOf(s)[i..j]
  {
  }

  ghost predicate StrictlySorted(keys: seq<int>) {
    forall i, j :: 0 <= i < j < |keys| ==> keys[i] < keys[j]
  }

  /** The index of the first key not less than `k` (`|keys|` when there is none). */
  function LowerBound(keys: seq<int>, k: int): (r: nat)
    ensures r <= |keys|
    ensures forall i :: 0 <= i < r ==> keys[i] < k
    ensures r < |keys| ==> keys[r] >= k
  {
    if keys == [] || keys[0] >= k then 0 else 1 + LowerBound(keys[1..], k)
  }

  /** The two properties in `LowerBound`'s contract pin the index down. */
  lemma LowerBoundIs(keys: seq<int>, k: int, q: nat)
    requires q <= |keys|
    requires forall i :: 0 <= i < q ==> keys[i] < k
    requires q < |keys| ==> keys[q] >= k
    ensures LowerBound(keys, k) == q
  {
  }

  /** In a strictly ascending sequence, `k` is present exactly at its lower bound. */
  lemma LowerBoundSorted(keys: seq<int>, k: int)
    requires StrictlySorted(keys)
    ensures forall i :: LowerBound(keys, k) <= i < |keys| ==> keys[i] >= k
    ensures k in keys <==> LowerBound(keys, k) < |keys| && keys[LowerBound(keys, k)] == k
    ensures LowerBound(keys, k) < |keys| && keys[LowerBound(keys, k)] > k ==> forall i :: LowerBound(keys, k) <= i < |keys| ==> keys[i] > k
  {
  }

  /** Inserting a key at its lower bound keeps the sequence strictly ascending. */
  lemma InsertAtLowerBound(keys: seq<int>, k: int)
    requires StrictlySorted(keys) && k !in keys
    ensures var q := LowerBound(keys, k); StrictlySorted(keys[..q] + [k] + keys[q..])
  {
    LowerBoundSorted(keys, k);
  }

  /**
   * What `insert` does to the level-0 contents: nothing when an element
   * with the same key is present, otherwise `e` goes in at its lower bound.
   */
  function InsertOne<V>(s: seq<Entry<V>>, e: Entry<V>): seq<Entry<V>> {
    if e.key in KeysOf(s) then s
    else
      var q := LowerBound(KeysOf(s), e.key);
      s[..q] + [e] + s[q..]
  }

  lemma InsertOneKeys<V>(s: seq<Entry<V>>, e: Entry<V>)
    requires StrictlySorted(KeysOf(s))
    ensures StrictlySorted(KeysOf(InsertOne(s, e)))
    ensures forall k :: k in KeysOf(InsertOne(s, e)) <==> k in KeysOf(s) || k == e.key
    ensures forall x :: x in s ==> x in InsertOne(s, e)
  {
    if e.key !in KeysOf(s) {
      var q := LowerBound(KeysOf(s), e.key);
      var r := s[..q] + [e] + s[q..];
      KeysOfAppend(s[..q] + [e], s[q..]);
      KeysOfAppend(s[..q], [e]);
      KeysOfSlice(s, 0, q);
      KeysOfSlice(s, q, |s|);
      assert s[..q] == s[0..q] && s[q..] == s[q..|s|];
      var ks := KeysOf(s);
      assert KeysOf(r) == ks[..q] + [e.key] + ks[q..];
      InsertAtLowerBound(ks, e.key);
      assert ks == ks[..q] + ks[q..];
      assert InsertOne(s, e) == r;
      forall x | x in s
        ensures x in r
      {
        assert s == s[..q] + s[q..];
      }
    }
  }

  /** The contents after inserting each of `xs`, in order, into `s`. */
  function InsertEach<V>(s: seq<Entry<V>>, xs: seq<Entry<V>>): seq<Entry<V>> {
    if xs == [] then s else InsertOne(InsertEach(s, xs[..|xs| - 1]), xs[|xs| - 1])
  }

  /** Before `merge` has looked at the source, nothing has been inserted and nothing is kept. */
  lemma MergeInit<V>(t: seq<Entry<V>>, src: seq<Entry<V>>, ks: seq<int>)
    ensures InsertEach(t, src[..0]) == t && Sift(src[..0], ks, true) == [] && [] + src[0..] == src
  {
    PrefixNone(src);
  }

  /** Inserting one more element of the source extends the run by one `InsertOne`. */
  lemma InsertEachStep<V>(s: seq<Entry<V>>, xs: seq<Entry<V>>, i: nat)
    requires i < |xs|
    ensures InsertEach(s, xs[..i + 1]) == InsertOne(InsertEach(s, xs[..i]), xs[i])
  {
    assert xs[..i + 1][..i] == xs[..i];
  }

  /**
   * After any run of insertions the keys are strictly ascending and are
   * exactly the keys present before and the inserted ones; no element
   * present before is displaced.
   */
  lemma {:induction false} InsertEachKeys<V>(s: seq<Entry<V>>, xs: seq<Entry<V>>)
    requires StrictlySorted(KeysOf(s))
    ensures StrictlySorted(KeysOf(InsertEach(s, xs)))
    ensures forall k :: k in KeysOf(InsertEach(s, xs)) <==> k in KeysOf(s) || k in KeysOf(xs)
    ensures forall x :: x in s ==> x in InsertEach(s, xs)
    decreases |xs|
  {
    if xs != [] {
      var init := xs[..|xs| - 1];
      InsertEachKeys(s, init);
      InsertOneKeys(InsertEach(s, init), xs[|xs| - 1]);
      assert xs == init + [xs[|xs| - 1]];
      KeysOfAppend(init, [xs[|xs| - 1]]);
      assert KeysOf(xs) == KeysOf(init) + [xs[|xs| - 1].key];
      assert InsertEach(s, xs) == InsertOne(InsertEach(s, init), xs[|xs| - 1]);
    }
  }

  /** An element whose key is above every key present goes at the end. */
  lemma InsertOneLast<V>(s: seq<Entry<V>>, e: Entry<V>)
    requires forall i :: 0 <= i < |s| ==> s[i].key < e.key
    ensures InsertOne(s, e) == s + [e]
  {
    LowerBoundIs(KeysOf(s), e.key, |s|);
  }

  /** A strictly ascending sequence is determined by the set of its members. */
  lemma {:induction false} SortedUnique(a: seq<int>, b: seq<int>)
    requires StrictlySorted(a) && StrictlySorted(b)
    requires forall k :: k in a <==> k in b
    ensures a == b
    decreases |a|
  {
    if a != [] {
      assert a[0] in a;
    }
    if b != [] {
      assert b[0] in b;
    }
    if a != [] && b != [] {
      var i :| 0 <= i < |b| && b[i] == a[0];
      var j :| 0 <= j < |a| && a[j] == b[0];
      assert b[0] <= a[0] && a[0] <= b[0];
      forall k | k in a[1..]
        ensures k in b[1..]
      {
        var i' :| 0 <= i' < |a| - 1 && a[i' + 1] == k;
        assert k in a;
        var j' :| 0 <= j' < |b| && b[j'] == k;
        assert j' != 0;
        assert b[1..][j' - 1] == k;
      }
      forall k | k in b[1..]
        ensures k in a[1..]
      {
        var i' :| 0 <= i' < |b| - 1 && b[i' + 1] == k;
        assert k in b;
        var j' :| 0 <= j' < |a| && a[j'] == k;
        assert j' != 0;
        assert a[1..][j' - 1] == k;
      }
      SortedUnique(a[1..], b[1..]);
      assert a == [a[0]] + a[1..] && b == [b[0]] + b[1..];
    }
  }

  /**
   * Taking element `k` out of a strictly ascending list and inserting it
   * again gives back the list: the round trip of `extract` and
   * node-handle `insert`.
   */
  lemma ExtractReinsert<V>(s: seq<Entry<V>>, k: nat)
    requires StrictlySorted(KeysOf(s)) && k < |s|
    ensures s[k].key !in KeysOf(s[..k] + s[k + 1..])
    ensures InsertOne(s[..k] + s[k + 1..], s[k]) == s
  {
    var r := s[..k] + s[k + 1..];
    RemovedKeys(s, k);
    LowerBoundIs(KeysOf(r), s[k].key, k);
    assert r[..k] + [s[k]] + r[k..] == s;
  }

  /** The keys left after removing the `k`th element, compared with its key. */
  lemma RemovedKeys<V>(s: seq<Entry<V>>, k: nat)
    requires StrictlySorted(KeysOf(s)) && k < |s|
    ensures var kr := KeysOf(s[..k] + s[k + 1..]);
      |kr| == |s| - 1
      && (forall i :: 0 <= i < k ==> kr[i] < s[k].key)
      && (forall i :: k <= i < |kr| ==> kr[i] > s[k].key)
  {
    var kr := KeysOf(s[..k] + s[k + 1..]);
    forall i | 0 <= i < k
      ensures kr[i] < s[k].key
    {
      assert kr[i] == KeysOf(s)[i];
      assert KeysOf(s)[i] < KeysOf(s)[k];
    }
    forall i | k <= i < |kr|
      ensures kr[i] > s[k].key
    {
      assert kr[i] == KeysOf(s)[i + 1];
      assert KeysOf(s)[k] < KeysOf(s)[i + 1];
    }
  }

  /** Removing an element keeps the keys strictly ascending. */
  lemma RemoveSorted<V>(s: seq<Entry<V>>, k: nat)
    requires StrictlySorted(KeysOf(s)) && k < |s|
    ensures StrictlySorted(KeysOf(s[..k] + s[k + 1..]))
  {
    var kr := KeysOf(s[..k] + s[k + 1..]);
    forall i, j | 0 <= i < j < |kr|
      ensures kr[i] < kr[j]
    {
      var i' := if i < k then i else i + 1;
      var j' := if j < k then j else j + 1;
      assert kr[i] == KeysOf(s)[i'] && kr[j] == KeysOf(s)[j'];
    }
  }

  /** The elements of `s` whose key occurs in `ks` (`keep`) or does not (`!keep`), in order. */
  function Sift<V>(s: seq<Entry<V>>, ks: seq<int>, keep: bool): (r: seq<Entry<V>>)
    ensures |r| <= |s|
    ensures forall i :: 0 <= i < |r| ==> (r[i].key in ks) == keep
  {
    if s == [] then []
    else
      var last := s[|s| - 1];
      Sift(s[..|s| - 1], ks, keep) + (if (last.key in ks) == keep then [last] else [])
  }

  /**
   * While `merge` walks the source, the key of its next element is in the
   * target exactly when it was there before the merge began: the elements
   * moved so far all have smaller keys.
   */
  lemma MergeStep<V>(t: seq<Entry<V>>, src: seq<Entry<V>>, i: nat)
    requires StrictlySorted(KeysOf(t)) && StrictlySorted(KeysOf(src)) && i < |src|
    ensures src[i].key in KeysOf(InsertEach(t, src[..i])) <==> src[i].key in KeysOf(t)
  {
    InsertEachKeys(t, src[..i]);
    forall j | 0 <= j < i
      ensures KeysOf(src[..i])[j] != src[i].key
    {
      assert KeysOf(src)[j] < KeysOf(src)[i];
    }
  }

  /**
   * The source side of one step of `merge`: the sifted prefix grows by
   * the element when its key was in the target, and the element leaves
   * the source otherwise.
   */
  lemma MergeSourceStep<V>(src: seq<Entry<V>>, ks: seq<int>, i: nat, c: seq<Entry<V>>)
    requires i < |src| && c == Sift(src[..i], ks, true) + src[i..]
    ensures var k := |Sift(src[..i], ks, true)|;
      k < |c| && c[k] == src[i]
      && (if src[i].key in ks then c else c[..k] + c[k + 1..]) == Sift(src[..i + 1], ks, true) + src[i + 1..]
  {
    assert src[..i + 1][..i] == src[..i];
    var k := |Sift(src[..i], ks, true)|;
    assert c[k] == src[i];
    assert src[i..] == [src[i]] + src[i + 1..];
  }

  /**
   * `merge` loses and duplicates nothing: the elements the target gains
   * and the elements the source keeps add up to the source's elements.
   */
  lemma {:induction false} MergeCount<V>(t: seq<Entry<V>>, src: seq<Entry<V>>)
    requires StrictlySorted(KeysOf(t)) && StrictlySorted(KeysOf(src))
    ensures |InsertEach(t, src)| + |Sift(src, KeysOf(t), true)| == |t| + |src|
    decreases |src|
  {
    if src != [] {
      var n := |src| - 1;
      var init := src[..n];
      assert KeysOf(init) == KeysOf(src)[..n];
      MergeCount(t, init);
      MergeStep(t, src, n);
      assert InsertEach(t, src) == InsertOne(InsertEach(t, init), src[n]);
    }
  }

  /** Inserting elements whose keys are all present changes nothing. */
  lemma {:induction false} InsertEachPresent<V>(s: seq<Entry<V>>, xs: seq<Entry<V>>)
    requires forall i :: 0 <= i < |xs| ==> xs[i].key in KeysOf(s)
    ensures InsertEach(s, xs) == s
    decreases |xs|
  {
    if xs != [] {
      InsertEachPresent(s, xs[..|xs| - 1]);
    }
  }

  /** Sifting for keys that all occur keeps everything. */
  lemma {:induction false} SiftAll<V>(s: seq<Entry<V>>, ks: seq<int>)
    requires forall i :: 0 <= i < |s| ==> s[i].key in ks
    ensures Sift(s, ks, true) == s
    decreases |s|
  {
    if s != [] {
      SiftAll(s[..|s| - 1], ks);
      assert s == s[..|s| - 1] + [s[|s| - 1]];
    }
  }

  /**
   * The merge formula describes merging a skip list into itself as a
   * no-op: every key of the source is already in the target, so nothing
   * moves and the source keeps everything.
   */
  lemma MergeSelf<V>(s: seq<Entry<V>>)
    ensures InsertEach(s, s) == s && Sift(s, KeysOf(s), true) == s
  {
    forall i | 0 <= i < |s|
      ensures s[i].key in KeysOf(s)
    {
      assert KeysOf(s)[i] == s[i].key;
    }
    InsertEachPresent(s, s);
    SiftAll(s, KeysOf(s));
  }

  /* ---- The relational operators of `skiplist` ---- */

  /** `std::lexicographical_compare` with the comparator: `operator<`. */
  function LexLess<V>(a: seq<Entry<V>>, b: seq<Entry<V>>): bool {
    if a == [] then b != []
    else if b == [] then false
    else if Less(a[0], b[0]) then true
    else if Less(b[0], a[0]) then false
    else LexLess(a[1..], b[1..])
  }

  /**
   * Comparing with the comparator is comparing the key sequences: the
   * skip list's `operator<` is the lexicographic order of `list` and
   * `vector` applied to the keys.
   */
  lemma {:induction false} LexLessByKeys<V>(a: seq<Entry<V>>, b: seq<Entry<V>>)
    ensures LexLess(a, b) == Lex.LexLess(KeysOf(a), KeysOf(b))
    decreases |a|
  {
    if a != [] && b != [] {
      LexLessByKeys(a[1..], b[1..]);
      assert KeysOf(a[1..]) == KeysOf(a)[1..] && KeysOf(b[1..]) == KeysOf(b)[1..];
    }
  }

  /**
   * `operator==` as written: `std::equal` with `value_comp()` as the
   * "equal" predicate, so it holds when every element is LESS than its
   * partner.
   */
  function EqualAsWritten<V>(a: seq<Entry<V>>, b: seq<Entry<V>>): bool {
    |a| == |b| && forall i :: 0 <= i < |a| ==> Less(a[i], b[i])
  }

  /** `operator<=` as written: `lhs < rhs || lhs == rhs`. */
  function LessEqAsWritten<V>(a: seq<Entry<V>>, b: seq<Entry<V>>): bool {
    LexLess(a, b) || EqualAsWritten(a, b)
  }

  /** A list is never `==` (nor `<=`) to itself under the operator as written, unless it is empty. */
  lemma EqualAsWrittenIrreflexive<V>(a: seq<Entry<V>>)
    requires a != []
    ensures !EqualAsWritten(a, a)
    ensures !LessEqAsWritten(a, a)
  {
    assert !Less(a[0], a[0]);
    LexIrreflexive(a);
  }

  /** The smallest instance: the one-element list {1} is not equal to itself. */
  lemma EqualAsWrittenCounterexample()
    ensures !EqualAsWritten([Entry(1, ())], [Entry(1, ())])
  {
    EqualAsWrittenIrreflexive([Entry(1, ())]);
  }

  /** The intended `operator==`: equal lengths and each pair equivalent under the comparator. */
  function Equivalent<V>(a: seq<Entry<V>>, b: seq<Entry<V>>): bool {
    |a| == |b| && forall i :: 0 <= i < |a| ==> !Less(a[i], b[i]) && !Less(b[i], a[i])
  }

  /** The intended `operator<=`. */
  function LessEq<V>(a: seq<Entry<V>>, b: seq<Entry<V>>): bool {
    LexLess(a, b) || Equivalent(a, b)
  }

  lemma {:induction false} LexIrreflexive<V>(a: seq<Entry<V>>)
    ensures !LexLess(a, a)
    decreases |a|
  {
    if a != [] {
      LexIrreflexive(a[1..]);
    }
  }

  /** Equivalence is what the comparator cannot tell apart: equal key sequences. */
  lemma EquivalentKeys<V>(a: seq<Entry<V>>, b: seq<Entry<V>>)
    ensures Equivalent(a, b) <==> KeysOf(a) == KeysOf(b)
  {
    if KeysOf(a) == KeysOf(b) {
      assert |a| == |KeysOf(a)|;
      forall i | 0 <= i < |a|
        ensures a[i].key == b[i].key
      {
        assert KeysOf(a)[i] == KeysOf(b)[i];
      }
    }
  }

  /** Exactly one of `a < b`, `b < a` and the intended `a == b` holds. */
  lemma {:induction false} LexTrichotomy<V>(a: seq<Entry<V>>, b: seq<Entry<V>>)
    ensures LexLess(a, b) || LexLess(b, a) || Equivalent(a, b)
    ensures !(LexLess(a, b) && LexLess(b, a))
    ensures !(LexLess(a, b) && Equivalent(a, b))
    ensures !(LexLess(b, a) && Equivalent(a, b))
    decreases |a|
  {
    if a != [] && b != [] && !Less(a[0], b[0]) && !Less(b[0], a[0]) {
      LexTrichotomy(a[1..], b[1..]);
      if Equivalent(a[1..], b[1..]) {
        assert Equivalent(a, b) by {
          forall i | 0 <= i < |a|
            ensures !Less(a[i], b[i]) && !Less(b[i], a[i])
          {
            if i > 0 {
              assert a[i] == a[1..][i - 1] && b[i] == b[1..][i - 1];
            }
          }
        }
      }
      if Equivalent(a, b) {
        assert Equivalent(a[1..], b[1..]) by {
          forall i | 0 <= i < |a[1..]|
            ensures !Less(a[1..][i], b[1..][i]) && !Less(b[1..][i], a[1..][i])
          {
            assert a[1..][i] == a[i + 1] && b[1..][i] == b[i + 1];
          }
        }
      }
    } else if a != [] && b != [] {
      assert !Equivalent(a, b) by {
        assert !(!Less(a[0], b[0]) && !Less(b[0], a[0]));
      }
    }
  }

  /** The intended `<=` is the negation of `>`, as for the standard containers. */
  lemma LessEqIsNotGreater<V>(a: seq<Entry<V>>, b: seq<Entry<V>>)
    ensures LessEq(a, b) <==> !LexLess(b, a)
  {
    LexTrichotomy(a, b);
  }
}
