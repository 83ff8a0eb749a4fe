/**
 * The lexicographic order the comparison operators of `list` and `vector`
 * decide: their loops walk both sequences together, stop at the first
 * difference, and otherwise compare the lengths.
 */
module Lex {
  /**
   * `a < b` as the comparison loop decides it: at the first difference the
   * smaller value wins, and if one runs out first it is the smaller.
   */
  function LexLess(a: seq<int>, b: seq<int>): bool {
    if a == [] || b == [] then a == [] && b != []
    else if a[0] < b[0] then true
    else if b[0] < a[0] then false
    else LexLess(a[1..], b[1..])
  }

  /** `a <= b` as its loop decides it: as `LexLess`, but running out together counts too. */
  function LexLessEq(a: seq<int>, b: seq<int>): bool {
    if a == [] || b == [] then a == []
    else if a[0] < b[0] then true
    else if b[0] < a[0] then false
    else LexLessEq(a[1..], b[1..])
  }

  /** One round of the comparison loops at position `k`: decided by the values there, or by the rest. */
  lemma LexFront(a: seq<int>, b: seq<int>, k: nat)
    requires k < |a| && k < |b|
    ensures LexLess(a[k..], b[k..]) == (a[k] < b[k] || (!(b[k] < a[k]) && LexLess(a[k + 1..], b[k + 1..])))
    ensures LexLessEq(a[k..], b[k..]) == (a[k] < b[k] || (!(b[k] < a[k]) && LexLessEq(a[k + 1..], b[k + 1..])))
  {
    assert a[k..][0] == a[k] && a[k..][1..] == a[k + 1..];
    assert b[k..][0] == b[k] && b[k..][1..] == b[k + 1..];
  }

  /** `a` is a proper prefix of `b`, or at their first difference `a` has the smaller value. */
  ghost predicate Precedes(a: seq<int>, b: seq<int>) {
    (|a| < |b| && a == b[..|a|])
    || exists i :: 0 <= i < |a| && i < |b| && a[..i] == b[..i] && a[i] < b[i]
  }

  lemma {:induction false} LexLessToPrecedes(a: seq<int>, b: seq<int>)
    requires LexLess(a, b)
    ensures Precedes(a, b)
  {
    if a == [] {
      assert a == b[..0];
    } else if a[0] < b[0] {
      assert a[..0] == b[..0];
    } else {
      var a', b' := a[1..], b[1..];
      LexLessToPrecedes(a', b');
      if |a'| < |b'| && a' == b'[..|a'|] {
        assert a == [a[0]] + a' && b[..|a|] == [b[0]] + b'[..|a'|];
      } else {
        var i :| 0 <= i < |a'| && i < |b'| && a'[..i] == b'[..i] && a'[i] < b'[i];
        assert a[..i + 1] == [a[0]] + a'[..i] && b[..i + 1] == [b[0]] + b'[..i];
        assert a[i + 1] < b[i + 1];
      }
    }
  }

  /** A proper prefix is smaller. */
  lemma {:induction false} PrefixLess(a: seq<int>, b: seq<int>)
    requires |a| < |b| && a == b[..|a|]
    ensures LexLess(a, b)
  {
    if a != [] {
      assert a[0] == b[0];
      assert a[1..] == b[1..][..|a| - 1];
      PrefixLess(a[1..], b[1..]);
    }
  }

  /** Agreeing up to `i` and smaller at `i` is smaller. */
  lemma {:induction false} FirstDifferenceLess(a: seq<int>, b: seq<int>, i: nat)
    requires i < |a| && i < |b| && a[..i] == b[..i] && a[i] < b[i]
    ensures LexLess(a, b)
  {
    if i > 0 {
      assert a[0] == a[..i][0] == b[..i][0] == b[0];
      assert a[1..][..i - 1] == a[..i][1..] == b[..i][1..] == b[1..][..i - 1];
      FirstDifferenceLess(a[1..], b[1..], i - 1);
    }
  }

  /** The comparison loop decides exactly the lexicographic order. */
  lemma LexLessPrecedes(a: seq<int>, b: seq<int>)
    ensures LexLess(a, b) <==> Precedes(a, b)
  {
    if LexLess(a, b) {
      LexLessToPrecedes(a, b);
    }
    if Precedes(a, b) {
      if |a| < |b| && a == b[..|a|] {
        PrefixLess(a, b);
      } else {
        var i :| 0 <= i < |a| && i < |b| && a[..i] == b[..i] && a[i] < b[i];
        FirstDifferenceLess(a, b, i);
      }
    }
  }

  /** `<=` holds exactly when `<` holds or the sequences are equal. */
  lemma {:induction false} LexLessEqIsLessOrEqual(a: seq<int>, b: seq<int>)
    ensures LexLessEq(a, b) <==> LexLess(a, b) || a == b
  {
    if a != [] && b != [] {
      LexLessEqIsLessOrEqual(a[1..], b[1..]);
      if a[0] == b[0] {
        assert a == [a[0]] + a[1..] && b == [b[0]] + b[1..];
      }
    }
  }

  /** `<` is irreflexive and asymmetric. */
  lemma {:induction false} LexLessAsymmetric(a: seq<int>, b: seq<int>)
    ensures !(LexLess(a, b) && LexLess(b, a))
    ensures !LexLess(a, a)
  {
    if a != [] && b != [] {
      LexLessAsymmetric(a[1..], b[1..]);
    }
    if a != [] {
      LexLessAsymmetric(a[1..], a[1..]);
    }
  }
}
