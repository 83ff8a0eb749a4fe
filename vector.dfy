/**
 * The dynamic array `vector<int>`: a buffer of `capacity` slots whose first
 * `size` slots hold the elements. The buffer grows by doubling, its
 * capacity is always zero or a power of two, and no capacity ever exceeds
 * the allocator's `max_size`. Exceptions become a `Status` or `Result`;
 * every operation that throws does so before it changes anything.
 */
module Vectors {
  import opened Lex

  /** `std::size_t` arithmetic wraps modulo 2^64. */
  const SizeLimit: nat := 0x1_0000_0000_0000_0000

  /** The exceptions the vector throws. */
  datatype Error = LengthError | OverflowError | InvalidArgument | OutOfRange

  datatype Status = Ok | Fail(error: Error)

  datatype Result<T> = Success(value: T) | Failure(error: Error)

  predicate IsPow2(n: nat) {
    if n <= 1 then n == 1 else n % 2 == 0 && IsPow2(n / 2)
  }

  /** The first of `p`, `2p`, `4p`, ... that is at least `n`. */
  function PowAtLeast(n: nat, p: nat): (r: nat)
    requires IsPow2(p)
    ensures IsPow2(r) && n <= r && p <= r && (r == p || r / 2 < n)
    decreases if p < n then n - p else 0
  {
    if p >= n then p else PowAtLeast(n, 2 * p)
  }

  /**
   * `nearest_increment_(n)`: the least power of two that is at least `n`,
   * and at least 1; the source computes it in floating point as
   * `max(1, ceil(2^ceil(log2 n)))`.
   */
  function NearestIncrement(n: nat): (r: nat)
    ensures IsPow2(r) && n <= r && (r == 1 || r / 2 < n)
  {
    PowAtLeast(n, 1)
  }

  /** Of two powers of two, the smaller is at most half the larger. */
  lemma {:induction false} Pow2Below(p: nat, c: nat)
    requires IsPow2(p) && IsPow2(c) && p < c
    ensures 2 * p <= c
    decreases c
  {
    if p > 1 {
      Pow2Below(p / 2, c / 2);
    }
  }

  lemma {:induction false} PowAtLeastBelow(n: nat, p: nat, c: nat)
    requires IsPow2(p) && IsPow2(c) && p <= c && n <= c
    ensures PowAtLeast(n, p) <= c
    decreases c - p
  {
    if p < n {
      Pow2Below(p, c);
      PowAtLeastBelow(n, 2 * p, c);
    }
  }

  /** `nearest_increment_` gives the least power of two not below `n`: no power of two `c >= n` is smaller. */
  lemma NearestLeast(n: nat, c: nat)
    requires IsPow2(c) && n <= c
    ensures NearestIncrement(n) <= c
  {
    PowAtLeastBelow(n, 1, c);
  }

  /** A power of two is its own nearest increment. */
  lemma NearestFixed(c: nat)
    requires IsPow2(c)
    ensures NearestIncrement(c) == c
  {
    NearestLeast(c, c);
  }

  function Max(a: nat, b: nat): nat {
    if a < b then b else a
  }

  function Min(a: nat, b: nat): nat {
    if a < b then a else b
  }

  /** The capacity `grow_` asks `change_capacity_` for: `max(1, 2 * capacity)` in `size_t` arithmetic, capped at `max_size`. */
  function GrowthRequest(capacity: nat, maxSize: nat): nat {
    Min(Max(1, (2 * capacity) % SizeLimit), maxSize)
  }

  /** When doubling fits under `max_size`, `grow_` asks for exactly `max(1, 2 * capacity)` and gets it. */
  lemma GrowthFits(capacity: nat, maxSize: nat)
    requires capacity == 0 || IsPow2(capacity)
    requires 1 <= maxSize && 2 * capacity <= maxSize < SizeLimit
    ensures Max(1, (2 * capacity) % SizeLimit) >= capacity
    ensures GrowthRequest(capacity, maxSize) == Max(1, 2 * capacity)
    ensures NearestIncrement(Max(1, 2 * capacity)) == Max(1, 2 * capacity)
  {
    assert (2 * capacity) % SizeLimit == 2 * capacity;
    if capacity != 0 {
      assert (2 * capacity) / 2 == capacity;
      assert IsPow2(2 * capacity);
    }
    NearestFixed(Max(1, 2 * capacity));
  }

  /** Without wrap-around, the capacity `grow_` asks for has room beyond the current elements. */
  lemma GrowthRoom(size: nat, capacity: nat, maxSize: nat)
    requires size <= capacity && size < maxSize
    requires Max(1, (2 * capacity) % SizeLimit) >= capacity
    ensures size < GrowthRequest(capacity, maxSize)
  {
  }

  /**
   * `grow_()` succeeds: fewer than `max_size` elements, doubling the
   * capacity does not wrap around, and `change_capacity_` accepts the request.
   */
  predicate GrowSucceeds(size: nat, capacity: nat, maxSize: nat) {
    size < maxSize && Max(1, (2 * capacity) % SizeLimit) >= capacity
    && NearestIncrement(GrowthRequest(capacity, maxSize)) <= maxSize
  }

  /** `grow_()` throws `overflow_error`: there is room under `max_size`, but doubling the capacity wraps around. */
  predicate GrowOverflows(size: nat, capacity: nat, maxSize: nat) {
    size < maxSize && Max(1, (2 * capacity) % SizeLimit) < capacity
  }

  /**
   * `reserve(n)` as written hands `n` to `change_capacity_`, which copies all
   * `size` elements into a buffer of `NearestIncrement(n)` slots: the copy
   * stays inside the new buffer only when this holds.
   */
  predicate ReserveFits(size: nat, n: nat) {
    size <= NearestIncrement(n)
  }

  /** `reserve(1)` on a vector of three elements copies them into a buffer of one slot. */
  lemma ReserveOverruns()
    ensures !ReserveFits(3, 1)
  {
    assert NearestIncrement(1) == 1;
  }

  /**
   * `erase(first, last)` as written (`Vector.EraseAsWritten`) returns the
   * index `last` of the shifted vector. The element that followed the
   * erased range now sits at `first`; at `last` sits the one `last - first`
   * places further on. After erasing `[0, 1)` from `[1, 2, 3]` the result
   * points at `3`, not at `2`.
   */
  lemma EraseResultSkips(c: seq<int>, first: nat, last: nat)
    requires first < last <= |c|
    ensures var after := c[..first] + c[last..];
      first != last
      && (last < |c| ==> after[first] == c[last])
      && (last < |after| ==> after[last] == c[last + (last - first)])
  {
  }

  /** After the run `[last, size)` has moved down onto `first`, the prefix up to its end is the sequence without `[first, last)`. */
  lemma GapClosed(b0: seq<int>, b1: seq<int>, first: nat, last: nat, size: nat, it: nat)
    requires first <= last <= size <= |b0| == |b1| && it == size - (last - first)
    requires forall k :: 0 <= k < first ==> b1[k] == b0[k]
    requires forall k :: first <= k < it ==> b1[k] == b0[k + (last - first)]
    ensures b1[..it] == b0[..size][..first] + b0[..size][last..]
  {
  }

  class Vector {
    var buf: array<int>
    var size: nat
    var capacity: nat
    const maxSize: nat

    ghost predicate Valid()
      reads this
    {
      buf.Length == capacity && size <= capacity && capacity <= maxSize < SizeLimit
      && (capacity == 0 || IsPow2(capacity))
    }

    /** The elements, front to back. */
    ghost function Contents(): (r: seq<int>)
      reads this, buf
      requires Valid()
      ensures |r| == size
    {
      buf[..size]
    }

    /** `vector()`: no buffer (a null pointer, modelled as an empty array) and no elements. */
    constructor(maxSize: nat)
      requires maxSize < SizeLimit
      ensures Valid() && fresh(buf) && Contents() == [] && capacity == 0 && this.maxSize == maxSize
    {
      this.maxSize := maxSize;
      buf := new int[0];
      size := 0;
      capacity := 0;
    }

    /**
     * `change_capacity_(n)`: a fresh buffer of `NearestIncrement(n)` slots
     * receives the elements, or `length_error` when that exceeds
     * `max_size`. The copy needs the new buffer to hold them all.
     */
    method ChangeCapacity(n: nat) returns (st: Status)
      requires Valid() && size <= NearestIncrement(n)
      modifies this
      ensures Valid() && size == old(size) && Contents() == old(Contents())
      ensures st == Ok <==> NearestIncrement(n) <= maxSize
      ensures st == Ok ==> fresh(buf) && capacity == NearestIncrement(n)
      ensures st != Ok ==> st == Fail(LengthError) && buf == old(buf) && capacity == old(capacity)
    {
      var newCapacity := NearestIncrement(n);
      if newCapacity > maxSize {
        return Fail(LengthError);
      }
      var newBuf := new int[newCapacity];
      var i := 0;
      while i < size
        invariant i <= size <= newBuf.Length && newBuf[..i] == buf[..i]
        modifies newBuf
      {
        newBuf[i] := buf[i];
        i := i + 1;
      }
      buf := newBuf;
      capacity := newCapacity;
      st := Ok;
    }

    /**
     * `grow_()`: `length_error` when the vector already holds `max_size`
     * elements, `overflow_error` when doubling wraps around, and otherwise
     * `change_capacity_(GrowthRequest(capacity, max_size))`. Once it
     * succeeds there is room for one more element.
     */
    method Grow() returns (st: Status)
      requires Valid()
      modifies this
      ensures Valid() && size == old(size) && Contents() == old(Contents())
      ensures old(size) >= maxSize ==> st == Fail(LengthError)
      ensures st == Ok ==> fresh(buf) && old(size) < capacity && capacity == NearestIncrement(GrowthRequest(old(capacity), maxSize))
      ensures st != Ok ==> buf == old(buf) && capacity == old(capacity)
      ensures old(size) < maxSize && 2 * old(capacity) <= maxSize ==> st == Ok && capacity == Max(1, 2 * old(capacity))
      ensures st == Ok <==> GrowSucceeds(old(size), old(capacity), maxSize)
      ensures st == Fail(OverflowError) <==> GrowOverflows(old(size), old(capacity), maxSize)
      ensures st != Ok && st != Fail(OverflowError) ==> st == Fail(LengthError)
    {
      if size >= maxSize {
        return Fail(LengthError);
      }
      if 2 * capacity <= maxSize {
        GrowthFits(capacity, maxSize);
      }
      var request := Max(1, (2 * capacity) % SizeLimit);
      if request < capacity {
        return Fail(OverflowError);
      }
      GrowthRoom(size, capacity, maxSize);
      request := Min(request, maxSize);
      st := ChangeCapacity(request);
    }

    /** `emplace_back(x)`: grows when full, then writes `x` after the last element; returns its position. */
    method EmplaceBack(x: int) returns (st: Status, it: nat)
      requires Valid()
      modifies this, buf
      ensures Valid()
      ensures st == Ok ==> it == old(size) && Contents() == old(Contents()) + [x]
      ensures st != Ok ==> Contents() == old(Contents()) && buf == old(buf) && capacity == old(capacity)
      ensures old(size) < old(capacity) ==> st == Ok && buf == old(buf) && capacity == old(capacity)
      ensures st == Ok <==> old(size) < old(capacity) || GrowSucceeds(old(size), old(capacity), maxSize)
      ensures st == Fail(OverflowError) <==> old(capacity) <= old(size) && GrowOverflows(old(size), old(capacity), maxSize)
      ensures st != Ok && st != Fail(OverflowError) ==> st == Fail(LengthError)
      ensures old(size) < maxSize && 2 * old(capacity) <= maxSize ==> st == Ok
      ensures buf == old(buf) || fresh(buf)
    {
      it := size;
      if size >= capacity {
        st := Grow();
        if st != Ok {
          return;
        }
      }
      st := Ok;
      buf[size] := x;
      it := size;
      size := size + 1;
    }

    /** `push_back(x)`: as `emplace_back(x)`. */
    method PushBack(x: int) returns (st: Status)
      requires Valid()
      modifies this, buf
      ensures Valid()
      ensures st == Ok ==> Contents() == old(Contents()) + [x]
      ensures st != Ok ==> Contents() == old(Contents()) && buf == old(buf) && capacity == old(capacity)
      ensures old(size) < old(capacity) ==> st == Ok && buf == old(buf) && capacity == old(capacity)
      ensures st == Ok <==> old(size) < old(capacity) || GrowSucceeds(old(size), old(capacity), maxSize)
      ensures st == Fail(OverflowError) <==> old(capacity) <= old(size) && GrowOverflows(old(size), old(capacity), maxSize)
      ensures st != Ok && st != Fail(OverflowError) ==> st == Fail(LengthError)
      ensures old(size) < maxSize && 2 * old(capacity) <= maxSize ==> st == Ok
      ensures buf == old(buf) || fresh(buf)
    {
      var it;
      st, it := EmplaceBack(x);
    }

    /** `pop_back()`: drops the last element; the capacity stays. */
    method PopBack()
      requires Valid() && size > 0
      modifies this
      ensures Valid() && buf == old(buf) && capacity == old(capacity)
      ensures Contents() == old(Contents()[..size - 1])
    {
      size := size - 1;
    }

    /**
     * `shift_after_by_(pos, n)`: moves the elements `[pos, size)` up by `n`
     * slots, from the back, and adds `n` to `size`; the slots `[pos, pos+n)`
     * keep what they held. `invalid_argument` when `n < 1`. The callers
     * make room first.
     */
    method ShiftAfter(pos: nat, n: nat) returns (st: Status)
      requires Valid() && pos <= size && size + n <= capacity
      modifies this, buf
      ensures Valid() && buf == old(buf) && capacity == old(capacity)
      ensures n < 1 ==> st == Fail(InvalidArgument) && size == old(size) && buf[..] == old(buf[..])
      ensures n >= 1 ==> st == Ok && size == old(size) + n
      ensures n >= 1 ==> buf[..pos + n] == old(buf[..pos + n]) && buf[pos + n..size] == old(buf[pos..size])
    {
      if n < 1 {
        return Fail(InvalidArgument);
      }
      ghost var b := buf[..];
      var dest := size + n;
      while dest > pos + n
        invariant pos + n <= dest <= size + n
        modifies buf
        invariant forall k :: 0 <= k < dest ==> buf[k] == b[k]
        invariant forall k :: dest <= k < size + n ==> buf[k] == b[k - n]
        invariant forall k :: size + n <= k < buf.Length ==> buf[k] == b[k]
      {
        dest := dest - 1;
        buf[dest] := buf[dest - n];
      }
      size := size + n;
      st := Ok;
    }

    /** `emplace(pos, x)`: grows when full, shifts the tail up by one and writes `x` at `pos`; returns `pos`. */
    method Emplace(pos: nat, x: int) returns (st: Status, it: nat)
      requires Valid() && pos <= size
      modifies this, buf
      ensures Valid()
      ensures st == Ok ==> it == pos && Contents() == old(Contents()[..pos]) + [x] + old(Contents()[pos..])
      ensures st != Ok ==> Contents() == old(Contents()) && buf == old(buf) && capacity == old(capacity)
      ensures old(size) < old(capacity) ==> st == Ok && buf == old(buf) && capacity == old(capacity)
      ensures st == Ok <==> old(size) < old(capacity) || GrowSucceeds(old(size), old(capacity), maxSize)
      ensures st == Fail(OverflowError) <==> old(capacity) <= old(size) && GrowOverflows(old(size), old(capacity), maxSize)
      ensures st != Ok && st != Fail(OverflowError) ==> st == Fail(LengthError)
      ensures old(size) < maxSize && 2 * old(capacity) <= maxSize ==> st == Ok
      ensures buf == old(buf) || fresh(buf)
    {
      it := pos;
      if size >= capacity {
        st := Grow();
        if st != Ok {
          return;
        }
      }
      st := Ok;
      PlaceAt(pos, x);
    }

    /** The body of `emplace` once there is room: shift the tail up by one, then write `x` into the gap. */
    method PlaceAt(pos: nat, x: int)
      requires Valid() && pos <= size < capacity
      modifies this, buf
      ensures Valid() && buf == old(buf) && capacity == old(capacity)
      ensures Contents() == old(Contents()[..pos]) + [x] + old(Contents()[pos..])
    {
      var st := ShiftAfter(pos, 1);
      buf[pos] := x;
      assert Contents() == buf[..pos] + [x] + buf[pos + 1..size];
    }

    /**
     * The moving part of `erase(first, last)`: the elements from `last`
     * move down onto `first`, then the vacated slots at the back are
     * destroyed one by one, each taking one off `size`.
     */
    method EraseRange(first: nat, last: nat)
      requires Valid() && first <= last <= size
      modifies this, buf
      ensures Valid() && buf == old(buf) && capacity == old(capacity)
      ensures Contents() == old(Contents()[..first] + Contents()[last..])
    {
      var it := CloseGap(first, last);
      DropBack(it);
    }

    /** The first loop of `erase(first, last)`: moves `[last, size)` down onto `first`; returns where the moved run ends. */
    method CloseGap(first: nat, last: nat) returns (it: nat)
      requires Valid() && first <= last <= size
      modifies buf
      ensures it == size - (last - first)
      ensures buf[..it] == old(buf[..size][..first] + buf[..size][last..])
    {
      ghost var b := buf[..];
      var jt := last;
      it := first;
      while jt != size
        invariant first <= it <= jt <= size && jt - it == last - first
        invariant forall k :: 0 <= k < first ==> buf[k] == b[k]
        invariant forall k :: first <= k < it ==> buf[k] == b[k + (last - first)]
        invariant forall k :: jt <= k < size ==> buf[k] == b[k]
      {
        buf[it] := buf[jt];
        it, jt := it + 1, jt + 1;
      }
      GapClosed(b, buf[..], first, last, size, it);
    }

    /** The second loop of `erase(first, last)`: destroys the slots from `it` to the end, one `size` decrement each. */
    method DropBack(it: nat)
      requires Valid() && it <= size
      modifies this
      ensures Valid() && size == it && buf == old(buf) && capacity == old(capacity)
    {
      var i, endIt := it, size;
      while i != endIt
        invariant i <= endIt == old(size) && size + i == endIt + it
        invariant buf == old(buf) && capacity == old(capacity)
        modifies this
      {
        i := i + 1;
        size := size - 1;
      }
    }

    /**
     * `erase(first, last)` as written: it returns `begin() + last`, the
     * position `last` of the shifted vector (see `EraseResultSkips`).
     */
    method EraseAsWritten(first: nat, last: nat) returns (it: nat)
      requires Valid() && first <= last <= size
      modifies this, buf
      ensures Valid() && buf == old(buf) && capacity == old(capacity)
      ensures Contents() == old(Contents()[..first] + Contents()[last..]) && it == last
    {
      EraseRange(first, last);
      it := last;
    }

    /** `erase(first, last)` as evidently meant: returns the position of the element that followed the range. */
    method Erase(first: nat, last: nat) returns (it: nat)
      requires Valid() && first <= last <= size
      modifies this, buf
      ensures Valid() && buf == old(buf) && capacity == old(capacity)
      ensures Contents() == old(Contents()[..first] + Contents()[last..])
      ensures it == first && (it == size || Contents()[it] == old(Contents()[last]))
    {
      EraseRange(first, last);
      it := first;
    }

    /** `erase(pos)`: `erase(pos, pos + 1)`, with the result as evidently meant. */
    method EraseAt(pos: nat) returns (it: nat)
      requires Valid() && pos < size
      modifies this, buf
      ensures Valid() && Contents() == old(Contents()[..pos] + Contents()[pos + 1..])
      ensures it == pos && (it == size || Contents()[it] == old(Contents()[pos + 1]))
    {
      it := Erase(pos, pos + 1);
    }

    /** `at(pos)`: the element at `pos`, or `out_of_range` exactly when `pos >= size`. */
    function At(pos: nat): (r: Result<int>)
      reads this, buf
      requires Valid()
      ensures r.Failure? <==> pos >= size
      ensures r.Failure? ==> r.error == OutOfRange
      ensures r.Success? ==> r.value == Contents()[pos]
    {
      if pos >= size then Failure(OutOfRange) else Success(buf[pos])
    }

    /** `operator[](pos)`: unchecked, so the caller keeps `pos` below `size`. */
    function Get(pos: nat): (r: int)
      reads this, buf
      requires Valid() && pos < size
      ensures At(pos) == Success(r)
    {
      buf[pos]
    }

    /** `front()` and `back()`: the first and the last element. */
    function Front(): (r: int)
      reads this, buf
      requires Valid() && size > 0
      ensures r == Contents()[0] && At(0) == Success(r)
    {
      buf[0]
    }

    function Back(): (r: int)
      reads this, buf
      requires Valid() && size > 0
      ensures r == Contents()[size - 1] && At(size - 1) == Success(r)
    {
      buf[size - 1]
    }

    /** `clear()`: no elements; the buffer and its capacity stay. */
    method Clear()
      requires Valid()
      modifies this
      ensures Valid() && Contents() == [] && buf == old(buf) && capacity == old(capacity)
    {
      size := 0;
    }

    /**
     * `reserve(n)` as written: `change_capacity_(n)` whatever the capacity,
     * so it can also shrink the buffer. It is defined only while the
     * elements fit into the new buffer (see `ReserveFits`).
     */
    method ReserveAsWritten(n: nat) returns (st: Status)
      requires Valid() && ReserveFits(size, n)
      modifies this
      ensures Valid() && Contents() == old(Contents())
      ensures st == Ok <==> NearestIncrement(n) <= maxSize
      ensures st == Ok ==> fresh(buf) && capacity == NearestIncrement(n)
      ensures st != Ok ==> st == Fail(LengthError) && buf == old(buf) && capacity == old(capacity)
    {
      st := ChangeCapacity(n);
    }

    /** `reserve(n)` as evidently meant: grows the buffer to at least `n` slots, and never shrinks it. */
    method Reserve(n: nat) returns (st: Status)
      requires Valid()
      modifies this
      ensures Valid() && Contents() == old(Contents())
      ensures st == Ok ==> n <= capacity && old(capacity) <= capacity
      ensures st != Ok <==> old(capacity) < n && maxSize < NearestIncrement(n)
      ensures n <= old(capacity) ==> buf == old(buf) && capacity == old(capacity)
      ensures st == Ok ==> buf == old(buf) || fresh(buf)
      ensures st != Ok ==> st == Fail(LengthError) && buf == old(buf) && capacity == old(capacity)
    {
      if n <= capacity {
        return Ok;
      }
      st := ChangeCapacity(n);
    }

    /**
     * `shrink_to_fit()`: when fewer than half the slots are in use, moves the
     * elements into the smallest power-of-two buffer that holds them. It
     * never throws and never grows the buffer.
     */
    method ShrinkToFit() returns (st: Status)
      requires Valid()
      modifies this
      ensures Valid() && Contents() == old(Contents()) && st == Ok && capacity <= old(capacity)
      ensures old(size) < old(capacity) / 2 ==> capacity == NearestIncrement(old(size))
      ensures old(capacity) / 2 <= old(size) ==> buf == old(buf) && capacity == old(capacity)
      ensures old(size) < old(capacity) / 2 ==> fresh(buf)
    {
      if size < capacity / 2 {
        NearestLeast(size, capacity);
        st := ChangeCapacity(size);
      } else {
        st := Ok;
      }
    }

    /** `swap(other)`: exchanges the buffers, sizes and capacities. */
    method Swap(other: Vector)
      requires Valid() && other.Valid() && other.maxSize == maxSize
      modifies this, other
      ensures Valid() && other.Valid()
      ensures Contents() == old(other.Contents()) && other.Contents() == old(Contents())
      ensures capacity == old(other.capacity) && other.capacity == old(capacity)
      ensures buf == old(other.buf) && other.buf == old(buf)
    {
      buf, other.buf := other.buf, buf;
      size, other.size := other.size, size;
      capacity, other.capacity := other.capacity, capacity;
    }

    /** `lhs == rhs`: walks both vectors together; equal exactly when they hold the same elements in the same order. */
    method Equal(other: Vector) returns (r: bool)
      requires Valid() && other.Valid()
      ensures r <==> Contents() == other.Contents()
    {
      var i := 0;
      while i < size && i < other.size
        invariant i <= size && i <= other.size && buf[..i] == other.buf[..i]
      {
        if !(buf[i] == other.buf[i]) {
          assert Contents()[i] != other.Contents()[i];
          return false;
        }
        i := i + 1;
      }
      r := i == size && i == other.size;
    }

    /** `lhs < rhs`: the comparison loop; it decides exactly the lexicographic order. */
    method Less(other: Vector) returns (r: bool)
      requires Valid() && other.Valid()
      ensures r == LexLess(Contents(), other.Contents())
    {
      ghost var a, b := Contents(), other.Contents();
      assert a[0..] == a && b[0..] == b;
      var i := 0;
      while i < size && i < other.size
        invariant i <= size && i <= other.size && LexLess(a[i..], b[i..]) == LexLess(a, b)
      {
        LexFront(a, b, i);
        if buf[i] < other.buf[i] {
          return true;
        }
        if other.buf[i] < buf[i] {
          return false;
        }
        i := i + 1;
      }
      r := i == size && i != other.size;
    }

    /** `lhs <= rhs`: the same loop; running out together counts as `<=`. */
    method LessEq(other: Vector) returns (r: bool)
      requires Valid() && other.Valid()
      ensures r == LexLessEq(Contents(), other.Contents())
      ensures r <==> LexLess(Contents(), other.Contents()) || Contents() == other.Contents()
    {
      ghost var a, b := Contents(), other.Contents();
      LexLessEqIsLessOrEqual(a, b);
      assert a[0..] == a && b[0..] == b;
      var i := 0;
      while i < size && i < other.size
        invariant i <= size && i <= other.size && LexLessEq(a[i..], b[i..]) == LexLessEq(a, b)
      {
        LexFront(a, b, i);
        if buf[i] < other.buf[i] {
          return true;
        }
        if other.buf[i] < buf[i] {
          return false;
        }
        i := i + 1;
      }
      r := i == size;
    }
  }
}
