/** The growable double-ended ring buffer `Dq<T>` (namespace DraigCore.Internal).

    One power-of-two array holds the elements between the `head` and `tail`
    cursors, which wrap around the end of the array. The array is never left
    full: the add that would make `head == tail` doubles it at once, so
    `head == tail` always means "empty". The ghost field `Contents` is the
    logical front-to-back sequence, tied to the array by `Valid()`.

    The source masks cursors with `& (Length - 1)`; on a power-of-two length
    that is the remainder modulo the length, which Dafny's `%` computes for
    negative operands too (it is Euclidean). */
module Internal {
  import opened Wrappers
  import Int32

  /** The conditions the buffer raises as exceptions. */
  datatype DqError =
    | VectorEmpty            // "The vector is empty"
    | InvalidElementCount    // "Invalid element count"
    | CapacityExceeded       // "Dq capacity exceeded"
    | IndexOutOfRange        // "Index out of range"
    | IndexInvalid           // "Index is invalid"
    | ConcurrentModification // "Possible concurrent modification"

  /** Smallest capacity of a new buffer. */
  const MinInitialCapacity: nat := 8

  /** Largest capacity a buffer may reach. */
  const MaxCapacity: nat := 0x4000_0000

  ghost predicate IsPow2(n: int)
    decreases n
  {
    if n <= 1 then n == 1 else n % 2 == 0 && IsPow2(n / 2)
  }

  ghost predicate ValidCapacity(n: int) {
    IsPow2(n) && MinInitialCapacity <= n <= MaxCapacity
  }

  lemma DoubledIsPow2(n: int)
    requires IsPow2(n)
    ensures IsPow2(2 * n)
  {
    assert (2 * n) / 2 == n;
  }

  /** The source's `x & (cap - 1)` on the cursor arithmetic it performs, which
      stays within one capacity either side of the array. */
  lemma MaskIsRemainder(x: int, cap: int)
    requires 0 < cap && -cap <= x < 2 * cap
    ensures x % cap == if x < 0 then x + cap else if x < cap then x else x - cap
  {
  }

  function Pow2(e: nat): nat {
    if e == 0 then 1 else 2 * Pow2(e - 1)
  }

  lemma {:induction false} Pow2IsPow2(e: nat)
    ensures IsPow2(Pow2(e))
  {
    if e > 0 {
      Pow2IsPow2(e - 1);
      DoubledIsPow2(Pow2(e - 1));
    }
  }

  lemma MaxCapacityIsPow2()
    ensures IsPow2(MaxCapacity)
  {
    Pow2IsPow2(30);
    assert Pow2(5) == 0x20;
    assert Pow2(10) == 0x400;
    assert Pow2(15) == 0x8000;
    assert Pow2(20) == 0x10_0000;
    assert Pow2(25) == 0x200_0000;
    assert Pow2(30) == MaxCapacity;
  }

  /** Number of occupied slots between the cursors `h` (inclusive) and `t` (exclusive). */
  function RingLength(h: int, t: int, cap: int): int {
    if h <= t then t - h else t + cap - h
  }

  /** Array slot of the element `k` places after slot `h`. */
  function Slot(h: int, k: int, cap: int): int {
    if h + k < cap then h + k else h + k - cap
  }

  /** The smallest power of two strictly above `n`, searching up from `p`. */
  function PowerAbove(n: int, p: nat): (r: nat)
    requires IsPow2(p)
    ensures IsPow2(r) && r > n && r >= p
    ensures p <= n ==> r / 2 <= n
    decreases if p > n then 0 else n - p + 1
  {
    if p > n then p
    else
      DoubledIsPow2(p);
      PowerAbove(n, 2 * p)
  }

  /** The array size `AllocateElements(numElements)` chooses: 8 below 8,
      otherwise the smallest power of two strictly above the count (the
      array is never left full). A count of 0x4000_0000 would need 2^31
      slots, which no array can have. */
  function AllocationSize(numElements: int): (r: Result<nat, DqError>)
  {
    if numElements <= 0 || numElements > MaxCapacity then Failure(InvalidElementCount)
    else
      var capacity := if numElements < MinInitialCapacity then MinInitialCapacity
                      else PowerAbove(numElements, MinInitialCapacity);
      if capacity > MaxCapacity then Failure(InvalidElementCount) else Success(capacity)
  }

  lemma AllocationSizeIsTight(numElements: int)
    ensures AllocationSize(numElements).Success? <==> 0 < numElements < MaxCapacity
    ensures AllocationSize(numElements).Failure? ==> AllocationSize(numElements).error == InvalidElementCount
    ensures AllocationSize(numElements).Success? ==>
              var c := AllocationSize(numElements).value;
              ValidCapacity(c) && numElements < c &&
              (numElements < MinInitialCapacity ==> c == MinInitialCapacity) &&
              (numElements >= MinInitialCapacity ==> c / 2 <= numElements)
  {
    assert IsPow2(8) by {
      assert IsPow2(4) by { assert IsPow2(2); }
    }
    MaxCapacityIsPow2();
    if MinInitialCapacity <= numElements <= MaxCapacity {
      var c := PowerAbove(numElements, MinInitialCapacity);
      if numElements < MaxCapacity {
        PowerAboveBound(numElements, MinInitialCapacity, MaxCapacity);
      } else {
        assert c > MaxCapacity;
      }
    }
  }

  /** `PowerAbove` stays within any power of two above its argument. */
  lemma {:induction false} PowerAboveBound(n: int, p: nat, q: nat)
    requires IsPow2(p) && IsPow2(q) && p <= q && n < q
    ensures PowerAbove(n, p) <= q
    decreases q - p
  {
    if p <= n {
      DoubledIsPow2(p);
      Pow2Step(p, q);
      PowerAboveBound(n, 2 * p, q);
    }
  }

  /** Between two powers of two `p < q` the next one up is still at most `q`. */
  lemma {:induction false} Pow2Step(p: nat, q: nat)
    requires IsPow2(p) && IsPow2(q) && p < q
    ensures 2 * p <= q
    decreases q
  {
    if p > 1 {
      Pow2Step(p / 2, q / 2);
    }
  }

  /** `s` is what the ring of array `a` holds from slot `h` on, front to back. */
  ghost predicate RingHolds<T>(a: seq<T>, h: int, s: seq<T>) {
    0 <= h < |a| && |s| <= |a| &&
    forall k :: 0 <= k < |s| ==> s[k] == a[Slot(h, k, |a|)]
  }

  /** `dst` after `length` elements of `src` from `srcIndex` are copied to `dstIndex`. */
  function Copied<T>(dst: seq<T>, src: seq<T>, srcIndex: nat, dstIndex: nat, length: nat): (r: seq<T>)
    requires srcIndex + length <= |src| && dstIndex + length <= |dst|
    ensures |r| == |dst|
    ensures forall j :: 0 <= j < |r| ==>
              r[j] == if dstIndex <= j < dstIndex + length then src[srcIndex + j - dstIndex] else dst[j]
  {
    seq(|dst|, j requires 0 <= j < |dst| =>
      if dstIndex <= j < dstIndex + length then src[srcIndex + j - dstIndex] else dst[j])
  }

  /** `Array.Copy(src, srcIndex, dst, dstIndex, length)`: copies as if through a
      temporary buffer, so overlapping ranges in one array are handled. */
  method ArrayCopy<T>(src: array<T>, srcIndex: nat, dst: array<T>, dstIndex: nat, length: nat)
    requires srcIndex + length <= src.Length && dstIndex + length <= dst.Length
    modifies dst
    ensures dst[..] == Copied(old(dst[..]), old(src[..]), srcIndex, dstIndex, length)
  {
    var chunk := src[srcIndex..srcIndex + length];
    forall j | dstIndex <= j < dstIndex + length {
      dst[j] := chunk[j - dstIndex];
    }
  }

  /** `s` with the element at position `k` removed. */
  function Without<T>(s: seq<T>, k: nat): (r: seq<T>)
    requires k < |s|
    ensures |r| == |s| - 1
    ensures forall j :: 0 <= j < |r| ==> r[j] == if j < k then s[j] else s[j + 1]
  {
    seq(|s| - 1, j requires 0 <= j < |s| - 1 => if j < k then s[j] else s[j + 1])
  }

  lemma WithoutIsSplice<T>(s: seq<T>, k: nat)
    requires k < |s|
    ensures Without(s, k) == s[..k] + s[k + 1..]
  {
  }

  /** Delete, front side without wrap-around: the elements from `h` up to slot
      `h + k` move one slot back and the head advances. */
  lemma FrontShiftInPlace<T>(a: seq<T>, h: nat, k: nat, s: seq<T>, blank: T)
    requires k < |s| < |a| && h + k < |a| && RingHolds(a, h, s)
    ensures RingHolds(Copied(a, a, h, h + 1, k)[h := blank], Slot(h, 1, |a|), Without(s, k))
  {
    var b := Copied(a, a, h, h + 1, k)[h := blank];
    forall j | 0 <= j < |s| - 1
      ensures Without(s, k)[j] == b[Slot(Slot(h, 1, |a|), j, |a|)]
    {
      FrontShiftInPlaceAt(a, h, k, s, blank, j);
    }
  }

  lemma FrontShiftInPlaceAt<T>(a: seq<T>, h: nat, k: nat, s: seq<T>, blank: T, j: nat)
    requires k < |s| < |a| && h + k < |a| && RingHolds(a, h, s) && j < |s| - 1
    ensures (if j < k then s[j] else s[j + 1]) ==
            Copied(a, a, h, h + 1, k)[h := blank][Slot(Slot(h, 1, |a|), j, |a|)]
  {
    var cap := |a|;
    var b := Copied(a, a, h, h + 1, k)[h := blank];
    var y := Slot(h, j + 1, cap);
    assert Slot(Slot(h, 1, cap), j, cap) == y;
    if j < k {
      assert y == h + j + 1 && Slot(h, j, cap) == h + j;
      assert s[j] == a[y - 1];
      assert b[y] == a[y - 1];
    } else {
      assert y > h + k || y < h;
      assert s[j + 1] == a[y];
      assert b[y] == a[y];
    }
  }

  /** The array after the wrap-around front shift of `Delete`, which removes
      slot `i`: slots `0..i-1` move up one, the last slot moves to slot 0,
      and slots `h..cap-2` move up one. */
  function FrontWrappedMoved<T>(a: seq<T>, i: nat, h: nat): (r: seq<T>)
    requires i < h < |a|
    ensures |r| == |a|
  {
    var a1 := Copied(a, a, 0, 1, i);
    var a2 := a1[0 := a1[|a| - 1]];
    Copied(a2, a2, h, h + 1, |a| - 1 - h)
  }

  /** Where each slot's value comes from after the front wrap-around moves. */
  lemma FrontWrappedMoves<T>(a: seq<T>, i: nat, h: nat, x: nat)
    requires i < h < |a| && x < |a|
    ensures FrontWrappedMoved(a, i, h)[x] ==
              if x == 0 then a[|a| - 1] else if x <= i || x > h then a[x - 1] else a[x]
  {
  }

  /** Slot arithmetic for `FrontShiftWrappedAt` before the deleted position. */
  lemma FrontWrappedSlotsBefore(h: int, k: int, n: int, cap: int, j: int)
    requires 0 <= h < cap && 0 <= j < k < n < cap && h + k >= cap
    ensures var y := Slot(h, j + 1, cap);
            (y == 0 && Slot(h, j, cap) == cap - 1) ||
            (0 < y && Slot(h, j, cap) == y - 1 && (y <= h + k - cap || y > h))
  {
  }

  /** Slot arithmetic for `FrontShiftWrappedAt` past the deleted position. */
  lemma FrontWrappedSlotsAfter(h: int, k: int, n: int, cap: int, j: int)
    requires 0 <= h < cap && 0 <= k <= j < n - 1 && n < cap && h + k >= cap
    ensures h + k - cap < Slot(h, j + 1, cap) < h
  {
  }

  /** Delete, front side when slot `h + k` has wrapped to `i = h + k - cap`:
      the moves keep a valid ring, one element shorter, whose head has
      moved on one slot. */
  lemma FrontShiftWrapped<T>(a: seq<T>, h: nat, k: nat, s: seq<T>, blank: T)
    requires k < |s| < |a| && h + k >= |a| && RingHolds(a, h, s)
    ensures h + k - |a| < h
    ensures RingHolds(FrontWrappedMoved(a, h + k - |a|, h)[h := blank], Slot(h, 1, |a|), Without(s, k))
  {
    var cap := |a|;
    var b := FrontWrappedMoved(a, h + k - cap, h)[h := blank];
    forall j | 0 <= j < |s| - 1
      ensures Without(s, k)[j] == b[Slot(Slot(h, 1, cap), j, cap)]
    {
      FrontShiftWrappedAt(a, h, k, s, blank, j);
    }
  }

  lemma FrontShiftWrappedAt<T>(a: seq<T>, h: nat, k: nat, s: seq<T>, blank: T, j: nat)
    requires k < |s| < |a| && h + k >= |a| && RingHolds(a, h, s) && j < |s| - 1
    ensures (if j < k then s[j] else s[j + 1]) ==
            FrontWrappedMoved(a, h + k - |a|, h)[h := blank][Slot(Slot(h, 1, |a|), j, |a|)]
  {
    var cap := |a|;
    var y := Slot(h, j + 1, cap);
    assert Slot(Slot(h, 1, cap), j, cap) == y && y != h;
    var v := FrontWrappedValue(a, h, k, s, j);
    assert FrontWrappedMoved(a, h + k - cap, h)[h := blank][y] == FrontWrappedMoved(a, h + k - cap, h)[y];
  }

  /** The value the front wrap-around moves bring to the slot of position
      `j + 1`: the element that ends up at position `j`. */
  lemma FrontWrappedValue<T>(a: seq<T>, h: nat, k: nat, s: seq<T>, j: nat) returns (y: nat)
    requires k < |s| < |a| && h + k >= |a| && RingHolds(a, h, s) && j < |s| - 1
    ensures y == Slot(h, j + 1, |a|)
    ensures (if j < k then s[j] else s[j + 1]) == FrontWrappedMoved(a, h + k - |a|, h)[y]
  {
    var cap := |a|;
    var i := h + k - cap;
    y := Slot(h, j + 1, cap);
    FrontWrappedMoves(a, i, h, y);
    if j < k {
      FrontWrappedSlotsBefore(h, k, |s|, cap, j);
      assert s[j] == a[Slot(h, j, cap)];
    } else {
      FrontWrappedSlotsAfter(h, k, |s|, cap, j);
      assert s[j + 1] == a[y];
    }
  }

  /** Delete, back side without wrap-around: slots `i+1..t` move one slot
      forward and the tail retreats. */
  lemma BackShiftInPlace<T>(a: seq<T>, h: nat, k: nat, s: seq<T>, t: nat)
    requires k < |s| < |a| && RingHolds(a, h, s)
    requires t == Slot(h, |s|, |a|) && Slot(h, k, |a|) < t
    ensures var i := Slot(h, k, |a|);
            RingHolds(Copied(a, a, i + 1, i, t - i), h, Without(s, k))
  {
    var i := Slot(h, k, |a|);
    var b := Copied(a, a, i + 1, i, t - i);
    forall j | 0 <= j < |s| - 1
      ensures Without(s, k)[j] == b[Slot(h, j, |a|)]
    {
      BackShiftInPlaceAt(a, h, k, s, t, j);
    }
  }

  lemma BackShiftInPlaceAt<T>(a: seq<T>, h: nat, k: nat, s: seq<T>, t: nat, j: nat)
    requires k < |s| < |a| && RingHolds(a, h, s)
    requires t == Slot(h, |s|, |a|) && Slot(h, k, |a|) < t && j < |s| - 1
    ensures var i := Slot(h, k, |a|);
            (if j < k then s[j] else s[j + 1]) == Copied(a, a, i + 1, i, t - i)[Slot(h, j, |a|)]
  {
    var cap := |a|;
    var i := Slot(h, k, cap);
    var b := Copied(a, a, i + 1, i, t - i);
    var x := Slot(h, j, cap);
    assert t == i + |s| - k;
    if j >= k {
      assert x == i + j - k && Slot(h, j + 1, cap) == x + 1;
      assert s[j + 1] == a[x + 1];
      assert b[x] == a[x + 1];
    } else {
      assert x < i || t < x;
      assert s[j] == a[x];
      assert b[x] == a[x];
    }
  }

  /** The array after the wrap-around back shift of `Delete`, which removes
      slot `i`: slots `i+1..cap-1` move forward, slot 0 moves to the last
      slot, and slots `1..t` move forward. */
  function BackWrappedMoved<T>(a: seq<T>, i: nat, t: nat): (r: seq<T>)
    requires t < i < |a|
    ensures |r| == |a|
  {
    var a1 := Copied(a, a, i + 1, i, |a| - 1 - i);
    var a2 := a1[|a| - 1 := a1[0]];
    Copied(a2, a2, 1, 0, t)
  }

  /** Delete, back side when the ring wraps between slot `i` and the tail. */
  lemma BackShiftWrapped<T>(a: seq<T>, h: nat, k: nat, s: seq<T>, t: nat)
    requires k < |s| < |a| && RingHolds(a, h, s)
    requires t == Slot(h, |s|, |a|) && Slot(h, k, |a|) > t
    ensures RingHolds(BackWrappedMoved(a, Slot(h, k, |a|), t), h, Without(s, k))
  {
    var cap := |a|;
    var b := BackWrappedMoved(a, Slot(h, k, cap), t);
    forall j | 0 <= j < |s| - 1
      ensures Without(s, k)[j] == b[Slot(h, j, cap)]
    {
      BackWrappedValue(a, h, k, s, t, j);
    }
  }

  /** The value the back wrap-around moves bring to the slot of position
      `j`: the element that ends up at position `j`. */
  lemma BackWrappedValue<T>(a: seq<T>, h: nat, k: nat, s: seq<T>, t: nat, j: nat)
    requires k < |s| < |a| && RingHolds(a, h, s)
    requires t == Slot(h, |s|, |a|) && Slot(h, k, |a|) > t && j < |s| - 1
    ensures (if j < k then s[j] else s[j + 1]) == BackWrappedMoved(a, Slot(h, k, |a|), t)[Slot(h, j, |a|)]
  {
    BackWrappedMoves(a, Slot(h, k, |a|), t, Slot(h, j, |a|));
    BackShiftWrappedAt(a, h, k, s, t, j);
  }

  /** The wrap-around back shift keeps a valid ring, one element shorter, whose
      tail has moved back one slot. */
  lemma BackWrappedKeepsRing<T>(a: seq<T>, h: nat, k: nat, s: seq<T>, t: nat)
    requires k < |s| < |a| && t < |a| && |s| == RingLength(h, t, |a|) && RingHolds(a, h, s)
    requires Slot(h, k, |a|) >= t
    ensures t < Slot(h, k, |a|)
    ensures RingHolds(BackWrappedMoved(a, Slot(h, k, |a|), t), h, Without(s, k))
    ensures |s| - 1 == RingLength(h, if t == 0 then |a| - 1 else t - 1, |a|)
  {
    BackShiftWrapped(a, h, k, s, t);
  }

  /** The masked distances `Delete` computes: from the head to slot `i`, from
      slot `i` to the tail, and the ring's length. */
  lemma DeleteOffsets(h: int, t: int, i: int, cap: int, n: int)
    requires 0 <= h < cap && 0 <= t < cap && 0 <= i < cap && n == RingLength(h, t, cap)
    ensures (t - h) % cap == n && 0 <= (i - h) % cap
    ensures (i - h) % cap < n ==> i == Slot(h, (i - h) % cap, cap) && (t - i) % cap == n - (i - h) % cap
  {
    MaskIsRemainder(i - h, cap);
    MaskIsRemainder(t - i, cap);
    MaskIsRemainder(t - h, cap);
  }

  /** The in-place front shift keeps a valid ring, one element shorter,
      whose head has moved on one slot. */
  lemma FrontInPlaceKeepsRing<T>(a: seq<T>, h: nat, k: nat, s: seq<T>, t: nat, blank: T)
    requires k < |s| < |a| && h < |a| && t < |a| && |s| == RingLength(h, t, |a|) && RingHolds(a, h, s)
    requires h <= Slot(h, k, |a|)
    ensures h + k < |a| && Slot(h, k, |a|) == h + k
    ensures RingHolds(Copied(a, a, h, h + 1, k)[h := blank], (h + 1) % |a|, Without(s, k))
    ensures |s| - 1 == RingLength((h + 1) % |a|, t, |a|)
  {
    FrontShiftInPlace(a, h, k, s, blank);
    MaskIsRemainder(h + 1, |a|);
    assert (h + 1) % |a| == Slot(h, 1, |a|);
  }

  /** The in-place back shift keeps a valid ring, one element shorter,
      whose tail has moved back one slot. */
  lemma BackInPlaceKeepsRing<T>(a: seq<T>, h: nat, k: nat, s: seq<T>, t: nat)
    requires k < |s| < |a| && h < |a| && t < |a| && |s| == RingLength(h, t, |a|) && RingHolds(a, h, s)
    requires Slot(h, k, |a|) < t
    ensures |s| - k == t - Slot(h, k, |a|)
    ensures var i := Slot(h, k, |a|);
            RingHolds(Copied(a, a, i + 1, i, t - i), h, Without(s, k))
    ensures |s| - 1 == RingLength(h, t - 1, |a|)
  {
    BackShiftInPlace(a, h, k, s, t);
  }

  /** The wrap-around front shift keeps a valid ring, one element shorter,
      whose head has moved on one slot. */
  lemma FrontWrappedKeepsRing<T>(a: seq<T>, h: nat, k: nat, s: seq<T>, t: nat, blank: T)
    requires k < |s| < |a| && h < |a| && t < |a| && |s| == RingLength(h, t, |a|) && RingHolds(a, h, s)
    requires Slot(h, k, |a|) < h
    ensures Slot(h, k, |a|) == h + k - |a|
    ensures RingHolds(FrontWrappedMoved(a, h + k - |a|, h)[h := blank], (h + 1) % |a|, Without(s, k))
    ensures |s| - 1 == RingLength((h + 1) % |a|, t, |a|)
  {
    FrontShiftWrapped(a, h, k, s, blank);
    MaskIsRemainder(h + 1, |a|);
    assert (h + 1) % |a| == Slot(h, 1, |a|);
  }

  /** The value that lands in slot `x = Slot(h, j)` is the `j`th one left after the deletion. */
  lemma BackShiftWrappedAt<T>(a: seq<T>, h: nat, k: nat, s: seq<T>, t: nat, j: nat)
    requires k < |s| < |a| && RingHolds(a, h, s)
    requires t == Slot(h, |s|, |a|) && Slot(h, k, |a|) > t && j < |s| - 1
    ensures var cap, i, x := |a|, Slot(h, k, |a|), Slot(h, j, |a|);
            (if j < k then s[j] else s[j + 1]) ==
              if x < t || (i <= x < cap - 1) then a[x + 1] else if x == cap - 1 then a[0] else a[x]
  {
    var cap := |a|;
    var x := Slot(h, j, cap);
    if j >= k {
      BackWrappedSlotsAfter(h, k, |s|, cap, j);
      assert s[j + 1] == a[Slot(h, j + 1, cap)];
    } else {
      BackWrappedSlotsBefore(h, k, |s|, cap, j);
      assert s[j] == a[x];
    }
  }

  /** Where each slot's value comes from after the two copies and the wrap move. */
  lemma BackWrappedMoves<T>(a: seq<T>, i: nat, t: nat, x: nat)
    requires t < i < |a| && x < |a|
    ensures var cap := |a|;
            BackWrappedMoved(a, i, t)[x] ==
              if x < t || (i <= x < cap - 1) then a[x + 1] else if x == cap - 1 then a[0] else a[x]
  {
  }

  /** Slot arithmetic for `BackShiftWrappedAt` at or after the deleted position. */
  lemma BackWrappedSlotsAfter(h: int, k: int, n: int, cap: int, j: int)
    requires 0 <= h < cap && 0 <= k <= j < n - 1 && n < cap
    requires Slot(h, k, cap) > Slot(h, n, cap)
    ensures var x, y, t := Slot(h, j, cap), Slot(h, j + 1, cap), Slot(h, n, cap);
            (x == cap - 1 && y == 0) || (x < cap - 1 && y == x + 1 && (x < t - 1 || Slot(h, k, cap) <= x))
  {
  }

  /** Slot arithmetic for `BackShiftWrappedAt` before the deleted position. */
  lemma BackWrappedSlotsBefore(h: int, k: int, n: int, cap: int, j: int)
    requires 0 <= h < cap && 0 <= j < k < n < cap
    requires Slot(h, k, cap) > Slot(h, n, cap)
    ensures Slot(h, n, cap) < Slot(h, j, cap) < Slot(h, k, cap)
  {
  }

  /** Writing `e` into the slot before the head makes it the new front. */
  lemma RingPrepend<T>(a: seq<T>, h: nat, s: seq<T>, e: T)
    requires RingHolds(a, h, s) && |s| < |a|
    ensures var h2 := if h == 0 then |a| - 1 else h - 1;
            RingHolds(a[h2 := e], h2, [e] + s)
  {
    var cap := |a|;
    var h2 := if h == 0 then cap - 1 else h - 1;
    forall k | 0 <= k < |s| + 1
      ensures ([e] + s)[k] == a[h2 := e][Slot(h2, k, cap)]
    {
      if k > 0 {
        assert Slot(h2, k, cap) == Slot(h, k - 1, cap) != h2;
      }
    }
  }

  /** Writing `e` into the slot after the last element makes it the new back. */
  lemma RingAppend<T>(a: seq<T>, h: nat, s: seq<T>, e: T)
    requires RingHolds(a, h, s) && |s| < |a|
    ensures RingHolds(a[Slot(h, |s|, |a|) := e], h, s + [e])
  {
    var cap := |a|;
    forall k | 0 <= k < |s| + 1
      ensures (s + [e])[k] == a[Slot(h, |s|, cap) := e][Slot(h, k, cap)]
    {
      if k < |s| {
        assert Slot(h, k, cap) != Slot(h, |s|, cap);
      }
    }
  }

  /** Swapping the array slots of logical positions `p` and `q` swaps them in the ring's contents. */
  lemma SwapInRing<T>(a: seq<T>, h: nat, s: seq<T>, p: nat, q: nat)
    requires |s| < |a| && RingHolds(a, h, s) && p < |s| && q < |s|
    ensures var x, y := Slot(h, p, |a|), Slot(h, q, |a|);
            RingHolds(a[x := a[y]][y := a[x]], h, s[p := s[q]][q := s[p]])
  {
  }

  /** Logical prefix of `s` that `TrimLeading(p)` removes is the longest one whose elements all satisfy `p`. */
  function DropWhile<T>(p: T -> bool, s: seq<T>): seq<T> {
    if s != [] && p(s[0]) then DropWhile(p, s[1..]) else s
  }

  lemma {:induction false} DropWhileIsLongestMatchingPrefix<T>(p: T -> bool, s: seq<T>)
    ensures var r := DropWhile(p, s);
            |r| <= |s| && r == s[|s| - |r|..] &&
            (forall j :: 0 <= j < |s| - |r| ==> p(s[j])) &&
            (r != [] ==> !p(r[0]))
  {
    if s != [] && p(s[0]) {
      var t := s[1..];
      DropWhileIsLongestMatchingPrefix(p, t);
      var r := DropWhile(p, t);
      assert DropWhile(p, s) == r;
      assert t[|t| - |r|..] == s[|s| - |r|..];
      forall j | 0 <= j < |s| - |r| ensures p(s[j]) {
        if j > 0 {
          assert s[j] == t[j - 1];
        }
      }
    }
  }

  /** The sequence in reverse order. */
  function Reversed<T>(s: seq<T>): seq<T> {
    if s == [] then [] else [s[|s| - 1]] + Reversed(s[..|s| - 1])
  }

  lemma {:induction false} ReversedAt<T>(s: seq<T>)
    ensures |Reversed(s)| == |s|
    ensures forall j :: 0 <= j < |s| ==> Reversed(s)[j] == s[|s| - 1 - j]
  {
    if s != [] {
      ReversedAt(s[..|s| - 1]);
    }
  }

  /** The outer `i` positions on each side of `view` hold `s` reversed; the
      middle still holds `s`. */
  ghost predicate MirroredUpTo<T>(view: seq<T>, s: seq<T>, i: nat) {
    |view| == |s| &&
    forall k {:trigger view[k]} :: 0 <= k < |s| ==>
      view[k] == if k < i || k >= |s| - i then s[|s| - 1 - k] else s[k]
  }

  /** One swap of `Reverse`: exchanging positions `i` and `n - 1 - i` extends
      the reversed part by one on each side. */
  lemma ReverseStep<T>(view: seq<T>, s: seq<T>, i: nat)
    requires 2 * i + 1 < |s| && MirroredUpTo(view, s, i)
    ensures MirroredUpTo(view[i := view[|s| - 1 - i]][|s| - 1 - i := view[i]], s, i + 1)
  {
    var n := |s|;
    var w := view[i := view[n - 1 - i]][n - 1 - i := view[i]];
    forall k | 0 <= k < n
      ensures w[k] == if k < i + 1 || k >= n - (i + 1) then s[n - 1 - k] else s[k]
    {
      if k == i {
        assert w[k] == view[n - 1 - i] == s[n - 1 - i];
      } else if k == n - 1 - i {
        assert w[k] == view[i] == s[i];
      } else {
        assert w[k] == view[k];
      }
    }
  }

  /** One iteration of `Reverse`: swapping the slots of positions `i` and
      `n - 1 - i` keeps the ring in step with the view and extends the
      reversed part; the cursors move one slot inwards. */
  lemma ReverseSwapStep<T>(a: seq<T>, h: nat, view: seq<T>, s: seq<T>, n: nat, i: nat)
    requires n == |s| < |a| && 2 * i + 1 < n && RingHolds(a, h, view) && MirroredUpTo(view, s, i)
    ensures var cap := |a|;
            var x, y := Slot(h, i, cap), Slot(h, n - 1 - i, cap);
            RingHolds(a[x := a[y]][y := a[x]], h, view[i := view[n - 1 - i]][n - 1 - i := view[i]]) &&
            MirroredUpTo(view[i := view[n - 1 - i]][n - 1 - i := view[i]], s, i + 1) &&
            (x + 1) % cap == Slot(h, i + 1, cap) && (y - 1) % cap == Slot(h, n - 1 - (i + 1), cap)
  {
    var cap := |a|;
    SwapInRing(a, h, view, i, n - 1 - i);
    ReverseStep(view, s, i);
    MaskIsRemainder(Slot(h, i, cap) + 1, cap);
    MaskIsRemainder(Slot(h, n - 1 - i, cap) - 1, cap);
  }

  /** Once the halves have met, the mirrored view is the reversal. */
  lemma MirroredIsReversed<T>(view: seq<T>, s: seq<T>, i: nat)
    requires 2 * i + 1 >= |s| && MirroredUpTo(view, s, i)
    ensures view == Reversed(s)
  {
    ReversedAt(s);
    forall k | 0 <= k < |s|
      ensures view[k] == Reversed(s)[k]
    {
      if !(k < i || k >= |s| - i) {
        assert k == |s| - 1 - k;
      }
    }
  }

  lemma ReversedTwice<T>(s: seq<T>)
    ensures Reversed(Reversed(s)) == s
  {
    ReversedAt(s);
    ReversedAt(Reversed(s));
  }

  class Dq<T(0)> {
    /** Backing ring of power-of-two length. */
    var elements: array<T>
    /** Slot of the front element; equal to `tail` when empty. */
    var head: nat
    /** Slot the next `AddLast` writes. */
    var tail: nat
    /** Logical front-to-back contents. */
    ghost var Contents: seq<T>

    ghost predicate Valid()
      reads this, elements
    {
      ValidCapacity(elements.Length) &&
      head < elements.Length && tail < elements.Length &&
      |Contents| == RingLength(head, tail, elements.Length) &&
      RingHolds(elements[..], head, Contents)
    }

    /** The ring as it stands transiently inside an add, when it has just become full. */
    ghost predicate Full()
      reads this, elements
    {
      ValidCapacity(elements.Length) &&
      head < elements.Length && head == tail &&
      |Contents| == elements.Length &&
      RingHolds(elements[..], head, Contents)
    }

    /** `new Dq<T>()`: an empty buffer of the minimum capacity. */
    constructor ()
      ensures Valid() && fresh(elements)
      ensures Contents == [] && elements.Length == MinInitialCapacity
    {
      assert IsPow2(8) by {
        assert IsPow2(4) by { assert IsPow2(2); }
      }
      elements := new T[MinInitialCapacity];
      head, tail := 0, 0;
      Contents := [];
    }

    /** An empty buffer over a fresh array of the given capacity. */
    constructor OfSize(capacity: nat)
      requires ValidCapacity(capacity)
      ensures Valid() && fresh(elements)
      ensures Contents == [] && elements.Length == capacity
    {
      elements := new T[capacity];
      head, tail := 0, 0;
      Contents := [];
    }

    /** `new Dq<T>(other)`: a copy sharing no storage with `other`. */
    constructor Copy(other: Dq<T>)
      requires other.Valid()
      ensures Valid() && fresh(elements)
      ensures Contents == other.Contents && elements.Length == other.elements.Length
    {
      elements := new T[other.elements.Length];
      head := other.head;
      tail := other.tail;
      Contents := other.Contents;
      new;
      ArrayCopy(other.elements, 0, elements, 0, elements.Length);
    }

    /** `new Dq<T>(numElements)`: fails for a non-positive or too large count. */
    static method OfCapacity(numElements: int) returns (r: Result<Dq<T>, DqError>)
      ensures AllocationSize(numElements).Failure? ==> r == Failure(AllocationSize(numElements).error)
      ensures AllocationSize(numElements).Success? ==>
                r.Success? && fresh(r.value) && fresh(r.value.elements) && r.value.Valid() &&
                r.value.Contents == [] && r.value.elements.Length == AllocationSize(numElements).value
    {
      AllocationSizeIsTight(numElements);
      var size := AllocationSize(numElements);
      if size.Failure? {
        return Failure(size.error);
      }
      var d := new Dq<T>.OfSize(size.value);
      return Success(d);
    }

    /** `new Dq<T>(c)`: a buffer holding the array's elements in order; an
        empty array is refused, as `AllocateElements(0)` throws. */
    static method OfArray(c: seq<T>) returns (r: Result<Dq<T>, DqError>)
      ensures AllocationSize(|c|).Failure? ==> r == Failure(InvalidElementCount)
      ensures AllocationSize(|c|).Success? ==>
                r.Success? && fresh(r.value) && fresh(r.value.elements) && r.value.Valid() &&
                r.value.Contents == c
    {
      AllocationSizeIsTight(|c|);
      var created := OfCapacity(|c|);
      if created.Failure? {
        return Failure(created.error);
      }
      var d := created.value;
      for i := 0 to |c|
        invariant d.Valid() && fresh(d) && fresh(d.elements)
        invariant d.Contents == c[..i]
        invariant d.elements.Length == AllocationSize(|c|).value
      {
        var added := d.AddLast(c[i]);
      }
      return Success(d);
    }

    /** `FromValue(v)`: a buffer holding just `v`. */
    static method FromValue(v: T) returns (d: Dq<T>)
      ensures d.Valid() && fresh(d) && fresh(d.elements) && d.Contents == [v]
    {
      d := new Dq<T>();
      var added := d.AddLast(v);
    }

    /** Unrolls a full ring into an array twice the size, front element first. */
    method DoubleCapacity() returns (r: Outcome<DqError>)
      requires Full()
      modifies this, elements
      ensures r.Fail? <==> old(elements.Length) == MaxCapacity
      ensures r.Fail? ==> r.error == CapacityExceeded && unchanged(this) && unchanged(elements)
      ensures r.Pass? ==> Valid() && fresh(elements) && elements.Length == 2 * old(elements.Length) &&
                          head == 0 && tail == old(elements.Length) && Contents == old(Contents)
    {
      var p := head;
      var elementsLength := elements.Length;
      var r' := elementsLength - p;
      var newCapacity := Int32.Wrap(elementsLength * 2);
      if newCapacity < 0 {
        return Fail(CapacityExceeded);
      }
      assert newCapacity == 2 * elementsLength;
      MaxCapacityIsPow2();
      Pow2Step(elementsLength, MaxCapacity);
      var newArray := new T[newCapacity];
      ArrayCopy(elements, p, newArray, 0, r');
      ArrayCopy(elements, 0, newArray, r', p);
      var blank: T := *;
      forall j | 0 <= j < elements.Length {
        elements[j] := blank;
      }
      elements := newArray;
      head := 0;
      tail := elementsLength;
      DoubledIsPow2(elementsLength);
      return Pass;
    }

    /** Inserts `e` at the front. Fails only when the ring would need more than
        `MaxCapacity` slots; the buffer then reads as empty, its cursors
        having met. */
    method AddFirst(e: T) returns (r: Outcome<DqError>)
      requires Valid()
      modifies this, elements
      ensures Valid()
      ensures r.Fail? <==> |old(Contents)| + 1 == MaxCapacity
      ensures r.Pass? ==> Contents == [e] + old(Contents)
      ensures r.Fail? ==> r.error == CapacityExceeded && Contents == []
      ensures elements == old(elements) || (fresh(elements) && elements.Length == 2 * old(elements.Length))
      ensures |old(Contents)| + 1 < old(elements.Length) ==> elements == old(elements)
    {
      ghost var a := elements[..];
      RingPrepend(a, head, Contents, e);
      MaskIsRemainder(head - 1, elements.Length);
      head := (head - 1) % elements.Length;
      elements[head] := e;
      assert elements[..] == a[head := e];
      Contents := [e] + Contents;
      if head == tail {
        r := DoubleCapacity();
        if r.Fail? {
          Contents := [];
        }
      } else {
        r := Pass;
      }
    }

    /** Inserts `e` at the back, with the same failure as `AddFirst`. */
    method AddLast(e: T) returns (r: Outcome<DqError>)
      requires Valid()
      modifies this, elements
      ensures Valid()
      ensures r.Fail? <==> |old(Contents)| + 1 == MaxCapacity
      ensures r.Pass? ==> Contents == old(Contents) + [e]
      ensures r.Fail? ==> r.error == CapacityExceeded && Contents == []
      ensures elements == old(elements) || (fresh(elements) && elements.Length == 2 * old(elements.Length))
      ensures |old(Contents)| + 1 < old(elements.Length) ==> elements == old(elements)
    {
      ghost var a := elements[..];
      RingAppend(a, head, Contents, e);
      elements[tail] := e;
      assert elements[..] == a[tail := e];
      Contents := Contents + [e];
      MaskIsRemainder(tail + 1, elements.Length);
      tail := (tail + 1) % elements.Length;
      if tail == head {
        r := DoubleCapacity();
        if r.Fail? {
          Contents := [];
        }
      } else {
        r := Pass;
      }
    }

    /** Removes and returns the front element (the source's `PollFirst`, on a non-empty ring). */
    method PollFirst() returns (x: T)
      requires Valid() && Contents != []
      modifies this, elements
      ensures Valid() && elements == old(elements)
      ensures x == old(Contents)[0] && Contents == old(Contents)[1..]
    {
      var h := head;
      x := elements[h];
      var blank: T := *;
      elements[h] := blank;
      MaskIsRemainder(h + 1, elements.Length);
      head := (h + 1) % elements.Length;
      Contents := Contents[1..];
    }

    /** Removes and returns the back element (the source's `PollLast`, on a non-empty ring). */
    method PollLast() returns (x: T)
      requires Valid() && Contents != []
      modifies this, elements
      ensures Valid() && elements == old(elements)
      ensures x == old(Contents)[|old(Contents)| - 1] && Contents == old(Contents)[..|old(Contents)| - 1]
    {
      MaskIsRemainder(tail - 1, elements.Length);
      var t := (tail - 1) % elements.Length;
      x := elements[t];
      var blank: T := *;
      elements[t] := blank;
      tail := t;
      Contents := Contents[..|Contents| - 1];
    }

    method RemoveFirst() returns (r: Result<T, DqError>)
      requires Valid()
      modifies this, elements
      ensures Valid() && elements == old(elements)
      ensures old(Contents) == [] ==> r == Failure(VectorEmpty) && Contents == old(Contents)
      ensures old(Contents) != [] ==> r == Success(old(Contents)[0]) && Contents == old(Contents)[1..]
    {
      if head == tail {
        return Failure(VectorEmpty);
      }
      var x := PollFirst();
      return Success(x);
    }

    method RemoveLast() returns (r: Result<T, DqError>)
      requires Valid()
      modifies this, elements
      ensures Valid() && elements == old(elements)
      ensures old(Contents) == [] ==> r == Failure(VectorEmpty) && Contents == old(Contents)
      ensures old(Contents) != [] ==>
                r == Success(old(Contents)[|old(Contents)| - 1]) && Contents == old(Contents)[..|old(Contents)| - 1]
    {
      if head == tail {
        return Failure(VectorEmpty);
      }
      var x := PollLast();
      return Success(x);
    }

    function GetFirst(): (r: Result<T, DqError>)
      reads this, elements
      requires Valid()
      ensures Contents == [] ==> r == Failure(VectorEmpty)
      ensures Contents != [] ==> r == Success(Contents[0])
    {
      if head == tail then Failure(VectorEmpty) else Success(elements[head])
    }

    function GetLast(): (r: Result<T, DqError>)
      reads this, elements
      requires Valid()
      ensures Contents == [] ==> r == Failure(VectorEmpty)
      ensures Contents != [] ==> r == Success(Contents[|Contents| - 1])
    {
      if head == tail then Failure(VectorEmpty)
      else
        MaskIsRemainder(tail - 1, elements.Length);
        Success(elements[(tail - 1) % elements.Length])
    }

    /** Number of elements, `(tail - head)` modulo the capacity. */
    function Length(): (n: nat)
      reads this, elements
      requires Valid()
      ensures n == |Contents| && n < elements.Length
    {
      MaskIsRemainder(tail - head, elements.Length);
      (tail - head) % elements.Length
    }

    function IsEmpty(): (b: bool)
      reads this, elements
      requires Valid()
      ensures b <==> Contents == []
    {
      head == tail
    }

    function NotEmpty(): (b: bool)
      reads this, elements
      requires Valid()
      ensures b <==> Contents != []
    {
      head != tail
    }

    function HasIndex(idx: int): (b: bool)
      reads this, elements
      requires Valid()
      ensures b <==> 0 <= idx < |Contents|
    {
      idx >= 0 && idx < Length()
    }

    /** Logical element `index`; fails past the end or below zero. */
    function Get(index: int): (r: Result<T, DqError>)
      reads this, elements
      requires Valid()
      ensures 0 <= index < |Contents| ==> r == Success(Contents[index])
      ensures index >= |Contents| ==> r == Failure(IndexOutOfRange)
      ensures index < 0 ==> r == Failure(IndexInvalid)
    {
      if index >= Length() then Failure(IndexOutOfRange)
      else if index < 0 then Failure(IndexInvalid)
      else if head < tail then Success(elements[index + head])
      else
        var rIdx := (elements.Length - 1) - head;
        if index <= rIdx then Success(elements[index + head])
        else Success(elements[index - (rIdx + 1)])
    }

    /** Logical element `index`, or `defaultValue` when out of range. */
    function GetOr(index: int, defaultValue: T): (r: T)
      reads this, elements
      requires Valid()
      ensures 0 <= index < |Contents| ==> r == Contents[index]
      ensures !(0 <= index < |Contents|) ==> r == defaultValue
    {
      if index >= Length() then defaultValue
      else if index < 0 then defaultValue
      else if head < tail then elements[index + head]
      else
        var rIdx := (elements.Length - 1) - head;
        if index <= rIdx then elements[index + head]
        else elements[index - (rIdx + 1)]
    }

    /** Array slot of logical position `index`, as `Set` and `Edit` compute it. */
    function SlotOf(index: nat): (s: nat)
      reads this, elements
      requires Valid() && index < |Contents|
      ensures s < elements.Length && s == Slot(head, index, elements.Length)
    {
      if head < tail then index + head
      else
        var rIdx := (elements.Length - 1) - head;
        if index <= rIdx then index + head else index - (rIdx + 1)
    }

    /** Replaces logical element `index`; out of range is a silent no-op. */
    method Set(index: int, value: T)
      requires Valid()
      modifies this, elements
      ensures Valid() && elements == old(elements)
      ensures Contents == if 0 <= index < |old(Contents)| then old(Contents)[index := value] else old(Contents)
    {
      if index >= Length() || index < 0 {
        return;
      }
      elements[SlotOf(index)] := value;
      Contents := Contents[index := value];
    }

    /** Replaces logical element `index` by `v` of its old value; out of range is a silent no-op. */
    method Edit(index: int, v: T -> T)
      requires Valid()
      modifies this, elements
      ensures Valid() && elements == old(elements)
      ensures Contents == if 0 <= index < |old(Contents)| then old(Contents)[index := v(old(Contents)[index])] else old(Contents)
    {
      if index >= Length() || index < 0 {
        return;
      }
      var s := SlotOf(index);
      elements[s] := v(elements[s]);
      Contents := Contents[index := v(Contents[index])];
    }

    /** Removes the element held in array slot `i`, shifting whichever side of
        the ring is shorter. A slot outside the occupied range is reported as
        a concurrent modification and changes nothing. */
    method Delete(i: int) returns (r: Outcome<DqError>)
      requires Valid()
      requires 0 <= i < elements.Length
      modifies this, elements
      ensures Valid() && elements == old(elements)
      ensures var k := (i - old(head)) % elements.Length;
              if k < |old(Contents)|
              then r == Pass && Contents == old(Contents)[..k] + old(Contents)[k + 1..]
              else r == Fail(ConcurrentModification) && Contents == old(Contents)
    {
      var cap := elements.Length;
      var h := head;
      var t := tail;
      DeleteOffsets(h, t, i, cap, |Contents|);
      var front := (i - h) % cap;
      var back := (t - i) % cap;
      if front >= (t - h) % cap {
        return Fail(ConcurrentModification);
      }
      WithoutIsSplice(Contents, front);
      if front < back {
        ShiftFrontOver(i, front);
      } else {
        ShiftBackOver(i, front, back);
      }
      return Pass;
    }

    /** The front half of `Delete`: moves the elements before slot `i` one
        slot back and advances `head`. */
    method ShiftFrontOver(i: int, front: nat)
      requires Valid()
      requires 0 <= i < elements.Length && front < |Contents| && i == Slot(head, front, elements.Length)
      modifies this, elements
      ensures Valid() && elements == old(elements)
      ensures Contents == Without(old(Contents), front)
    {
      if head <= i {
        ShiftFrontInPlace(i, front);
      } else {
        ShiftFrontWrapped(i, front);
      }
    }

    method ShiftFrontInPlace(i: int, front: nat)
      requires Valid()
      requires 0 <= i < elements.Length && front < |Contents| && i == Slot(head, front, elements.Length)
      requires head <= i
      modifies this, elements
      ensures Valid() && elements == old(elements)
      ensures Contents == Without(old(Contents), front)
    {
      var cap := elements.Length;
      var h := head;
      var blank: T := *;
      ghost var a := elements[..];
      ghost var s := Contents;
      FrontInPlaceKeepsRing(a, h, front, s, tail, blank);
      MoveFrontInPlace(elements, h, front, blank);
      head := (h + 1) % cap;
      Contents := Without(s, front);
    }

    /** The array moves of `ShiftFrontInPlace`. */
    static method MoveFrontInPlace(elements: array<T>, h: nat, k: nat, blank: T)
      requires h + k < elements.Length
      modifies elements
      ensures elements[..] == Copied(old(elements[..]), old(elements[..]), h, h + 1, k)[h := blank]
    {
      ArrayCopy(elements, h, elements, h + 1, k);
      ghost var moved := elements[..];
      elements[h] := blank;
      assert elements[..] == moved[h := blank];
    }

    method ShiftFrontWrapped(i: int, front: nat)
      requires Valid()
      requires 0 <= i < elements.Length && front < |Contents| && i == Slot(head, front, elements.Length)
      requires head > i
      modifies this, elements
      ensures Valid() && elements == old(elements)
      ensures Contents == Without(old(Contents), front)
    {
      var cap := elements.Length;
      var h := head;
      var blank: T := *;
      FrontWrappedKeepsRing(elements[..], h, front, Contents, tail, blank);
      MoveFrontWrapped(elements, i, h);
      ghost var moved := elements[..];
      elements[h] := blank;
      assert elements[..] == moved[h := blank];
      head := (h + 1) % cap;
      Contents := Without(Contents, front);
    }

    /** The array moves of `ShiftFrontWrapped`. */
    static method MoveFrontWrapped(elements: array<T>, i: int, h: nat)
      requires 0 <= i < h < elements.Length
      modifies elements
      ensures elements[..] == FrontWrappedMoved(old(elements[..]), i, h)
    {
      var mask := elements.Length - 1;
      ghost var a := elements[..];
      ghost var a1 := Copied(a, a, 0, 1, i);
      ArrayCopy(elements, 0, elements, 1, i);
      assert elements[..] == a1;
      elements[0] := elements[mask];
      assert elements[..] == a1[0 := a1[mask]];
      ArrayCopy(elements, h, elements, h + 1, mask - h);
    }

    /** The back half of `Delete`: moves the elements after slot `i` one slot
        forward and retreats `tail`. */
    method ShiftBackOver(i: int, front: nat, back: nat)
      requires Valid()
      requires 0 <= i < elements.Length && front < |Contents| && i == Slot(head, front, elements.Length)
      requires back == |Contents| - front
      modifies this, elements
      ensures Valid() && elements == old(elements)
      ensures Contents == Without(old(Contents), front)
    {
      if i < tail {
        ShiftBackInPlace(i, front, back);
      } else {
        ShiftBackWrapped(i, front);
      }
    }

    method ShiftBackInPlace(i: int, front: nat, back: nat)
      requires Valid()
      requires 0 <= i < elements.Length && front < |Contents| && i == Slot(head, front, elements.Length)
      requires back == |Contents| - front && i < tail
      modifies this, elements
      ensures Valid() && elements == old(elements)
      ensures Contents == Without(old(Contents), front)
    {
      var cap := elements.Length;
      var t := tail;
      ghost var a := elements[..];
      ghost var s := Contents;
      BackInPlaceKeepsRing(a, head, front, s, t);
      ghost var moved := Copied(a, a, i + 1, i, back);
      ArrayCopy(elements, i + 1, elements, i, back);
      assert elements[..] == moved;
      tail := t - 1;
      Contents := Without(s, front);
    }

    method ShiftBackWrapped(i: int, front: nat)
      requires Valid()
      requires 0 <= i < elements.Length && front < |Contents| && i == Slot(head, front, elements.Length)
      requires i >= tail
      modifies this, elements
      ensures Valid() && elements == old(elements)
      ensures Contents == Without(old(Contents), front)
    {
      var cap := elements.Length;
      var t := tail;
      BackWrappedKeepsRing(elements[..], head, front, Contents, t);
      MoveBackWrapped(elements, i, t);
      MaskIsRemainder(t - 1, cap);
      tail := (t - 1) % cap;
      Contents := Without(Contents, front);
    }

    /** The array moves of `ShiftBackWrapped`. */
    static method MoveBackWrapped(elements: array<T>, i: int, t: nat)
      requires t < i < elements.Length
      modifies elements
      ensures elements[..] == BackWrappedMoved(old(elements[..]), i, t)
    {
      var mask := elements.Length - 1;
      ghost var a := elements[..];
      ghost var a1 := Copied(a, a, i + 1, i, mask - i);
      ghost var a2 := a1[mask := a1[0]];
      ArrayCopy(elements, i + 1, elements, i, mask - i);
      assert elements[..] == a1;
      elements[mask] := elements[0];
      assert elements[..] == a2;
      ArrayCopy(elements, 1, elements, 0, t);
    }

    /** Empties the buffer, blanking every occupied slot. */
    method Clear()
      requires Valid()
      modifies this, elements
      ensures Valid() && elements == old(elements)
      ensures Contents == []
    {
      var h := head;
      var t := tail;
      if h != t {
        head, tail := 0, 0;
        var i := h;
        var cap := elements.Length;
        var blank: T := *;
        elements[i] := blank;
        MaskIsRemainder(i + 1, cap);
        i := (i + 1) % cap;
        while i != t
          invariant elements == old(elements) && head == 0 && tail == 0
          invariant cap == elements.Length && 0 <= i < cap && t < cap
          decreases RingLength(i, t, cap)
        {
          elements[i] := blank;
          MaskIsRemainder(i + 1, cap);
          i := (i + 1) % cap;
        }
        Contents := [];
      }
    }

    /** Drops elements from the back until at most `newLength` remain; a
        non-positive length empties the buffer. */
    method TruncateTo(newLength: int)
      requires Valid()
      modifies this, elements
      ensures Valid() && elements == old(elements)
      ensures Contents == if newLength <= 0 then []
                          else if newLength < |old(Contents)| then old(Contents)[..newLength]
                          else old(Contents)
    {
      if newLength <= 0 {
        Clear();
        return;
      }
      while Length() > newLength
        invariant Valid() && elements == old(elements)
        invariant |Contents| <= |old(Contents)|
        invariant Contents == old(Contents)[..|Contents|]
        invariant newLength < |old(Contents)| ==> newLength <= |Contents|
        invariant newLength >= |old(Contents)| ==> |Contents| == |old(Contents)|
        decreases |Contents|
      {
        var dropped := PollLast();
      }
    }

    /** Removes elements from the front while `comparator` holds of them. */
    method TrimLeading(comparator: T -> bool)
      requires Valid()
      modifies this, elements
      ensures Valid() && elements == old(elements)
      ensures Contents == DropWhile(comparator, old(Contents))
    {
      while Length() > 0
        invariant Valid() && elements == old(elements)
        invariant DropWhile(comparator, Contents) == DropWhile(comparator, old(Contents))
        decreases |Contents|
      {
        var first := GetFirst();
        if !comparator(first.value) {
          return;
        }
        var removed := RemoveFirst();
      }
    }

    /** Reverses the logical order in place by swapping from both ends. */
    method Reverse()
      requires Valid()
      modifies this, elements
      ensures Valid() && elements == old(elements)
      ensures Contents == Reversed(old(Contents))
    {
      if Length() < 2 {
        MirroredIsReversed(Contents, Contents, 0);
        return;
      }
      MaskIsRemainder(tail - 1, elements.Length);
      SwapInward(elements, head, (tail - 1) % elements.Length, Length(), Contents);
      ReversedAt(Contents);
      Contents := Reversed(Contents);
    }

    /** The swapping loop of `Reverse` over a ring of `n` elements from slot
        `h` whose last element is in slot `t`. */
    static method SwapInward(elements: array<T>, h: nat, t: nat, n: nat, ghost s: seq<T>)
      requires n == |s| < elements.Length && RingHolds(elements[..], h, s)
      requires t == Slot(h, n - 1, elements.Length) && n >= 2
      modifies elements
      ensures RingHolds(elements[..], h, Reversed(s))
    {
      var cap := elements.Length;
      var lo := h;
      var hi := t;
      var c := n / 2;
      ghost var view := s;
      for i := 0 to c
        invariant lo == Slot(h, i, cap) && hi == Slot(h, n - 1 - i, cap)
        invariant RingHolds(elements[..], h, view)
        invariant MirroredUpTo(view, s, i)
      {
        ReverseSwapStep(elements[..], h, view, s, n, i);
        SwapSlots(elements, lo, hi);
        view := view[i := view[n - 1 - i]][n - 1 - i := view[i]];
        lo := (lo + 1) % cap;
        hi := (hi - 1) % cap;
      }
      MirroredIsReversed(view, s, c);
    }

    /** Exchanges two slots of an array. */
    static method SwapSlots(a: array<T>, x: int, y: int)
      requires 0 <= x < a.Length && 0 <= y < a.Length
      modifies a
      ensures a[..] == old(a[..])[x := old(a[y])][y := old(a[x])]
    {
      a[x], a[y] := a[y], a[x];
    }

    /** A new buffer holding logical elements `start` to `end - 1`; a negative
        bound counts back from the end, and an empty or inverted range gives
        an empty buffer. */
    method Slice(start: int, end: int) returns (r: Result<Dq<T>, DqError>)
      requires Valid()
      ensures var n := |Contents|;
              var s := if start < 0 then start + n else start;
              var e := if end < 0 then end + n else end;
              if s < 0 || s >= e then r.Success? && fresh(r.value) && r.value.Valid() && r.value.Contents == []
              else if AllocationSize(e - s).Failure? then r == Failure(InvalidElementCount)
              else if e > n then r == Failure(IndexOutOfRange)
              else r.Success? && fresh(r.value) && r.value.Valid() && r.value.Contents == Contents[s..e]
    {
      var n := Length();
      var s := start;
      var e := end;
      if s < 0 {
        s := s + n;
      }
      if e < 0 {
        e := e + n;
      }
      if s < 0 || s >= e {
        var empty := new Dq<T>();
        return Success(empty);
      }
      r := SliceOf(s, e);
    }

    /** `Slice` once the bounds are known to form a non-empty range from a
        non-negative start. */
    method SliceOf(s: nat, e: int) returns (r: Result<Dq<T>, DqError>)
      requires Valid() && s < e
      ensures if AllocationSize(e - s).Failure? then r == Failure(InvalidElementCount)
              else if e > |Contents| then r == Failure(IndexOutOfRange)
              else r.Success? && fresh(r.value) && r.value.Valid() && r.value.Contents == Contents[s..e]
    {
      AllocationSizeIsTight(e - s);
      var result :- OfCapacity(e - s);
      r := AppendRange(result, s, e);
    }

    /** The copying loop of `Slice`: appends logical elements `s` to `e - 1`
        to the empty buffer `result`, which has room for all of them; fails
        when the range runs past the end. */
    method AppendRange(result: Dq<T>, s: nat, e: int) returns (r: Result<Dq<T>, DqError>)
      requires Valid() && result.Valid() && result != this && result.elements != elements
      requires result.Contents == [] && s < e && e - s < result.elements.Length
      modifies result, result.elements
      ensures result.Valid() && result.elements == old(result.elements)
      ensures if e <= |Contents| then r == Success(result) && result.Contents == Contents[s..e]
              else r == Failure(IndexOutOfRange)
    {
      ghost var c := Contents;
      ghost var cap := result.elements.Length;
      for i := s to e
        invariant result.Valid() && result.elements.Length == cap
        invariant result.elements == old(result.elements)
        invariant i == s || i <= |c|
        invariant |result.Contents| == i - s
        invariant i <= |c| ==> result.Contents == c[s..i]
      {
        var x :- Get(i);
        // Never fails: `result` was sized above the whole range.
        var added := result.AddLast(x);
        assert c[s..i + 1] == c[s..i] + [x];
      }
      return Success(result);
    }

    /** A fresh array holding the contents front to back. */
    method ToArray() returns (copy: array<T>)
      requires Valid()
      ensures fresh(copy) && copy[..] == Contents
    {
      var wrap := tail < head;
      var end := if wrap then tail + elements.Length else tail;
      // `end - head` is never negative here, so the source's check on it never fires.
      var newLength := end - head;
      copy := new T[newLength];
      ArrayCopy(elements, head, copy, 0, if elements.Length - head < newLength then elements.Length - head else newLength);
      if wrap {
        ArrayCopy(elements, 0, copy, elements.Length - head, tail);
      }
    }
  }
}
