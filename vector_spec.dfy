/** The value-level view of SimpleVector: its growth rule and what each
    mutating operation does to the sequence of live elements.  The class in
    simple_vector.dfy is proved against these functions. */
module VectorSpec {

  function Max(a: nat, b: nat): (r: nat)
    ensures a <= r && b <= r && (r == a || r == b)
  {
    if a < b then b else a
  }

  /** The capacity chosen when an insertion does not fit:
      `capacity ? max(size + 1, 2 * capacity) : 1`. */
  function GrowCapacity(size: nat, capacity: nat): (r: nat)
    requires size <= capacity
    ensures size < r && capacity < r
    ensures capacity != 0 ==> 2 * capacity <= r
    ensures capacity == 0 ==> r == 1
  {
    if capacity != 0 then Max(size + 1, 2 * capacity) else 1
  }

  /** The capacity after PushBack or Insert on a vector of `size` live
      elements in `capacity` slots: unchanged when the new element fits. */
  function PushCapacity(size: nat, capacity: nat): (r: nat)
    requires size <= capacity
    ensures size < r
    ensures size < capacity ==> r == capacity
    ensures size == capacity ==> r == GrowCapacity(size, capacity)
  {
    if size + 1 > capacity then GrowCapacity(size, capacity) else capacity
  }

  /** The capacity of a vector built by `n` PushBack calls from empty. */
  function CapacityAfterPushes(n: nat): (r: nat)
    ensures n <= r
  {
    if n == 0 then 0 else PushCapacity(n - 1, CapacityAfterPushes(n - 1))
  }

  /** Elements moved into fresh buffers by reallocations during `n`
      PushBack calls from empty (each reallocation moves every live element). */
  function MovesAfterPushes(n: nat): (r: nat)
  {
    if n == 0 then 0
    else
      var before := CapacityAfterPushes(n - 1);
      MovesAfterPushes(n - 1) + (if n > before then n - 1 else 0)
  }

  ghost predicate IsPowerOfTwo(c: nat)
  {
    c == 1 || (c > 1 && c % 2 == 0 && IsPowerOfTwo(c / 2))
  }

  /** Doubling from empty: after n >= 1 appends the capacity is the least
      power of two that holds n elements, so fewer than half the slots are
      ever spare. */
  lemma {:induction false} CapacityAfterPushesIsLeastPowerOfTwo(n: nat)
    requires n >= 1
    ensures IsPowerOfTwo(CapacityAfterPushes(n))
    ensures n <= CapacityAfterPushes(n) < 2 * n
  {
    if n > 1 {
      CapacityAfterPushesIsLeastPowerOfTwo(n - 1);
      var before := CapacityAfterPushes(n - 1);
      if n > before {
        assert before == n - 1;
        assert CapacityAfterPushes(n) == 2 * before;
        assert (2 * before) / 2 == before;
      }
    }
  }

  /** Amortised constant-time PushBack: n appends from empty move fewer
      elements between buffers than the final capacity, hence fewer than 2n. */
  lemma {:induction false} MovesBoundedByCapacity(n: nat)
    requires n >= 1
    ensures MovesAfterPushes(n) < CapacityAfterPushes(n) < 2 * n
  {
    CapacityAfterPushesIsLeastPowerOfTwo(n);
    if n > 1 {
      MovesBoundedByCapacity(n - 1);
      CapacityAfterPushesIsLeastPowerOfTwo(n - 1);
    }
  }

  /** The capacities seen while appending three elements to an empty vector. */
  lemma ThreePushesCapacities()
    ensures [CapacityAfterPushes(0), CapacityAfterPushes(1),
             CapacityAfterPushes(2), CapacityAfterPushes(3)] == [0, 1, 2, 4]
  {
    assert CapacityAfterPushes(1) == 1;
    assert CapacityAfterPushes(2) == 2;
  }

  /** The live elements after inserting `v` before index `d`. */
  function InsertAt<T>(s: seq<T>, d: nat, v: T): (r: seq<T>)
    requires d <= |s|
    ensures |r| == |s| + 1 && r[d] == v
    ensures forall i :: 0 <= i < d ==> r[i] == s[i]
    ensures forall i :: d < i <= |s| ==> r[i] == s[i - 1]
  {
    s[..d] + [v] + s[d..]
  }

  /** The live elements after removing the one at index `d`. */
  function EraseAt<T>(s: seq<T>, d: nat): (r: seq<T>)
    requires d < |s|
    ensures |r| == |s| - 1
    ensures forall i :: 0 <= i < d ==> r[i] == s[i]
    ensures forall i :: d <= i < |r| ==> r[i] == s[i + 1]
  {
    s[..d] + s[d + 1..]
  }

  /** Erasing what was just inserted restores the original elements. */
  lemma EraseAfterInsert<T>(s: seq<T>, d: nat, v: T)
    requires d <= |s|
    ensures EraseAt(InsertAt(s, d, v), d) == s
  {
    var r := EraseAt(InsertAt(s, d, v), d);
    assert forall i :: 0 <= i < |s| ==> r[i] == s[i];
  }

  /** Re-inserting an erased element where it was restores the original. */
  lemma InsertAfterErase<T>(s: seq<T>, d: nat)
    requires d < |s|
    ensures InsertAt(EraseAt(s, d), d, s[d]) == s
  {
    var r := InsertAt(EraseAt(s, d), d, s[d]);
    assert forall i :: 0 <= i < |s| ==> r[i] == s[i];
  }

  /** The live elements after Resize(n) within capacity: truncated, or
      padded with `blank` (the element type's value-initialised `Type{}`). */
  function Resized<T>(s: seq<T>, n: nat, blank: T): (r: seq<T>)
    ensures |r| == n
    ensures forall i :: 0 <= i < n && i < |s| ==> r[i] == s[i]
    ensures forall i :: |s| <= i < n ==> r[i] == blank
  {
    if n <= |s| then s[..n] else s + seq(n - |s|, _ => blank)
  }

  /** Resize(k) then Resize(m) with m >= k keeps the first k elements of the
      first result and fills the rest with `blank`. */
  lemma ResizeThenGrow<T>(s: seq<T>, k: nat, m: nat, blank: T)
    requires k <= m
    ensures Resized(Resized(s, k, blank), m, blank)
         == Resized(s, k, blank) + seq(m - k, _ => blank)
  {
    var r := Resized(Resized(s, k, blank), m, blank);
    var t := Resized(s, k, blank) + seq(m - k, _ => blank);
    assert forall i :: 0 <= i < m ==> r[i] == t[i];
  }

  /** Shrinking after a resize is the same as resizing once to the smaller size. */
  lemma ResizeThenShrink<T>(s: seq<T>, k: nat, m: nat, blank: T)
    requires m <= k
    ensures Resized(Resized(s, k, blank), m, blank) == Resized(s, m, blank)
  {
    var r := Resized(Resized(s, k, blank), m, blank);
    var t := Resized(s, m, blank);
    assert forall i :: 0 <= i < m ==> r[i] == t[i];
  }

  /** The largest value of the source's 64-bit `size_t`. */
  const SizeMax: nat := 0xFFFF_FFFF_FFFF_FFFF

  /** Erase's debug assertion as written: `begin() <= position <= end()`,
      which admits the one-past-the-end position. */
  predicate EraseGuardAsWritten(pos: nat, size: nat)
  {
    pos <= size
  }

  /** Erase's `--size_` on a `size_t`, which wraps below zero. */
  function DecrementSize(size: nat): (r: nat)
    requires size <= SizeMax
    ensures size > 0 ==> r == size - 1
    ensures size == 0 ==> r == SizeMax
  {
    (size + SizeMax) % (SizeMax + 1)
  }

  /** Insert's in-place path as written (`std::copy_backward` of the tail,
      then `elements_[distance_] = value`) when `value` refers to the live
      element `j` of the same vector: the shift runs first, so the value is
      read from slot `j` of the shifted buffer.  (At `d == |s|` nothing is
      shifted and slot `d`, a spare slot, is overwritten, so its old content
      does not matter; the model puts element `j` there.) */
  function InsertInPlaceReadingElement<T>(s: seq<T>, d: nat, j: nat): (r: seq<T>)
    requires d <= |s| && j < |s|
    ensures r == InsertAt(s, d, if j <= d then s[j] else s[j - 1])
  {
    var shifted := s[..d] + [if d < |s| then s[d] else s[j]] + s[d..];
    shifted[d := shifted[j]]
  }

  /** Inserting the second element of [1, 2] at the front, in place, gives
      [1, 1, 2] as written, where a copy of the element gives [2, 1, 2]. */
  lemma InsertOwnElementReadsShiftedSlot()
    ensures InsertInPlaceReadingElement([1, 2], 0, 1) == [1, 1, 2]
    ensures InsertAt([1, 2], 0, 2) == [2, 1, 2]
  {
  }

  /** The outcome of Erase as written: the debug assertion fires, or the
      buffer after the `std::move` and the decremented size. */
  datatype EraseStep<T> = AssertFails | Erased(buffer: seq<T>, size: nat)

  /** Erase as written on a buffer of `|buffer|` slots holding `size` live
      elements: the assertion admits `pos <= size`; `std::move` carries
      `[pos + 1, size)` one slot down, leaving slot `size - 1` and the spare
      slots as they were; then `--size_` on a `size_t`.  At `pos == size` the
      moved range `[end() + 1, end())` is inverted, which is undefined; the
      model takes it to move nothing. */
  function EraseAsWritten<T>(buffer: seq<T>, size: nat, pos: nat): (r: EraseStep<T>)
    requires size <= |buffer| <= SizeMax
    ensures r.AssertFails? <==> pos > size
    ensures r.Erased? ==> |r.buffer| == |buffer|
    ensures r.Erased? && pos < size ==> r.size == size - 1
  {
    if !EraseGuardAsWritten(pos, size) then AssertFails
    else
      var moved := if pos < size then buffer[..pos] + buffer[pos + 1..size] + buffer[size - 1..] else buffer;
      Erased(moved, DecrementSize(size))
  }

  /** Below `end()`, Erase as written removes exactly the element at `pos`. */
  lemma EraseAsWrittenBelowEnd<T>(buffer: seq<T>, size: nat, pos: nat)
    requires size <= |buffer| <= SizeMax && pos < size
    ensures EraseAsWritten(buffer, size, pos).Erased?
    ensures EraseAsWritten(buffer, size, pos).size == size - 1
    ensures EraseAsWritten(buffer, size, pos).buffer[..size - 1] == EraseAt(buffer[..size], pos)
  {
    var r := EraseAsWritten(buffer, size, pos);
    var e := EraseAt(buffer[..size], pos);
    assert forall i :: 0 <= i < size - 1 ==> r.buffer[i] == e[i];
  }

  /** Erase at `end()` of an empty vector (capacity 0) passes the assertion
      as written and leaves a size of 2^64 - 1 over a buffer of no slots,
      breaking `size <= capacity`. */
  lemma EraseAtEndOfEmptyBreaksInvariant()
    ensures EraseAsWritten<int>([], 0, 0).Erased?
    ensures EraseAsWritten<int>([], 0, 0).size == SizeMax
    ensures EraseAsWritten<int>([], 0, 0).size > |EraseAsWritten<int>([], 0, 0).buffer|
  {
  }
}
