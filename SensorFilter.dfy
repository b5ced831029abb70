/**
 * `SensorFilter`: a ring buffer of 3-vectors, `Size` slots of three
 * numbers each in one flat array, with `LastIdx` naming the slot written
 * last and `getPrev(i)` reading the vector added i steps before it.
 *
 * The buffer holds integers here; the index arithmetic, which is what the
 * contracts are about, does not depend on the element type.
 */
module Filters {
  import opened JsBits

  datatype Triple = Triple(x: int, y: int, z: int)

  /** The slot written after slot `last` (-1 before the first write): the next one, wrapping at `size`. */
  function NextIdx(last: int, size: int): (n: int)
    requires size > 0 && -1 <= last < size
    ensures 0 <= n < size
    ensures n == (last + 1) % size
  {
    if last == size - 1 then 0 else last + 1
  }

  /**
   * `getPrev`'s slot: JavaScript's `(LastIdx - i) % Size`, which is negative
   * for a negative dividend, moved into range by adding `Size`.
   */
  function PrevSlot(last: int, i: int, size: int): (idx: int)
    requires size > 0
    ensures 0 <= idx < size
    ensures idx == (last - i) % size
  {
    JsRemFixUp(last - i, size);
    var r := JsRem(last - i, size);
    if r < 0 then r + size else r
  }

  /** The vector added i steps before the last one. */
  function Back(history: seq<Triple>, i: nat): Triple
    requires i < |history|
  {
    history[|history| - 1 - i]
  }

  /** The three numbers of slot k hold t. */
  predicate SlotHolds(e: seq<int>, k: int, t: Triple)
    requires 0 <= k && 3 * k + 2 < |e|
  {
    e[3 * k] == t.x && e[3 * k + 1] == t.y && e[3 * k + 2] == t.z
  }

  /** `addElement`'s three writes into slot k. */
  function Store(e: seq<int>, k: int, t: Triple): (r: seq<int>)
    requires 0 <= k && 3 * k + 2 < |e|
    ensures |r| == |e| && SlotHolds(r, k, t)
    ensures forall j :: 0 <= j < |e| && j / 3 != k ==> r[j] == e[j]
  {
    e[3 * k := t.x][3 * k + 1 := t.y][3 * k + 2 := t.z]
  }

  /**
   * The look-back invariant: for every i below both the number of vectors
   * added and the size, the slot `getPrev(i)` reads holds the vector added
   * i steps before the last one.
   */
  predicate Remembers(e: seq<int>, size: int, last: int, history: seq<Triple>)
    requires size > 0 && |e| == 3 * size
  {
    forall i: nat :: i < |history| && i < size ==> SlotHolds(e, PrevSlot(last, i, size), Back(history, i))
  }

  /** Where the last slot is after n additions: -1 before the first, then n - 1 wrapped at `size`. */
  function LastAfter(n: nat, size: int): (last: int)
    requires size > 0
    ensures -1 <= last < size
  {
    if n == 0 then -1 else (n - 1) % size
  }

  /** Adding the modulus does not change a remainder. */
  lemma ModAddSize(a: int, size: int)
    requires size > 0
    ensures (a + size) % size == a % size
  {
    var q, r := a / size, a % size;
    assert a == size * q + r;
    ModUnique(a + size, size, q + 1, r);
  }

  /** The remainder of n + 1 follows the remainder of n, wrapping at the modulus. */
  lemma ModSucc(n: int, size: int)
    requires size > 0
    ensures (n + 1) % size == if n % size == size - 1 then 0 else n % size + 1
  {
    var q, r := n / size, n % size;
    assert n == size * q + r;
    if r == size - 1 {
      ModUnique(n + 1, size, q + 1, 0);
    } else {
      ModUnique(n + 1, size, q, r + 1);
    }
  }

  /** One more addition moves the last slot by one, wrapping at `size`. */
  lemma NextIdxCounts(n: nat, size: int)
    requires size > 0
    ensures NextIdx(LastAfter(n, size), size) == LastAfter(n + 1, size)
  {
    if n > 0 {
      ModSucc(n - 1, size);
    } else {
      ModUnique(0, size, 0, 0);
    }
  }

  /** After a write, looking back i steps finds the slot that was i - 1 steps back before it. */
  lemma PrevSlotShifts(last: int, i: int, size: int)
    requires size > 0 && -1 <= last < size
    ensures PrevSlot(NextIdx(last, size), i, size) == PrevSlot(last, i - 1, size)
  {
    if last == size - 1 {
      ModAddSize(-i, size);
      assert last - (i - 1) == -i + size;
    } else {
      assert NextIdx(last, size) - i == last - (i - 1);
    }
  }

  /** Looking back between 1 and size - 1 steps never lands on the slot just written. */
  lemma PrevSlotAvoidsLast(n: int, i: int, size: int)
    requires 0 <= n < size && 0 < i < size
    ensures PrevSlot(n, i, size) != n
  {
    var r := PrevSlot(n, i, size);
    if n - i >= 0 {
      ModUnique(n - i, size, 0, n - i);
    } else {
      ModUnique(n - i, size, -1, n - i + size);
    }
  }

  /** `addElement` keeps the look-back invariant, with the new vector at look-back 0. */
  lemma {:induction false} RemembersAfterAdd(e: seq<int>, size: int, last: int, history: seq<Triple>, t: Triple)
    requires size > 0 && |e| == 3 * size && -1 <= last < size
    requires Remembers(e, size, last, history)
    ensures Remembers(Store(e, NextIdx(last, size), t), size, NextIdx(last, size), history + [t])
  {
    var n := NextIdx(last, size);
    var e', h' := Store(e, n, t), history + [t];
    forall i: nat | i < |h'| && i < size
      ensures SlotHolds(e', PrevSlot(n, i, size), Back(h', i))
    {
      if i == 0 {
        assert PrevSlot(n, 0, size) == n by {
          ModUnique(n, size, 0, n);
        }
      } else {
        var k := PrevSlot(n, i, size);
        PrevSlotShifts(last, i, size);
        PrevSlotAvoidsLast(n, i, size);
        assert Back(h', i) == Back(history, i - 1);
        assert SlotHolds(e, k, Back(history, i - 1));
        assert e'[3 * k] == e[3 * k] && e'[3 * k + 1] == e[3 * k + 1] && e'[3 * k + 2] == e[3 * k + 2];
      }
    }
  }

  /** Right after a vector is added, looking back 0 steps gives that vector. */
  lemma PrevZeroIsAdded(e: seq<int>, size: int, last: int, history: seq<Triple>, t: Triple)
    requires size > 0 && |e| == 3 * size && -1 <= last < size
    requires Remembers(e, size, last, history)
    ensures SlotHolds(Store(e, NextIdx(last, size), t), PrevSlot(NextIdx(last, size), 0, size), t)
  {
    RemembersAfterAdd(e, size, last, history, t);
    assert Back(history + [t], 0) == t;
  }

  /** Under the look-back invariant, slot `PrevSlot(last, i)` reads as the vector added i steps back. */
  lemma RememberedSlot(e: seq<int>, size: int, last: int, history: seq<Triple>, i: nat)
    requires size > 0 && |e| == 3 * size
    requires Remembers(e, size, last, history) && i < |history| && i < size
    ensures var k := PrevSlot(last, i, size);
      e[3 * k..3 * k + 3] == [Back(history, i).x, Back(history, i).y, Back(history, i).z]
  {
    var k := PrevSlot(last, i, size);
    assert SlotHolds(e, k, Back(history, i));
  }

  class SensorFilter {
    const size: nat
    const elements: array<int>
    var lastIdx: int
    /** Every vector added so far, oldest first. */
    ghost var history: seq<Triple>

    ghost predicate Valid()
      reads this, elements
    {
      && size > 0
      && elements.Length == 3 * size
      && lastIdx == LastAfter(|history|, size)
      && Remembers(elements[..], size, lastIdx, history)
    }

    /** `new SensorFilter(size)`: a zeroed buffer of `size` slots, nothing added yet. */
    constructor (size: nat)
      requires size > 0
      ensures Valid() && fresh(elements)
      ensures this.size == size && lastIdx == -1 && history == []
      ensures forall j :: 0 <= j < elements.Length ==> elements[j] == 0
    {
      this.size := size;
      elements := new int[3 * size](_ => 0);
      lastIdx := -1;
      history := [];
    }

    /** `addElement(v)`: advance the last slot, wrapping, and write v's three numbers there. */
    method AddElement(v: seq<int>)
      requires Valid() && |v| >= 3
      modifies this, elements
      ensures Valid()
      ensures lastIdx == NextIdx(old(lastIdx), size)
      ensures elements[..] == Store(old(elements[..]), lastIdx, Triple(v[0], v[1], v[2]))
      ensures history == old(history) + [Triple(v[0], v[1], v[2])]
    {
      ghost var e, last := elements[..], lastIdx;
      var t := Triple(v[0], v[1], v[2]);
      if lastIdx == size - 1 {
        lastIdx := 0;
      } else {
        lastIdx := lastIdx + 1;
      }
      elements[lastIdx * 3 + 0] := v[0];
      elements[lastIdx * 3 + 1] := v[1];
      elements[lastIdx * 3 + 2] := v[2];
      assert elements[..] == Store(e, lastIdx, t);
      RemembersAfterAdd(e, size, last, history, t);
      NextIdxCounts(|history|, size);
      history := history + [t];
    }

    /**
     * `getPrev(i, out)`: copy the slot i steps back into out.  Whenever i is
     * below both the number of vectors added and the size, that is the
     * vector added i steps before the last one.
     */
    method GetPrev(i: int, out: array<int>)
      requires Valid() && out.Length >= 3 && out != elements
      modifies out
      ensures var k := PrevSlot(lastIdx, i, size);
        out[..3] == elements[3 * k..3 * k + 3] && out[3..] == old(out[3..])
      ensures 0 <= i < |history| && i < size ==>
        out[..3] == [Back(history, i).x, Back(history, i).y, Back(history, i).z]
    {
      ghost var e := elements[..];
      var idx := JsRem(lastIdx - i, size);
      if idx < 0 {
        idx := idx + size;
      }
      assert idx == PrevSlot(lastIdx, i, size) by {
        JsRemFixUp(lastIdx - i, size);
      }
      out[0] := elements[idx * 3 + 0];
      out[1] := elements[idx * 3 + 1];
      out[2] := elements[idx * 3 + 2];
      assert out[..3] == e[3 * idx..3 * idx + 3];
      if 0 <= i < |history| && i < size {
        RememberedSlot(e, size, lastIdx, history, i);
      }
    }
  }
}
