/** A fixed-capacity ring buffer that overwrites its oldest element when full
    and always exposes its contents as one contiguous slice of its backing
    storage.

    The backing sequence `vec` grows to at most `2 * size - 1` slots. Once it
    holds `size` elements, the logical contents are the window
    `vec[curStart .. curStart + size]`; every push writes the new value into
    two physical slots `size` apart, so that the slots on both sides of the
    window mirror each other and the cursor can wrap back to 0 without any
    reader noticing.
 */
module CircleBuffer {

  function Min(a: nat, b: nat): nat {
    if a < b then a else b
  }

  /** The abstract contents of a buffer of capacity `size` after the values
      `pushed` were pushed into it, oldest first: the last `min(|pushed|, size)`
      of them. */
  function Window<T>(pushed: seq<T>, size: nat): (r: seq<T>)
    ensures |r| == Min(|pushed|, size)
  {
    if |pushed| < size then pushed else pushed[|pushed| - size..]
  }

  /** The number of slots `vec` occupies after `n` pushes into a buffer of
      capacity `size`: it grows by one per push until it reaches
      `2 * size - 1`, then stays there. */
  function StoredLength(n: nat, size: nat): nat
    requires size >= 1
  {
    Min(n, 2 * size - 1)
  }

  /** Where the window starts after `n` pushes into a buffer of capacity
      `size`: at 0 until the buffer first holds `size` values, then one slot
      further per push, wrapping back to 0 on reaching `size`. */
  function CursorAfter(n: nat, size: nat): (c: nat)
    requires size >= 1
    ensures c < size
  {
    if n <= size then 0
    else
      var prev := CursorAfter(n - 1, size);
      if prev + 1 == size then 0 else prev + 1
  }

  // Arithmetic facts about `%` used by `CursorIsModular`.

  lemma ModNext(k: nat, size: nat)
    requires size >= 1
    ensures (k + 1) % size == if k % size + 1 == size then 0 else k % size + 1
  {
    var q, r := k / size, k % size;
    assert k == q * size + r;
    if r + 1 == size {
      assert k + 1 == (q + 1) * size;
      ModOfMultiple(q + 1, size);
    } else {
      ModUnique(k + 1, q, r + 1, size);
    }
  }

  lemma ModOfMultiple(q: nat, size: nat)
    requires size >= 1
    ensures (q * size) % size == 0
  {
    ModUnique(q * size, q, 0, size);
  }

  lemma ModUnique(k: nat, q: nat, r: nat, size: nat)
    requires size >= 1 && r < size && k == q * size + r
    ensures k % size == r
  {
    var q', r' := k / size, k % size;
    assert q' * size + r' == q * size + r;
    if q' < q {
      MulGap(q', q, size);
    } else if q' > q {
      MulGap(q, q', size);
    }
  }

  lemma MulGap(a: nat, b: nat, size: nat)
    requires a < b
    ensures a * size + size <= b * size
  {
    var d := b - a - 1;
    assert b * size == (a + 1 + d) * size == a * size + size + d * size;
  }

  /** The cursor counts the pushes beyond the first `size`, modulo `size`. */
  lemma {:induction false} CursorIsModular(n: nat, size: nat)
    requires size >= 1
    ensures CursorAfter(n, size) == if n < size then 0 else (n - size) % size
  {
    if n > size {
      CursorIsModular(n - 1, size);
      ModNext(n - 1 - size, size);
    }
  }

  /** Every slot that has a partner `size` slots to its right holds the same
      value as that partner. */
  ghost predicate Mirrored<T>(vec: seq<T>, size: nat) {
    forall i, j :: 0 <= i < j < |vec| && j == i + size ==> vec[i] == vec[j]
  }

  /** Element `i` of the window is the pushed value `|pushed| - |window| + i`:
      the window holds exactly the newest values, oldest first. */
  lemma WindowIsNewest<T>(pushed: seq<T>, size: nat, i: nat)
    requires i < |Window(pushed, size)|
    ensures Window(pushed, size)[i] == pushed[|pushed| - Min(|pushed|, size) + i]
  {
  }

  /** Pushing one value slides the window: it gains the new value at its
      right end and, once it already held `size` values, loses its oldest. */
  lemma WindowPush<T>(pushed: seq<T>, value: T, size: nat)
    requires size >= 1
    ensures Window(pushed + [value], size) ==
            (if |pushed| < size then Window(pushed, size) else Window(pushed, size)[1..]) + [value]
  {
    var n := |pushed|;
    if n >= size {
      calc {
        Window(pushed + [value], size);
        (pushed + [value])[n + 1 - size..];
        { assert (pushed + [value])[n + 1 - size..] == pushed[n + 1 - size..] + [value]; }
        pushed[n + 1 - size..] + [value];
        { assert pushed[n + 1 - size..] == pushed[n - size..][1..]; }
        Window(pushed, size)[1..] + [value];
      }
    }
  }

  /** Once `size` or more values were pushed, the first element of the view
      is the value pushed `size` pushes ago. */
  lemma OldestInWindow<T>(pushed: seq<T>, size: nat)
    requires 1 <= size <= |pushed|
    ensures Window(pushed, size)[0] == pushed[|pushed| - size]
  {
  }

  /** With capacity 1 the view is always just the latest value. */
  lemma WindowOfCapacityOne<T>(pushed: seq<T>)
    requires |pushed| >= 1
    ensures Window(pushed, 1) == [pushed[|pushed| - 1]]
  {
  }

  /** In a full, mirrored backing region the slots before position
      `size - 1` repeat the slots from `size` on, so the window may restart
      at 0 when it would otherwise run past the region's end. */
  lemma MirrorWraps<T>(vec: seq<T>, size: nat)
    requires size >= 1 && |vec| == 2 * size - 1
    requires Mirrored(vec, size)
    ensures vec[..size - 1] == vec[size..]
  {
    assert forall i :: 0 <= i < size - 1 ==> vec[..size - 1][i] == vec[size..][i] by {
      forall i | 0 <= i < size - 1 ensures vec[..size - 1][i] == vec[size..][i] {
        assert vec[..size - 1][i] == vec[i] && vec[size..][i] == vec[i + size];
      }
    }
  }

  /** The buffer invariant over the three fields and the push history,
      phase by phase: while filling, `vec` is the pushed values themselves;
      while mirroring, the window ends at the end of `vec`; in the steady
      state the cursor stays below `size`. In every phase after filling, the
      window `vec[cur .. cur + size]` is the abstract contents and the slots
      `size` apart agree. */
  ghost predicate Inv<T>(size: nat, vec: seq<T>, cur: nat, pushed: seq<T>) {
    size >= 1 &&
    Phases(size, |vec|, cur, |pushed|) &&
    Holds(size, vec, cur, pushed) &&
    Mirrored(vec, size)
  }

  /** While filling, `vec` is the pushed values themselves; afterwards the
      window `vec[cur .. cur + size]` is the abstract contents. */
  ghost predicate Holds<T>(size: nat, vec: seq<T>, cur: nat, pushed: seq<T>) {
    (|vec| < size ==> vec == pushed) &&
    (|vec| >= size ==> cur + size <= |vec| && vec[cur..cur + size] == Window(pushed, size))
  }

  /** How the length of `vec` and the cursor depend on the number `n` of
      values pushed, phase by phase. */
  ghost predicate Phases(size: nat, len: nat, cur: nat, n: nat)
    requires size >= 1
  {
    len == StoredLength(n, size) &&
    cur == CursorAfter(n, size) &&
    (len < size ==> cur == 0) &&
    (size <= len < 2 * size - 1 ==> cur == len - size) &&
    (len == 2 * size - 1 ==> cur < size)
  }

  /** Filling phase: appending keeps the invariant. */
  lemma FillingStep<T>(size: nat, vec: seq<T>, cur: nat, pushed: seq<T>, value: T)
    requires Inv(size, vec, cur, pushed) && |vec| < size
    ensures Inv(size, vec + [value], cur, pushed + [value])
  {
    var vec', pushed' := vec + [value], pushed + [value];
    assert vec' == pushed';
    if |vec'| >= size {
      assert vec'[cur..cur + size] == vec';
    }
  }

  /** Mirroring phase: appending the value and also writing it `size` slots
      to the left, then advancing the cursor, keeps the invariant. */
  lemma MirroringStep<T>(size: nat, vec: seq<T>, cur: nat, pushed: seq<T>, value: T)
    requires Inv(size, vec, cur, pushed) && size <= |vec| < 2 * size - 1
    ensures Inv(size, (vec + [value])[cur := value], cur + 1, pushed + [value])
  {
    var vec' := (vec + [value])[cur := value];
    WindowPush(pushed, value, size);
    assert cur + size == |vec|;
    assert vec'[cur + 1..cur + 1 + size] == vec[cur + 1..] + [value];
    assert vec[cur + 1..] == vec[cur..cur + size][1..];
    forall i, j | 0 <= i < j < |vec'| && j == i + size ensures vec'[i] == vec'[j] {
      if i != cur {
        assert vec'[i] == vec[i] && vec'[j] == vec[j];
      }
    }
  }

  /** Steady state: `mid` is `vec` after the write `size` slots to the
      right of the cursor, which happens only while that slot is inside
      `vec`. Overwriting the oldest slot as well and advancing the cursor,
      wrapping it to 0 on reaching `size`, keeps the invariant. */
  lemma SteadyStep<T>(size: nat, vec: seq<T>, cur: nat, pushed: seq<T>, value: T, mid: seq<T>)
    requires Inv(size, vec, cur, pushed) && |vec| == 2 * size - 1
    requires mid == if cur + size < 2 * size - 1 then vec[cur + size := value] else vec
    ensures Inv(size, mid[cur := value], if cur + 1 >= size then 0 else cur + 1, pushed + [value])
  {
    if cur + size < 2 * size - 1 {
      ShiftStep(size, vec, cur, pushed, value);
    } else {
      WrapStep(size, vec, cur, pushed, value);
    }
  }

  /** Steady state, cursor below `size - 1`: overwriting both copies of the
      oldest slot and advancing the cursor keeps the invariant. */
  lemma ShiftStep<T>(size: nat, vec: seq<T>, cur: nat, pushed: seq<T>, value: T)
    requires Inv(size, vec, cur, pushed) && |vec| == 2 * size - 1
    requires cur + size < 2 * size - 1
    ensures Inv(size, vec[cur + size := value][cur := value], cur + 1, pushed + [value])
  {
    var vec' := vec[cur + size := value][cur := value];
    WindowPush(pushed, value, size);
    assert vec'[cur + 1..cur + 1 + size] == vec[cur..cur + size][1..] + [value];
    forall i, j | 0 <= i < j < |vec'| && j == i + size ensures vec'[i] == vec'[j] {
      if i != cur {
        assert vec'[i] == vec[i] && vec'[j] == vec[j];
      }
    }
  }

  /** Steady state, cursor at `size - 1`: the second copy would fall off the
      end of `vec`, so only the oldest slot is overwritten and the cursor
      wraps to 0; the mirror makes the wrapped window the right one. */
  lemma WrapStep<T>(size: nat, vec: seq<T>, cur: nat, pushed: seq<T>, value: T)
    requires Inv(size, vec, cur, pushed) && |vec| == 2 * size - 1
    requires cur + 1 == size
    ensures Inv(size, vec[cur := value], 0, pushed + [value])
  {
    var vec' := vec[cur := value];
    WindowPush(pushed, value, size);
    MirrorWraps(vec, size);
    assert vec'[..size - 1] == vec[..size - 1];
    assert vec'[0..size] == vec[cur..cur + size][1..] + [value];
    forall i, j | 0 <= i < j < |vec'| && j == i + size ensures vec'[i] == vec'[j] {
      assert vec'[i] == vec[i] && vec'[j] == vec[j];
    }
  }

  class CircleBuffer<T> {
    /** The logical capacity, fixed at construction. */
    var size: nat
    /** The backing storage: at most `2 * size - 1` slots. */
    var vec: seq<T>
    /** Where the window starts in `vec` once `vec` holds `size` slots. */
    var curStart: nat

    /** Every value pushed so far, oldest first. */
    ghost var pushed: seq<T>

    /** The buffer invariant (`Inv`) on this object's fields. */
    ghost predicate Valid()
      reads this
    {
      Inv(size, vec, curStart, pushed)
    }

    /** An empty buffer of the given capacity. The capacity must be positive:
        the storage size `2 * capacity - 1` has no meaning at 0. */
    constructor WithCapacity(capacity: nat)
      requires capacity >= 1
      ensures Valid()
      ensures size == capacity && vec == [] && curStart == 0 && pushed == []
    {
      size := capacity;
      vec := [];
      curStart := 0;
      pushed := [];
    }

    /** Adds `value` as the newest element, dropping the oldest once the
        buffer holds `size` elements. */
    method Push(value: T)
      requires Valid()
      modifies this
      ensures Valid()
      ensures size == old(size) && pushed == old(pushed) + [value]
      ensures AsSlice() == (if old(|vec|) < size then old(AsSlice()) else old(AsSlice())[1..]) + [value]
      ensures |vec| == if old(|vec|) < 2 * size - 1 then old(|vec|) + 1 else old(|vec|)
      ensures curStart == if old(|vec|) < size then 0
                          else if old(curStart) + 1 == size then 0
                          else old(curStart) + 1
    {
      ghost var after := pushed + [value];
      WindowPush(pushed, value, size);
      assert |vec| < size <==> |pushed| < size;
      if |vec| < size {
        // filling
        FillingStep(size, vec, curStart, pushed, value);
        vec := vec + [value];
      } else if |vec| < size * 2 - 1 {
        // mirroring: append, and overwrite the slot `size` to the left
        MirroringStep(size, vec, curStart, pushed, value);
        var v := value;
        vec := vec + [value];
        vec := vec[curStart := v];
        curStart := curStart + 1;
      } else {
        // steady state: overwrite both copies (the second only when it is
        // inside `vec`), then advance the cursor and wrap it
        ghost var vec0, cur0 := vec, curStart;
        var v := value;
        var index := curStart + size;
        if index < size * 2 - 1 {
          vec := vec[index := value];
        }
        ghost var mid := vec;
        vec := vec[curStart := v];
        curStart := curStart + 1;
        if curStart >= size {
          curStart := 0;
        }
        SteadyStep(size, vec0, cur0, pushed, value, mid);
      }
      pushed := after;
    }

    /** The slots `vec` occupies stay within `2 * size - 1`, and once it holds
        `size` values the window lies inside it: the cursor is below `size`,
        and while mirroring it sits `size` slots before the end of `vec`. */
    lemma StorageBounds()
      requires Valid()
      ensures |vec| <= 2 * size - 1
      ensures |vec| >= size ==> curStart < size && curStart + size <= |vec|
      ensures size <= |vec| < 2 * size - 1 ==> curStart == |vec| - size
    {
    }

    /** After `n` pushes the cursor is 0 until `size` values were pushed, and
        `(n - size) % size` from then on. */
    lemma CursorPosition()
      requires Valid()
      ensures curStart == if |pushed| < size then 0 else (|pushed| - size) % size
    {
      CursorIsModular(|pushed|, size);
    }

    /** The current contents, oldest first, as a slice of `vec`. */
    function AsSlice(): (r: seq<T>)
      reads this
      requires Valid()
      ensures r == Window(pushed, size)
      ensures |r| == if |vec| < size then |vec| else size
    {
      if |vec| < size then vec else vec[curStart..curStart + size]
    }

    /** The range `[lo, hi)` of `vec` that the mutable view borrows: the whole
        of `vec` while filling, the window afterwards. */
    function AsMutSlice(): (r: (nat, nat))
      reads this
      requires Valid()
      ensures r.0 <= r.1 <= |vec|
      ensures vec[r.0..r.1] == Window(pushed, size)
    {
      if |vec| < size then (0, |vec|) else (curStart, curStart + size)
    }
  }
}
