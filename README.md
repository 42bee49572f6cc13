# circle_buffer in Dafny

This project models `CircleBuffer<T>` from the Rust crate `circle_buffer`: a
fixed-capacity ring buffer that overwrites its oldest element when full and
always hands out its current contents as one contiguous slice, oldest first,
without any modulo arithmetic on reads.

The buffer keeps a logical capacity `size`, a backing vector `vec` that grows
to at most `2 * size - 1` slots, and a cursor `cur_start`. `push` runs in one of
three phases:

- filling (`vec` shorter than `size`): append;
- mirroring (`size <= |vec| < 2 * size - 1`): append, also write the value at
  the cursor, advance the cursor;
- steady state (`|vec| == 2 * size - 1`): write the value at the cursor and,
  when it is inside `vec`, `size` slots to its right; advance the cursor and
  wrap it to 0 on reaching `size`.

`as_slice` is the whole of `vec` while filling and `vec[cur_start .. cur_start + size]`
afterwards.

The Dafny model (`CircleBuffer.dfy`, module `CircleBuffer`) is a class
`CircleBuffer<T>` with the fields `size`, `vec` (a `seq<T>`) and `curStart`,
plus a ghost field `pushed` holding every value pushed so far. `Valid()` ties
the fields to that history: `|vec| == min(|pushed|, 2 * size - 1)`, the
cursor's position in each phase (and as a function of the push count), the
mirror property `vec[i] == vec[i + size]`, and the window being the last
`min(|pushed|, size)` pushed values (`Window`). `Push` keeps `Valid()`, each
phase proved by its own lemma. `AsSlice` is proved equal to `Window(pushed, size)`.
`Scenarios.dfy` replays the crate's capacity-3 test and a capacity-1 case
against these contracts.

The crate does not guard against capacity 0 (`capacity * 2 - 1` underflows at
src/lib.rs:12 and panics); the model follows the code and makes
`capacity >= 1` a precondition of `WithCapacity` rather than inventing an
error result.

## Model

| member | source | states |
|---|---|---|
| `CircleBuffer.Window` | src/lib.rs:45-51 | the abstract view after a push history has `min(pushes, size)` elements |
| `CircleBuffer.WindowIsNewest` | src/lib.rs:67-102 | element `i` of the view is pushed value `N - min(N, size) + i`: the newest values, oldest first |
| `CircleBuffer.WindowPush` | src/lib.rs:17-43 | one push appends the value to the view and, once the view holds `size` values, drops its oldest |
| `CircleBuffer.OldestInWindow` | src/lib.rs:75-102 | after `size + k` pushes the view starts with pushed value `k + 1` |
| `CircleBuffer.WindowOfCapacityOne` | src/lib.rs:28-41 | with capacity 1 the view is always exactly the latest value |
| `CircleBuffer.CursorAfter` | src/lib.rs:21-41 | the cursor reached after `n` pushes is always below `size` |
| `CircleBuffer.CursorIsModular` | src/lib.rs:21-41 | the cursor after `n` pushes is 0 before `size` pushes and `(n - size) % size` afterwards |
| `CircleBuffer.MirrorWraps` | src/lib.rs:31-41 | in a full mirrored `vec` the slots before `size - 1` equal the slots from `size` on, so the window may restart at 0 |
| `CircleBuffer.FillingStep` | src/lib.rs:18-19 | appending in the filling phase keeps the buffer invariant |
| `CircleBuffer.MirroringStep` | src/lib.rs:21-26 | append, write at the cursor, advance: keeps the invariant in the mirroring phase |
| `CircleBuffer.SteadyStep` | src/lib.rs:28-42 | the steady-state update, with the second write only inside `vec` and the cursor wrapping at `size`, keeps the invariant |
| `CircleBuffer.ShiftStep` | src/lib.rs:29-38 | steady state below the last cursor position: both copies written, cursor advanced, invariant kept |
| `CircleBuffer.WrapStep` | src/lib.rs:29-41 | steady state at cursor `size - 1`: the second write is skipped, the cursor wraps to 0, invariant kept |
| `CircleBuffer.CircleBuffer.WithCapacity` | src/lib.rs:9-15 | a new buffer has `size == capacity`, an empty `vec`, cursor 0, no history; capacity must be at least 1 |
| `CircleBuffer.CircleBuffer.Push` | src/lib.rs:17-43 | keeps `Valid()`, records the value in the history, slides the view by one, grows `vec` by one until `2 * size - 1` and then never again, moves the cursor as the phase dictates |
| `CircleBuffer.CircleBuffer.StorageBounds` | src/lib.rs:18-42 | `vec` never exceeds `2 * size - 1` slots; after filling, the cursor is below `size` and the window lies inside `vec`; while mirroring the cursor is `|vec| - size` |
| `CircleBuffer.CircleBuffer.CursorPosition` | src/lib.rs:21-41 | the cursor is `(N - size) % size` after `N >= size` pushes and 0 before |
| `CircleBuffer.CircleBuffer.AsSlice` | src/lib.rs:45-51 | the slice is exactly the last `min(N, size)` pushed values, oldest first; its length is `|vec|` while filling and `size` afterwards |
| `CircleBuffer.CircleBuffer.AsMutSlice` | src/lib.rs:53-59 | the mutable view borrows a range of `vec` holding the same window as `AsSlice` |
| `Scenarios.FillThree` | src/lib.rs:68-74 | capacity 3: after pushing 1, 2, 3 the view is `[1, 2, 3]`; the views `[1]` and `[1, 2]` on the way are asserted in its body |
| `Scenarios.PushNextThree` | src/lib.rs:75-102 | a full capacity-3 buffer with view `[a, a+1, a+2]` shows `[a+3, a+4, a+5]` after pushing those three values; the two views on the way are asserted in its body |
| `Scenarios.CapacityThree` | src/lib.rs:67-102 | the crate's test: pushing 1 to 17 into a capacity-3 buffer ends with view `[15, 16, 17]`, with each intermediate view as the test expects |
| `Scenarios.CapacityOne` | src/lib.rs:28-41 | capacity 1: pushing `x` shows `[x]`, then pushing `y` shows `[y]` |

## Left out

- Writes through `as_mut_slice` (src/lib.rs:53-59) are not modelled: they update one physical slot and not its mirror, so a later cursor wrap can bring back the stale copy. `AsMutSlice` only gives the range it borrows.
- `Vec::with_capacity`'s up-front reservation (src/lib.rs:12) is a performance detail; `vec` is a growing sequence.
- Machine-integer width: `size` is a `nat`, so the overflow of `capacity * 2` for huge capacities is not modelled. Capacity 0, where `capacity * 2 - 1` underflows and the crate panics, is excluded by the constructor's precondition rather than modelled as an error value.
- `Clone` is treated as producing an equal value; its cost and any side effects are not modelled.
- `#[derive(Debug)]` and the test harness itself are not modelled; the test's assertions are replayed as verified assertions in `Scenarios.dfy`.
- Length, emptiness, indexed access and iteration are not operations of this crate version's `CircleBuffer`, so they are not modelled.
