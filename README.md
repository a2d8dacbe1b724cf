# RingBuffer: a verified model of ZeroTier's fixed-capacity ring buffer

ZeroTier's `RingBuffer<T>` (node/RingBuffer.hpp) is a circular buffer of
fixed capacity, used to keep recent samples for cheap statistics. Its state
is a storage array `buf` of `size` slots, allocated once and zero-filled, plus:

- `begin`, the oldest element;
- `end`, the next slot to be written;
- a `wrap` flag that tells a full buffer from an empty one when the two cursors meet.

Its operations:

- `produce`, `consume` and `reset` move the cursors as if data had been copied.
- `write` and `read` copy data in and out. When the copy crosses the physical
  end of storage, they do it in two `memcpy` runs.
- `push` stores one value and evicts the oldest element when the buffer is full.
- `get_most_recent` reads one slot.
- `count` and `getFree` compute the occupancy from the cursors.
- `zeroCount` and `countValue` scan the buffer and count matches.

The model keeps the source's imperative shape:

- `RingBuffer` is a Dafny class with the fields `buf`, `size`, `begin`, `end` and `wrap`.
- The cursor updates are the literal two-chunk updates of the source.
- The copies go through `CopyInto`, a model of `memcpy` on an array.
- The scans are loops with the source's iterator.

Each method is proved against the logical contents of the buffer. These are
the ghost function `Contents()`: the `Count()` slots that follow `begin`,
modulo `size`. They are built in module `RingWindow` from pure functions on
sequences: `Window`, `Overwrite` and `ScanCount`. The lemmas there carry the
arithmetic and sequence reasoning.

- `RingWindow.dfy`: cursor arithmetic (`Occupancy` and its lemmas), windows
  and overwrites of a storage sequence, and the backward scan of the statistics.
- `RingBuffer.dfy`: the class `RingBuffer` and its operations.
- `Clients.dfy`: what a caller can conclude: the write/read round trip,
  concrete pushes and reads, and the counterexamples behind the findings.

The element type `T` is modelled as `int`. The class invariant `Valid()`
says three things: storage has `size` slots; both cursors are below `size`
when `size > 0` (and 0 otherwise); and `wrap` implies `begin == end`.
Every operation preserves it.

## Model

| member | source | states |
|---|---|---|
| RingWindow.Occupancy | node/RingBuffer.hpp:215-226 | the count is at most `size`, 0 exactly when the cursors meet without the wrap flag, and `size` exactly when the flag is set |
| RingWindow.OccupancyCursor | node/RingBuffer.hpp:215-226 | the end cursor lies `count` slots after `begin` modulo `size`, and without the wrap flag the count is `(end - begin) mod size` |
| RingWindow.OccupancyOfCursor | node/RingBuffer.hpp:95-102 | a state whose end cursor is `n` slots after `begin`, with the flag set exactly when `n == size`, satisfies the invariant and holds exactly `n` elements |
| RingWindow.TwoRuns | node/RingBuffer.hpp:94-99 | moving a cursor `k` slots in two chunks (up to the physical end, then from slot 0) lands on `(x + k) mod size` |
| RingWindow.Extend | node/RingBuffer.hpp:95-102 | after `k` more elements the end cursor is `c + k` slots after `begin`, and it meets `begin` again exactly when the buffer becomes full |
| RingWindow.Shrink | node/RingBuffer.hpp:129-134 | after dropping `k` of `c` elements, the end cursor is `c - k` slots after the new `begin` |
| RingWindow.WindowSplit | node/RingBuffer.hpp:129-134 | the window of `n + k` slots is the window of `n` followed by the window of `k` that starts `n` slots later |
| RingWindow.OneRun | node/RingBuffer.hpp:149-150 | one `memcpy` of `d` at `at` that stays inside storage overwrites exactly the slots from `at` up to `at` plus the length of `d` |
| RingWindow.TwoRun | node/RingBuffer.hpp:148-155 | the two `memcpy` runs of a store that crosses the end of storage overwrite exactly as many slots from `at`, modulo `size`, as `d` has elements |
| RingWindow.WriteRuns | node/RingBuffer.hpp:148-155 | whether the store takes one run or two, storage ends up as `s` overwritten with `d` from `at` |
| RingWindow.WindowOfOverwrite | node/RingBuffer.hpp:148-155 | reading back the slots just overwritten from `at` gives `d` |
| RingWindow.WindowBeforeOverwrite | node/RingBuffer.hpp:148-155 | a store behind the `n` elements from `b` leaves those elements unchanged |
| RingWindow.WindowAppend | node/RingBuffer.hpp:148-158 | a store right behind the `c` elements from `b` makes the window of `c` slots plus the length of `d` equal to the old window followed by `d` |
| RingWindow.OverwriteOne | node/RingBuffer.hpp:172-173 | storing one value at `at` is the single-slot update `s[at := v]` |
| RingWindow.WindowRuns | node/RingBuffer.hpp:199-205 | the window of `k` slots from `b` is one slice if it ends before the end of storage, and otherwise the slots to the end followed by those from slot 0 |
| RingWindow.ReadRuns | node/RingBuffer.hpp:199-205 | the one or two `memcpy` runs of `read` leave the window at the front of `dest` and the rest of `dest` untouched |
| RingWindow.WindowRotation | node/RingBuffer.hpp:311-323 | the window over every slot is the rotation `s[b..] + s[..b]` of storage and holds the same multiset of elements |
| RingWindow.ScanCount | node/RingBuffer.hpp:313-320 | the scan with the iterator `(iterator + size - 1) mod count` counts at most one match per step |
| RingWindow.ScanBelow | node/RingBuffer.hpp:316-320 | on a full buffer, a scan from `b` that stays above slot 0 counts the matches in the `k` slots just below `b` |
| RingWindow.ScanPastZero | node/RingBuffer.hpp:316-320 | on a full buffer, a scan from `b` first counts the matches in `s[..b]` and then continues from slot 0 |
| RingWindow.ScanFromZero | node/RingBuffer.hpp:317 | on a full buffer, the step from slot 0 lands on the last slot, as the step from slot `size` does |
| RingWindow.ScanFull | node/RingBuffer.hpp:311-323 | on a full buffer the scan visits every slot once, so it counts every occurrence of the value in storage |
| RingBuffers.CopyInto | node/RingBuffer.hpp:149 | `memcpy` into an array: the slots from `at` hold `src`, and every other slot keeps its value |
| RingBuffers.RingBuffer.constructor | node/RingBuffer.hpp:65-73 | a fresh zero-filled storage of `size` slots, both cursors at 0, flag clear, count 0 and empty contents |
| RingBuffers.RingBuffer.Count | node/RingBuffer.hpp:215-226 | `count()` is at most `size`, 0 exactly when the cursors meet without the flag, and `size` exactly when the flag is set |
| RingBuffers.RingBuffer.GetFree | node/RingBuffer.hpp:231 | free slots and count add up to `size`, and when `size > 0` there is no free slot exactly when the flag is set |
| RingBuffers.RingBuffer.Produce | node/RingBuffer.hpp:88-104 | returns `min(n, free)` and moves `end` that many slots on. `begin` and storage are unchanged; with 0 nothing changes. The count grows by exactly the result and the slots taken over join the contents |
| RingBuffers.RingBuffer.Reset | node/RingBuffer.hpp:110-113 | empties the buffer: `begin` moves to `end`, the flag clears, and storage is untouched |
| RingBuffers.RingBuffer.Consume | node/RingBuffer.hpp:120-136 | returns `min(n, count)` and moves `begin` that many slots on. The flag clears when something was consumed, and storage and `end` are unchanged. The contents lose exactly their first elements |
| RingBuffers.RingBuffer.Write | node/RingBuffer.hpp:142-160 | returns `min(n, free)`, the contents become the old contents followed by that prefix of `data`, and storage changes only in the written slots |
| RingBuffers.RingBuffer.CopyRuns | node/RingBuffer.hpp:148-155 | the two-run copy of `write` stores `d` from `end`, modulo `size`, and moves `end` past it |
| RingBuffers.RingBuffer.WriteRun | node/RingBuffer.hpp:149-150 | one run of `write` stores `run` from `end` and moves `end` past it, leaving every other slot as it was |
| RingBuffers.RingBuffer.Read | node/RingBuffer.hpp:190-208 | returns `min(n, count)`; `dest` starts with that many of the oldest elements and the rest of `dest` is untouched; the contents lose those elements and storage is unchanged |
| RingBuffers.RingBuffer.CopyOutRuns | node/RingBuffer.hpp:199-205 | the two-run copy of `read` puts the `k` slots from `begin`, modulo `size`, at the front of `dest` and moves `begin` past them |
| RingBuffers.RingBuffer.ReadRun | node/RingBuffer.hpp:200-201 | one run of `read` copies `len` slots from `begin` into `dest` at `at`, leaves storage and the rest of `dest` as they were, and moves `begin` past them |
| RingBuffers.RingBuffer.Push | node/RingBuffer.hpp:167-178 | stores `v` in slot `end` and nowhere else. If the buffer was not full, the contents gain `v` at the back. If full, they lose the oldest element and gain `v`, the count stays `size` and `begin` moves on |
| RingBuffers.RingBuffer.GetMostRecent | node/RingBuffer.hpp:183 | returns the slot `end`, the next write slot; on a full buffer that is the oldest element |
| RingBuffers.RingBuffer.MostRecent | node/RingBuffer.hpp:181-183 | returns the newest element, the last of the contents, as the doc comment promises |
| RingBuffers.RingBuffer.CountValue | node/RingBuffer.hpp:311-323 | the scan's count with the source's iterator: read-only, at most `count()`, and on a full buffer the number of occurrences of the value in the contents |
| RingBuffers.RingBuffer.ZeroCount | node/RingBuffer.hpp:293-305 | the same scan counting zeros: read-only, at most `count()`, and on a full buffer the number of zeros in the contents |
| RingBuffers.RingBuffer.CountValueInWindow | node/RingBuffer.hpp:309-323 | the number of occurrences of the value in the contents, on every buffer |
| RingBuffers.RingBuffer.AfterDrop | node/RingBuffer.hpp:126-135 | after `begin` moves `k` of `c0` slots on with the flag clear, the buffer is valid, holds `c0 - k` elements and its contents lose their first `k` |
| RingBuffers.RingBuffer.AfterExtend | node/RingBuffer.hpp:94-102 | after `end` moves `k` slots on and the flag is raised when it meets `begin`, the buffer is valid, holds `c0 + k` elements and its contents gain the `k` slots taken over |
| RingBuffers.RingBuffer.AfterStore | node/RingBuffer.hpp:148-158 | after `d` is stored behind the contents and `end` moves past it, the buffer is valid and its contents are the old ones followed by `d` |
| RingBufferClients.WriteThenRead | node/RingBuffer.hpp:190-208 | writing `m <= size` elements into an empty buffer and reading `m` back returns the data unchanged and leaves the buffer empty |
| RingBufferClients.ZeroCountIsCountValueOfZero | node/RingBuffer.hpp:293-323 | `zeroCount()` equals `countValue(0)` on every buffer |
| RingBufferClients.ScanStaysOnSlotZero | node/RingBuffer.hpp:317 | over storage `[a, b, 0]` holding `[a, b]`, the scan never leaves slot 0 and counts `b` zero times although it is in the contents once |

## Left out

- `mean()`, `mean(n)`, `variance()` and `stddev()` (node/RingBuffer.hpp:236-288) are left out. They are floating-point arithmetic and `sqrt`, not index logic.
- `dump()` (node/RingBuffer.hpp:328-340) is left out. It only logs, its bodies are commented out, and it dispatches on the runtime type.
- `get_buf()` (node/RingBuffer.hpp:78-81) is left out. It hands out a raw pointer into storage at `begin`.
- `size_t` is modelled as unbounded `nat`. Every intermediate value stays below `2 * size`, so wrap-around does not arise for any capacity that fits in memory.
- The element type `T` is fixed to `int`. Only equality with a value and with zero is used.
- Write: `data` is a read-only sequence, not a pointer.
- Read: `dest` must be a different array from the buffer's storage. This excludes every read into the buffer's own storage, overlapping or not (for example through a pointer from `get_buf()`), not only the overlapping copies that `memcpy` forbids.
- Allocation is modelled as a fresh zero-filled array. There is no destructor, and there is no concurrency in the source.

## Findings

| source | as written | input that shows it | evidently intended | confidence | as-written member | corrected member |
|---|---|---|---|---|---|---|
| node/RingBuffer.hpp:317 | `countValue` steps its iterator by `size - 1` modulo the count, so on some buffers that are not full it does not walk the contents: the iterator only ever visits slots `0..count-1`, and there the stride reduced modulo the count can revisit slots (in the example below it is 0), while contents that lie outside those slots are never visited | capacity 3, push 1 then 2: the contents are [1, 2], but `countValue(2)` returns 0 because both steps land on slot 0 (`RingBufferClients.CountValueMissesWindow`) | the number of elements of the contents equal to the value | not executed | RingBuffers.RingBuffer.CountValue | RingBuffers.RingBuffer.CountValueInWindow |
| node/RingBuffer.hpp:299 | `zeroCount` uses the same iterator and misses zeros in the contents on some buffers that are not full | capacity 3, push 5 then 0: the contents are [5, 0], but `zeroCount()` returns 0 (`RingBufferClients.ZeroCountMissesWindow`) | the number of zeros in the contents | not executed | RingBuffers.RingBuffer.ZeroCount | RingBuffers.RingBuffer.CountValueInWindow |
| node/RingBuffer.hpp:183 | `get_most_recent` returns the slot `end`, the next slot to be written, although its doc comment promises the most recently pushed element | capacity 2, push 7: it returns the untouched 0 instead of 7 (`RingBufferClients.MostRecentIsNextSlot`) | the slot before `end`, the newest element | not executed | RingBuffers.RingBuffer.GetMostRecent | RingBuffers.RingBuffer.MostRecent |

For the first two rows, `ScanStaysOnSlotZero` gives the concrete scan. On a
full buffer the iterator does visit every slot, and `ScanFull` proves the
scan then counts the contents exactly. So the source's scans are correct on
a full buffer (`ScanFull`); on a buffer that is not full they can miss
elements (`CountValueMissesWindow`), though on some such buffers, an empty
one for instance, they still count exactly.
