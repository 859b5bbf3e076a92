# chart: sample ring buffer and layout, in Dafny

`chart` reads numeric readings line by line and draws them in the terminal
as a live chart. This project models its sample store and layout logic in
`chart.c`:

- the growable ring of OHLC points (the globals `data`, `dsize`, `dlen`,
  `dptr`). The C functions `resize`, `addpoint` and `updpoint` become
  methods of the class `Chart.DataSet`. That class holds an `array<Point>`
  and the three `size_t` counters;
- the layout computation `initdraw`, as the read-only method
  `Chart.DataSet.InitDraw`, which returns the `struct draw` record
  (`Chart.Draw`).

Each method is proved against functions on values in the modules `Ring`,
`Scan` and `Ohlc`:

- `Ring.Logical` is the oldest-to-newest order of the retained points;
- `Ring.Push` is what one `addpoint` does to that order;
- `Ring.NewCapacity` is the capacity `resize` grows to;
- `Ring.RelocatedAsWritten` is the array that `resize`'s two block copies build;
- `Ring.Walk` is the list of slots the loop `for (i = b; i != e; i = (i + 1) % dsize)` visits;
- `Scan.ScanMin`, `Scan.ScanMax` and `Scan.LastClose` are the three accumulators of the range loop.

Lemmas then state what the source promises about those functions.

Modules:

- `SizeT`: `size_t` arithmetic as reduction modulo 2^64, and powers of two. It proves that `size_t` wrap-around followed by `% dsize` gives the mathematical residue when `dsize` is a power of two.
- `Ohlc`: `struct ohlc`, the point a new reading starts, and the fold of a reading into a point.
- `Scan`: the accumulators of the range loop.
- `Ring`: the ring layout as values.
- `Chart`: the class, the `struct draw` record and the methods.

Modelling choices:

- A `double` is a real in `[-DBL_MAX, DBL_MAX]` (type `Ohlc.Value`). `DBL_MAX` is written out exactly.
- `dptr` is a `size_t` and starts at `(size_t)-1`, as at chart.c:35. `dptr + 1` is computed with 2^64 wrap-around, so `len` in `resize` and `end` in `initdraw` are 0 while the ring is empty.
- The screen width (`getmaxx`/`getmaxyx`) is a method parameter.
- The number of characters `snprintf(0, 0, "%g", v)` reports is a caller-supplied function `labelWidth`. All it must satisfy is `1 <= labelWidth(v) < INT_MAX`.
- `malloc`'s fresh slots hold `Ring.Unset`. In C those slots are indeterminate. In the model they are a fixed point with all four fields 0.
- The `size_t` wrap of `maxx - 2` and `maxx - margin - 2` at chart.c:99 and chart.c:126 is modelled, not excluded: `Ring.WindowCount` converts the width with `SizeT.ToSize`. The only lemma that needs `maxx >= margin + 2` is the containment lemma `Chart.DataSet.NarrowedWindow`.

Three facts about the code as written:

- The margin is computed in exactly two passes. The window is scanned once for `min(dlen, maxx - 2)` points. It is then narrowed to `min(dlen, maxx - margin - 2)` points without a second scan. There is no iteration to a fixed point.
- `updpoint` updates only one of `high` and `low` (`if / else if`). On a well-formed point this equals widening both.
- The capacity is `max(dsize, 1) * 2^k`. It is a power of two only because it starts from 1.
- Growth does not always keep the order of the retained points (see Findings).

One edge the model exposes: when the ring is full and the chart area is at least `dsize` columns, the window count equals `dsize`. Then `begin == end` and the range loop visits nothing (`Chart.DataSet.WindowSize`). `main` reaches this state in its loop that waits for a keypress after the input ends (chart.c:265-268). That loop redraws on a terminal resize without calling `resize`.

## Model

| member | source | states |
|---|---|---|
| `SizeT.ToSizeIsMod` | chart.c:52 | conversion to `size_t` of any integer, as in `len = dptr + 1`, is its residue modulo 2^64 |
| `SizeT.UnsignedModAgrees` | chart.c:100 | for a power-of-two `dsize` up to 2^64, `(size_t)(x) % dsize` equals the mathematical `x mod dsize` |
| `SizeT.Pow2IsPow2` | chart.c:48-49 | every `2^k` is a power of two |
| `Ohlc.Fresh` | chart.c:66-71 | the point a new reading starts has all four fields equal to the reading and is well formed |
| `Ohlc.Fold` | chart.c:79-83 | folding a reading in keeps `low <= open, close <= high` |
| `Ohlc.FoldAllAggregates` | chart.c:77-84 | folding a burst of readings into a point keeps `open`, makes the last reading `close`, and makes `high`/`low` the exact extremes of the point and the burst |
| `Scan.ScanMin` | chart.c:103-109 | `dmin` after the loop is `DBL_MAX` for no points; otherwise it is at most every `low` and equal to one of them |
| `Scan.ScanMax` | chart.c:104-111 | `dmax` after the loop is `-DBL_MAX` for no points; otherwise it is at least every `high` and equal to one of them |
| `Scan.ScanStep` | chart.c:106-112 | one iteration of the loop body updates `dmin`, `dmax` and `dlast` exactly as visiting one more point does |
| `Scan.SuffixInRange` | chart.c:124-127 | the range scanned over a run covers every point of any suffix of that run |
| `Scan.ScanRange` | chart.c:113 | over a non-empty run of well-formed points `dmin <= dmax`, so `drange >= 0` |
| `Ring.LogicalAt` | chart.c:35-41 | the `k`th oldest retained point is in slot `(len - dlen + k) mod dsize` |
| `Ring.LogicalSlot` | chart.c:35-41 | the `k`th oldest retained point is in the older block at the end of the array when `k < dlen - len`, and otherwise in slot `k - (dlen - len)` of the block that ends at the head |
| `Ring.PushIsLatest` | chart.c:63-74 | one `addpoint` keeps the newest `min(dlen + 1, dsize)` of the retained points followed by the new one |
| `Ring.LatestOfLatest` | chart.c:63-74 | keeping the newest `cap` points, appending more and keeping the newest `cap` again is the same as keeping the newest `cap` of everything |
| `Ring.PushAllKeepsNewest` | chart.c:63-74 | after any run of `addpoint` calls the ring retains exactly the newest `min(seen, dsize)` points in arrival order, so the oldest is evicted first |
| `Ring.GrownIsDoubled` | chart.c:47-49 | the doubling loop stops at `size * 2^k` for the first `k` with `size * 2^k >= width`: that value reaches the width and `size * 2^(k-1)` does not |
| `Ring.NewCapacityDoubles` | chart.c:47-49 | a width above the capacity and at most twice it doubles the capacity once |
| `Ring.NewCapacitySmallest` | chart.c:47-49 | the new capacity is the least `max(dsize, 1) * 2^j` that is at least the width |
| `Ring.NewCapacityFacts` | chart.c:44-50 | the new capacity is at least the width and at least the old one; it is a power of two when the old one was 0 or a power of two; it differs from `dsize` exactly when `dsize` is 0 or below the width; a grown capacity is less than twice the width |
| `Ring.RelocatedKeepsOrder` | chart.c:51-55 | moving the older block to the end of the grown array keeps every retained point in order |
| `Ring.AsWrittenAgrees` | chart.c:53-55 | the two block copies as written keep every retained point in order when the ring is unwrapped (`dptr + 1 == dlen`) or full |
| `Ring.AsWrittenLosesOldBlock` | chart.c:54-55 | when the ring is wrapped and not full, the copies as written replace the newest point of the older block with an unwritten slot |
| `Ring.Newest` | chart.c:99-100 | the window the range loop scans is a suffix of the retained points, no longer than them |
| `Ring.NewestSize` | chart.c:99-100 | the window has `min(dlen, width)` points unless the ring is full and the width is at least `dsize`, when it is empty |
| `Ring.NewestNarrows` | chart.c:124-127 | when the wider window is not emptied by a full ring (fewer than `dsize` points retained, or a wider width below `dsize`), the window for a narrower width is a suffix of the wider one, no longer than it |
| `Ring.WindowCount` | chart.c:99-100 | `dlen < maxx ? dlen : maxx` with the width converted to `size_t`: never more than `dlen`, and `min(dlen, width)` for a width that fits in `size_t` |
| `Ring.WalkNewest` | chart.c:100-106 | the walk from `(end - c) mod dsize` to `end` visits the `c` newest retained points, oldest first, or nothing when `c == dsize` |
| `Ring.WalkFrom` | chart.c:100-106 | the walk from `c` slots before `end`, with wrap-around, visits the `c` newest retained points, oldest first |
| `Ring.EndSlot` | chart.c:96 | `(dptr + 1) % dsize` is `dptr + 1`, or 0 when that is `dsize` |
| `Ring.StartSlot` | chart.c:100 | `(end - c) mod dsize` is `end - c`, or `end - c + dsize` when `c > end` |
| `Ring.WalkWholeRing` | chart.c:106 | a walk that starts at `end` visits nothing |
| `Ring.WrapIsMod` | chart.c:100 | `c mod dsize` for `c <= dsize` is `c`, or 0 when `c == dsize` |
| `Chart.GrowCapacity` | chart.c:47-49 | the doubling loop returns `NewCapacity(dsize, width)` |
| `Chart.MarginWidth` | chart.c:116-122 | the margin is at least each of the three label widths and equal to one of them |
| `Chart.CopyBlock` | chart.c:53-55 | `memcpy` into a distinct array copies `count` slots to their new offset and leaves every other slot unchanged |
| `Chart.CopyAsWritten` | chart.c:51-55 | the fresh array the two copies of `resize` build is `RelocatedAsWritten` of the old slots |
| `Chart.CopyKeepingOrder` | chart.c:51-55 | the corrected copies build `Relocated` of the old slots |
| `Chart.DataSet.constructor` | chart.c:35 | the initial state has no storage, no points and `dptr == (size_t)-1` |
| `Chart.DataSet.Resize` | chart.c:44-60 | keeps the invariant; the capacity becomes `NewCapacity` and never shrinks; `dptr` and `dlen` are unchanged; storage is reallocated only on growth, into `RelocatedAsWritten` of the old slots; the retained points keep their order when the ring was unwrapped or full |
| `Chart.DataSet.Reallocate` | chart.c:50-58 | the growing branch of `resize` as written: a fresh array of the new capacity holding `RelocatedAsWritten` of the old slots, the invariant kept, `dptr` and `dlen` unchanged, the order kept when the ring was unwrapped or full |
| `Chart.DataSet.ResizeKeepingOrder` | chart.c:44-60 | the corrected resize: as `Resize`, but the retained points keep their order in every state |
| `Chart.DataSet.ReallocateKeepingOrder` | chart.c:50-58 | the corrected growing branch: a fresh array holding `Relocated` of the old slots, with every retained point kept in order |
| `Chart.DataSet.AddPoint` | chart.c:63-74 | the head moves to `(dptr + 1) mod dsize`, that slot gets a point with all fields `y`, no other slot changes, `dlen` grows by one only while below `dsize`, and the retained points become `Push` of the old ones |
| `Chart.DataSet.UpdPoint` | chart.c:77-84 | the newest point becomes `Fold` of it (open kept, `close = y`, `high`/`low` widened), every other slot is unchanged, and the invariant is kept |
| `Chart.DataSet.ContentsWellFormed` | chart.c:36-41 | every retained point satisfies `low <= open, close <= high` |
| `Chart.DataSet.EndFollowsNewest` | chart.c:96 | the slot before `end` holds the newest retained point |
| `Chart.DataSet.WalkWindow` | chart.c:100 | `begin` computed with `size_t` wrap-around is a slot, and the walk from it to `end` is the window of the newest points |
| `Chart.DataSet.WindowSize` | chart.c:99-100 | the scanned window has `min(dlen, width)` points, except that a full ring and a width of at least `dsize` give an empty walk |
| `Chart.DataSet.ScannedRange` | chart.c:103-113 | over a non-empty window `dmin <= dmax`, and `dlast` is the `close` of the newest retained point |
| `Chart.DataSet.NarrowedWindow` | chart.c:124-127 | with `maxx >= margin + 2`, and a scanned window not emptied by a full ring (`dlen < dsize` or `maxx - 2 < dsize`), the plotted window is a suffix of the scanned one, no longer than it, and every plotted point lies within `[dmin, dmax]` |
| `Chart.DataSet.LayoutFacts` | chart.c:103-127 | the range facts of `ScannedRange` and the containment of `NarrowedWindow`, as `InitDraw` states them |
| `Chart.DataSet.FindRange` | chart.c:103-112 | the range loop returns the least `low`, the greatest `high` and the last `close` of the slots walked from `begin` to `end` |
| `Chart.DataSet.WindowStart` | chart.c:99-100 | `begin` is a slot, and the walk from it to `end` is the window for the given chart width |
| `Chart.DataSet.InitDraw` | chart.c:87-130 | `end` is the slot after the newest point; `dmin`/`dmax` are the extremes of the first window (the sentinels when it is empty); `margin` is the widest label; over a non-empty window `dmin <= dmax`, `drange >= 0` and `dlast` is the newest point's `close`; the plotted window is the narrowed one and lies within `[dmin, dmax]` |
| `Chart.PushLogical` | chart.c:65-73 | writing the slot after the head and counting it turns the retained points into `Push` of them |
| `Chart.PushState` | chart.c:63-74 | `addpoint` on the slot contents keeps the ring invariant, and the retained points become `Push` of the old ones |
| `Chart.NewestRange` | chart.c:103-113 | over a non-empty window of well-formed points `dmin <= dmax`, and `dlast` is the `close` of the newest retained point |
| `Chart.NarrowedRange` | chart.c:124-127 | when the wider window is not emptied by a full ring (fewer than `dsize` points retained, or a wider width below `dsize`), every point of the narrowed window lies within the range scanned over the wider one |
| `Chart.GrowthBounds` | chart.c:47-50 | the new capacity is a power of two no larger than `2^32`, and differs from `dsize` only by growing |
| `Chart.GrowState` | chart.c:50-58 | the copies as written give an array that satisfies the ring invariant for the new capacity, with the retained points unchanged when the ring was unwrapped or full |
| `Chart.GrowStateKeepingOrder` | chart.c:50-58 | the corrected copies give an array that satisfies the ring invariant for the new capacity, with the retained points unchanged |
| `Chart.UpdateLogical` | chart.c:79-83 | rewriting the newest slot replaces only the last retained point |
| `Chart.RelocatedAsWrittenAt` | chart.c:51-55 | after the copies as written, slot `i` holds old slot `i` below `len`, the moved older block in `newsize - dsize + len .. newsize - dsize + dlen - 1`, and an unwritten point elsewhere |
| `Chart.RelocatedAt` | chart.c:51-55 | after the corrected copies, slot `i` holds old slot `i` below `len`, the last `dlen - len` old slots in the last `dlen - len` new slots, and an unwritten point elsewhere |
| `Chart.RelocatedWellFormed` | chart.c:51-55 | both relocations leave only well-formed points |
| `Chart.TwoSlots` | chart.c:35-60 | a fresh data set resized for a screen two columns wide has two slots and no points |
| `Chart.TwoSlotsTwoPoints` | chart.c:63-74 | the readings 1 and 2 fill that ring without wrapping |
| `Chart.FullTwoSlots` | chart.c:63-74 | the reading 3 then evicts the oldest point and puts the newest in slot 0 |
| `Chart.WrappedNotFull` | chart.c:44-74 | growing that full ring to four slots and adding a reading gives a ring that wraps without being full |
| `Chart.ResizeLosesOldest` | chart.c:54-55 | growing that ring to eight slots with the copies as written puts an unwritten slot first and drops the oldest point; the corrected resize keeps all three |

## Findings

| source | as written | input that shows it | evidently intended | confidence | as-written member | corrected member |
|---|---|---|---|---|---|---|
| chart.c:54-55 | the older block is copied from `data + len` to `newdata + newsize - dsize + len`. Its real start is `dsize - (dlen - len)`, which is `len` only when the ring is unwrapped or full | screen widths 2, 4, 8, with readings 1, 2, 3 before the second resize and 4 after it: the retained points 2, 3, 4 become an unwritten slot, 3, 4 | copy the last `dlen - len` slots of the old array to the last `dlen - len` slots of the new array | high (not executed) | `Chart.ResizeLosesOldest`, `Ring.AsWrittenLosesOldBlock`, `Chart.DataSet.Resize`, `Chart.DataSet.Reallocate` | `Chart.DataSet.ResizeKeepingOrder`, `Chart.DataSet.ReallocateKeepingOrder`, `Ring.RelocatedKeepsOrder` |

## Left out

- `main` (chart.c:168-274): option parsing, file redirection, curses set-up and the input loop with its partial-line accumulator and 20 ms coalescing timeout. All of it is terminal and process I/O.
- `atof` (chart.c:239): readings enter the model already parsed.
- `drawchart` (chart.c:133-166): curses output and the floating-point row formula. That formula divides by `drange`, which is 0 for a flat series.
- The exact output of `snprintf("%g")`: it is the parameter `labelWidth`.
- `double` rounding, NaN and infinities: values are exact reals within `[-DBL_MAX, DBL_MAX]`.
- Unchecked `malloc` failure (chart.c:51) and `free`: the model always allocates.
- `updpoint` is modelled on its own. The program never calls it (chart.c:192 only names it).
- The `-r` and `-s` options: they are not implemented in the source (chart.c:188, 191).
- `Chart.DataSet.Resize`: it states order preservation only for an unwrapped or full ring, because the code as written does not keep the order otherwise (see Findings).
- `Chart.DataSet.Reallocate`: the same restriction as `Resize`, for the same reason.
- `Chart.DataSet.Resize`, `Chart.DataSet.Reallocate` and `Chart.DataSet.ContentsWellFormed`: the invariant `Valid()` asks every slot to be well formed, including the slots `malloc` returns and nothing writes. That holds only because the model fills those slots with the well-formed `Ring.Unset`; in C they are indeterminate. So after growing a wrapped, not-full ring as written, the oldest retained point is such a slot, and the model's claims that it is well formed (and the range facts `Chart.DataSet.InitDraw` draws from them) do not carry over to the C program.
- `Chart.DataSet.InitDraw`: its containment clause is stated only when `maxx >= margin + 2` and the first window is not emptied by a full ring. Outside that case the `size_t` wrap is modelled but nothing is claimed about it.
