# Interval map and maze fill, modelled in Dafny

This project models two small programs and proves properties about them.

**`interval_map<K, V>`** (IntervalMap/interval_map.hpp) stores a step
function over an ordered key type. It keeps a base value `m_valBegin`, which
holds below every breakpoint, and a `std::map` of breakpoints. Each
breakpoint means "from this key on, the value is this".

- `assign(keyBegin, keyEnd, val)` overwrites the half-open range
  `[keyBegin, keyEnd)`.
- `operator[]` looks up one key.
- The unit tests in IntervalMap/main.cpp check the container's canonical
  form with `AssertValidity`: the first breakpoint differs from the base,
  the last equals it, and no two neighbouring breakpoints hold the same
  value.

How the model represents it:

- Keys are `int` and values any type with equality.
- The `std::map` is a key-sorted sequence of entries, and an iterator is a
  position in it.
- `emplace_hint`, `erase`, `lower_bound` and `upper_bound` are functions on
  that sequence (module `SortedMap`).
- `assign` is modelled branch for branch as `IntervalMaps.Assign`. It is
  compared with an independent reference, `IntervalMapProofs.Overwrite`.
  That reference keeps the breakpoints below `keyBegin` and above `keyEnd`,
  and puts in between at most one breakpoint at `keyBegin` and one at
  `keyEnd`.
- `IntervalMaps.AssignCanonical` is the corrected `assign`; see
  "## Findings".

**MazeFill** (MazeFill/MazeFill.c) works on an `N` by `M` grid of bytes in
row-major order.

- `Fill` floods the 0 cells reachable in the four straight directions with 1.
- `FillObj` floods the 1 cells reachable in all eight directions with the
  object number, truncated to a byte.
- `SearchForPath` is a depth-first search from a point to an end point.
  - A cell's low bit marks a wall.
  - The bits above it record the last run that entered the cell.
  - Entering a cell stores the run number shifted left by one, which also
    clears the wall bit.
  - Reaching the end point stores 255 there.

How the model represents it:

- The grid is an immutable `Grid(width, height, cells)` value.
- Each routine returns the grid it leaves behind.
- `Fill` and `FillObj` are one generic `MazeFill.Flood` from one byte value
  to another.
- The recursions terminate by measure:
  - for the floods, the number of cells still holding the source value;
  - for the search, the number of cells the run has not entered.

## Model

| member | source | states |
|---|---|---|
| IntervalMaps.Empty | IntervalMap/interval_map.hpp:19-21 | the constructor yields the base value `val` with no breakpoints, so every key maps to `val` |
| IntervalMaps.Lookup | IntervalMap/interval_map.hpp:103-114 | `operator[]` returns the value of the greatest breakpoint at or below the key, or the base value when every breakpoint lies above the key |
| IntervalMaps.Assign | IntervalMap/interval_map.hpp:25-100 | `assign` as written keeps the breakpoints sorted by key and never changes the base value |
| IntervalMaps.AssignCanonical | IntervalMap/interval_map.hpp:25-100 | the corrected `assign` also keeps the breakpoints sorted and the base value; it takes the end-collision shortcut only when the breakpoint at `keyEnd` holds a value other than `val` |
| IntervalMaps.EraseLeading | IntervalMap/interval_map.hpp:83-93 | the erase loop removes exactly the run of entries from the iterator whose keys are at most `keyEnd`; it stops at the first key above `keyEnd` or at the end; the recorded `valueForKeyEnd` is the value of the last erased entry, or the value it started with when nothing was erased |
| AssignProofs.EraseStop | IntervalMap/interval_map.hpp:84-93 | the erase loop stops where `upper_bound(keyEnd)` scanning from the iterator stops |
| AssignProofs.EraseThenCloseIs | IntervalMap/interval_map.hpp:83-98 | after a prefix below `keyEnd`, the erase loop and the closing `emplace_hint` drop the entries up to `keyEnd`; they add a breakpoint at `keyEnd` with the last dropped value unless that value is `val` |
| AssignProofs.CloseRestoresKeyEnd | IntervalMap/interval_map.hpp:47-48 | the value the closing breakpoint carries is the value the map had at `keyEnd` before the call |
| AssignProofs.AtEndIsOverwrite | IntervalMap/interval_map.hpp:34-43 | when no breakpoint lies at or above `keyBegin`: assigning the base value is the reference overwrite and changes nothing; any other value emplaces `keyBegin` and then `keyEnd` with the base value |
| AssignProofs.GapIsOverwrite | IntervalMap/interval_map.hpp:54-59 | the gap insert (no breakpoint in `[keyBegin, keyEnd]`) is the reference overwrite |
| AssignProofs.CollisionIsOverwrite | IntervalMap/interval_map.hpp:60-64 | the end-collision shortcut is the reference overwrite when the breakpoint at `keyEnd` holds a value other than `val` |
| AssignProofs.EmplaceCaseIsOverwrite | IntervalMap/interval_map.hpp:66-98 | a new value with no breakpoint at `keyBegin`: emplacing it, stepping past it and running the erase loop gives the reference overwrite |
| AssignProofs.SetValueCaseIsOverwrite | IntervalMap/interval_map.hpp:68-98 | a new value over an existing breakpoint at `keyBegin`: overwriting its value and running the erase loop gives the reference overwrite |
| AssignProofs.EraseCaseIsOverwrite | IntervalMap/interval_map.hpp:72-98 | a value equal to the one before `keyBegin`, with a breakpoint at `keyBegin`: erasing it and running the loop gives the reference overwrite |
| AssignProofs.KeepCaseIsOverwrite | IntervalMap/interval_map.hpp:77-98 | a value equal to the one before `keyBegin`, with no breakpoint there: the erase loop alone gives the reference overwrite |
| AssignProofs.AssignCanonicalIsOverwrite | IntervalMap/interval_map.hpp:25-100 | the corrected `assign` builds exactly the reference splice on every sorted map that returns to its base value |
| AssignProofs.AssignAgrees | IntervalMap/interval_map.hpp:60-64 | `assign` as written and the corrected one give the same map unless the breakpoint at `keyEnd` already holds `val` |
| IntervalMapTheorems.AssignIsOverwrite | IntervalMap/interval_map.hpp:25-100 | away from the same-value collision, `assign` as written equals the reference overwrite, breakpoint for breakpoint |
| IntervalMapTheorems.AssignPointwise | IntervalMap/interval_map.hpp:23-25 | after `assign(keyBegin, keyEnd, val)` every key in `[keyBegin, keyEnd)` maps to `val` and every other key keeps its old value |
| IntervalMapTheorems.AssignPointwiseNeedsEndsAtBase | IntervalMap/interval_map.hpp:34-39 | on {0: B} with base 'A', which does not return to its base, `assign(5, 10, 'A')` leaves key 5 at 'B', so the pointwise property needs the map to end at its base value |
| IntervalMapTheorems.AssignCanonicalPointwise | IntervalMap/interval_map.hpp:23-25 | the same pointwise property for the corrected `assign` |
| IntervalMapProofs.OverwritePointwise | IntervalMap/interval_map.hpp:23-24 | the reference overwrite maps `[keyBegin, keyEnd)` to `val` and keeps every other lookup |
| IntervalMapProofs.OverwriteValid | IntervalMap/main.cpp:18-29 | the reference overwrite keeps a map in the canonical form `AssertValidity` checks |
| IntervalMapTheorems.AssignEndsAtBase | IntervalMap/main.cpp:22 | both variants keep the last breakpoint's value equal to the base value |
| IntervalMapTheorems.AssignCanonicalPreservesValid | IntervalMap/main.cpp:18-29 | the corrected `assign` preserves the canonical form |
| IntervalMapTheorems.AssignPreservesValid | IntervalMap/interval_map.hpp:60-64 | `assign` as written preserves the canonical form if and only if it does not meet a breakpoint at `keyEnd` that already holds `val` |
| IntervalMapTheorems.AssignSameValueCollisionNotValid | IntervalMap/interval_map.hpp:60-64 | in that situation the result has two neighbouring breakpoints with the same value |
| IntervalMapTheorems.SameValueCollisionShape | IntervalMap/interval_map.hpp:60-64 | that result is the reference overwrite with the old breakpoint at `keyEnd` left just after the new one at `keyBegin` |
| IntervalMapTheorems.RedundantLookup | IntervalMap/interval_map.hpp:103-114 | a breakpoint that repeats the value already in force changes no lookup |
| IntervalMapTheorems.CanonicalUnique | IntervalMap/main.cpp:24-28 | two canonical maps with the same base that agree on every lookup are equal |
| IntervalMapTheorems.AssignCanonicalIdempotent | IntervalMap/interval_map.hpp:23-24 | repeating a corrected `assign` on its own result changes nothing |
| IntervalMapTheorems.AssignCanonicalNoChange | IntervalMap/interval_map.hpp:23-24 | assigning to a range the value it already has leaves a canonical map unchanged |
| IntervalMapTheorems.AssignFramed | IntervalMap/interval_map.hpp:23-24 | both variants add breakpoints only at `keyBegin` and `keyEnd`; they leave none strictly inside the range and keep every breakpoint outside `[keyBegin, keyEnd]` |
| IntervalMapTheorems.AssignEmptyRange | IntervalMap/interval_map.hpp:27-30 | an empty or reversed range leaves the map unchanged |
| IntervalMapTheorems.AssignBaseBeyondEnd | IntervalMap/interval_map.hpp:34-39 | assigning the base value past every breakpoint leaves the map unchanged |
| IntervalMapTheorems.LookupAtBreakpoint | IntervalMap/interval_map.hpp:105-112 | a lookup exactly at a breakpoint yields that breakpoint's value |
| SortedMap.Emplace | IntervalMap/interval_map.hpp:42-43 | `emplace_hint` keeps the map sorted; it leaves it unchanged when the key is present and otherwise adds exactly the new entry |
| SortedMap.EraseAt | IntervalMap/interval_map.hpp:74 | `erase(it)` keeps the map sorted and removes exactly the entry at `it` |
| SortedMap.SetValueAt | IntervalMap/interval_map.hpp:68 | `it->second = val` changes that entry's value and nothing else |
| SortedMap.LowerBound | IntervalMap/interval_map.hpp:33 | `lower_bound(k)` is the first position whose key is not below `k` |
| SortedMap.UpperBound | IntervalMap/interval_map.hpp:105 | `upper_bound(k)` is the first position whose key is above `k` |
| IntervalMapScenarios.EmptyMap | IntervalMap/main.cpp:64-71 | the "Empty map" test: the new map is canonical and maps -99, 0 and 99 to 'A' |
| IntervalMapScenarios.ExampleMap | IntervalMap/main.cpp:73-86 | the "Example map" test: the exact breakpoints, canonical form and every value read back |
| IntervalMapScenarios.SameAsDefaultIntoEmpty | IntervalMap/main.cpp:88-94 | assigning the base value to the empty map leaves it empty and canonical |
| IntervalMapScenarios.AssignIntoEmpty | IntervalMap/main.cpp:96-105 | the "Assign into empty map" test, breakpoints and values |
| IntervalMapScenarios.AssignAfter | IntervalMap/main.cpp:107-121 | the "Assign after" test, after each call |
| IntervalMapScenarios.AssignAfterSpilling | IntervalMap/main.cpp:123-140 | the "Assign after spilling into existing" test |
| IntervalMapScenarios.AssignBefore | IntervalMap/main.cpp:142-156 | the "Assign before" test |
| IntervalMapScenarios.AssignBeforeAtEdge | IntervalMap/main.cpp:158-171 | the "Assign before right at edge" test |
| IntervalMapScenarios.AssignBeforeSpilling | IntervalMap/main.cpp:173-188 | the "Assign before spilling into existing" test |
| IntervalMapScenarios.AssignIntoExisting | IntervalMap/main.cpp:190-203 | the "Assign into existing" test |
| IntervalMapScenarios.AssignAroundSmaller | IntervalMap/main.cpp:205-218 | the "Assign around smaller" test |
| IntervalMapScenarios.AssignInsideLargerSameValue | IntervalMap/main.cpp:220-231 | the "Assign inside larger with same value" test |
| IntervalMapScenarios.AssignOnTopOfOther | IntervalMap/main.cpp:233-246 | the "Assign on top of other" test |
| IntervalMapScenarios.SetInnerToOuter | IntervalMap/main.cpp:248-262 | the "Set inner to same as outer" test |
| IntervalMapScenarios.InitialValueAtStart | IntervalMap/main.cpp:264-275 | the "Assign initial value at start of non initial" test |
| IntervalMapScenarios.InitialValueAtEnd | IntervalMap/main.cpp:277-287 | the "Assign initial value at end of non initial" test |
| IntervalMapScenarios.OuterSameAsInitial | IntervalMap/main.cpp:289-299 | the "Assign outer with same as initial" test |
| IntervalMapScenarios.RedundantAssign | IntervalMap/main.cpp:301-312 | the "Redundant assign" test |
| IntervalMapScenarios.RedundantBreakpoint | IntervalMap/interval_map.hpp:60-64 | from the empty map, `assign(5, 10, 'B')` then `assign(0, 5, 'B')` as written leave {0: B, 5: B, 10: A}, which is not canonical; repeating the second call changes the map but no lookup |
| IntervalMapScenarios.RedundantBreakpointCorrected | IntervalMap/interval_map.hpp:60-64 | the corrected `assign` on the same calls yields the canonical {0: B, 10: A}, and repeating the second call leaves it unchanged |
| MazeGrid.NeighbourOpposite | MazeFill/MazeFill.c:12-21 | the neighbour table is symmetric, and so is its straight half: every entry has an opposite entry that steps back |
| MazeGrid.SetCell | MazeFill/MazeFill.c:44 | storing into one cell changes that cell and no other |
| MazeFill.Flood | MazeFill/MazeFill.c:28-56 | the shared recursion changes only cells holding the source value, each into the target value, and terminates |
| MazeFill.FloodNeighbours | MazeFill/MazeFill.c:46-54 | the loop over the neighbour table changes only cells holding the source value, each into the target value |
| MazeFill.Fill | MazeFill/MazeFill.c:28-56 | `Fill` writes nothing when the start is outside the grid and changes only 0 cells, each to 1 |
| MazeFill.FillObj | MazeFill/MazeFill.c:58-86 | on every input on which it returns, `FillObj` writes nothing when the start is outside the grid, changes only 1 cells, each to the low byte of `nrObj`, and changes nothing when that byte is 1 |
| MazeFill.FillReaches | MazeFill/MazeFill.c:42-54 | after `Fill`, every 0 cell joined to the start by a walk of 0 cells in the four straight directions holds 1 |
| MazeFill.FillObjReaches | MazeFill/MazeFill.c:72-84 | after `FillObj`, every 1 cell joined to the start by a walk of 1 cells in the eight directions holds the object number's byte |
| MazeFill.FillObjCycle | MazeFill/MazeFill.c:72-84 | on the inputs where `FillObj` does not return (byte 1, start a 1 cell with a 1 neighbour) the store changes nothing and every 1 neighbour the loop recurses into is again such an input on the same grid |
| MazeFill.FillObjNoProgress | MazeFill/MazeFill.c:72-74 | the store into a 1 cell leaves the grid unchanged if and only if the object number's low byte is 1 |
| MazeSearch.SearchForPath | MazeFill/MazeFill.c:129-182 | returns 0 and writes nothing outside the grid or on a cell this run already entered; on a wall it stamps the cell and returns 0; it writes only stamps, plus 255 at the end point on success; it reports success only when 255 is stored at the end point |
| MazeSearch.SearchNeighbours | MazeFill/MazeFill.c:169-178 | the loop over the four straight neighbours writes only stamps, plus 255 at the end point, and reports success only when 255 is stored at the end point |
| MazeSearch.StampClearsWall | MazeFill/MazeFill.c:153-160 | the stamp stored on entry always has the wall bit clear |
| MazeSearch.StampRecognised | MazeFill/MazeFill.c:147-154 | the stamp a run stores reads back as "entered by this run" if and only if the run number is in `[0, 128)` |
| MazeSearch.SearchExhausts | MazeFill/MazeFill.c:167-181 | after an unsuccessful search, every open cell it entered is not the end point and has all its straight neighbours entered |
| MazeSearch.SearchFindsPath | MazeFill/MazeFill.c:129-182 | the search succeeds whenever a walk of open, not yet entered cells in the straight directions leads from the start to the end point |

## Left out

- TestTypes.hpp is not part of this model: keys are `int` under `<`, and values are any type with `==`.
- The speed test, `HR_Timer`, the console output and `clear()` in IntervalMap/main.cpp are not modelled; they do not affect the map.
- The `emplace_hint` hints are not modelled: they only affect complexity.
- MazeFill's `main`, its file input and output, `malloc`, `PrintAndReset`, `Search` (which prints to a file) and the outer driver loop are not modelled; they are I/O around the routines above.
- The neighbour table's `char` offsets are read as signed, so -1 stays -1; on a platform where `char` is unsigned the C table would differ.
- The `FILE*` parameter of `SearchForPath` is dropped: the routine never writes to it.
- Integer width: `y * N + x` and the neighbour coordinates are unbounded integers. The C code computes the index in `int` before the bounds test, and the model assumes that computation does not overflow.
- MazeFill.Fill, MazeFill.FillObj and MazeSearch.SearchForPath require a well-formed grid of exactly `width * height` cells. The routines only touch indices `y * N + x` with `0 <= x < N` and `0 <= y < M`, so the grid is the first `N * M` bytes of the buffer; the buffer's second half, the backup copy that `main` fills and `PrintAndReset` restores from, is left out with them.
- MazeFill.FillObj: requires `FillObjReturns`, which excludes exactly the inputs where the low byte of `nrObj` is 1 and the start is an in-bounds 1 cell with an in-bounds 1 cell among its eight neighbours. There the C recursion never returns (`FillObjCycle`); `main` can reach this on its 256th object.
- MazeSearch.SearchForPath: requires `0 <= curFillVal < 128`. Outside that range a stamped cell still looks unvisited, as `StampRecognised` shows, and the search need not terminate.
- MazeFill.FillReaches: proves that every cell connected to the start is filled, but not the converse (that only connected cells are filled); `Changes` bounds what may change only to cells that held the source value.
- MazeSearch.SearchFindsPath: the success direction is proved for walks of unentered open cells; that a successful search implies such a walk exists is not proved.

## Findings

| source | as written | input that shows it | evidently intended | confidence | as-written member | corrected member |
|---|---|---|---|---|---|---|
| IntervalMap/interval_map.hpp:60-64 | the end-collision shortcut only emplaces `keyBegin` whenever no breakpoint lies in `[keyBegin, keyEnd)` and one sits exactly at `keyEnd`, even when that breakpoint already holds `val` | base 'A': `assign(5, 10, 'B')` then `assign(0, 5, 'B')` gives {0: B, 5: B, 10: A}, two neighbouring breakpoints with the same value, which the canonical-form check at main.cpp:27 rejects | take the shortcut only when the breakpoint at `keyEnd` holds another value; otherwise fall through, so the general path erases it; the result is {0: B, 10: A} | high, not executed | IntervalMaps.Assign, IntervalMapScenarios.RedundantBreakpoint, IntervalMapTheorems.AssignSameValueCollisionNotValid | IntervalMaps.AssignCanonical, IntervalMapTheorems.AssignCanonicalPreservesValid, IntervalMapTheorems.AssignCanonicalIdempotent, IntervalMapScenarios.RedundantBreakpointCorrected |

Lookups are still correct in the as-written case (`IntervalMapTheorems.AssignPointwise`); only the canonical form is lost.
