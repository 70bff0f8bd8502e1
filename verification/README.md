# nlopt-ocaml C binding, modelled in Dafny

This project models the C stub layer (`src/nlopt_wrapper.c`) that exposes
the NLopt nonlinear-optimization library to OCaml. It covers the binding's
own bookkeeping and treats NLopt as a black box:

- **Enumeration tables** (`enums.dfy`, module `Enums`). `map_algorithms`
  maps a host ordinal to one of 41 NLopt algorithms. `map_results` and
  `map_nlopt_result` map an NLopt status to a host ordinal, and fall back to
  FAILURE (ordinal 0) for a status the table does not list.
- **Handle and callback-slot registry** (`registry.dfy`, module `Registry`).
  A handle (`struct ml_opt`) is an immutable record. It holds:
  - the native optimizer;
  - one objective slot;
  - the constraint list, newest first;
  - the live callback containers and their contents;
  - the set of containers registered as OCaml global roots.

  Create, set min/max objective and add inequality/equality constraint are
  functions from one record to the next. Finalize is a method that walks the
  list and also returns the release actions in the order it performs them.
  `Registry.Valid` is the invariant every live handle keeps:
  - the rooted set is exactly the objective slot plus the constraint slots;
  - the live containers are exactly the rooted ones;
  - every user-data pointer NLopt holds is one of them.
- **Callback trampoline** (`trampoline.dfy`, module `Trampoline`). This is
  `ml_nlopt_callback_wrapper`. The OCaml closure is an input function that
  maps the invocation to its result and to the final contents of the
  gradient array.
- **Vector marshalling and the public array operations** (`marshal.dfy`,
  module `Marshal`, and `operations.dfy`, module `Operations`). These are the
  element-copy loops, the bounds/xtol_abs/initial_step setters and getters,
  and `ml_nlopt_optimize`.
- **Temporary buffers** (`buffers.dfy`, module `Buffers`). Each array entry
  point also returns the log of the `malloc`s and `free`s of its temporary
  native buffers. `Buffers.Outstanding` counts the cells a log leaves
  allocated.

`wrappers.dfy` holds the `Option` type.

Modelling conventions:
- Doubles are an opaque type parameter `E`. They are only copied.
- OCaml closures are an opaque type parameter `F`.
- Every `nlopt_*` call is an input. It is either a status value, the status
  plus the buffer contents NLopt leaves behind, or a function from the
  buffer the binding passes to what NLopt answers. The last form lets the
  contracts say which buffer NLopt received.
- The model assumes NLopt keeps a registration's user-data pointer exactly
  when it reports SUCCESS. The C code relies on this when it frees the slot
  of a rejected constraint.
- `malloc` for a callback container is modelled by an allocation mark
  (`Handle.next`) above every live container. A new container is therefore
  never a live one.
- The GC root set is a plain field of the handle record rather than a ghost
  one. It exists only in the model.

Where the C code leaves a condition unchecked, the model follows the code:
- The setters, `get_xtol_abs`, `get_initial_step` and `optimize` size the
  native buffer by the host array's length. NLopt reads or writes
  `dimension` cells of that buffer, and nothing checks the length against
  the dimension. Each of these members therefore takes the handle and
  requires the host array to have room for `dimension` cells, just as
  `get_lower_bounds` does.
- `get_initial_step` stores |x| cells into the caller's `dx` without a
  check, so the model requires `dx` to have room for them.
- `get_lower_bounds` and `get_upper_bounds` write `dimension` cells into the
  caller's array without a check, so the model requires room for them.
- `get_xtol_abs` uses the length of the caller's array, not the dimension.
- `get_xtol_abs` and `get_initial_step` store every cell of their temporary
  buffer into the caller's array. When that buffer is longer than
  `dimension`, the cells past `dimension` are uninitialized `malloc` memory
  that NLopt never wrote. The model leaves the buffer's contents
  unconstrained, so it covers this case.
- `optimize` never frees its temporary buffer `x` (see "## Findings").
- `create` checks neither `nlopt_create` nor `malloc` for NULL.
- The constraint slots form a list with the newest at the head.

## Model

| member | source | states |
|---|---|---|
| Enums.AlgorithmTableInverse | src/nlopt_wrapper.c:14-74 | the algorithm table has 41 entries and entry i is the algorithm whose host ordinal is i |
| Enums.AlgorithmTableComplete | src/nlopt_wrapper.c:14-74 | every constructor of the model's `Algorithm` type appears in the table, at its own ordinal |
| Enums.AlgorithmTableInjective | src/nlopt_wrapper.c:14-74 | the 41 table entries are pairwise distinct, so ordinal -> algorithm is injective |
| Enums.AlgorithmOf | src/nlopt_wrapper.c:159 | the unchecked lookup done by create needs 0 <= ordinal < 41 and yields the algorithm whose ordinal is the one given |
| Enums.ResultTableDistinct | src/nlopt_wrapper.c:76-88 | the result table has 11 pairwise distinct statuses |
| Enums.Find | src/nlopt_wrapper.c:94-98 | the linear search returns the first position holding the status, or FAILURE's ordinal 0 when no position does |
| Enums.MapResult | src/nlopt_wrapper.c:90-99 | the ordinal is always a valid table position; the entry there is the status exactly when the status is listed; an unlisted status maps to FAILURE |
| Enums.MapResultInverse | src/nlopt_wrapper.c:76-98 | mapping the status at table position i gives back i |
| Enums.MapResultPinned | src/nlopt_wrapper.c:76-98 | SUCCESS maps to 5, FAILURE to 0, and any unlisted status to the FAILURE entry |
| Enums.MapResultAsWritten | src/nlopt_wrapper.c:94-98 | the loop as written, bounded by the 44-byte size of the table, returns an index below 44 |
| Enums.MapResultAsWrittenAgrees | src/nlopt_wrapper.c:94-96 | for a listed status the loop as written stops inside the table and agrees with the corrected search |
| Enums.MapResultAsWrittenOverruns | src/nlopt_wrapper.c:94-98 | for an unlisted status the answer of the loop as written depends on memory past the table, and it can be 11, while the corrected search answers FAILURE |
| Marshal.Copy | src/nlopt_wrapper.c:256-257 | the element loop yields a fresh array of exactly n cells, each equal to the corresponding source cell |
| Marshal.ToNative | src/nlopt_wrapper.c:289-293 | the temporary native buffer equals the host array, length included |
| Marshal.FromNative | src/nlopt_wrapper.c:261-264 | the fresh host array equals the first n cells of the native buffer |
| Marshal.WriteBack | src/nlopt_wrapper.c:316-317 | storing n buffer cells into an existing host array replaces exactly its first n cells and keeps the rest and its length |
| Marshal.RoundTrip | src/nlopt_wrapper.c:252-264 | host -> native -> host gives back the same array, the empty one included |
| Registry.RegisteredSlotsAreLive | src/nlopt_wrapper.c:185 | for a valid handle, every user-data pointer NLopt can call the trampoline with is a rooted, live container holding a closure |
| Registry.Create | src/nlopt_wrapper.c:155-176 | the new handle is valid, uses the table's algorithm for the ordinal and the given dimension, has an empty constraint list and nothing registered with NLopt, and its objective slot holds unit and is the only rooted slot |
| Registry.SetObjective | src/nlopt_wrapper.c:217-241 | only the objective slot's contents change, to the closure; that same slot is the user data; the constraint list, root set and live containers are unchanged; the handle stays valid; the status is mapped |
| Registry.AddConstraint | src/nlopt_wrapper.c:365-423 | the user data is a fresh, unrooted container; on SUCCESS the list grows by that one slot at its head, the slot joins the roots holding the closure, and NLopt holds it; on any other status the handle is unchanged, so the slot is never rooted; the handle stays valid |
| Registry.Run | src/nlopt_wrapper.c:217-423 | any sequence of set-objective and add-constraint calls keeps the registry invariant |
| Registry.RunGrows | src/nlopt_wrapper.c:379-388 | over any sequence of calls the objective slot is fixed, the list only grows at its head by one per accepted constraint, roots only grow, algorithm and dimension are kept |
| Registry.CreateThenRun | src/nlopt_wrapper.c:162-173 | from creation on, the rooted slots are exactly the objective slot plus the accepted constraints' slots, and there is one per accepted constraint |
| Registry.Finalize | src/nlopt_wrapper.c:114-141 | the native optimizer is destroyed first; then the objective slot is un-rooted and freed; then each constraint from the head is un-rooted, freed and its node freed; afterwards nothing is rooted and no container is live |
| Registry.ReleaseFreesEverySlot | src/nlopt_wrapper.c:121-140 | a release in finalizer order frees exactly the handle's live containers |
| Registry.ReleaseFreesOnceAfterUnroot | src/nlopt_wrapper.c:122-135 | a release in finalizer order frees each container once, right after un-rooting it |
| Trampoline.CallbackWrapper | src/nlopt_wrapper.c:178-215 | the closure run is the one stored in the user-data slot; it gets a host array equal to the native x; the gradient argument is None exactly when the gradient pointer is NULL, and otherwise starts as the buffer's contents; afterwards the gradient buffer holds the closure's n gradient values; the closure's result is returned |
| Operations.SetLowerBounds | src/nlopt_wrapper.c:284-300 | NLopt receives exactly the host array, and its status is mapped; the temporary buffer of the array's length is freed |
| Operations.SetUpperBounds | src/nlopt_wrapper.c:325-341 | NLopt receives exactly the host array, and its status is mapped; the temporary buffer of the array's length is freed |
| Operations.SetXtolAbs | src/nlopt_wrapper.c:497-513 | NLopt receives exactly the host array, and its status is mapped; the temporary buffer of the array's length is freed |
| Operations.SetInitialStep | src/nlopt_wrapper.c:581-597 | NLopt receives exactly the host array, and its status is mapped; the temporary buffer of the array's length is freed |
| Operations.GetLowerBounds | src/nlopt_wrapper.c:303-323 | on SUCCESS the first `dimension` cells of the caller's array take NLopt's values and the rest are kept; otherwise the array is untouched; the `dimension`-cell buffer is freed |
| Operations.GetUpperBounds | src/nlopt_wrapper.c:343-363 | on SUCCESS the first `dimension` cells of the caller's array take NLopt's values and the rest are kept; otherwise the array is untouched; the `dimension`-cell buffer is freed |
| Operations.GetXtolAbs | src/nlopt_wrapper.c:515-532 | on SUCCESS the caller's array becomes the temporary buffer's contents, at the array's own length, and the cells past `dimension` are uninitialized memory NLopt never wrote; otherwise it is untouched; the buffer of the array's length is freed |
| Operations.GetInitialStep | src/nlopt_wrapper.c:599-621 | NLopt receives the reference point x; on SUCCESS the first cells, as many as x has, of dx take the temporary buffer's contents and the rest are kept, and the cells past `dimension` are uninitialized memory NLopt never wrote; otherwise dx is untouched; both buffers of the length of x are freed |
| Operations.OptimizeAsWritten | src/nlopt_wrapper.c:243-273 | the same result as `Optimize`, but the buffer of the length of x is never freed: the call leaves exactly as many cells as x has allocated, and for a non-empty x not every buffer is freed |
| Buffers.AllFreedLeavesNothing | src/nlopt_wrapper.c:297 | a call that frees every temporary buffer it allocates leaves no cell allocated |
| Buffers.UnfreedIsOutstanding | src/nlopt_wrapper.c:254 | a buffer allocated and never freed later in the call stays allocated, and its cells count as left over |
| Operations.Optimize | src/nlopt_wrapper.c:243-273 | NLopt receives the host x; whatever the status, the returned x is NLopt's final buffer, of the input's length; the value is fopt and the status is mapped; the corrected binding frees the buffer of the length of x, so no cell stays allocated |

## Left out

- Every `nlopt_*` function is an input, not a model: the algorithms, their stopping rules and their internal state belong to NLopt, which is not part of this model.
- OCaml runtime internals are not modelled: `CAMLparam`/`CAMLlocal` frames, `caml_alloc`, boxing, the custom block and its operations (`opt_ops`), and real GC behaviour. Rooting is the `roots` set only.
- Floating-point contents and semantics are not modelled. Elements are only copied.
- An exception raised by the closure inside `caml_callback2` is not modelled. It would unwind through NLopt's frames, which the C code does not handle.
- The sequence of trampoline calls NLopt makes during `nlopt_optimize` is not modelled. `Trampoline.CallbackWrapper` models one call, and `Registry.RegisteredSlotsAreLive` covers every address NLopt can pass to it.
- Registry.Create: a NULL `nlopt_create` result is not modelled, nor is a NULL from any `malloc` (lines 162, 254, 290, 373, 383 and the other buffers). The C code checks none of them, so the model assumes they succeed.
- Registry.Create: the dimension is a `nat`. A negative OCaml int, which `nlopt_create` would receive as a huge unsigned value, is not modelled.
- Scalar passthroughs with no logic of their own are not modelled: stopval, ftol_rel, ftol_abs, xtol_rel, maxeval, maxtime, force_stop, population, vector_storage, set_local_optimizer, get_dimension and version. Each setter forwards one value (force_stop forwards none) and maps the status. The getters, get_dimension and version return NLopt's value directly. `Registry.Create` records the dimension that `get_dimension` reads back.
- Operations.GetInitialStep: requires the caller's `dx` to have room for |x| cells. The C code stores |x| cells into `dx` at lines 613-615 and does not check its length.
- Operations.GetLowerBounds and Operations.GetUpperBounds: each requires the caller's array to hold at least `dimension` cells. The C code stores `dimension` cells into it at lines 316-317 and 356-357 without checking its length, so a shorter array is not modelled.
- Operations.SetLowerBounds, Operations.SetUpperBounds, Operations.SetXtolAbs, Operations.SetInitialStep, Operations.GetXtolAbs, Operations.GetInitialStep, Operations.Optimize and Operations.OptimizeAsWritten: each requires the host array to hold at least `dimension` cells. NLopt works on `dimension` cells of the buffer, and the C code does not check this, so a shorter array is not modelled.
- Enums.MapResultAsWritten: the loop bound assumes `sizeof(nlopt_result)` is 4, the width of an `int` enum on the usual C ABIs.

## Findings

| source | as written | input that shows it | evidently intended | confidence | as-written member | corrected member |
|---|---|---|---|---|---|---|
| src/nlopt_wrapper.c:254 | `ml_nlopt_optimize` allocates the buffer `x` with `malloc` and returns without freeing it, while every other array entry point frees its buffers | any call with a non-empty x: every double of the buffer stays allocated after the call returns | `free(x)` once the result array is filled | high; not executed | Operations.OptimizeAsWritten | Operations.Optimize |
| src/nlopt_wrapper.c:94 | `i < sizeof(map_results)` bounds the search by the table's size in bytes (44 with a 4-byte enum), not by its 11 entries | a status the table does not list, such as one added by a later NLopt release: the loop reads `map_results[11]` to `map_results[43]`, past the array, and returns 11 if that memory holds the status | bound the loop by `sizeof(map_results) / sizeof(map_results[0])` and fall back to FAILURE | high; not executed | Enums.MapResultAsWritten, shown by Enums.MapResultAsWrittenOverruns | Enums.MapResult |
