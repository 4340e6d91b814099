# Compressed fiber tensor (splatt `ftensor`) in Dafny

This project models the fiber-tensor builder of splatt (`src/ftensor.c`). The builder
turns a coordinate (COO) sparse tensor into one index structure per mode.
For each mode `m`, `fib_mode_order` picks a permutation of the modes:
`m` first, a mode of extremal size last, and the others in cyclic order between them.
The nonzeros, sorted under that permutation, are then cut into *fibers*. A fiber is a
maximal run of nonzeros that share every permuted index except the innermost one.
`__create_fptr` records:
- the innermost index and the value of every nonzero;
- a pointer to the first nonzero of each fiber;
- each fiber's permuted-mode-1 index (`fids`);
- when the tensor is tiled, each fiber's outermost index (`sids`).

Above the fibers there are two layouts:
- Untiled: `__create_sliceptr` builds a dense slice pointer with one entry per outer
  index, so `sptr[s]` is the number of fibers whose outer index is below `s`.
- Tiled: `__create_slabptr` compacts the non-empty slices. It gives each one its first
  fiber and its id, then groups them into slabs of `TILE_SIZES[0]` = 1024 outer indices.

`ften_spmat` copies one mode's fibers out as a CSR matrix.

Modules, one file each:
- `Runs` (runs.dfy): run decomposition of a sequence and counting below a bound.
  Fibers and compacted slices are both instances of it.
- `Coo` (coo.dfy): the COO tensor, permuted columns, and lexicographic order.
- `Fibers` (fibers.dfy): fiber starts and the source's new-fiber test, with their properties.
- `Slices` (slices.dfy): the dense slice pointer as a function, with its properties.
- `Slabs` (slabs.dfy): compacted slices and slab pointers as functions, with their properties.
- `ModeOrders` (mode_order.dfy): `fib_mode_order` as a specification function and as an
  array-filling method.
- `FiberModes` (fiber_mode.dfy): class `FiberMode`, the per-mode slots of `ftensor_t`.
  Its methods are the three builders, each proved against the functions above.
- `FTensors` (ftensor.dfy): class `FTensor` (`ften_alloc`) and class `SpMatrix` with
  `Spmat` (`ften_spmat`).

The sort (`tt_sort`) and the tiling (`tt_tile`) have no bodies here. Each mode instead
receives a *view*: a tensor with the same nonzeros as the input. Under the mode's
permutation its columns are lexicographically sorted, or, when tiling, at least every
index is within its dimension. The builders' preconditions say exactly what the source
relies on:
- `nnz >= 1`, because position 0 is read unconditionally;
- at least two modes, because column 1 is read;
- for the untiled slice pointer, a non-decreasing outermost column below `dims[mode]`;
- for `ften_spmat`, at least three modes, because `dim_perms[mode][2]` is read.

## Model

| member | source | states |
|---|---|---|
| ModeOrders.ScanExtremal | src/ftensor.c:309-325 | the scan over `mo = 1 .. nmodes-1` with a strict comparison returns exactly the extremal mode `ExtremalMode` |
| ModeOrders.ExtremalModeChosen | src/ftensor.c:309-325 | the chosen `maxm` differs from `mode`; with LONG_FIB its dimension is the largest of the other modes, otherwise the smallest; among ties it is the first in cyclic order after `mode` |
| ModeOrders.BestOffsetChosen | src/ftensor.c:312-316 | after scanning offsets `1 .. k`, no scanned offset is strictly better than the kept one, and every earlier offset is strictly worse, so it is the first extremal one |
| ModeOrders.FibModeOrder | src/ftensor.c:302-336 | fills `perm_dims[0 .. nmodes-1]` with exactly `ModeOrder(dims, mode, longFib)` and leaves the rest of the array unchanged |
| ModeOrders.ModeOrderIsPermutation | src/ftensor.c:308-335 | the order is a permutation of `0 .. nmodes-1` whose slot 0 is `mode` and whose last slot is the extremal mode |
| ModeOrders.ModeOrderCyclic | src/ftensor.c:329-335 | the middle slots hold the remaining modes in strictly increasing cyclic offset from `mode`, with `maxm` skipped |
| ModeOrders.FillSlot | src/ftensor.c:330-334 | the mode at cyclic offset `mo`, other than `maxm`, goes to slot `mo` before `maxm`'s offset and to slot `mo - 1` after it |
| Fibers.IsNewFiber | src/ftensor.c:42-49 | the inner loop reports a new fiber at `n` exactly when some outer permuted column differs between `n - 1` and `n` |
| Fibers.FiberCount | src/ftensor.c:37-52 | the number of fibers is 1 plus the number of positions `n` in `[1, nnz)` where the new-fiber test holds |
| Fibers.FiberNext | src/ftensor.c:70-88 | in the second pass, the test fires at `n` exactly when `n` is the start of fiber `fib`, so `fib` counts the fibers already started |
| Fibers.FiberPointers | src/ftensor.c:63-64 | `fptr` = fiber starts + `[nnz]` has `fptr[0] = 0` and `fptr[nfibs] = nnz` and strictly increases, so no fiber is empty |
| Fibers.FiberUniform | src/ftensor.c:70-88 | every nonzero in `[fptr[f], fptr[f+1])` has the outer indices of the fiber's first nonzero, and every later fiber starts where the test fires |
| Fibers.NewFiberOuters | src/ftensor.c:183-188 | where position `n` starts a fiber, the outer index moves from the previous fiber's to this fiber's exactly as it moves from `n - 1` to `n` |
| Fibers.LastFiberOuter | src/ftensor.c:192-193 | the last fiber's outer index is that of the last nonzero |
| Fibers.FiberOutersNonDecreasing | src/ftensor.c:173-190 | with a sorted outermost column, the fibers' outer indices never decrease |
| Fibers.FibersFormCsr | src/ftensor.c:272-278 | read as rows, the fibers form a valid CSR matrix: pointers from 0 to `nnz`, non-decreasing, and column indices below the column count |
| FiberModes.FiberMode.CopyAndCount | src/ftensor.c:36-52 | the first pass copies every nonzero's innermost index and value unchanged and returns the fiber count |
| FiberModes.FiberMode.MarkFibers | src/ftensor.c:54-88 | the second pass writes `fptr` = fiber starts + `[nnz]`, `fids[f]` = the mode-1 index of fiber `f`'s first nonzero, and (tiled) `sids[f]` = its outermost index |
| FiberModes.FiberMode.CreateFptr | src/ftensor.c:18-89 | the whole of `__create_fptr`: the mode holds the fibers of the permuted columns, and when tiled `sids` holds the per-fiber outer indices; the slice and slab slots are untouched |
| FiberModes.FiberMode.FillSlicePtr | src/ftensor.c:154-194 | the loops fill all `dims[mode] + 1` entries with `SlicePtr`, the count of fibers whose outer index is below each slice |
| FiberModes.FiberMode.CreateSliceptr | src/ftensor.c:146-195 | the untiled layout: `sptr` becomes `SlicePtr` of the fiber outer indices; the fiber slots are untouched |
| Slices.SlicePtrShape | src/ftensor.c:167-194 | `sptr[0] = 0`, `sptr[dims[mode]] = nfibs`, and `sptr` never decreases |
| Slices.SliceFibers | src/ftensor.c:173-190 | fiber `f` lies in `[sptr[s], sptr[s+1])` exactly when its outer index is `s` |
| Slices.SliceEmpty | src/ftensor.c:185-187 | `sptr[s] == sptr[s+1]` exactly when no fiber has outer index `s` |
| FiberModes.FiberMode.CountSlices | src/ftensor.c:106-113 | the slice count is the number of runs of equal per-fiber slice ids |
| FiberModes.FiberMode.Compact | src/ftensor.c:114-132 | the compaction loop writes each compacted slice's first fiber and id, and the slab pointers `1 .. slab-1`, each being the first slice from position 1 on whose slab reaches it |
| FiberModes.FiberMode.AdvanceSlabs | src/ftensor.c:127-129 | the inner `while` raises `slab` to one past the largest slab seen so far and stays within the allocated `slabptr` |
| FiberModes.FiberMode.CreateSlabptr | src/ftensor.c:92-143 | the tiled layout: the per-fiber `sids` are replaced by the compacted slice ids, and `sptr`, `nslabs` and `slabptr` are those of the compacted slices; the fiber slots are untouched |
| Slabs.CompactSlices | src/ftensor.c:107-142 | the slice count is 1 plus the number of id changes; `sptr` runs from 0 to `nfibs` and strictly increases; neighbouring compacted slices have different ids; ids stay below the dimension |
| Slabs.SliceOfFiber | src/ftensor.c:122-132 | every fiber in `[sptr[s], sptr[s+1])` has compacted slice `s`'s id |
| Slabs.SlabPtrShape | src/ftensor.c:99-141 | `slabptr[0] = 0`, `slabptr[nslabs] = slices`, `slabptr` never decreases, and `nslabs` never exceeds the allocated `ceil(dims[mode] / 1024)` |
| Slabs.SlabCountOrdered | src/ftensor.c:127-140 | for slab-ordered ids, `nslabs` is 1 for a single slice and `sids[slices-1] / 1024 + 1` otherwise |
| Slabs.SliceInItsSlab | src/ftensor.c:127-129 | every compacted slice `s >= 1` lies in the slabptr range of its own slab `sids[s] / 1024`; slice 0 lies in slab 0's range |
| Slabs.FirstInSlabLeast | src/ftensor.c:127-129 | `slabptr[b]` is the least compacted slice position from 1 on whose slab is at least `b` |
| Runs.RunStartsNext | src/ftensor.c:122-132 | one step of a scan that compares adjacent elements meets the next run start exactly where they differ |
| Runs.RunPointers | src/ftensor.c:117-142 | run starts + `[k]` start at 0, end at `k` and strictly increase |
| Runs.RunCount | src/ftensor.c:107-113 | the number of runs is 1 plus the number of adjacent changes |
| Coo.LexSortedLeading | src/ftensor.c:225 | a lexicographically sorted set of permuted columns has a non-decreasing outermost column |
| FiberModes.FiberMode.BuildMode | src/ftensor.c:222-238 | one iteration of the mode loop: a fresh mode whose fibers, and its slab layout (tiled) or slice pointer (untiled), are built from the mode's sorted view |
| FTensors.ViewReady | src/ftensor.c:225-231 | a view sorted under `ModeOrder(dims, m)` meets every builder precondition: shaped, outermost column below `dims[m]`, and non-decreasing when untiled |
| FTensors.FTensor.ModePerms | src/ftensor.c:215-218 | `dim_perms[m]` is `ModeOrder(dims, m)` for every mode |
| FTensors.FTensor.Prepare | src/ftensor.c:215-231 | the permutations are the mode orders, with `perm[0] = m`, entries below `nmodes`, and each mode's permuted view ready for the builders |
| FTensors.FTensor.BuildModes | src/ftensor.c:221-239 | after the loop, every mode is built from its view, with tiling decided by `tt->tiled || tile` |
| FTensors.FTensor.Alloc | src/ftensor.c:201-265 | `ften_alloc`: `nnz`, `nmodes`, `dims` copied; `tiled = tt->tiled || tile`; `dim_perms[m]` the mode order; every mode built (`Valid`) |
| FTensors.Copy | src/ftensor.c:276-278 | a `memcpy` of `n` elements: the first `n` destination entries equal the source's, the rest unchanged |
| FTensors.FTensor.CopyFibers | src/ftensor.c:272-278 | the matrix's `rowptr`, `colind` and `vals` are copies of `fptr`, `inds` and `vals`, with `nfibs` rows; when the inner indices are below `ncols` it is a valid CSR matrix |
| FTensors.FTensor.Spmat | src/ftensor.c:268-281 | `ften_spmat`: `dims[dim_perms[mode][2]]` columns, `nnz` entries, and the mode's fibers as rows; for three modes a valid CSR matrix |

## Left out

- Integer width: `idx_t` is a 64-bit unsigned type in the source. The model uses unbounded naturals, because no index the builder computes can exceed `nnz` or a dimension.
- `malloc`, `free` and `ften_free` (src/ftensor.c:284-299): allocation plumbing. Allocation is modelled by `new`; release is not modelled.
- The `printf` in `ften_alloc` (src/ftensor.c:228-229): output only.
- The storage-accounting block (src/ftensor.c:241-262): it is disabled by `#if 0`.
- `tt_sort` and `tt_tile` (src/tile.h): their bodies are not part of this model.
  - Each mode receives a view: a tensor with the same nonzeros, sorted under the mode's permutation, or for tiling only bounded.
  - The source sorts the one input tensor in place; the model passes separate views.
- FTensors.FTensor.Alloc: `ftensor_t` keeps each slot as an array over modes (`fptr[m]`, `inds[m]`, …). The model regroups them into one `FiberMode` object per mode.
  - The `MAX_NMODES` fixed arrays become sequences of length `nmodes`.
  - The compile-time `SPLATT_LONG_FIB` switch becomes the `longFib` parameter.
- FiberModes.FiberMode.CreateFptr: untiled, the source leaves `sids[mode]` unset. The model keeps a zero-length placeholder there and states nothing about it.
- FiberModes.FiberMode.CreateSlabptr: slice 0 is never compared against slab 1 and above (the loop starts at `f = 1`). The model follows this rather than placing slice 0 in its own slab. `SliceInItsSlab` states it for slice 0 as lying in slab 0's range.
- FTensors.FTensor.Spmat: the column bound of the CSR matrix is proved only for three modes. With more modes the innermost column is not the one at `dim_perms[mode][2]`, and the source does not guard against that.
- `spmat_alloc`: its body lives in matrix.c, which is not part of this model. The `SpMatrix` constructor stands for it, with array lengths `nrows + 1`, `nnz` and `nnz`.
- src/completion/als.c and src/sgd.c: the solvers are not part of this model. They consist of floating-point updates, LAPACK calls, OpenMP regions and functions whose bodies are not shown.
- Values: `val_t` is modelled as `real` and is only copied, never computed with.
