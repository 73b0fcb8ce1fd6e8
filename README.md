# sgpt tensor arena and element access, modelled in Dafny

sgpt is a small tensor library in C (`src/sgpt.c`, `include/sgpt.h`) in
the style of ggml. This project models its core and proves properties of
that model:

- **The bump-allocating arena.**
  - One context spans a caller-supplied buffer.
  - `sgpt_init` resets the context.
  - `sgpt_new_tensor_impl` places each new record (an allocation header, a tensor descriptor and, for an owned tensor, its elements) directly after the previous one.
  - It checks that the record fits, links the header into a singly linked list and counts it.
- **Tensor descriptor construction.**
  - Extents past the rank are 1.
  - Byte strides are derived row-major from the element size.
  - An owned tensor's elements follow its descriptor.
  - `sgpt_view_tensor` reuses its source's data.
  - `sgpt_dup_tensor` gives fresh storage of the same type and shape.
- **Typed i32 element access.** `sgpt_get_i32` and `sgpt_set_i32` and their 1- to 4-dimensional wrappers check the element type and the indices, then read or write the i32 at `data + sum idxs[i] * nb[i]`.

Modules, one per file:

| file | module | contents |
|---|---|---|
| `types.dfy` | `SgptTypes` | The enums and structs of `include/sgpt.h`. C's fixed-width integers as subset types. `size_t` conversion (`U64`). The two `sizeof` constants. |
| `shape.dfy` | `SgptShape` | Padded extents, strides, the descriptor `Describe`, `SameShape`, and the product and stride lemmas. |
| `arena.dfy` | `SgptArena` | The context state and its invariant. `NewTensor`, the side-effect-free model of `sgpt_new_tensor_impl`. The allocation lemmas. The `Context` class whose methods follow the C code statement by statement, except where the capacity test is corrected. |
| `access.dfy` | `SgptAccess` | Offsets, the index checks, `ReadI32`/`WriteI32`, the methods `Locate`, `GetI32`, `SetI32` and their wrappers, and the access lemmas. |
| `scenarios.dfy` | `SgptScenarios` | Client methods that repeat the checks of `tests/sgpt_test.c`. Every `TEST_CHECK` of test_init, test_new_tensor, test_dup_tensor and test_view_tensor is an assertion, and so is the 1-D part of test_set_i32. Its 2-D to 4-D loops are covered by `SetThenGet` instead (see Left out). |

How the C code is represented:

- **Context methods.** Each method of `Context` is specified by a function on an `ArenaState` value: `(State(), r) == NewTensor(old(State()), ...)`. The invariant `Inv` is kept by every method.
- **Failed C assertions.** They become error results (`Err(OutOfMemory)`, `Err(TypeMismatch)`, `Err(IndexOutOfRange)`), and the state is left unchanged.
- **`size_t` arithmetic.** `size_needed` and the strides are written out modulo 2^64: `U64` and `WrappedProduct`. Exact forms are proved under `NoWrap`, which says that every extent is positive and no product wraps.
- **The capacity test.** The test of src/sgpt.c:55 is not evaluated in `size_t`. The model decides on the exact request (`ExactRequest`, `Admits`), because the `size_t` test admits records that end outside the buffer or are too small for their elements (see Findings). This happens in three ways. The sum can wrap. A negative extent can make the request smaller than a descriptor. The product of positive extents can wrap. The `size_t` test itself is `FitsAsWritten`.
- **The index test.** The test of src/sgpt.c:152 and 181 is `idxs[i] <= ne[i]`. The accessors use the intended range `0 <= idxs[i] < ne[i]` instead (see Findings). The test as written is `AdmittedAsWritten` and `LocateAsWritten`.
- **Element memory.** It is an `array<int32>` indexed by byte address. Each access through an I32 tensor reads or writes one whole word.
- **Headers and descriptors.** The list of headers is the sequence `objects`. A descriptor is the value the allocation returns. Neither is stored in the element memory.

## Model

| member | source | states |
|---|---|---|
| SgptTypes.U64 | src/sgpt.c:47-55 | Conversion to `size_t`: identity on 0 .. 2^64-1, otherwise the value congruent modulo 2^64. |
| SgptTypes.ElemSize | src/sgpt.c:4-7 | `SGPT_TYPE_SIZE`: the element size of each type is positive. |
| SgptShape.PaddedShape | src/sgpt.c:74-81 | The descriptor has four extents: each given extent, then 1 past the rank. |
| SgptShape.Strides | src/sgpt.c:82-85 | `nb[0]` is the element size and `nb[i] = nb[i-1] * ne[i-1]` in `size_t`. |
| SgptShape.Describe | src/sgpt.c:70-85 | The built descriptor has padded extents and derived strides, the given type, and `n_dims` equal to the number of extents. Its op is NONE and it has no sources. Its data is `descriptor + sizeof(sgpt_tensor)` when owned and the given pointer for a view. |
| SgptShape.SameShape | src/sgpt.c:21-32 | `sgpt_are_same_shape` holds exactly when all four extents are equal. |
| SgptShape.WrappedProductExact | src/sgpt.c:47-54 | With positive extents and no product wrapping, the `size_t` running product equals the exact product. |
| SgptShape.WrappedProductCongruent | src/sgpt.c:47-54 | For any extents, negative ones included, the `size_t` running product is congruent modulo 2^64 to the element size times the exact product. |
| SgptShape.PaddingKeepsProduct | src/sgpt.c:74-85 | Padding the extents with 1s changes neither the exact product nor the wrapped one. |
| SgptShape.StrideExact | src/sgpt.c:82-85 | With positive extents and no product wrapping, stride k is the element size times `ne[0] * ... * ne[k-1]`. |
| SgptShape.StridesRowMajor | src/sgpt.c:82-85 | A derived layout with positive extents and no wrap-around is row-major: `nb[0]` is the element size, `nb[i+1] = nb[i] * ne[i]`, and each stride has the closed form above. |
| SgptShape.StrideExample | tests/sgpt_test.c:25-67 | F32 (4) has extents (4, 1, 1, 1) and strides (4, 16, 16, 16). F32 (2, 3) has extents (2, 3, 1, 1) and strides (4, 8, 24, 24). F32 (2, 3, 5) has extents (2, 3, 5, 1) and strides (4, 8, 24, 120). F32 (2, 3, 5, 7) has strides (4, 8, 24, 120). |
| SgptShape.CloneShape | src/sgpt.c:140-146 | Rebuilding from a descriptor's own type, rank and extents reproduces its type, rank, extents and strides, whatever the data pointer. |
| SgptArena.Inv | src/sgpt.c:41-68 | The context invariant: each header sits where the previous record ends, its record follows it, `next` links to the following header and is NULL at the tail, `cur_end <= mem_size`, `n_objects` counts the headers, and `objects_begin`/`objects_end` are the first and last header or NULL. |
| SgptArena.Initial | src/sgpt.c:10-19 | The context `sgpt_init` leaves behind is valid and empty, with the given capacity and buffer. |
| SgptArena.RequestedSize | src/sgpt.c:47-54 | `size_needed` in `size_t`. A view requests only `sizeof(sgpt_tensor)`. |
| SgptArena.ExactRequest | src/sgpt.c:47-54 | `size_needed` in exact arithmetic: element size × exact element count for an owned tensor, plus `sizeof(sgpt_tensor)`. A view requests only `sizeof(sgpt_tensor)`. |
| SgptArena.RequestedSizeAgrees | src/sgpt.c:47-54 | The `size_t` `size_needed` is congruent to the exact request modulo 2^64, and equal to it whenever the exact request is a `size_t` value. |
| SgptArena.Fits | src/sgpt.c:55 | The comparison `cur_end + sizeof(sgpt_object) + size <= mem_size` in exact arithmetic. |
| SgptArena.FitsAsWritten | src/sgpt.c:55 | The same comparison as C evaluates it, with the sum reduced modulo 2^64. |
| SgptArena.Admits | src/sgpt.c:55 | The intended capacity test: the request covers at least one descriptor, and the header and record fit exactly. |
| SgptArena.Appended | src/sgpt.c:57-68 | The context after the append: a new tail header at `cur_end` with offset `cur_end + sizeof(sgpt_object)`, linked from the old tail or made the head, and `n_objects` up by one. |
| SgptArena.NewTensor | src/sgpt.c:34-90 | `sgpt_new_tensor_impl` as a function of the context: OutOfMemory with the context unchanged when `Admits` fails, otherwise the appended context and the descriptor built at the new record. |
| SgptArena.RequestedSizeExact | src/sgpt.c:47-54 | With positive extents and no product wrapping, an owned tensor requests element size × number of elements + `sizeof(sgpt_tensor)`. |
| SgptArena.LayoutOrdered | src/sgpt.c:57-68 | Each record starts after every earlier record ends, plus a header. Offsets strictly increase. |
| SgptArena.WithinCapacity | src/sgpt.c:55-62 | Every record of a valid context starts after its header and ends within `mem_size`. |
| SgptArena.AllocationKeepsInvariant | src/sgpt.c:55-68 | Appending a record that fits keeps the context invariant (linked list, placement, capacity, count). |
| SgptArena.NewTensorOutcome | src/sgpt.c:34-90 | Allocation succeeds exactly when the exact request is at least `sizeof(sgpt_tensor)` and `cur_end + sizeof(sgpt_object) + request <= mem_size` in exact arithmetic. This is the corrected test, not the `size_t` one of line 55. On failure the context is unchanged. On success `size_needed` equals the exact request, and the context is the appended one and still valid. The descriptor lies wholly inside the buffer and is built at the new record's address. |
| SgptArena.AllocationPlacement | src/sgpt.c:41-62 | The new header sits at the previous end. The new offset is that end + `sizeof(sgpt_object)` and the size is `size_needed`. The record ends within capacity and after all earlier records. |
| SgptArena.AllocationBookkeeping | src/sgpt.c:63-87 | The new header becomes the tail with a NULL `next`. `objects_begin` is set only on the first allocation; otherwise the old tail links to the new header. `n_objects` goes up by one, and nothing else changes. |
| SgptArena.DupTensorClones | src/sgpt.c:140-142 | A dup has the source's type, rank, extents and strides. Its data follows its own descriptor, after every earlier record, and ends within capacity. |
| SgptArena.ViewTensorShares | src/sgpt.c:144-146 | A view succeeds exactly when a descriptor fits. It reserves only the descriptor and has the source's type, rank, extents, strides and data. |
| SgptArena.FitsAgreesWithAsWritten | src/sgpt.c:55 | The comparison in exact arithmetic implies the `size_t` one, and the two agree when the sum does not wrap. |
| SgptArena.CapacityCheckWraps | src/sgpt.c:55 | The `size_t` check admits an I32 extent of -32 in an empty 1024-byte context. The exact one refuses it, and so does the model's allocation. |
| SgptArena.DescriptorOverrunAsWritten | src/sgpt.c:54-55 | An F32 extent of -1 in an empty 124-byte context requests 100 bytes, fewer than a descriptor. Both forms of the comparison pass, yet the descriptor at offset 24 would end past the buffer. The model's allocation refuses it. |
| SgptArena.Context.constructor | src/sgpt.c:9 | The zero-initialised static context is valid and empty. |
| SgptArena.Context.Init | src/sgpt.c:10-19 | After `sgpt_init`: the given `mem_size` and buffer, `n_objects == 0`, and NULL list head and tail. |
| SgptArena.Context.NewTensorImpl | src/sgpt.c:34-90 | The C statements, with the test of line 55 made on the exact request and also refusing a request below `sizeof(sgpt_tensor)`. The new context and result are NewTensor of the old context, and the invariant is kept. |
| SgptArena.Context.NewTensor1D | src/sgpt.c:101-105 | `sgpt_new_tensor_1d` is NewTensor with extents [ne0] and no data. |
| SgptArena.Context.NewTensor2D | src/sgpt.c:107-115 | `sgpt_new_tensor_2d` is NewTensor with extents [ne0, ne1]. |
| SgptArena.Context.NewTensor3D | src/sgpt.c:117-126 | `sgpt_new_tensor_3d` is NewTensor with extents [ne0, ne1, ne2]. |
| SgptArena.Context.NewTensor4D | src/sgpt.c:128-138 | `sgpt_new_tensor_4d` is NewTensor with extents [ne0, ne1, ne2, ne3]. |
| SgptArena.Context.DupTensor | src/sgpt.c:140-142 | `sgpt_dup_tensor` is NewTensor with the source's type and first `n_dims` extents, and no data. |
| SgptArena.Context.ViewTensor | src/sgpt.c:144-146 | `sgpt_view_tensor` is NewTensor with the source's type and extents over the source's data. |
| SgptArena.BuildDescriptor | src/sgpt.c:70-85 | The placeholder-then-copy loop and the stride assignments build exactly Describe. |
| SgptArena.SizeNeeded | src/sgpt.c:47-54 | The `size_needed` loop computes RequestedSize in `size_t`, and alongside it ExactRequest in exact arithmetic. |
| SgptAccess.Offset | src/sgpt.c:150-154 | `loc`: the sum of `idxs[i] * nb[i]` over the indices given. |
| SgptAccess.AdmittedAsWritten | src/sgpt.c:152 | The per-index test as written: `idxs[i] <= ne[i]`. |
| SgptAccess.ReadI32 | src/sgpt.c:148-156 | `sgpt_get_i32` on a memory value: TypeMismatch unless I32, IndexOutOfRange unless every index is in `0 <= idxs[i] < ne[i]` (the corrected test), otherwise the i32 at `data + loc`. |
| SgptAccess.WriteI32 | src/sgpt.c:177-185 | `sgpt_set_i32` on a memory value: the same checks, and on success the memory with the value at `data + loc`. |
| SgptAccess.RowMajorClosedForm | src/sgpt.c:82-85 | In a row-major layout, `nb[k] = nb[0] * ne[0] * ... * ne[k-1]`. |
| SgptAccess.OffsetBound | src/sgpt.c:150-154 | For in-range indices, `0 <= loc` and `loc + nb[0] <= nb[0] * ne[0] * ... * ne[k-1]`. |
| SgptAccess.OffsetInjective | src/sgpt.c:150-154 | Distinct in-range index lists of one length give distinct `loc`. |
| SgptAccess.OffsetWithinPayload | src/sgpt.c:150-155 | Every in-range element lies within the payload `nb[0] * ne[0] * ne[1] * ne[2] * ne[3]`. |
| SgptAccess.SetThenGet | src/sgpt.c:148-185 | Set then get at the same in-range index returns the value set. At any other in-range index of the same length, get returns the old value. |
| SgptAccess.WriteStaysInPayload | src/sgpt.c:177-185 | A set passes exactly for an I32 tensor with in-range indices. A failed set changes nothing. A passing set changes no cell outside the tensor's payload. |
| SgptAccess.ViewAliases | src/sgpt.c:144-185 | A view and its source have the same location for every index list. Every get agrees between them, and a set through one is the same set through the other. |
| SgptAccess.AdmittedDoesNotWrap | src/sgpt.c:47-55 | For positive extents, a request the allocation admits has no wrapping product: `NoWrap` holds. |
| SgptAccess.OwnedAccessStaysInRecord | src/sgpt.c:47-85 | An in-range access through a freshly allocated owned tensor of positive extents stays between the end of its descriptor and the end of its own record. No wrap-around needs to be assumed. |
| SgptAccess.ProductWrapsAsWritten | src/sgpt.c:49-55 | An F32 tensor of extents (2^31, 2^31) in an empty 128-byte context requests 104 bytes in `size_t`, because the product wraps to 0. Both forms of the comparison pass, yet the in-range element (1, 0) of the descriptor C returns lies past the buffer. The model's allocation refuses it. |
| SgptAccess.IndexCheckAdmitsOutOfRange | src/sgpt.c:150-154 | The check as written admits (2, 0) on a 2×2 tensor, at the location of (0, 1). It admits 2 and -1 on a two-element tensor, and 2 addresses the first byte past the payload. |
| SgptAccess.LocateAsWritten | src/sgpt.c:149-154 | The loop with the `idxs[i] <= ne[i]` check: TypeMismatch for a non-I32 tensor, IndexOutOfRange unless every index passes that check, otherwise `Ok(sum idxs[i] * nb[i])`. |
| SgptAccess.Locate | src/sgpt.c:149-154 | The same loop with the intended check `0 <= idxs[i] < ne[i]`. |
| SgptAccess.GetI32 | src/sgpt.c:148-156 | `sgpt_get_i32`, with the corrected index test `0 <= idxs[i] < ne[i]`: TypeMismatch, IndexOutOfRange, or the i32 at `data + loc`, as ReadI32 says. |
| SgptAccess.SetI32 | src/sgpt.c:177-185 | `sgpt_set_i32`, with the corrected index test `0 <= idxs[i] < ne[i]`: it fails without changing memory, or writes the value at `data + loc` and changes nothing else, as WriteI32 says. |
| SgptAccess.GetI32_1D | src/sgpt.c:158-160 | `sgpt_get_i32_1d` is `GetI32` with [i0]. |
| SgptAccess.GetI32_2D | src/sgpt.c:162-165 | `sgpt_get_i32_2d` is `GetI32` with [i0, i1]. |
| SgptAccess.GetI32_3D | src/sgpt.c:167-170 | `sgpt_get_i32_3d` is `GetI32` with [i0, i1, i2]. |
| SgptAccess.GetI32_4D | src/sgpt.c:172-175 | `sgpt_get_i32_4d` is `GetI32` with [i0, i1, i2, i3]. |
| SgptAccess.SetI32_1D | src/sgpt.c:187-189 | `sgpt_set_i32_1d` is `SetI32` with [i0]. |
| SgptAccess.SetI32_2D | src/sgpt.c:191-194 | `sgpt_set_i32_2d` is `SetI32` with [i0, i1]. |
| SgptAccess.SetI32_3D | src/sgpt.c:196-199 | `sgpt_set_i32_3d` is `SetI32` with [i0, i1, i2]. |
| SgptAccess.SetI32_4D | src/sgpt.c:201-204 | `sgpt_set_i32_4d` is `SetI32` with [i0, i1, i2, i3]. |
| SgptScenarios.TwoElementLayout | tests/sgpt_test.c:165-188 | A two-element I32 tensor has extents (2, 1, 1, 1), strides (4, 8, 8, 8), and requests 8 bytes + `sizeof(sgpt_tensor)`. |

## Left out

- **Graph ops.** `sgpt_dup`, `sgpt_dup_inplace`, `sgpt_add`, `sgpt_add_inplace`, `sgpt_build_forward` and `sgpt_graph_compute` are only declared (include/sgpt.h:99-105). Their implementation is not part of this model, and neither are the tests that use them (tests/sgpt_test.c:191-271).
- **F32 values.** There are no float accessors. F32 appears only through its element size of 4.
- **Raw pointers and byte layout.**
  - Addresses are plain integers.
  - Header and descriptor bytes are not stored in the modelled element memory.
  - Writing through an out-of-range index therefore cannot corrupt a modelled header. `IndexCheckAdmitsOutOfRange` states where such an index would land.
  - Elements are one cell per address, so unaligned or overlapping word accesses are not modelled.
- **`sizeof` values.** `sizeof(sgpt_object)` and `sizeof(sgpt_tensor)` are the LP64 values 24 and 104. The general lemmas hold for any positive values. The counterexample lemmas, the scenarios' success assertions and the capacity precondition of `CheckView` depend on these numbers.
- **32-bit `int` overflow of `loc`.** This overflow (src/sgpt.c:150, 179) is not modelled: `loc` is an unbounded integer. Negative or huge products are computed exactly instead of being truncated through `int`.
- **`n_objects` overflow.** `n_objects` is a C `int`; the model counts it with an unbounded integer.
- **Calls with more than four extents.** `sgpt_new_tensor_impl` with `n_dims > 4` writes past the descriptor's arrays. The model requires at most four extents, and `DupTensor`/`ViewTensor` require `0 <= n_dims <= 4`.
- **Element initialisation.** `sgpt_dup_tensor` never clears its storage: src/sgpt.c:47-90 writes only the header and the descriptor. Allocation therefore leaves element memory untouched.
- **The static context.** The process-wide static `ctx` (src/sgpt.c:9) is one explicit `Context` object. `sgpt_init` returning its address is not modelled.
- **`examples/main.c`.** It only prints, which is I/O.
- NewTensorOutcome: states the corrected capacity test (exact request at least `sizeof(sgpt_tensor)`, and the sum compared in exact arithmetic), not the `size_t` test of src/sgpt.c:55. The C test admits three kinds of record that the model refuses (Findings). An I32 extent of -32 in a 1024-byte buffer gives a record that ends outside the buffer. So does an F32 extent of -1 in a 124-byte buffer. F32 extents (2^31, 2^31) in a 128-byte buffer give a descriptor-only record whose elements lie past the buffer. The C test itself is `FitsAsWritten`.
- NewTensor: decides with the corrected test `Admits`, not the `size_t` test of src/sgpt.c:55, for the reason above.
- NewTensorImpl (`SgptArena.Context.NewTensorImpl`): makes the test of src/sgpt.c:55 on the exact request and also refuses a request below `sizeof(sgpt_tensor)`, for the reason above. It still stores the `size_t` `size_needed`, which equals the exact request whenever the test passes.
- GetI32: uses the intended index range `0 <= idxs[i] < ne[i]`, not the test `idxs[i] <= ne[i]` of src/sgpt.c:152. It therefore says nothing of the read that C performs for an index equal to the extent or a negative one. For example, a two-element I32 tensor with index 2 reads `data + 8` in C but gives IndexOutOfRange here. `LocateAsWritten` and `IndexCheckAdmitsOutOfRange` model that read's location.
- SetI32: uses the intended index range, not the test of src/sgpt.c:181, for the reason given for GetI32. The write C performs for an index equal to the extent or a negative one is not modelled.
- ReadI32: the specification of GetI32, with the same intended index range.
- WriteI32: the specification of SetI32, with the same intended index range.
- **The test harness.** `tests/sgpt_test.c` is used only as the source of the scenarios. The nested 2-D to 4-D loops of `test_set_i32` are covered by the general `SetThenGet`, not repeated literally.

## Findings

| source | as written | input that shows it | evidently intended | confidence | as-written member | corrected member |
|---|---|---|---|---|---|---|
| src/sgpt.c:152 | `assert(idxs[i] <= tensor->ne[i])` in `sgpt_get_i32`, repeated at line 181 in `sgpt_set_i32`, admits an index equal to the extent and any negative index | 2×2 I32 tensor, indices (2, 0): passes the check and addresses the same word as (0, 1). Two-element I32 tensor, index 2: addresses the first byte after the payload, the next record's header. | `0 <= idxs[i] < ne[i]`, the range under which locations are injective and stay in the payload | not executed | SgptAccess.LocateAsWritten | SgptAccess.Locate |
| src/sgpt.c:55 | `cur_end + sizeof(sgpt_object) + size_needed <= ctx->mem_size` is evaluated in `size_t` and wraps | Empty context of 1024 bytes, I32 tensor with extent -32: `size_needed` wraps to 2^64 - 24, the sum to 0, and the check passes | The check in exact arithmetic, refusing a record that does not fit | not executed | SgptArena.CapacityCheckWraps | SgptArena.NewTensorOutcome |
| src/sgpt.c:51 | `size_needed *= ne[i]` wraps in `size_t` for positive extents whose product is too large, and line 55 then compares only the wrapped request | Empty context of 128 bytes, F32 tensor with extents (2^31, 2^31): 4 * 2^62 wraps to 0, `size_needed` is 104, 24 + 104 <= 128 passes, and the in-range element (1, 0) lies at offset 132, past the buffer | Refuse a request whose exact size does not fit, so that every in-range element of an owned tensor with positive extents lies inside its record | not executed | SgptAccess.ProductWrapsAsWritten | SgptAccess.OwnedAccessStaysInRecord |
| src/sgpt.c:54-55 | `size_needed` can be smaller than `sizeof(sgpt_tensor)` when an extent is negative. Line 55 checks only the total, yet lines 70-80 write a whole descriptor into the record | Empty context of 124 bytes, F32 tensor with extent -1: `size_needed` is 100, 24 + 100 <= 124 passes, and the 104-byte descriptor written at offset 24 ends at 128, past the buffer | Refuse a request below `sizeof(sgpt_tensor)`, so that the descriptor always lies inside the buffer | not executed | SgptArena.DescriptorOverrunAsWritten | SgptArena.NewTensorOutcome |

For the first finding, `IndexCheckAdmitsOutOfRange` exhibits the inputs, and `OffsetInjective`, `SetThenGet` and `WriteStaysInPayload` are proved for the intended range. `GetI32` and `SetI32` use `Locate`. For the other three, `FitsAgreesWithAsWritten` relates the two forms of the comparison. `RequestedSizeAgrees` relates `size_needed` to the exact request. `NewTensor` and the `Context` use the corrected test `Admits`. Under it every descriptor lies inside the buffer (`NewTensorOutcome`). Under it, too, every in-range element of an owned tensor with positive extents lies inside its record (`AdmittedDoesNotWrap`, `OwnedAccessStaysInRecord`).
