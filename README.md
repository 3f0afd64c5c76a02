# A verified model of the cps arena and closure protocol

The `cps` library supports continuation-passing style in C. Continuation frames live in a bump-allocated arena (`struct cps_stack`). The
arena grows by doubling, shrinks by halving, and never goes below 512 bytes. Frames are
reached through handles that name a pool and an offset, and never through raw pointers, so
a frame stays reachable when `realloc` moves the buffer. A closure is a frame whose header
holds a dispatch function and the closure's own handle. Pushing a closure allocates and
writes a frame. Entering one copies the frame out and frees it. Calling one reads the
dispatch function from the header and jumps to it.

Two example programs compute Fibonacci numbers in this style. `examples/fib/main.c` uses
the current protocol (`src/cps.h`). `examples/fib/closure.c` uses an earlier one
(`src/closure.h`). Both push a `ret` frame, then `fib1{n, k}` and `fib2{f1, k}` frames.
Both check at the end that every frame has been freed.

The Dafny model has these modules:

- `Align` (`align.dfy`): `cps_align_address`. The mask `(addr + m) & ~m` is written on
  naturals: clearing the low bits of a power of two is repeated halving and doubling.
- `Arena` (`arena.dfy`): `struct cps_stack` as a class with `size`, `sp` and a `data`
  array, plus its operations from `src/stack.c` and `src/cps.h`. `Valid()` is the
  invariant `data.Length == size`, `sp <= size`, `512 <= size`. `realloc` is a fresh array
  that keeps the first `min(old size, new size)` cells.
- `Pools` (`pools.dfy`): the tagged pool word `ptr | type` and the handle
  `struct cps_memory`. The handle is `{base, (id << 1) | type}` with `base` the address of
  the stack's `data` field. Bit operations are written on naturals.
- `Frames` (`frames.dfy`): a frame is a header `{fn, cl}` and a payload. Each arena cell
  holds either a whole frame stored at that offset, or `Raw`.
- `Closures` (`closures.dfy`): the closure protocol of `src/cps.h`. Pushing writes the
  frame and the header. Entering copies and frees. Decref frees. Handles are resolved
  against the stack's current buffer.
- `FibSpec` (`fib_spec.dfy`): the reference `test_fib`, the closure kinds and their frames.
  It also holds the proof's view of the arena: a ghost list of live frames (`Live`), and
  `ChainIn`, which says that the buffer holds those frames at their offsets, stacked below
  `sp`, each linked to the one below. Other cells below `sp` (alignment padding, the cells a
  frame covers, frames already freed) are left unconstrained. `Expects` and `Answer` say what calling the top frame with fib(m) finally returns.
- `CpsFib` (`cps_fib.dfy`): `examples/fib/main.c`. Each closure call is a mutually
  recursive method call. Each is proved to return `Answer(F, m)` and to leave `sp` at the
  offset of the bottom frame. `Fib` is proved to return `TestFib(n)` with the arena drained
  (`sp == 0`).
- `LegacyClosures` and `LegacyFib` (`legacy_closures.dfy`, `legacy_fib.dfy`): the same for
  `src/closure.h` and `examples/fib/closure.c`. There a handle is `{pool, id}`, and each
  closure function receives its own frame's address, modelled as its offset.

The arena functions of `src/closure.h` (lines 16-77) are the same code as those of
`src/cps.h` and `src/stack.c`. They are modelled once, by `Arena`: `AllocFrameAligned` is also
src/closure.h:45-59 and `FreeFrame` is also src/closure.h:64-72.

The lemmas `Align.DivModUnique`, `Align.MultiplesInWindow` and `Align.DoubleMultiple` are
facts of Euclidean arithmetic that the alignment proofs use; they model no source code.

`FibSpec` defines each chain measure once, recursively (`Awaits`, `Owed`, `PendingCalls`),
and gives the method contracts non-recursive names for them (`Expects`, `Answer`,
`Pending`, `Budget`), so that the verifier uses the lemmas' statements about a chain as
stated instead of unfolding the recursion.

Termination of the closure recursion uses a measure: `Budget(F, n)` for `fib_cps` and
`Pending(F)` for a closure call. It bounds the calls still to be made. Ranks order the
methods that share one measure value.

## Model

| member | source | states |
|---|---|---|
| Align.AlignAddress | src/cps.h:23-38 | for a power-of-two `align`, the result is a multiple of `align` in `[addr, addr + align)`; an aligned `addr` is returned unchanged |
| Align.AlignAddressIsLeast | src/closure.h:28-43 | the aligned address is the least multiple of `align` at or above `addr` |
| Align.ClearLowBitsRoundsDown | src/cps.h:36-37 | `x & ~(align - 1)` rounds `x` down to a multiple of `align`, by less than `align` |
| Arena.Stack.Init | src/stack.c:5-10 | a fresh stack has `sp == 0`, `size == 512` and a 512-cell buffer, and satisfies the invariant |
| Arena.Stack.Resize | src/stack.c:12-20 | `size` becomes `max(newSize, 512)`; `sp` is unchanged; the new buffer is fresh and keeps the first `min(old size, new size)` cells |
| Arena.Stack.AllocFrameAligned | src/cps.h:40-54 | the frame offset is the aligned old `sp`, so it is a multiple of `frameAlign` at or above the old `sp`; `sp` becomes offset + size; the buffer grows to `max(2 * (offset + size), 512)` exactly when the frame does not fit, and otherwise is untouched; cells below the old `sp` are kept; the invariant is preserved |
| Arena.Stack.FreeFrame | src/cps.h:56-64 | for `fp <= sp`, `sp` becomes `fp`; the buffer halves (not below 512) exactly when `fp < size / 4`; cells below `fp` are kept; the invariant is preserved |
| Arena.Stack.FreeStack | src/stack.c:22-26 | the buffer is released (`data` is null); `size` and `sp` are unchanged; it needs no valid buffer, as `free(NULL)` does nothing |
| Pools.KindOfBit | src/cps.h:87-90 | the pool kind decoded from a word is the one whose tag is bit 0 of the word |
| Pools.PoolType | src/cps.h:87-90 | the kind read from a pool word is the one whose tag is `pool & 1` |
| Pools.PoolAddress | src/cps.h:92-95 | clearing bit 0 gives an even address at or below the word |
| Pools.NewMemoryPool | src/cps.h:97-100 | tagging an even address with a kind decodes back to that kind and that address |
| Pools.PoolWordDecodes | src/cps.h:87-100 | a pool word is rebuilt from its decoded kind and address |
| Pools.StackFromBase | src/cps.h:107-111 | definition: the struct address is `base - 16`, the `data` field's offset subtracted; `Pools.BaseFromStack` proves it undoes `cps_base_from_stack` |
| Pools.BaseFromStack | src/cps.h:102-111 | `cps_stack_from_base(cps_base_from_stack(s)) == s` |
| Pools.MakeMemory | src/cps.h:125-136 | succeeds exactly for a stack pool; the handle's id decodes to `id`, its type to the pool's type, and its base is the `data` field of the pool's stack; a persistent pool fails |
| Pools.MemoryPoolType | src/cps.h:149-152 | the kind read from a handle is the one whose tag is `pool_id & 1` |
| Pools.MemoryId | src/cps.h:154-157 | the id is `pool_id >> 1`: `2 * id <= pool_id < 2 * id + 2` |
| Pools.HandleResolvesToOffset | src/cps.h:159-162 | `cps_memory_address` (`Pools.MemoryAddress`, `*base + id`) resolves a handle made by `cps_memory` for offset `id` to `current + id`, whatever buffer address is current when it is used, so a handle survives `realloc` moving the buffer |
| Pools.PoolFromMemory | src/cps.h:164-172 | succeeds exactly for a stack handle, and gives a stack pool whose `data` field is the handle's base |
| Pools.PoolFromMemoryRecoversPool | src/cps.h:164-172 | the pool recovered from a stack handle is the pool the handle was made from |
| Closures.AllocateMemory | src/cps.h:138-147 | succeeds exactly for a stack pool, with the handle of the aligned old `sp`; `sp` becomes that offset plus `size`; cells below the old `sp` are kept; a persistent pool fails and changes nothing |
| Closures.PushNewClosure | src/cps.h:222-234 | on a stack pool, the returned handle names the aligned old `sp`, and the cell there holds `fn`, that same handle and the payload; cells below the old `sp` are kept; a persistent pool fails and changes nothing |
| Closures.DecrefClosure | src/cps.h:186-197 | a stack handle frees its frame: `sp` becomes its id and the cells below are kept; a persistent handle fails and changes nothing |
| Closures.EnterClosure | src/cps.h:206-208 | the frame returned is the one stored at the handle's offset before the call; afterwards `sp` is that offset and the cells below it are kept |
| LegacyClosures.DecrefClosure | src/closure.h:92-103 | a `CPS_STACK` handle frees at `cl.id`, keeping the cells below; a `CPS_PERSISTENT` handle fails and changes nothing |
| LegacyClosures.HeaderAt | src/closure.h:112-113 | definition: the handle `cl` in the header of the frame stored at `frame_`, which `cps_decref_frame` passes to `cps_decref_closure` |
| LegacyClosures.DecrefFrame | src/closure.h:112-113 | frees through the handle in the frame's own header, not the frame's address |
| LegacyClosures.AllocNewClosure | src/closure.h:131-141 | returns `{CPS_STACK, aligned old sp}`, and stores `fn`, that same handle and the payload at that offset; cells below the old `sp` are kept |
| LegacyClosures.EnterClosure | src/closure.h:115-117 | returns the frame stored at `frame_`, then frees at the handle in that frame's header: `sp` becomes the header's id |
| FibSpec.TestFib | examples/fib/main.c:66-71 | definition: `test_fib`, `n` for `n <= 1` and otherwise the sum of the two previous values; the reference that `CpsFib.Fib` and `LegacyFib.Fib` are proved equal to |
| FibSpec.StackedBounds | examples/fib/main.c:24-48 | every live frame of a stacked chain ends at or below `sp` |
| FibSpec.ChainPush | examples/fib/main.c:30-34 | a frame pushed at or above `sp`, with the cells below `sp` kept, becomes the new top of the chain |
| FibSpec.ChainPop | examples/fib/main.c:37-48 | freeing the top frame, with the cells below it kept, leaves exactly the frames beneath it |
| FibSpec.PushFib1 | examples/fib/main.c:30-34 | pushing `fib1{n}` for `n >= 2` gives a chain that waits for fib(n - 1) and owes the same answer; the measure drops |
| FibSpec.PushFib2 | examples/fib/main.c:37-42 | `fib1{n}` called with fib(n - 1) and replaced by `fib2{f1}` gives a chain that waits for fib(n - 2) and owes the same answer; the measure drops |
| FibSpec.PopFib2 | examples/fib/main.c:44-48 | `fib2{f1}` called with fib(m) passes `f2 + f1 = fib(m + 2)` to the frame below, which owes the same answer |
| FibSpec.PopRet | examples/fib/main.c:10-15 | `ret` is the only frame left, and its answer is the value it is called with |
| CpsFib.StackHandleAt | src/cps.h:125-136 | the handle of offset `id` in the stack pool at `addr` is `{addr + 16, 2 * id}` |
| CpsFib.FibCps | examples/fib/main.c:24-35 | from a chain waiting for fib(n), returns the chain's answer and frees every frame of it |
| CpsFib.CallClosure | src/cps.h:241-242 | dispatches on the `fn` in the header of the frame the handle resolves to, and returns the chain's answer with every frame freed |
| CpsFib.RetClosure | examples/fib/main.c:10-15 | frees its frame and returns its argument, which is the answer |
| CpsFib.Fib1Closure | examples/fib/main.c:37-42 | enters, pushes `fib2{f1, k}` into the pool recovered from its own handle, and runs `fib_cps(n - 2)`; returns the answer with every frame freed |
| CpsFib.Fib2Closure | examples/fib/main.c:44-48 | enters and calls `k` with `f2 + f1`; returns the answer with every frame freed |
| CpsFib.Fib | examples/fib/main.c:50-64 | the result is `test_fib(n)`; after `fib_cps` returns, `stack.sp == 0` |
| LegacyFib.FibCps | examples/fib/closure.c:26-37 | from a chain waiting for fib(n), returns the chain's answer and frees every frame of it |
| LegacyFib.CallClosure | src/closure.h:146-153 | reads `fn` from the frame at `data + k.id` of the current buffer and passes that frame's offset on; returns the answer with every frame freed |
| LegacyFib.RetClosure | examples/fib/closure.c:15-19 | frees its frame through the header and returns its argument, which is the answer |
| LegacyFib.Fib1Closure | examples/fib/closure.c:39-44 | enters, pushes `fib2{f1, k}` and runs `fib_cps(n - 2)`; returns the answer with every frame freed |
| LegacyFib.Fib2Closure | examples/fib/closure.c:46-50 | enters and calls `k` with `f2 + f1`; returns the answer with every frame freed |
| LegacyFib.Fib | examples/fib/closure.c:52-64 | the result is `test_fib(n)`; after `fib_cps` returns, `stack.sp == 0` |

## Left out

- Memory exhaustion: `malloc` and `realloc` always succeed here. The source does not check
  for failure either.
- Byte layout: a frame is stored whole in the cell at its offset, and the other cells it
  covers are not modelled byte by byte. Frame sizes and alignments are those of an LP64
  target: 24 bytes for `ret`, 48 for `fib1` and `fib2`, alignment 8.
- Pointers are naturals. The address of a `struct cps_stack` is a parameter of
  `Arena.Stack.Init`. The `data` field is 16 bytes into the struct. The tagged-pointer trick
  relies on that address being even.
- `size_t` wrap-around: `addr + align - 1`, `id << 1` and `2 * (sp + frame_size)` are
  unbounded naturals, not values modulo 2^64.
- `int` overflow of the Fibonacci values (from n = 47 on): results are unbounded integers.
- Function-pointer casts are a datatype of closure kinds (`Ret`, `Fib1`, `Fib2`) and a
  `match`.
- The `CPS_PERSISTENT` pool is unimplemented in the source (`assert(0)`). Here it is an
  `Err`/`Fail` result that changes nothing.
- Closures.EnterClosure: requires a stack handle into the same stack, because the frame is
  read through the stack that the handle's base names.
- The closure functions of `examples/fib/main.c` likewise take stack handles and the stack
  they name.
- In `examples/fib/closure.c`, `frame_` is a pointer into the buffer. It is modelled as the frame's offset, which is what the pointer stands
  for while the buffer does not move between the call and the closure's first action.
- `cps_get_stack_frame`, `cps_get_closure_frame` and `cps_closure_frame` return pointers.
  They are modelled as reads of the cell they point to (`Arena.Stack.FrameAt`,
  `Closures.GetClosureFrame`, `LegacyClosures.ClosureFrame`).
- The `printf` loop in `main` (examples/fib/main.c:73-83) is I/O. Its check
  `fib(i) == test_fib(i)` for i < 15 is covered by `CpsFib.Fib`, which holds for every n.
- Macro plumbing (`cps_args`, `cps_define_closure_type`, `cps_closure_function`) has no
  behaviour of its own.
