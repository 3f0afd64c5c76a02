/** Memory pools and closure handles (struct cps_memory_pool, struct cps_memory).
    Addresses are naturals. The bit operations of the source are written on naturals:
    for an even `p` and a bit `t`, `p | t` is `p + t`; `w & 1` is `w % 2`; `w & ~1` is
    `w - w % 2`; `i << 1` is `2 * i`; `w >> 1` is `w / 2`. */
module Pools {

  /** enum cps_closure_pool_types: CPS_STACK = 0, CPS_PERSISTENT = 1. */
  datatype PoolKind = CpsStack | CpsPersistent

  /** The one failure: an operation on the unimplemented persistent pool (`assert(0)`). */
  datatype Fault = Unimplemented

  datatype Result<T> = Ok(value: T) | Err(fault: Fault)

  datatype Outcome = Pass | Fail(fault: Fault)

  function KindBit(t: PoolKind): nat
  {
    match t
    case CpsStack => 0
    case CpsPersistent => 1
  }

  function KindOfBit(word: nat): (t: PoolKind)
    ensures KindBit(t) == word % 2
  {
    if word % 2 == 0 then CpsStack else CpsPersistent
  }

  // ---- pool references: a tagged word `ptr | type` ----

  /** cps_pool_type: the tag in bit 0. */
  function PoolType(pool: nat): (t: PoolKind)
    ensures KindBit(t) == pool % 2
  {
    KindOfBit(pool)
  }

  /** cps_pool_address: the word with bit 0 cleared. */
  function PoolAddress(pool: nat): (p: nat)
    ensures p % 2 == 0 && p <= pool
  {
    pool - pool % 2
  }

  /** cps_new_memory_pool: tag an even address with a pool type. Both parts decode back. */
  function NewMemoryPool(t: PoolKind, p: nat): (pool: nat)
    requires p % 2 == 0
    ensures PoolType(pool) == t && PoolAddress(pool) == p
  {
    p + KindBit(t)
  }

  /** A pool word is determined by its two parts. */
  lemma PoolWordDecodes(pool: nat)
    ensures NewMemoryPool(PoolType(pool), PoolAddress(pool)) == pool
  {
  }

  // ---- the stack behind a pool ----

  /** offsetof(struct cps_stack, data): `data` follows the two size_t fields. */
  const DATA_OFFSET: nat := 16

  /** cps_stack_from_base: the struct that holds the `data` field at `base`. */
  function StackFromBase(base: nat): nat
    requires base >= DATA_OFFSET
  {
    base - DATA_OFFSET
  }

  /** cps_base_from_stack: the address of the struct's `data` field. */
  function BaseFromStack(stack: nat): (base: nat)
    ensures base >= DATA_OFFSET && StackFromBase(base) == stack
  {
    stack + DATA_OFFSET
  }

  /** The word that tags a stack at `stack` as a CPS_STACK pool. */
  function StackPool(stack: nat): nat
    requires stack % 2 == 0
  {
    NewMemoryPool(CpsStack, stack)
  }

  // ---- handles ----

  /** struct cps_memory: the address of the pool's `data` pointer, and the pool type in bit 0
      of `poolId` with the frame offset in the bits above. */
  datatype Memory = Memory(base: nat, poolId: nat)

  /** cps_memory_pool_type: the tag in bit 0 of `poolId`. */
  function MemoryPoolType(mem: Memory): (t: PoolKind)
    ensures KindBit(t) == mem.poolId % 2
  {
    KindOfBit(mem.poolId)
  }

  /** cps_memory_id: `poolId` without its tag bit. */
  function MemoryId(mem: Memory): (id: nat)
    ensures 2 * id <= mem.poolId < 2 * id + 2
  {
    mem.poolId / 2
  }

  /** cps_memory: the handle of offset `id` in `pool`. A stack handle records the stack's
      `data` field and packs `(id << 1) | type`; both decode back. A persistent pool fails. */
  function MakeMemory(pool: nat, id: nat): (r: Result<Memory>)
    ensures r.Ok? <==> PoolType(pool) == CpsStack
    ensures r.Ok? ==> MemoryId(r.value) == id && MemoryPoolType(r.value) == PoolType(pool)
    ensures r.Ok? ==> r.value.base == BaseFromStack(PoolAddress(pool))
  {
    match PoolType(pool)
    case CpsStack =>
      Ok(Memory(BaseFromStack(PoolAddress(pool)), 2 * id + KindBit(PoolType(pool))))
    case CpsPersistent => Err(Unimplemented)
  }

  /** cps_memory_address: the frame's address, `*base + id`, computed from whatever the
      pool's `data` pointer holds now (`current`), not from where it was when the handle
      was made. */
  function MemoryAddress(mem: Memory, current: nat): nat
  {
    current + MemoryId(mem)
  }

  /** A handle made for offset `id` resolves to offset `id` from any current base. */
  lemma HandleResolvesToOffset(pool: nat, id: nat, current: nat)
    requires PoolType(pool) == CpsStack
    ensures MakeMemory(pool, id).Ok?
    ensures MemoryAddress(MakeMemory(pool, id).value, current) == current + id
  {
  }

  /** The handle's base is the `data` field of an (even) struct address. */
  predicate StackHandle(mem: Memory)
  {
    MemoryPoolType(mem) == CpsStack && mem.base >= DATA_OFFSET && StackFromBase(mem.base) % 2 == 0
  }

  /** cps_memory_pool_from_memory: the pool a handle came from, found from the handle alone. */
  function PoolFromMemory(mem: Memory): (r: Result<nat>)
    requires MemoryPoolType(mem) == CpsStack ==> StackHandle(mem)
    ensures r.Ok? <==> MemoryPoolType(mem) == CpsStack
    ensures r.Ok? ==> PoolType(r.value) == CpsStack && BaseFromStack(PoolAddress(r.value)) == mem.base
  {
    match MemoryPoolType(mem)
    case CpsStack => Ok(NewMemoryPool(MemoryPoolType(mem), StackFromBase(mem.base)))
    case CpsPersistent => Err(Unimplemented)
  }

  /** The pool recovered from a stack handle is the pool it was allocated from. */
  lemma PoolFromMemoryRecoversPool(pool: nat, id: nat)
    requires PoolType(pool) == CpsStack
    ensures MakeMemory(pool, id).Ok? && StackHandle(MakeMemory(pool, id).value)
    ensures PoolFromMemory(MakeMemory(pool, id).value) == Ok(pool)
  {
    PoolWordDecodes(pool);
  }
}
