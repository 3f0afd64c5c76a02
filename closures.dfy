/** The closure protocol of cps.h: push a frame into a pool, enter it (copy, then free),
    and release it (cps_decref_closure). Handles are struct cps_memory values. */
module Closures {
  import opened Align
  import opened Arena
  import opened Pools
  import opened Frames

  /** A cps_stack whose cells hold frames with cps_memory handles in their headers. */
  type FrameStack<K, P> = Stack<Cell<K, Memory, P>>

  /** The handle's `base` is the `data` field of the stack `s`. */
  predicate BelongsTo<K, P>(mem: Memory, s: FrameStack<K, P>)
  {
    mem.base == BaseFromStack(s.addr)
  }

  /** cps_allocate_memory: allocate `size` bytes aligned to `align` from a stack pool and
      return the handle; a persistent pool fails before anything changes. */
  method AllocateMemory<K, P>(pool: nat, s: FrameStack<K, P>, size: nat, align: nat)
    returns (r: Result<Memory>)
    requires s.Valid() && IsPowerOfTwo(align)
    requires PoolType(pool) == CpsStack ==> PoolAddress(pool) == s.addr
    modifies s
    ensures s.Valid() && (s.data == old(s.data) || fresh(s.data))
    ensures r.Ok? <==> PoolType(pool) == CpsStack
    ensures r.Err? ==> s.sp == old(s.sp) && s.size == old(s.size) && s.data == old(s.data)
    ensures r.Ok? ==>
      && r == MakeMemory(pool, MemoryId(r.value))
      && MemoryId(r.value) == AlignAddress(old(s.sp), align)
      && s.sp == MemoryId(r.value) + size
      && s.data[..old(s.sp)] == old(s.data[..s.sp])
  {
    match PoolType(pool)
    case CpsStack =>
      var id := s.AllocFrameAligned(size, align);
      r := MakeMemory(pool, id);
    case CpsPersistent =>
      r := Err(Unimplemented);
  }

  /** cps_get_closure_frame, dereferenced: the frame cell a handle resolves to, through the
      stack's current buffer. */
  function GetClosureFrame<K, P>(s: FrameStack<K, P>, cl: Memory): Cell<K, Memory, P>
    reads s, s.data
    requires s.Valid() && MemoryId(cl) < s.size
  {
    s.FrameAt(MemoryId(cl))
  }

  /** push_new_NAME_closure: allocate a frame, write the payload, then the header with `fn`
      and the handle just allocated, and return that handle. Nothing below the old `sp`
      changes. */
  method PushNewClosure<K, P>(pool: nat, s: FrameStack<K, P>, fn: K, payload: P,
                              frameSize: nat, frameAlign: nat)
    returns (r: Result<Memory>)
    requires s.Valid() && IsPowerOfTwo(frameAlign) && frameSize >= 1
    requires PoolType(pool) == CpsStack ==> PoolAddress(pool) == s.addr
    modifies s, s.data
    ensures s.Valid() && (s.data == old(s.data) || fresh(s.data))
    ensures r.Ok? <==> PoolType(pool) == CpsStack
    ensures r.Err? ==>
      s.sp == old(s.sp) && s.size == old(s.size) && s.data == old(s.data) && s.data[..] == old(s.data[..])
    ensures r.Ok? ==>
      var id := MemoryId(r.value);
      && r == MakeMemory(pool, id)
      && id == AlignAddress(old(s.sp), frameAlign)
      && s.sp == id + frameSize
      && s.data[id] == Stored(Frame(fn, r.value, payload))
      && s.data[..old(s.sp)] == old(s.data[..s.sp])
  {
    r := AllocateMemory(pool, s, frameSize, frameAlign);
    if r.Ok? {
      // *frame = data; frame->fn = fn; frame->cl = cl;
      s.data[MemoryId(r.value)] := Stored(Frame(fn, r.value, payload));
    }
  }

  /** cps_decref_closure: free a stack frame, which resets `sp` to the frame's offset and so
      discards it and everything above it; a persistent handle fails. */
  method DecrefClosure<K, P>(s: FrameStack<K, P>, cl: Memory) returns (outcome: Outcome)
    requires s.Valid()
    requires MemoryPoolType(cl) == CpsStack ==> BelongsTo(cl, s) && MemoryId(cl) <= s.sp
    modifies s
    ensures s.Valid() && (s.data == old(s.data) || fresh(s.data))
    ensures outcome.Pass? <==> MemoryPoolType(cl) == CpsStack
    ensures outcome.Fail? ==> s.sp == old(s.sp) && s.size == old(s.size) && s.data == old(s.data)
    ensures outcome.Pass? ==> s.sp == MemoryId(cl) && s.data[..s.sp] == old(s.data[..MemoryId(cl)])
  {
    match MemoryPoolType(cl)
    case CpsStack =>
      s.FreeFrame(MemoryId(cl));
      outcome := Pass;
    case CpsPersistent =>
      outcome := Fail(Unimplemented);
  }

  /** cps_enter_closure: copy the frame out of the arena, then free it. Afterwards `sp` is the
      frame's offset and the bytes below it are unchanged. */
  method EnterClosure<K, P>(s: FrameStack<K, P>, cl: Memory) returns (frame: Frame<K, Memory, P>)
    requires s.Valid() && MemoryPoolType(cl) == CpsStack && BelongsTo(cl, s)
    requires MemoryId(cl) < s.sp && s.data[MemoryId(cl)].Stored?
    modifies s
    ensures frame == old(s.data[MemoryId(cl)]).frame
    ensures s.Valid() && s.sp == MemoryId(cl) && (s.data == old(s.data) || fresh(s.data))
    ensures s.data[..s.sp] == old(s.data[..MemoryId(cl)])
  {
    frame := GetClosureFrame(s, cl).frame;
    var outcome := DecrefClosure(s, cl);
  }
}
