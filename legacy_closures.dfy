/** The earlier closure protocol of closure.h. A handle is a plain `{pool, id}` pair, frames
    are always pushed onto the stack, and a closure function receives its own frame's
    address (`frame_`, here the frame's offset in the stack) and frees the frame through the
    handle stored in that frame's header. */
module LegacyClosures {
  import opened Align
  import opened Arena
  import opened Pools
  import opened Frames

  /** struct cps_closure: the pool the frame lives in and its offset there. */
  datatype Closure = Closure(pool: PoolKind, id: nat)

  /** A cps_stack whose cells hold frames with struct cps_closure handles in their headers. */
  type ClosureStack<K, P> = Stack<Cell<K, Closure, P>>

  /** cps_decref_closure: a stack frame is freed, which resets `sp` to its offset and so
      discards it and everything above it; a persistent handle fails (`assert(0)`). */
  method DecrefClosure<K, P>(s: ClosureStack<K, P>, cl: Closure) returns (outcome: Outcome)
    requires s.Valid()
    requires cl.pool == CpsStack ==> cl.id <= s.sp
    modifies s
    ensures s.Valid() && (s.data == old(s.data) || fresh(s.data))
    ensures outcome.Pass? <==> cl.pool == CpsStack
    ensures outcome.Fail? ==> s.sp == old(s.sp) && s.size == old(s.size) && s.data == old(s.data)
    ensures outcome.Pass? ==> s.sp == cl.id && s.data[..s.sp] == old(s.data[..cl.id])
  {
    match cl.pool
    case CpsStack =>
      s.FreeFrame(cl.id);
      outcome := Pass;
    case CpsPersistent =>
      outcome := Fail(Unimplemented);
  }

  /** The handle in the header of the frame at `frameOffset`. */
  function HeaderAt<K, P>(s: ClosureStack<K, P>, frameOffset: nat): Closure
    reads s, s.data
    requires s.Valid() && frameOffset < s.size && s.data[frameOffset].Stored?
  {
    s.FrameAt(frameOffset).frame.cl
  }

  /** cps_decref_frame: release the closure named by the frame's own header; the frame's
      address itself is not used to decide what is freed. */
  method DecrefFrame<K, P>(s: ClosureStack<K, P>, frameOffset: nat) returns (outcome: Outcome)
    requires s.Valid() && frameOffset < s.size && s.data[frameOffset].Stored?
    requires HeaderAt(s, frameOffset).pool == CpsStack ==> HeaderAt(s, frameOffset).id <= s.sp
    modifies s
    ensures s.Valid() && (s.data == old(s.data) || fresh(s.data))
    ensures outcome.Pass? <==> old(HeaderAt(s, frameOffset)).pool == CpsStack
    ensures outcome.Fail? ==> s.sp == old(s.sp) && s.size == old(s.size) && s.data == old(s.data)
    ensures outcome.Pass? ==>
      var id := old(HeaderAt(s, frameOffset)).id;
      s.sp == id && s.data[..id] == old(s.data[..id])
  {
    outcome := DecrefClosure(s, HeaderAt(s, frameOffset));
  }

  /** alloc_new_NAME_closure: allocate a frame on the stack, write the payload, then the
      header with `fn` and the handle `{CPS_STACK, offset}`, and return that same handle.
      Nothing below the old `sp` changes. */
  method AllocNewClosure<K, P>(s: ClosureStack<K, P>, fn: K, payload: P,
                               frameSize: nat, frameAlign: nat)
    returns (cl: Closure)
    requires s.Valid() && IsPowerOfTwo(frameAlign) && frameSize >= 1
    modifies s, s.data
    ensures s.Valid() && (s.data == old(s.data) || fresh(s.data))
    ensures cl == Closure(CpsStack, AlignAddress(old(s.sp), frameAlign))
    ensures s.sp == cl.id + frameSize
    ensures s.data[cl.id] == Stored(Frame(fn, cl, payload))
    ensures s.data[..old(s.sp)] == old(s.data[..s.sp])
  {
    var id := s.AllocFrameAligned(frameSize, frameAlign);
    cl := Closure(CpsStack, id);
    s.data[id] := Stored(Frame(fn, cl, payload));
  }

  /** cps_closure_frame(POOL, CL), dereferenced: the frame a handle names, at `data + id`
      of the stack's current buffer. */
  function ClosureFrame<K, P>(s: ClosureStack<K, P>, cl: Closure): Cell<K, Closure, P>
    reads s, s.data
    requires s.Valid() && cl.id < s.size
  {
    s.FrameAt(cl.id)
  }

  /** cps_enter_closure: copy the frame at `frame_` out of the arena, then release it through
      the handle in its own header (which can name any offset, not only `frame_`). */
  method EnterClosure<K, P>(s: ClosureStack<K, P>, frameOffset: nat)
    returns (frame: Frame<K, Closure, P>, outcome: Outcome)
    requires s.Valid() && frameOffset < s.size && s.data[frameOffset].Stored?
    requires HeaderAt(s, frameOffset).pool == CpsStack ==> HeaderAt(s, frameOffset).id <= s.sp
    modifies s
    ensures frame == old(s.data[frameOffset]).frame
    ensures s.Valid() && (s.data == old(s.data) || fresh(s.data))
    ensures outcome.Pass? <==> frame.cl.pool == CpsStack
    ensures outcome.Fail? ==> s.sp == old(s.sp) && s.size == old(s.size) && s.data == old(s.data)
    ensures outcome.Pass? ==> s.sp == frame.cl.id && s.data[..s.sp] == old(s.data[..frame.cl.id])
  {
    frame := s.FrameAt(frameOffset).frame;
    outcome := DecrefFrame(s, frameOffset);
  }
}
