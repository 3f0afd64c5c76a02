/** examples/fib/closure.c: the same Fibonacci program over the closure.h protocol. Each
    closure function receives its frame's offset (`frame_`); `fib_cps` and the closures
    share one stack (`pool_`). */
module LegacyFib {
  import opened Arena
  import opened Pools
  import opened Frames
  import opened LegacyClosures
  import opened FibSpec

  type FibStack = ClosureStack<Fn, FibData<Closure>>

  /** The handle alloc_new_NAME_closure makes for a frame at `offset`. */
  function StackClosure(offset: nat): Closure
  {
    Closure(CpsStack, offset)
  }

  /** The arena holds the live frames `F`, stacked and linked. */
  ghost predicate Chain(s: FibStack, F: seq<Live>)
    reads s, s.data
  {
    s.Valid() && ChainIn(s.data[..], s.sp, F, StackClosure)
  }

  /** fib_cps: for n <= 1 call the continuation `k` with n; otherwise push fib1{n, k} and
      recurse on n - 1 with that closure as the continuation. */
  method FibCps(s: FibStack, n: int, k: Closure, ghost F: seq<Live>) returns (r: int)
    requires Chain(s, F) && Expects(F, n) && k == StackClosure(Top(F).offset)
    modifies s, s.data
    decreases Budget(F, n), 2
    ensures s.Valid() && s.sp == F[0].offset
    ensures s.data == old(s.data) || fresh(s.data)
    ensures r == Answer(F, n)
  {
    if n <= 1 {
      r := CallClosure(s, k, n, F, n);
    } else {
      ghost var d0, sp0 := s.data[..], s.sp;
      var k1 := AllocNewClosure(s, Fib1, Fib1Data(n, k), FIB_FRAME_SIZE, FRAME_ALIGN);
      ghost var G := F + [Live(k1.id, Fib1Shape(n))];
      PushFib1(F, n, G, k1.id);
      ChainPush(d0, sp0, F, StackClosure, s.data[..], s.sp, k1.id, Fib1Shape(n));
      r := FibCps(s, n - 1, k1, G);
    }
  }

  /** cps_call_closure(fib, k, x): read `fn` from the header at `data + k.id` of the current
      buffer and call it with that frame's offset. */
  method CallClosure(s: FibStack, k: Closure, x: int, ghost F: seq<Live>, ghost m: int)
    returns (r: int)
    requires Chain(s, F) && Expects(F, m) && x == TestFib(m)
    requires k == StackClosure(Top(F).offset)
    modifies s, s.data
    decreases Pending(F), 1
    ensures s.Valid() && s.sp == F[0].offset
    ensures s.data == old(s.data) || fresh(s.data)
    ensures r == Answer(F, m)
  {
    assert s.data[..][Top(F).offset] == Stored(FrameFor(F, |F| - 1, StackClosure));
    var cell := ClosureFrame(s, k);
    match cell.frame.fn
    case Ret => r := RetClosure(s, k.id, x, F, m);
    case Fib1 => r := Fib1Closure(s, k.id, x, F, m);
    case Fib2 => r := Fib2Closure(s, k.id, x, F, m);
  }

  /** ret: release its frame through the frame's header and return its argument. */
  method RetClosure(s: FibStack, frame_: nat, n: int, ghost F: seq<Live>, ghost m: int)
    returns (r: int)
    requires Chain(s, F) && Expects(F, m) && n == TestFib(m)
    requires frame_ == Top(F).offset && Top(F).shape.RetShape?
    modifies s
    decreases Pending(F), 0
    ensures s.Valid() && s.sp == F[0].offset
    ensures s.data == old(s.data) || fresh(s.data)
    ensures r == Answer(F, m)
  {
    assert s.data[..][frame_] == Stored(FrameFor(F, |F| - 1, StackClosure));
    PopRet(F, m);
    var outcome := DecrefFrame(s, frame_);
    r := n;
  }

  /** fib1: enter its frame (copy, free), push fib2{f1, k} and compute fib(n - 2) into it. */
  method Fib1Closure(s: FibStack, frame_: nat, f1: int, ghost F: seq<Live>, ghost m: int)
    returns (r: int)
    requires Chain(s, F) && Expects(F, m) && f1 == TestFib(m)
    requires frame_ == Top(F).offset && Top(F).shape.Fib1Shape?
    modifies s, s.data
    decreases Pending(F), 0
    ensures s.Valid() && s.sp == F[0].offset
    ensures s.data == old(s.data) || fresh(s.data)
    ensures r == Answer(F, m)
  {
    ghost var d0, sp0 := s.data[..], s.sp;
    assert d0[frame_] == Stored(FrameFor(F, |F| - 1, StackClosure));
    var frame, outcome := EnterClosure(s, frame_);
    assert frame == FrameFor(F, |F| - 1, StackClosure) && s.sp == frame_;
    ChainPop(d0, sp0, F, StackClosure, s.data[..], s.sp);
    ghost var d1, sp1 := s.data[..], s.sp;
    var k2 := AllocNewClosure(s, Fib2, Fib2Data(f1, frame.payload.k), FIB_FRAME_SIZE, FRAME_ALIGN);
    ghost var G := Below(F) + [Live(k2.id, Fib2Shape(f1))];
    PushFib2(F, m, frame.payload.n, f1, G, k2.id);
    ChainPush(d1, sp1, Below(F), StackClosure, s.data[..], s.sp, k2.id, Fib2Shape(f1));
    r := FibCps(s, frame.payload.n - 2, k2, G);
  }

  /** fib2: enter its frame (copy, free) and call its continuation with f2 + f1. */
  method Fib2Closure(s: FibStack, frame_: nat, f2: int, ghost F: seq<Live>, ghost m: int)
    returns (r: int)
    requires Chain(s, F) && Expects(F, m) && f2 == TestFib(m)
    requires frame_ == Top(F).offset && Top(F).shape.Fib2Shape?
    modifies s, s.data
    decreases Pending(F), 0
    ensures s.Valid() && s.sp == F[0].offset
    ensures s.data == old(s.data) || fresh(s.data)
    ensures r == Answer(F, m)
  {
    ghost var d0, sp0 := s.data[..], s.sp;
    assert d0[frame_] == Stored(FrameFor(F, |F| - 1, StackClosure));
    var frame, outcome := EnterClosure(s, frame_);
    assert frame == FrameFor(F, |F| - 1, StackClosure);
    ChainPop(d0, sp0, F, StackClosure, s.data[..], s.sp);
    PopFib2(F, m, frame.payload.f1);
    r := CallClosure(s, frame.payload.k, f2 + frame.payload.f1, Below(F), m + 2);
  }

  /** fib: set up a stack, push `ret` onto it, run fib_cps, check that every frame was freed
      (`assert(stack.sp == 0)`) and free the stack. The result is test_fib(n). */
  method Fib(n: int) returns (res: int)
    ensures res == TestFib(n)
  {
    var stack := new Stack<Cell<Fn, Closure, FibData<Closure>>>.Init(0);
    ghost var d0 := stack.data[..];
    var k := AllocNewClosure(stack, Ret, RetData, RET_FRAME_SIZE, FRAME_ALIGN);
    ghost var F := [Live(k.id, RetShape)];
    assert F == [] + F;
    ChainPush(d0, 0, [], StackClosure, stack.data[..], stack.sp, k.id, RetShape);
    res := FibCps(stack, n, k, F);
    assert stack.sp == 0; // every frame was freed
    stack.FreeStack();
  }
}
