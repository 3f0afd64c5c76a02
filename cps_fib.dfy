/** examples/fib/main.c: Fibonacci in continuation-passing style over the cps.h closures.
    Every closure call is a plain (mutually) recursive method call; the frames live in the
    arena and are reached only through their handles. */
module CpsFib {
  import opened Align
  import opened Arena
  import opened Pools
  import opened Frames
  import opened Closures
  import opened FibSpec

  type FibStack = FrameStack<Fn, FibData<Memory>>

  /** The handle that cps_memory makes for offset `offset` of the stack at `addr`. */
  function HandleAt(addr: nat): nat -> Memory
  {
    (offset: nat) => Memory(BaseFromStack(addr), 2 * offset)
  }

  /** The handle cps_memory makes for offset `id` of the stack pool at `addr` is HandleAt(addr)(id). */
  lemma StackHandleAt(addr: nat, id: nat)
    requires addr % 2 == 0
    ensures MakeMemory(StackPool(addr), id) == Ok(HandleAt(addr)(id))
  {
  }

  /** The arena holds the live frames `F`, stacked and linked (ghost: the proof's view of the arena). */
  ghost predicate Chain(s: FibStack, F: seq<Live>)
    reads s, s.data
  {
    s.Valid() && s.addr % 2 == 0 && ChainIn(s.data[..], s.sp, F, HandleAt(s.addr))
  }

  /** fib_cps: for n <= 1 call the continuation `k` with n; otherwise push fib1{n, k} and
      recurse on n - 1 with that closure as the continuation. The result is the Fibonacci
      number the frames below are waiting for, and every live frame has been freed. */
  method FibCps(pool: nat, s: FibStack, n: int, k: Memory, ghost F: seq<Live>) returns (r: int)
    requires Chain(s, F) && Expects(F, n)
    requires pool == StackPool(s.addr) && k == HandleAt(s.addr)(Top(F).offset)
    modifies s, s.data
    decreases Budget(F, n), 2
    ensures s.Valid() && s.sp == F[0].offset
    ensures s.data == old(s.data) || fresh(s.data)
    ensures r == Answer(F, n)
  {
    if n <= 1 {
      r := CallClosure(s, k, n, F, n);
    } else {
      ghost var d0, sp0 := s.data[..], s.sp;
      var pushed := PushNewClosure(pool, s, Fib1, Fib1Data(n, k), FIB_FRAME_SIZE, FRAME_ALIGN);
      var k1 := pushed.value;
      ghost var G := F + [Live(MemoryId(k1), Fib1Shape(n))];
      StackHandleAt(s.addr, MemoryId(k1));
      PushFib1(F, n, G, MemoryId(k1));
      ChainPush(d0, sp0, F, HandleAt(s.addr), s.data[..], s.sp, MemoryId(k1), Fib1Shape(n));
      r := FibCps(pool, s, n - 1, k1, G);
    }
  }

  /** cps_call_closure(fib, k, x): read the dispatch function from the frame's header,
      through the stack's current buffer, and call it. */
  method CallClosure(s: FibStack, k: Memory, x: int, ghost F: seq<Live>, ghost m: int)
    returns (r: int)
    requires Chain(s, F) && Expects(F, m) && x == TestFib(m)
    requires k == HandleAt(s.addr)(Top(F).offset)
    modifies s, s.data
    decreases Pending(F), 1
    ensures s.Valid() && s.sp == F[0].offset
    ensures s.data == old(s.data) || fresh(s.data)
    ensures r == Answer(F, m)
  {
    assert s.data[..][Top(F).offset] == Stored(FrameFor(F, |F| - 1, HandleAt(s.addr)));
    var cell := GetClosureFrame(s, k);
    match cell.frame.fn
    case Ret => r := RetClosure(s, k, x, F, m);
    case Fib1 => r := Fib1Closure(s, k, x, F, m);
    case Fib2 => r := Fib2Closure(s, k, x, F, m);
  }

  /** ret: free its own frame and return its argument. */
  method RetClosure(s: FibStack, cl: Memory, n: int, ghost F: seq<Live>, ghost m: int)
    returns (r: int)
    requires Chain(s, F) && Expects(F, m) && n == TestFib(m)
    requires cl == HandleAt(s.addr)(Top(F).offset) && Top(F).shape.RetShape?
    modifies s
    decreases Pending(F), 0
    ensures s.Valid() && s.sp == F[0].offset
    ensures s.data == old(s.data) || fresh(s.data)
    ensures r == Answer(F, m)
  {
    PopRet(F, m);
    var outcome := DecrefClosure(s, cl);
    r := n;
  }

  /** fib1: enter its frame (copy, free), push fib2{f1, k} into the pool its own handle came
      from, and compute fib(n - 2) into it. */
  method Fib1Closure(s: FibStack, cl: Memory, f1: int, ghost F: seq<Live>, ghost m: int)
    returns (r: int)
    requires Chain(s, F) && Expects(F, m) && f1 == TestFib(m)
    requires cl == HandleAt(s.addr)(Top(F).offset) && Top(F).shape.Fib1Shape?
    modifies s, s.data
    decreases Pending(F), 0
    ensures s.Valid() && s.sp == F[0].offset
    ensures s.data == old(s.data) || fresh(s.data)
    ensures r == Answer(F, m)
  {
    ghost var h := HandleAt(s.addr);
    ghost var d0, sp0 := s.data[..], s.sp;
    assert d0[Top(F).offset] == Stored(FrameFor(F, |F| - 1, h));
    var frame := EnterClosure(s, cl);
    assert frame == FrameFor(F, |F| - 1, h);
    ChainPop(d0, sp0, F, h, s.data[..], s.sp);
    PoolFromMemoryRecoversPool(StackPool(s.addr), Top(F).offset);
    // cps_memory_pool_from_memory(cl_), used both for the push and for the recursion
    var pool := PoolFromMemory(cl).value;
    ghost var d1, sp1 := s.data[..], s.sp;
    var pushed := PushNewClosure(pool, s, Fib2, Fib2Data(f1, frame.payload.k), FIB_FRAME_SIZE, FRAME_ALIGN);
    var k2 := pushed.value;
    ghost var G := Below(F) + [Live(MemoryId(k2), Fib2Shape(f1))];
    StackHandleAt(s.addr, MemoryId(k2));
    PushFib2(F, m, frame.payload.n, f1, G, MemoryId(k2));
    ChainPush(d1, sp1, Below(F), h, s.data[..], s.sp, MemoryId(k2), Fib2Shape(f1));
    r := FibCps(pool, s, frame.payload.n - 2, k2, G);
  }

  /** fib2: enter its frame (copy, free) and call its continuation with f2 + f1. */
  method Fib2Closure(s: FibStack, cl: Memory, f2: int, ghost F: seq<Live>, ghost m: int)
    returns (r: int)
    requires Chain(s, F) && Expects(F, m) && f2 == TestFib(m)
    requires cl == HandleAt(s.addr)(Top(F).offset) && Top(F).shape.Fib2Shape?
    modifies s, s.data
    decreases Pending(F), 0
    ensures s.Valid() && s.sp == F[0].offset
    ensures s.data == old(s.data) || fresh(s.data)
    ensures r == Answer(F, m)
  {
    ghost var h := HandleAt(s.addr);
    ghost var d0, sp0 := s.data[..], s.sp;
    assert d0[Top(F).offset] == Stored(FrameFor(F, |F| - 1, h));
    var frame := EnterClosure(s, cl);
    assert frame == FrameFor(F, |F| - 1, h);
    ChainPop(d0, sp0, F, h, s.data[..], s.sp);
    PopFib2(F, m, frame.payload.f1);
    r := CallClosure(s, frame.payload.k, f2 + frame.payload.f1, Below(F), m + 2);
  }

  /** fib: set up a stack at `stackAddr` (the address of fib's local struct), push `ret`,
      run fib_cps, check that every frame was freed (`assert(stack.sp == 0)`), free the
      stack. The result is test_fib(n). */
  method Fib(n: int, stackAddr: nat) returns (res: int)
    requires stackAddr % 2 == 0
    ensures res == TestFib(n)
  {
    var stack := new Stack<Cell<Fn, Memory, FibData<Memory>>>.Init(stackAddr);
    var pool := NewMemoryPool(CpsStack, stack.addr);
    ghost var d0 := stack.data[..];
    var pushed := PushNewClosure(pool, stack, Ret, RetData, RET_FRAME_SIZE, FRAME_ALIGN);
    var k := pushed.value;
    ghost var F := [Live(MemoryId(k), RetShape)];
    assert F == [] + F;
    ChainPush(d0, 0, [], HandleAt(stack.addr), stack.data[..], stack.sp, MemoryId(k), RetShape);
    res := FibCps(pool, stack, n, k, F);
    assert stack.sp == 0; // every frame was freed
    stack.FreeStack();
  }
}
