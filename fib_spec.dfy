/** The Fibonacci example's closure family and what a stack of its frames means.
    Shared by both example programs (main.c over cps.h, closure.c over closure.h), which
    differ only in the handle type `H` stored in the frames. */
module FibSpec {
  import opened Frames

  /** test_fib: the recursive reference definition. */
  function TestFib(n: int): int
  {
    if n <= 1 then n else TestFib(n - 1) + TestFib(n - 2)
  }

  /** The closure functions of the `fib` closure type; all three take an int and return one. */
  datatype Fn = Ret | Fib1 | Fib2

  /** The captured fields: `ret` has none, `fib1` holds `n` and `k`, `fib2` holds `f1` and `k`,
      where `k` is the continuation's handle. */
  datatype FibData<H> = RetData | Fib1Data(n: int, k: H) | Fib2Data(f1: int, k: H)

  type FibCell<H> = Cell<Fn, H, FibData<H>>

  /** sizeof and alignof of struct ret_frame, fib1_frame and fib2_frame on an LP64 target. */
  const RET_FRAME_SIZE: nat := 24
  const FIB_FRAME_SIZE: nat := 48
  const FRAME_ALIGN: nat := 8

  /** A live frame as the proof sees it: its offset, its kind and its int field. Its
      continuation is not recorded: it is always the frame just below it. */
  datatype Shape = RetShape | Fib1Shape(n: int) | Fib2Shape(f1: int)
  datatype Live = Live(offset: nat, shape: Shape)

  function FnOf(shape: Shape): Fn
  {
    match shape
    case RetShape => Ret
    case Fib1Shape(_) => Fib1
    case Fib2Shape(_) => Fib2
  }

  function SizeOf(shape: Shape): nat
  {
    if shape.RetShape? then RET_FRAME_SIZE else FIB_FRAME_SIZE
  }

  function Top(F: seq<Live>): Live
    requires |F| > 0
  {
    F[|F| - 1]
  }

  function Below(F: seq<Live>): (B: seq<Live>)
    requires |F| > 0
    ensures |B| == |F| - 1
  {
    F[..|F| - 1]
  }

  /** Calling the top frame of `F` with TestFib(m) runs to completion: `ret` sits alone at
      the bottom; a `fib1{n}` frame waits for fib(n - 1) and owes fib(n) to the frame below;
      a `fib2{f1}` frame waits for fib(m) with f1 = fib(m + 1) and owes fib(m + 2). */
  ghost predicate Awaits(F: seq<Live>, m: int)
    requires |F| > 0
    decreases |F|
  {
    match Top(F).shape
    case RetShape => |F| == 1
    case Fib1Shape(n) => |F| > 1 && n >= 2 && m == n - 1 && Awaits(Below(F), n)
    case Fib2Shape(f1) => |F| > 1 && m >= 0 && f1 == TestFib(m + 1) && Awaits(Below(F), m + 2)
  }

  /** The index whose Fibonacci number the bottom `ret` frame finally returns. */
  ghost function Owed(F: seq<Live>, m: int): int
    requires |F| > 0 && Awaits(F, m)
    decreases |F|
  {
    match Top(F).shape
    case RetShape => m
    case Fib1Shape(n) => Owed(Below(F), n)
    case Fib2Shape(_) => Owed(Below(F), m + 2)
  }

  /** An upper bound on the calls fib_cps(n) still makes; it bounds the recursion. */
  function Work(n: int): nat
  {
    if n <= 1 then 1 else Work(n - 1) + Work(n - 2) + 3
  }

  /** The calls the frames of `F` still make once they are called. */
  ghost function PendingCalls(F: seq<Live>): nat
    decreases |F|
  {
    if |F| == 0 then 0
    else
      PendingCalls(Below(F)) +
      match Top(F).shape
      case RetShape => 0
      case Fib1Shape(n) => Work(n - 2) + 2
      case Fib2Shape(_) => 1
  }

  // The method contracts use the following non-recursive names, so that a fact a lemma
  // states about a chain is used as stated, without unfolding the recursion above.

  /** `F` is a chain that the value TestFib(m) can be passed to. */
  ghost predicate Expects(F: seq<Live>, m: int)
  {
    |F| > 0 && Awaits(F, m)
  }

  /** The value the bottom `ret` frame finally returns when the top of `F` gets TestFib(m). */
  ghost function Answer(F: seq<Live>, m: int): int
    requires Expects(F, m)
  {
    TestFib(Owed(F, m))
  }

  /** The termination measure of a closure call on `F`. */
  ghost function Pending(F: seq<Live>): nat
  {
    PendingCalls(F)
  }

  /** The termination measure of fib_cps(n) continuing into `F`. */
  ghost function Budget(F: seq<Live>, n: int): nat
  {
    Work(n) + PendingCalls(F)
  }

  /** fib_cps(n) with n >= 2 pushes fib1{n}: the new top waits for fib(n - 1), still owes
      the same answer, and the measure drops. */
  lemma PushFib1(F: seq<Live>, n: int, G: seq<Live>, id: nat)
    requires Expects(F, n) && n >= 2 && G == F + [Live(id, Fib1Shape(n))]
    ensures Below(G) == F && G[0] == F[0]
    ensures Expects(G, n - 1) && Answer(G, n - 1) == Answer(F, n)
    ensures Budget(G, n - 1) < Budget(F, n)
  {
    assert Below(G) == F;
  }

  /** fib1{n}, called with f1 = fib(m) = fib(n - 1), pushes fib2{f1} in its place: the new
      top waits for fib(n - 2), still owes the same answer, and the measure drops. */
  lemma PushFib2(F: seq<Live>, m: int, n: int, f1: int, G: seq<Live>, id: nat)
    requires Expects(F, m) && Top(F).shape == Fib1Shape(n) && f1 == TestFib(m)
    requires G == Below(F) + [Live(id, Fib2Shape(f1))]
    ensures Below(G) == Below(F) && G[0] == F[0]
    ensures Expects(G, n - 2) && Answer(G, n - 2) == Answer(F, m)
    ensures Budget(G, n - 2) < Pending(F)
  {
    assert Below(G) == Below(F);
  }

  /** fib2{f1}, called with f2 = fib(m), passes f2 + f1 = fib(m + 2) to the frame below,
      which owes the same answer and has less pending. */
  lemma PopFib2(F: seq<Live>, m: int, f1: int)
    requires Expects(F, m) && Top(F).shape == Fib2Shape(f1)
    ensures Expects(Below(F), m + 2) && Answer(Below(F), m + 2) == Answer(F, m)
    ensures TestFib(m) + f1 == TestFib(m + 2)
    ensures Pending(Below(F)) < Pending(F) && F[0] == Below(F)[0]
  {
  }

  /** ret, called with fib(m), returns the answer itself. */
  lemma PopRet(F: seq<Live>, m: int)
    requires Expects(F, m) && Top(F).shape.RetShape?
    ensures |F| == 1 && Answer(F, m) == TestFib(m)
  {
  }

  /** The live frames lie in order, without overlap, below `sp`: the top frame ends at or
      below `sp` and the frames beneath it end at or below its offset. */
  ghost predicate Stacked(F: seq<Live>, sp: nat)
    decreases |F|
  {
    |F| == 0 || (Top(F).offset + SizeOf(Top(F).shape) <= sp && Stacked(Below(F), Top(F).offset))
  }

  /** Every frame of a stacked chain ends at or below `sp`. */
  lemma {:induction false} StackedBounds(F: seq<Live>, sp: nat, i: nat)
    requires Stacked(F, sp) && i < |F|
    ensures F[i].offset + SizeOf(F[i].shape) <= sp
    decreases |F|
  {
    if i < |F| - 1 {
      StackedBounds(Below(F), Top(F).offset, i);
    }
  }

  /** The frame the program wrote for the i-th live frame: header `{fn, own handle}`, and the
      handle of the frame below as its continuation `k` (the bottom `ret` has none). */
  ghost function FrameFor<H>(F: seq<Live>, i: nat, handle: nat -> H): Frame<Fn, H, FibData<H>>
    requires i < |F|
  {
    var below := if i == 0 then handle(0) else handle(F[i - 1].offset);
    var payload :=
      match F[i].shape
      case RetShape => RetData
      case Fib1Shape(n) => Fib1Data(n, below)
      case Fib2Shape(f1) => Fib2Data(f1, below);
    Frame(FnOf(F[i].shape), handle(F[i].offset), payload)
  }

  /** The buffer `d` with stack pointer `sp` holds the live frames `F` at their offsets,
      stacked below `sp`, each linked to the one below it. Other cells below `sp` (padding,
      the cells a frame covers, stale frames) are not constrained. */
  ghost predicate ChainIn<H>(d: seq<FibCell<H>>, sp: nat, F: seq<Live>, handle: nat -> H)
  {
    && sp <= |d|
    && Stacked(F, sp)
    && (forall i {:trigger d[F[i].offset]} :: 0 <= i < |F| ==>
          F[i].offset < |d| && d[F[i].offset] == Stored(FrameFor(F, i, handle)))
  }

  /** Pushing a frame at or above `sp`, while the bytes below `sp` are kept, adds it to the
      chain on top of the frames already there. */
  lemma ChainPush<H>(d: seq<FibCell<H>>, sp: nat, F: seq<Live>, handle: nat -> H,
                     d': seq<FibCell<H>>, sp': nat, id: nat, shape: Shape)
    requires ChainIn(d, sp, F, handle)
    requires sp <= id && sp' == id + SizeOf(shape) && sp' <= |d'|
    requires d'[..sp] == d[..sp]
    requires d'[id] == Stored(FrameFor(F + [Live(id, shape)], |F|, handle))
    ensures ChainIn(d', sp', F + [Live(id, shape)], handle)
  {
    var G := F + [Live(id, shape)];
    assert Below(G) == F;
    forall i | 0 <= i < |G|
      ensures G[i].offset < |d'| && d'[G[i].offset] == Stored(FrameFor(G, i, handle))
    {
      if i < |F| {
        StackedBounds(F, sp, i);
        assert FrameFor(G, i, handle) == FrameFor(F, i, handle);
        assert d'[..sp][F[i].offset] == d[..sp][F[i].offset];
      }
    }
  }

  /** Freeing the top frame (resetting `sp` to its offset, keeping the bytes below) leaves
      the frames beneath it as the chain. */
  lemma ChainPop<H>(d: seq<FibCell<H>>, sp: nat, F: seq<Live>, handle: nat -> H,
                    d': seq<FibCell<H>>, sp': nat)
    requires ChainIn(d, sp, F, handle) && |F| > 0
    requires sp' == Top(F).offset && sp' <= |d'| && d'[..sp'] == d[..sp']
    ensures ChainIn(d', sp', Below(F), handle)
  {
    var B := Below(F);
    forall i | 0 <= i < |B|
      ensures B[i].offset < |d'| && d'[B[i].offset] == Stored(FrameFor(B, i, handle))
    {
      StackedBounds(B, sp', i);
      assert FrameFor(B, i, handle) == FrameFor(F, i, handle);
      assert d'[..sp'][F[i].offset] == d[..sp'][F[i].offset];
    }
  }
}
