/** The growable, shrinkable bump-allocated stack arena (struct cps_stack and its functions).
    The buffer is generic in what one byte cell holds; the closure layer stores frames in it. */
module Arena {
  import opened Align

  /** INIT_STACK_SIZE: the initial size and the floor below which the buffer never shrinks. */
  const INIT_STACK_SIZE: nat := 512

  function Max(a: nat, b: nat): nat { if a < b then b else a }
  function Min(a: nat, b: nat): nat { if a < b then a else b }

  class Stack<T(0)> {
    /** The address of the struct itself (the declaration fixes it); a pool word tags it. */
    const addr: nat
    var size: nat
    var sp: nat
    /** The malloc'd buffer; null once the stack has been freed. */
    var data: array?<T>

    ghost predicate Valid()
      reads this
    {
      data != null && data.Length == size && sp <= size && INIT_STACK_SIZE <= size
    }

    /** cps_init_stack: an empty stack with a buffer of INIT_STACK_SIZE bytes. */
    constructor Init(addr: nat)
      ensures Valid() && fresh(data) && this.addr == addr
      ensures sp == 0 && size == INIT_STACK_SIZE
    {
      this.addr := addr;
      sp := 0;
      data := new T[INIT_STACK_SIZE];
      size := INIT_STACK_SIZE;
    }

    /** cps_resize_stack: realloc the buffer to `newSize` bytes, but never fewer than
        INIT_STACK_SIZE. realloc moves the bytes to a fresh buffer and keeps the first
        min(old size, new size) of them; realloc of a null buffer keeps none. */
    method Resize(newSize: nat)
      requires data != null ==> data.Length == size
      modifies this
      ensures size == Max(newSize, INIT_STACK_SIZE) && sp == old(sp)
      ensures data != null && fresh(data) && data.Length == size
      ensures old(data) != null ==>
        data[..Min(old(size), size)] == old(data[..])[..Min(old(size), size)]
    {
      var n := if newSize < INIT_STACK_SIZE then INIT_STACK_SIZE else newSize;
      var moved := new T[n];
      if data != null {
        var src := data;
        var keep := Min(size, n);
        var i := 0;
        while i < keep
          modifies moved
          invariant 0 <= i <= keep
          invariant moved[..i] == src[..i]
        {
          moved[i] := src[i];
          i := i + 1;
        }
      }
      data := moved;
      size := n;
    }

    /** cps_stack_alloc_frame_aligned: align `sp`, grow the buffer to twice what is needed
        when the frame does not fit, and bump `sp` past the frame. The frame starts at an
        aligned offset at or above the old `sp`, so it never overlaps live bytes, and the
        bytes below the old `sp` are kept. */
    method AllocFrameAligned(frameSize: nat, frameAlign: nat) returns (frame: nat)
      requires Valid() && IsPowerOfTwo(frameAlign)
      modifies this
      ensures Valid()
      ensures frame == AlignAddress(old(sp), frameAlign)
      ensures frame % frameAlign == 0 && old(sp) <= frame
      ensures sp == frame + frameSize
      ensures size == if frame + frameSize > old(size)
                      then Max(2 * (frame + frameSize), INIT_STACK_SIZE)
                      else old(size)
      ensures frame + frameSize <= old(size) ==> data == old(data)
      ensures data == old(data) || fresh(data)
      ensures data[..old(sp)] == old(data[..sp])
    {
      sp := AlignAddress(sp, frameAlign);
      if sp + frameSize > size {
        Resize(2 * (sp + frameSize));
      }
      frame := sp;
      sp := sp + frameSize;
    }

    /** cps_stack_free_frame: reset `sp` to the frame offset `fp`, discarding everything
        above it, and halve the buffer (not below the floor) once `sp` is under a quarter
        of it. The bytes below `fp` are kept. */
    method FreeFrame(fp: nat)
      requires Valid() && fp <= sp
      modifies this
      ensures Valid() && sp == fp
      ensures size == if fp < old(size) / 4
                      then Max(old(size) / 2, INIT_STACK_SIZE)
                      else old(size)
      ensures fp >= old(size) / 4 ==> data == old(data)
      ensures data == old(data) || fresh(data)
      ensures data[..fp] == old(data[..fp])
    {
      sp := fp;
      if sp < size / 4 {
        Resize(size / 2);
      }
    }

    /** cps_get_stack_frame, dereferenced: the cell at `offset` of the current buffer. */
    function FrameAt(offset: nat): T
      reads this, data
      requires Valid() && offset < size
    {
      data[offset]
    }

    /** cps_free_stack: release the buffer. free(NULL) does nothing, so freeing twice is
        harmless. */
    method FreeStack()
      modifies this
      ensures data == null && size == old(size) && sp == old(sp)
    {
      data := null;
    }
  }
}
