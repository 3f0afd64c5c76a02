/** Closure frames as they sit in the arena: the header `{fn, cl}` (struct cps_closure_frame)
    followed by the captured fields. `K` is the dispatch function, `H` the handle type of the
    header, `P` the payload. */
module Frames {

  datatype Frame<K, H, P> = Frame(fn: K, cl: H, payload: P)

  /** What one byte of the buffer holds. A frame is held whole by the cell at its offset;
      `Raw` stands for any other content (the rest of a frame's bytes, padding, garbage). */
  datatype Cell<K, H, P> = Raw | Stored(frame: Frame<K, H, P>)
}
