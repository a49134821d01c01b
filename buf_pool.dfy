/** The adapter's pool of scratch buffers (`util.BufPool`), reduced to how many buffers are lent out. */
module BufPool {
  import opened Common

  class BufPool {
    /** Buffers handed out by `Get` and not yet given back by `Put`. */
    var outstanding: int

    constructor ()
      ensures outstanding == 0
    {
      outstanding := 0;
    }

    /** Lends a buffer; its content is whatever a previous user left in it. */
    method Get() returns (buf: Bytes)
      modifies this
      ensures outstanding == old(outstanding) + 1
    {
      buf := *;
      outstanding := outstanding + 1;
    }

    method Put(buf: Bytes)
      modifies this
      ensures outstanding == old(outstanding) - 1
    {
      outstanding := outstanding - 1;
    }
  }
}
