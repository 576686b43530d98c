/** stralloc: a byte string that grows, or fails to for want of memory. */
module StrAlloc {
  import opened Bytes

  class StrAlloc {
    var s: bytes

    constructor ()
      ensures s == []
    {
      s := [];
    }

    /** stralloc_catb and stralloc_append: a failure leaves the string as it was. */
    method Append(x: bytes) returns (ok: bool)
      modifies this
      ensures s == old(s) + (if ok then x else [])
    {
      ok := *;
      if ok {
        s := s + x;
      }
    }
  }
}
