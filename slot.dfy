/**
 * One slot of a page (`Traced<T>`): a three-state union plus the `free_` and
 * `mark_` bits that sit outside it.  Only the union member of the current
 * state is meaningful; the others are whatever was last written.
 */
module Slot {
  import opened Tracing

  /** The union.  `Header` is only ever slot 0 of a page: the page's size
      (header included) and the next page of the page list.  `FreeLink` is a
      free-list cell.  `Used` holds an object with its two counts. */
  datatype Payload =
    | Header(pageSize: nat, nextPage: Ref)
    | FreeLink(nextFree: Ref)
    | Used(obj: Value, refCount: nat, rootCount: int)

  datatype Slot = Slot(payload: Payload, free: bool, mark: bool)

  /** `initialize_header_`: the header member is written, nothing else. */
  function AsHeader(s: Slot, pageSize: nat, nextPage: Ref): (r: Slot)
    ensures r.payload.Header? && r.payload.pageSize == pageSize && r.payload.nextPage == nextPage
    ensures r.free == s.free && r.mark == s.mark
  {
    s.(payload := Header(pageSize, nextPage))
  }

  /** `initialize_free_`: the free-list link is written and the free bit set;
      the mark bit keeps whatever it held. */
  function AsFree(s: Slot, nextFree: Ref): (r: Slot)
    ensures r.payload == FreeLink(nextFree) && r.free
    ensures r.mark == s.mark
  {
    Slot(FreeLink(nextFree), true, s.mark)
  }

  /** `initialize_used_`: the reference count is zeroed and both bits are
      cleared.  The object and the root count are not written: they are the
      union's leftover contents, passed in as `obj` and `rootCount`. */
  function AsUsed(obj: Value, rootCount: int): (r: Slot)
    ensures r.payload.Used? && r.payload.refCount == 0
    ensures !r.free && !r.mark
    ensures r.payload.obj == obj && r.payload.rootCount == rootCount
  {
    Slot(Used(obj, 0, rootCount), false, false)
  }

  /** The leftover contents of a slot seen as a used slot: what
      `initialize_used_` leaves in the fields it does not write. */
  function LeftoverObject(s: Slot): (v: Value)
    ensures s.payload.Used? ==> v == s.payload.obj
  {
    if s.payload.Used? then s.payload.obj else Scalar(Bool)
  }

  function LeftoverRootCount(s: Slot): (n: int)
    ensures s.payload.Used? ==> n == s.payload.rootCount
  {
    if s.payload.Used? then s.payload.rootCount else 0
  }

  /** The slot with its mark bit cleared or set; nothing else changes. */
  function WithMark(s: Slot, mark: bool): (r: Slot)
    ensures r.mark == mark && r.payload == s.payload && r.free == s.free
  {
    s.(mark := mark)
  }
}
