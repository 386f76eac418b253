/** One page of a list. */
module Paging {

  /** LIMIT and OFFSET, and equally the slice [offset : offset + limit]. */
  function Slice<T>(s: seq<T>, offset: nat, limit: nat): (page: seq<T>)
    ensures |page| <= limit
  {
    if offset >= |s| then [] else if offset + limit >= |s| then s[offset..] else s[offset..offset + limit]
  }
}
