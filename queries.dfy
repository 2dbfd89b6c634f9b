/**
 * The one query parameter the list routes take from the query library's
 * schema: the `skip` cursor, a number with default 0 and minimum 0.
 */
module Queries {
  import opened Tables

  /** The `skip` cursor of a list request: absent means 0, a negative value
      fails the schema's minimum and the request is answered with 400. */
  function ParseSkip(raw: Option<int>): (r: Option<nat>)
    ensures raw.None? ==> r == Some(0)
    ensures raw.Some? ==> (r.Some? <==> raw.value >= 0)
    ensures r.Some? && raw.Some? ==> r.value == raw.value
  {
    match raw
    case None => Some(0)
    case Some(n) => if n < 0 then None else Some(n)
  }
}
