/** `paginate_rows` (src/domain/responses.rs). */
module Responses {
  import opened Prelude

  datatype Pagination<T> = Pagination(rows: seq<T>, total: nat, returned: nat, truncated: bool)

  /** The kept rows are a prefix, `total` counts the rows before the cut, and `truncated` is true
      exactly when rows were dropped. */
  function PaginateRows<T>(rows: seq<T>, limit: nat): (page: Pagination<T>)
    ensures page.rows <= rows && page.total == |rows| && page.returned == |page.rows| <= limit
    ensures page.returned == limit || page.returned == page.total
    ensures page.truncated <==> limit < |rows|
  {
    var kept := Take(rows, limit);
    Pagination(kept, |rows|, |kept|, |kept| < |rows|)
  }
}
