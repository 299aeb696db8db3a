/**
 * The two read shapes both request handlers use on a table held in insertion
 * order: `query.filter_by(...).first()` (the first row a predicate accepts)
 * and `query.order_by(stamp.desc()).all()` over a server-assigned stamp that
 * grows with every insert (newest first is reverse insertion order).
 */
module Query {

  datatype Option<T> = None | Some(value: T)

  /** Index of the first row `p` accepts, or None when no row does. */
  function FirstMatch<T>(rows: seq<T>, p: T -> bool): (r: Option<nat>)
    ensures r.Some? ==> r.value < |rows| && p(rows[r.value])
    ensures r.Some? ==> forall j :: 0 <= j < r.value ==> !p(rows[j])
    ensures r.None? <==> forall i :: 0 <= i < |rows| ==> !p(rows[i])
  {
    if |rows| == 0 then None
    else if p(rows[0]) then Some(0)
    else
      match FirstMatch(rows[1..], p)
      case None => None
      case Some(k) => Some(k + 1)
  }

  /** The rows in reverse insertion order, i.e. newest first. */
  function NewestFirst<T>(rows: seq<T>): (r: seq<T>)
    ensures |r| == |rows|
    ensures forall k :: 0 <= k < |rows| ==> r[k] == rows[|rows| - 1 - k]
  {
    if |rows| == 0 then [] else [rows[|rows| - 1]] + NewestFirst(rows[..|rows| - 1])
  }

  /**
   * `session.delete` of the row at position k: the rows before it keep
   * their position, the rows after it move down by one.
   */
  function RemoveAt<T>(rows: seq<T>, k: nat): (r: seq<T>)
    requires k < |rows|
    ensures |r| == |rows| - 1
    ensures forall i :: 0 <= i < k ==> r[i] == rows[i]
    ensures forall i :: k <= i < |r| ==> r[i] == rows[i + 1]
  {
    rows[..k] + rows[k + 1..]
  }

  /** `.limit(n)`: at most the first n rows of a result. */
  function Limit<T>(rows: seq<T>, n: nat): (r: seq<T>)
    ensures |r| == if |rows| <= n then |rows| else n
    ensures r <= rows
  {
    if |rows| <= n then rows else rows[..n]
  }
}
