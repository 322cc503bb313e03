/**
 * What a query hands back: `fetchone` gives one row or nothing, modelled as an Option,
 * and picks the first row, in table order, that satisfies the WHERE clause.
 */
module Rows {

  datatype Option<T> = None | Some(value: T)

  /**
   * `fetchone` over the rows satisfying p: nothing when no row does; otherwise a row
   * that does, and no earlier row does.
   */
  function FetchOne<T(==)>(rows: seq<T>, p: T -> bool): (r: Option<T>)
    ensures r.None? <==> forall i :: 0 <= i < |rows| ==> !p(rows[i])
    ensures r.Some? ==> r.value in rows && p(r.value)
    ensures r.Some? ==> exists i :: 0 <= i < |rows| && rows[i] == r.value && forall j :: 0 <= j < i ==> !p(rows[j])
  {
    if rows == [] then None
    else if p(rows[0]) then Some(rows[0])
    else
      var r := FetchOne(rows[1..], p);
      assert forall i :: 1 <= i < |rows| ==> rows[i] == rows[1..][i - 1];
      if r.Some? then
        var i :| 0 <= i < |rows[1..]| && rows[1..][i] == r.value && forall j :: 0 <= j < i ==> !p(rows[1..][j]);
        assert rows[i + 1] == r.value && forall j :: 0 <= j < i + 1 ==> !p(rows[j]);
        r
      else r
  }
}
