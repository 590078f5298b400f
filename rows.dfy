/** Rows as `csv.DictReader` yields them, and Python's lookups on them. */
module Rows {
  import opened Base
  import opened Collections

  /** One data row: column name to the cell's text. */
  type Row = map<string, string>

  /** `bool(row.get(k))`: the column is present and its text is not empty. */
  predicate Truthy(row: Row, k: string) {
    k in row && row[k] != ""
  }

  /** `row.get(k) or dflt` */
  function GetOr(row: Row, k: string, dflt: string): (r: string)
    ensures Truthy(row, k) ==> r == row[k]
    ensures !Truthy(row, k) ==> r == dflt
  {
    if Truthy(row, k) then row[k] else dflt
  }

  /**
   * A loader's row loop: `parse` turns each row into a value, nothing (the
   * row is skipped) or an error, which ends loading.
   */
  function Collect<T, E>(rows: seq<Row>, parse: Row -> Result<Option<T>, E>): Result<seq<T>, E> {
    if rows == [] then Ok([])
    else match Collect(rows[..|rows| - 1], parse)
      case Err(e) => Err(e)
      case Ok(vs) =>
        match parse(rows[|rows| - 1])
        case Err(e) => Err(e)
        case Ok(None) => Ok(vs)
        case Ok(Some(v)) => Ok(vs + [v])
  }

  /** The row parses to a value. */
  function Yields<T, E>(parse: Row -> Result<Option<T>, E>): Row -> bool {
    row => parse(row).Ok? && parse(row).value.Some?
  }

  /**
   * Loading fails exactly when some row fails, and then with the error of
   * the first failing row.
   */
  lemma {:induction false} CollectFails<T, E>(rows: seq<Row>, parse: Row -> Result<Option<T>, E>)
    ensures Collect(rows, parse).Err? <==> exists i | 0 <= i < |rows| :: parse(rows[i]).Err?
    ensures Collect(rows, parse).Err? ==> exists i | 0 <= i < |rows| ::
      parse(rows[i]) == Err(Collect(rows, parse).error) && forall j | 0 <= j < i :: parse(rows[j]).Ok?
  {
    if rows != [] {
      var init, row := rows[..|rows| - 1], rows[|rows| - 1];
      assert rows == init + [row];
      CollectFails(init, parse);
      if Collect(init, parse).Ok? {
        assert forall i | 0 <= i < |init| :: parse(init[i]) == parse(rows[i]);
        if parse(row).Err? {
          assert parse(rows[|init|]) == Err(Collect(rows, parse).error);
        }
      } else {
        var i :| 0 <= i < |init| && parse(init[i]) == Err(Collect(init, parse).error) && forall j | 0 <= j < i :: parse(init[j]).Ok?;
        assert rows[i] == init[i];
        assert forall j | 0 <= j < i :: rows[j] == init[j];
      }
    }
  }

  /**
   * When loading succeeds, the values are those of the rows that yield one,
   * one per row, in file order.
   */
  lemma {:induction false} CollectValues<T, E>(rows: seq<Row>, parse: Row -> Result<Option<T>, E>)
    ensures Collect(rows, parse).Ok? ==>
      var vs, yielding := Collect(rows, parse).value, Select(rows, Yields(parse), true);
      |vs| == |yielding| && forall j | 0 <= j < |vs| :: parse(yielding[j]) == Ok(Some(vs[j]))
  {
    if rows != [] {
      var init, row := rows[..|rows| - 1], rows[|rows| - 1];
      assert rows == init + [row];
      CollectValues(init, parse);
      SelectAppend(init, [row], Yields(parse), true);
    }
  }

  /** Both halves of the row loop's meaning together. */
  lemma CollectSpec<T, E>(rows: seq<Row>, parse: Row -> Result<Option<T>, E>)
    ensures Collect(rows, parse).Err? <==> exists i | 0 <= i < |rows| :: parse(rows[i]).Err?
    ensures Collect(rows, parse).Err? ==> exists i | 0 <= i < |rows| ::
      parse(rows[i]) == Err(Collect(rows, parse).error) && forall j | 0 <= j < i :: parse(rows[j]).Ok?
    ensures Collect(rows, parse).Ok? ==>
      var vs, yielding := Collect(rows, parse).value, Select(rows, Yields(parse), true);
      |vs| == |yielding| && forall j | 0 <= j < |vs| :: parse(yielding[j]) == Ok(Some(vs[j]))
  {
    CollectFails(rows, parse);
    CollectValues(rows, parse);
  }

  /** One more row. */
  lemma CollectStep<T, E>(rows: seq<Row>, i: nat, parse: Row -> Result<Option<T>, E>)
    requires i < |rows|
    ensures Collect(rows[..i + 1], parse) ==
      match Collect(rows[..i], parse)
      case Err(e) => Err(e)
      case Ok(vs) =>
        match parse(rows[i])
        case Err(e) => Err(e)
        case Ok(None) => Ok(vs)
        case Ok(Some(v)) => Ok(vs + [v])
  {
    assert rows[..i + 1][..i] == rows[..i];
  }

  /** Once a prefix fails, the whole file fails with that error. */
  lemma {:induction false} CollectErrPrefix<T, E>(rows: seq<Row>, n: nat, parse: Row -> Result<Option<T>, E>)
    requires n <= |rows| && Collect(rows[..n], parse).Err?
    ensures Collect(rows, parse) == Collect(rows[..n], parse)
    decreases |rows| - n
  {
    if n < |rows| {
      assert rows[..n + 1][..n] == rows[..n];
      CollectErrPrefix(rows, n + 1, parse);
    } else {
      assert rows[..n] == rows;
    }
  }
}
