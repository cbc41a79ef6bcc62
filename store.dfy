/** The part of SQLite's semantics the model needs: what a
    `SELECT ... LIMIT n OFFSET k` returns from the table's rows in scan order. */
module Store {

  /** The rows skipped by `OFFSET offset`: a negative offset skips none. */
  function Skipped(count: nat, offset: int): (skip: nat)
    ensures skip <= count
  {
    if offset < 0 then 0 else if offset > count then count else offset
  }

  /** `LIMIT limit OFFSET offset`: the rows after the skipped ones, at most
      `limit` of them; a negative limit means no upper bound. */
  function Select<T>(rows: seq<T>, limit: int, offset: int): (r: seq<T>)
    ensures var skip := Skipped(|rows|, offset);
      && skip + |r| <= |rows|
      && r == rows[skip..skip + |r|]
      && (limit >= 0 ==> |r| == if limit < |rows| - skip then limit else |rows| - skip)
      && (limit < 0 ==> |r| == |rows| - skip)
  {
    var skip := Skipped(|rows|, offset);
    if limit < 0 || skip + limit > |rows| then rows[skip..] else rows[skip..skip + limit]
  }

  /** A window that starts inside the table holds the rows from its start up
      to the end of the limit or of the table, whichever comes first. */
  lemma SelectWindow<T>(rows: seq<T>, limit: int, offset: int)
    requires 0 <= offset <= |rows| && limit >= 0
    ensures offset + limit <= |rows| ==> Select(rows, limit, offset) == rows[offset..offset + limit]
    ensures offset + limit > |rows| ==> Select(rows, limit, offset) == rows[offset..]
  {
  }

  /** A window of positive size starting inside the table is not empty and
      holds min(limit, rows remaining) rows. */
  lemma SelectPage<T>(rows: seq<T>, limit: int, offset: int)
    requires 0 <= offset < |rows| && limit >= 1
    ensures var r := Select(rows, limit, offset);
      && r == rows[offset..if offset + limit < |rows| then offset + limit else |rows|]
      && 1 <= |r| <= limit
      && |r| == if limit < |rows| - offset then limit else |rows| - offset
  {
  }
}
