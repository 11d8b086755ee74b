/** The effect of each single write statement on the rows it can see. */
module Sql {
  import opened Types

  datatype Written = Row(doc: Doc) | NoRow | TooWide

  /** INSERT ... RETURNING, once the sequence has given `id`. */
  function InsertDoc(id: int, data: Data, who: string, now: Time): Written {
    if |Operator(who)| > OPERATOR_WIDTH then TooWide
    else Row(Doc(id, 1, Active, data, Operator(who), Operator(who), now, now))
  }

  /** UPDATE ... SET data, version = version + 1 ... WHERE id AND version. */
  function UpdateDocData(rows: Rows, id: int, expected: int, data: Data, who: string, now: Time): Written {
    if id !in rows || rows[id].version != expected then NoRow
    else if |Operator(who)| > OPERATOR_WIDTH then TooWide
    else Row(rows[id].(data := data, version := rows[id].version + 1,
                       updatedBy := Operator(who), updatedAt := now))
  }

  /** UPDATE ... SET status, version = version + 1 ... WHERE id AND status. */
  function UpdateDocStatus(rows: Rows, id: int, from: Status, to: Status, who: string, now: Time): Written {
    if id !in rows || rows[id].status != from then NoRow
    else if |Operator(who)| > OPERATOR_WIDTH then TooWide
    else Row(rows[id].(status := to, version := rows[id].version + 1,
                       updatedBy := Operator(who), updatedAt := now))
  }
}
