/** The one entity of the ledger: an expense record, and what it means for a
    list of records to have unique ids. */
module Expenses {

  datatype Option<+T> = None | Some(value: T)

  /** An expense record. `amount` is in minor currency units; `date` is a
      local-time timestamp in milliseconds (negative before the epoch). */
  datatype Expense = Expense(
    id: string,
    category: string,
    amount: int,
    date: int,
    notes: string)

  /** The sequence of ids of a list, position by position. */
  function Ids(es: seq<Expense>): (r: seq<string>)
    ensures |r| == |es|
    ensures forall i :: 0 <= i < |es| ==> r[i] == es[i].id
  {
    seq(|es|, i requires 0 <= i < |es| => es[i].id)
  }

  /** Whether some record in the list carries the id. */
  ghost predicate HasId(es: seq<Expense>, id: string)
  {
    exists i :: 0 <= i < |es| && es[i].id == id
  }

  /** No two positions of the list carry the same id. */
  ghost predicate UniqueIds(es: seq<Expense>)
  {
    forall i, j :: 0 <= i < |es| && 0 <= j < |es| && i != j ==> es[i].id != es[j].id
  }
}
