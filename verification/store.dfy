/**
  The datastore as the ledger sees it: an append-only log of writes.

  Each `put()` appends one entry. A transaction's key is the position of
  its write in the log, so keys are never reused. An account's rows are
  queried newest first, that is in reverse write order.
 */
module Store {
  import opened Rows

  datatype Put =
    | PutTransaction(id: TransactionId, description: string)
    | PutRow(row: Row)

  /** All writes so far, oldest first. */
  type Log = seq<Put>

  /** The rows of account `a`, newest first, as the account's row query returns them. */
  function History(log: Log, a: AccountId): (h: seq<Row>)
    ensures |h| <= |log|
    ensures forall row :: row in h ==> row.account == a
    ensures forall k :: 0 <= k < |log| && log[k].PutRow? && log[k].row.account == a ==> log[k].row in h
  {
    if |log| == 0 then []
    else
      var rest := History(log[..|log| - 1], a);
      assert forall k :: 0 <= k < |log| - 1 ==> log[..|log| - 1][k] == log[k];
      match log[|log| - 1]
      case PutRow(row) => if row.account == a then [row] + rest else rest
      case PutTransaction(_, _) => rest
  }

  /** Writes made later come first in the history. */
  lemma {:induction false} HistoryAppend(log: Log, later: Log, a: AccountId)
    ensures History(log + later, a) == History(later, a) + History(log, a)
  {
    if |later| > 0 {
      var all := log + later;
      assert all[..|all| - 1] == log + later[..|later| - 1];
      assert all[|all| - 1] == later[|later| - 1];
      HistoryAppend(log, later[..|later| - 1], a);
    } else {
      assert log + later == log;
    }
  }
  /** Writes that store no row of `a` add nothing to its history. */
  lemma {:induction false} HistoryWithoutRowsOf(log: Log, a: AccountId)
    requires forall k :: 0 <= k < |log| ==> !(log[k].PutRow? && log[k].row.account == a)
    ensures History(log, a) == []
  {
    if |log| > 0 {
      HistoryWithoutRowsOf(log[..|log| - 1], a);
    }
  }

  /** Writes that store exactly one row of `a` add exactly that row to its history. */
  lemma HistoryWithOneRowOf(log: Log, a: AccountId, i: nat)
    requires i < |log| && log[i].PutRow? && log[i].row.account == a
    requires forall k :: 0 <= k < |log| && k != i ==> !(log[k].PutRow? && log[k].row.account == a)
    ensures History(log, a) == [log[i].row]
  {
    var before, at, after := log[..i], [log[i]], log[i + 1..];
    assert History(before, a) == [] by {
      HistoryWithoutRowsOf(before, a);
    }
    assert History(after, a) == [] by {
      assert forall k :: 0 <= k < |after| ==> after[k] == log[i + 1 + k];
      HistoryWithoutRowsOf(after, a);
    }
    assert History(at, a) == [log[i].row] by {
      assert at[..0] == [];
    }
    assert History(before + at, a) == [log[i].row] by {
      HistoryAppend(before, at, a);
    }
    assert log == (before + at) + after;
    HistoryAppend(before + at, after, a);
  }
}
