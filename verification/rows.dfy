/**
  The ledger row model of web/main.py.

  An account's balance and debt are never stored on the account: they are
  derived from the account's rows. Every row belongs to one account and one
  transaction and carries three nullable integer columns, in minor currency
  units (cents).
 */
module Rows {

  /** A nullable value: the datastore's `None`. */
  datatype Option<+T> = None | Some(value: T)

  /** Datastore keys are opaque; any distinct naturals will do. */
  type AccountId = nat
  type TransactionId = nat

  /** The three integer columns of a row. */
  datatype Field = BalanceField | DeltaField | DebtField

  /**
    One ledger entry. `transaction` is null while the row is only a
    candidate and is set once, just before the row is stored.
    `balance` and `debt` are absolute snapshots, `delta` is a change.
   */
  datatype Row = Row(
    transaction: Option<TransactionId>,
    account: AccountId,
    delta: Option<int>,
    balance: Option<int>,
    debt: Option<int>)
  {
    /** The column named by `f`. */
    function Get(f: Field): (v: Option<int>)
    {
      match f
      case BalanceField => balance
      case DeltaField => delta
      case DebtField => debt
    }
  }

  /** Python truthiness of a nullable integer: null and 0 are both false. */
  predicate Truthy(v: Option<int>)
  {
    v.Some? && v.value != 0
  }

  /** The range of a datastore integer column: a signed 64-bit integer. */
  const ColumnMin: int := -0x8000_0000_0000_0000
  const ColumnMax: int := 0x7FFF_FFFF_FFFF_FFFF

  /** A nullable value the column accepts: null, or an integer in range. */
  predicate Fits(v: Option<int>)
  {
    v.None? || ColumnMin <= v.value <= ColumnMax
  }

  /** Every column of the row can be stored. */
  predicate Storable(row: Row)
  {
    Fits(row.balance) && Fits(row.delta) && Fits(row.debt)
  }

  /** No two positions of `s` hold the same element. */
  predicate Distinct<T(==)>(s: seq<T>)
  {
    forall i, j :: 0 <= i < j < |s| ==> s[i] != s[j]
  }
}
