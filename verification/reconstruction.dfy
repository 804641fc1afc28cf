/**
  Balance reconstruction: `BaseHandler.compute_balance_for` in web/main.py.

  The rows of one account are read newest first and only the newest
  `FetchLimit` of them are looked at. The newest row carrying a `balance`
  is the anchor; the deltas of the rows newer than the anchor are added to
  it. Debt is a pure snapshot: the newest non-null `debt`. Both results are
  then presented with Python truthiness, so a value of 0 reads as unknown.
 */
module Reconstruction {
  import opened Rows
  import opened Store

  /** How many of an account's newest rows are fetched. */
  const FetchLimit: nat := 100

  /** The rows the query returns: the first `FetchLimit` of the newest-first sequence. */
  function Window(rows: seq<Row>): (w: seq<Row>)
    ensures |w| <= FetchLimit
    ensures |w| <= |rows| && w == rows[..|w|]
    ensures |w| < FetchLimit ==> w == rows
  {
    if |rows| <= FetchLimit then rows else rows[..FetchLimit]
  }

  // ---------------------------------------------------------------------------
  // Reference definition
  // ---------------------------------------------------------------------------

  /** The index of the newest row whose column `f` is not null, if any. */
  function NewestIndex(rows: seq<Row>, f: Field): (r: Option<nat>)
    ensures r.Some? ==> r.value < |rows| && rows[r.value].Get(f).Some?
    ensures r.Some? ==> forall j :: 0 <= j < r.value ==> rows[j].Get(f).None?
    ensures r.None? ==> forall j :: 0 <= j < |rows| ==> rows[j].Get(f).None?
  {
    if |rows| == 0 then None
    else if rows[0].Get(f).Some? then Some(0)
    else
      match NewestIndex(rows[1..], f)
      case None => None
      case Some(k) => Some(k + 1)
  }

  /** The newest non-null value of column `f`, or null when every row has it null. */
  function NewestValue(rows: seq<Row>, f: Field): (v: Option<int>)
  {
    match NewestIndex(rows, f)
    case None => None
    case Some(k) => rows[k].Get(f)
  }

  /** The rows newer than the balance anchor; all rows when there is no anchor. */
  function NewerThanAnchor(rows: seq<Row>): (s: seq<Row>)
  {
    match NewestIndex(rows, BalanceField)
    case None => rows
    case Some(k) => rows[..k]
  }

  /** The row's contribution to a sum of deltas: a null delta counts as 0. */
  function DeltaOf(row: Row): (d: int)
    ensures row.delta.Some? ==> d == row.delta.value
  {
    if row.delta.Some? then row.delta.value else 0
  }

  /** The sum of the non-null deltas of `rows`. */
  function SumDeltas(rows: seq<Row>): (s: int)
  {
    if |rows| == 0 then 0 else DeltaOf(rows[0]) + SumDeltas(rows[1..])
  }

  /**
    The balance the rows describe: the anchor's snapshot plus the deltas
    recorded after it, or null when no row carries a snapshot.
   */
  function AnchoredBalance(rows: seq<Row>): (b: Option<int>)
  {
    match NewestIndex(rows, BalanceField)
    case None => None
    case Some(k) => Some(rows[k].balance.value + SumDeltas(rows[..k]))
  }

  /** Presentation with Python truthiness: null and 0 both read as unknown. */
  function Shown(v: Option<int>): (r: Option<int>)
    ensures r.Some? <==> Truthy(v)
    ensures r.Some? ==> r == v
  {
    if Truthy(v) then v else None
  }

  /** What the account listing shows, in minor units. */
  datatype Reading = Reading(balance: Option<int>, debt: Option<int>)

  /** The reading of an account whose rows, newest first, are `rows`. */
  function Reconstruct(rows: seq<Row>): (reading: Reading)
  {
    var w := Window(rows);
    Reading(Shown(AnchoredBalance(w)), Shown(NewestValue(w, DebtField)))
  }

  // ---------------------------------------------------------------------------
  // The loop as written
  // ---------------------------------------------------------------------------

  /** The three loop variables of `compute_balance_for`. */
  datatype Tally = Tally(balance: Option<int>, delta: int, debt: Option<int>)

  const Start := Tally(None, 0, None)

  /**
    One iteration of the loop body. The three tests run in order, so the
    delta test already sees a balance the first test has just set: the
    anchor row's own delta is not added.
   */
  function Step(t: Tally, row: Row): (r: Tally)
    ensures t.balance.Some? ==> r.balance == t.balance
    ensures t.balance.None? ==> r.balance == row.balance
    ensures r.balance.None? ==> r.delta == t.delta + DeltaOf(row)
    ensures r.balance.Some? ==> r.delta == t.delta
    ensures r.debt == (if t.debt.Some? then t.debt else row.debt)
  {
    var balance := if t.balance.None? && row.balance.Some? then row.balance else t.balance;
    var delta := if balance.None? && row.delta.Some? then t.delta + row.delta.value else t.delta;
    var debt := if t.debt.None? && row.debt.Some? then row.debt else t.debt;
    Tally(balance, delta, debt)
  }

  /** The loop variables after iterating over all of `rows`, newest first. */
  function Replay(rows: seq<Row>): (r: Tally)
    ensures r.balance.Some? <==> exists i :: 0 <= i < |rows| && rows[i].balance.Some?
    ensures r.debt.Some? <==> exists i :: 0 <= i < |rows| && rows[i].debt.Some?
    ensures r.balance.None? ==> r.delta == SumDeltas(rows)
  {
    if |rows| == 0 then Start
    else
      var older, row := rows[..|rows| - 1], rows[|rows| - 1];
      assert rows == older + [row];
      assert forall i :: 0 <= i < |older| ==> older[i] == rows[i];
      SumDeltasAppend(older, row);
      Step(Replay(older), row)
  }

  /** The balance after the loop: the accumulated delta is added only to a known anchor. */
  function Settle(t: Tally): (b: Option<int>)
    ensures b.Some? <==> t.balance.Some?
    ensures b.Some? ==> b.value - t.balance.value == t.delta
  {
    if t.balance.Some? then Some(t.balance.value + t.delta) else None
  }

  // ---------------------------------------------------------------------------
  // The loop computes the reference
  // ---------------------------------------------------------------------------

  /** Appending an older row can only supply an index the rows lacked. */
  lemma {:induction false} NewestIndexAppend(rows: seq<Row>, row: Row, f: Field)
    ensures NewestIndex(rows + [row], f) ==
      if NewestIndex(rows, f).Some? then NewestIndex(rows, f)
      else if row.Get(f).Some? then Some(|rows|)
      else None
  {
    if |rows| > 0 {
      assert (rows + [row])[0] == rows[0];
      assert (rows + [row])[1..] == rows[1..] + [row];
      NewestIndexAppend(rows[1..], row, f);
    }
  }

  lemma {:induction false} SumDeltasAppend(rows: seq<Row>, row: Row)
    ensures SumDeltas(rows + [row]) == SumDeltas(rows) + DeltaOf(row)
  {
    if |rows| > 0 {
      assert (rows + [row])[1..] == rows[1..] + [row];
      SumDeltasAppend(rows[1..], row);
    }
  }

  /**
    The loop variables after any prefix of the rows: `balance` holds the
    anchor, `delta` the sum of the deltas newer than it, `debt` the newest
    debt snapshot.
   */
  lemma {:induction false} ReplayTracksAnchor(rows: seq<Row>)
    ensures Replay(rows).balance == NewestValue(rows, BalanceField)
    ensures Replay(rows).delta == SumDeltas(NewerThanAnchor(rows))
    ensures Replay(rows).debt == NewestValue(rows, DebtField)
  {
    if |rows| > 0 {
      var older := rows[..|rows| - 1];
      var row := rows[|rows| - 1];
      assert rows == older + [row];
      ReplayTracksAnchor(older);
      NewestIndexAppend(older, row, BalanceField);
      NewestIndexAppend(older, row, DebtField);
      match NewestIndex(older, BalanceField)
      case Some(k) =>
        assert rows[..k] == older[..k];
        assert rows[k] == older[k];
      case None =>
        if row.balance.Some? {
          assert rows[..|older|] == older;
        } else {
          SumDeltasAppend(older, row);
        }
      match NewestIndex(older, DebtField)
      case Some(k) =>
        assert rows[k] == older[k];
      case None =>
    }
  }

  /** Replaying the rows and settling the tally yields the anchored balance and newest debt. */
  lemma ReplayComputesReference(rows: seq<Row>)
    ensures Settle(Replay(rows)) == AnchoredBalance(rows)
    ensures Replay(rows).debt == NewestValue(rows, DebtField)
  {
    ReplayTracksAnchor(rows);
  }

  /** `compute_balance_for` for one account, whose rows newest first are `rows`. */
  method ComputeBalance(rows: seq<Row>) returns (reading: Reading)
    ensures reading == Reconstruct(rows)
  {
    var fetched := Window(rows);
    var balance: Option<int> := None;
    var delta := 0;
    var debt: Option<int> := None;
    var i := 0;
    while i < |fetched|
      invariant i <= |fetched|
      invariant Tally(balance, delta, debt) == Replay(fetched[..i])
    {
      var row := fetched[i];
      if balance.None? && row.balance.Some? {
        balance := row.balance;
      }
      if balance.None? && row.delta.Some? {
        delta := delta + row.delta.value;
      }
      if debt.None? && row.debt.Some? {
        debt := row.debt;
      }
      assert fetched[..i + 1][..i] == fetched[..i];
      i := i + 1;
    }
    assert fetched[..i] == fetched;
    ReplayComputesReference(fetched);
    if balance.Some? {
      balance := Some(balance.value + delta);
    }
    reading := Reading(Shown(balance), Shown(debt));
  }

  /**
    `compute_balance_for` over a list of accounts: each account independently,
    from its rows in the store, newest first.
   */
  method ComputeBalances(log: Log, accounts: seq<AccountId>) returns (readings: seq<Reading>)
    ensures |readings| == |accounts|
    ensures forall i :: 0 <= i < |accounts| ==> readings[i] == Reconstruct(History(log, accounts[i]))
  {
    readings := [];
    var i := 0;
    while i < |accounts|
      invariant i <= |accounts|
      invariant |readings| == i
      invariant forall j :: 0 <= j < i ==> readings[j] == Reconstruct(History(log, accounts[j]))
    {
      var reading := ComputeBalance(History(log, accounts[i]));
      readings := readings + [reading];
      i := i + 1;
    }
  }
  // ---------------------------------------------------------------------------
  // Properties of the reading
  // ---------------------------------------------------------------------------

  /** A row with the column set and none newer with it set is the newest such row. */
  lemma NewestIndexIs(rows: seq<Row>, f: Field, k: nat)
    requires k < |rows| && rows[k].Get(f).Some?
    requires forall j :: 0 <= j < k ==> rows[j].Get(f).None?
    ensures NewestIndex(rows, f) == Some(k)
  {
    var r := NewestIndex(rows, f);
    assert r.Some? && r.value <= k;
  }

  /** The newest index of a column depends on that column alone. */
  lemma {:induction false} NewestIndexReadsOnlyColumn(a: seq<Row>, b: seq<Row>, f: Field)
    requires |a| == |b|
    requires forall i :: 0 <= i < |a| ==> a[i].Get(f) == b[i].Get(f)
    ensures NewestIndex(a, f) == NewestIndex(b, f)
  {
    if |a| > 0 && a[0].Get(f).None? {
      NewestIndexReadsOnlyColumn(a[1..], b[1..], f);
    }
  }

  /** Rows past the first `FetchLimit` never affect the reading. */
  lemma OnlyWindowMatters(a: seq<Row>, b: seq<Row>)
    requires |a| >= FetchLimit && |b| >= FetchLimit
    requires a[..FetchLimit] == b[..FetchLimit]
    ensures Reconstruct(a) == Reconstruct(b)
  {
  }

  /** Replacing a row past the window leaves the reading unchanged. */
  lemma RowBeyondWindowIgnored(rows: seq<Row>, i: nat, row: Row)
    requires FetchLimit <= i < |rows|
    ensures Reconstruct(rows[i := row]) == Reconstruct(rows)
  {
    assert rows[i := row][..FetchLimit] == rows[..FetchLimit];
    OnlyWindowMatters(rows[i := row], rows);
  }

  /**
    When the newest snapshot in the window is row `k`, the balance is that
    snapshot plus the deltas of the `k` newer rows (shown as unknown if 0).
   */
  lemma BalanceFromNewestSnapshot(rows: seq<Row>, k: nat)
    requires k < |rows| && k < FetchLimit
    requires rows[k].balance.Some?
    requires forall j :: 0 <= j < k ==> rows[j].balance.None?
    ensures Reconstruct(rows).balance == Shown(Some(rows[k].balance.value + SumDeltas(rows[..k])))
  {
    var w := Window(rows);
    assert w[k] == rows[k];
    NewestIndexIs(w, BalanceField, k);
    assert w[..k] == rows[..k];
  }

  /** The anchor row's own delta does not count: the snapshot already includes it. */
  lemma AnchorOwnDeltaIgnored(rows: seq<Row>, k: nat, d: Option<int>)
    requires k < |rows| && k < FetchLimit
    requires rows[k].balance.Some?
    requires forall j :: 0 <= j < k ==> rows[j].balance.None?
    ensures Reconstruct(rows[k := rows[k].(delta := d)]) == Reconstruct(rows)
  {
    var edited := rows[k := rows[k].(delta := d)];
    BalanceFromNewestSnapshot(rows, k);
    BalanceFromNewestSnapshot(edited, k);
    assert edited[..k] == rows[..k];
    DebtReadsOnlyDebt(edited, rows);
  }

  /** Without a snapshot in the window the balance is unknown, whatever the deltas. */
  lemma UnknownWithoutSnapshot(rows: seq<Row>)
    requires forall j :: 0 <= j < |rows| && j < FetchLimit ==> rows[j].balance.None?
    ensures Reconstruct(rows).balance == None
  {
    var w := Window(rows);
    assert forall j :: 0 <= j < |w| ==> w[j] == rows[j];
  }

  /** The debt is the newest debt snapshot in the window (shown as unknown if 0). */
  lemma DebtFromNewestSnapshot(rows: seq<Row>, k: nat)
    requires k < |rows| && k < FetchLimit
    requires rows[k].debt.Some?
    requires forall j :: 0 <= j < k ==> rows[j].debt.None?
    ensures Reconstruct(rows).debt == Shown(rows[k].debt)
  {
    var w := Window(rows);
    assert w[k] == rows[k];
    NewestIndexIs(w, DebtField, k);
  }

  /** Without a debt snapshot in the window the debt is unknown. */
  lemma UnknownDebtWithoutSnapshot(rows: seq<Row>)
    requires forall j :: 0 <= j < |rows| && j < FetchLimit ==> rows[j].debt.None?
    ensures Reconstruct(rows).debt == None
  {
    var w := Window(rows);
    assert forall j :: 0 <= j < |w| ==> w[j] == rows[j];
  }

  /** The debt never depends on any delta or balance column. */
  lemma DebtReadsOnlyDebt(a: seq<Row>, b: seq<Row>)
    requires |a| == |b|
    requires forall i :: 0 <= i < |a| ==> a[i].debt == b[i].debt
    ensures Reconstruct(a).debt == Reconstruct(b).debt
  {
    var wa, wb := Window(a), Window(b);
    assert forall i :: 0 <= i < |wa| ==> wa[i].Get(DebtField) == wb[i].Get(DebtField);
    NewestIndexReadsOnlyColumn(wa, wb, DebtField);
  }

  /** A new row carrying a balance or debt snapshot is what the account reads next. */
  lemma SnapshotOnTop(row: Row, rows: seq<Row>)
    ensures row.balance.Some? ==> Reconstruct([row] + rows).balance == Shown(row.balance)
    ensures row.debt.Some? ==> Reconstruct([row] + rows).debt == Shown(row.debt)
  {
    var h := [row] + rows;
    if row.balance.Some? {
      BalanceFromNewestSnapshot(h, 0);
      assert h[..0] == [];
    }
    if row.debt.Some? {
      DebtFromNewestSnapshot(h, 0);
    }
  }

  /**
    A new row carrying only a delta adds it to the balance, provided the
    newest snapshot stays inside the window.
   */
  lemma DeltaOnTop(row: Row, rows: seq<Row>, k: nat, d: int)
    requires row.balance.None? && row.delta == Some(d)
    requires NewestIndex(rows, BalanceField) == Some(k) && k + 1 < FetchLimit
    ensures Reconstruct([row] + rows).balance == Shown(Some(AnchoredBalance(rows).value + d))
  {
    var h := [row] + rows;
    assert h[k + 1] == rows[k];
    BalanceFromNewestSnapshot(h, k + 1);
    assert h[..k + 1] == [row] + rows[..k];
    assert h[..k + 1][1..] == rows[..k];
  }

  // ---------------------------------------------------------------------------
  // Worked examples
  // ---------------------------------------------------------------------------

  function DeltaRow(d: int): (row: Row) { Row(None, 0, Some(d), None, None) }
  function BalanceRow(b: int): (row: Row) { Row(None, 0, None, Some(b), None) }
  function DebtRow(d: int): (row: Row) { Row(None, 0, None, None, Some(d)) }

  /** Two deltas on top of a snapshot: 1000 + 500 - 200. */
  lemma DeltasOnTopOfSnapshot()
    ensures Reconstruct([DeltaRow(500), DeltaRow(-200), BalanceRow(1000)]) == Reading(Some(1300), None)
  {
    var rows := [DeltaRow(500), DeltaRow(-200), BalanceRow(1000)];
    BalanceFromNewestSnapshot(rows, 2);
    assert rows[..2] == [DeltaRow(500), DeltaRow(-200)];
    UnknownDebtWithoutSnapshot(rows);
  }

  /** A debt snapshot between deltas is untouched by them; with no snapshot the balance is unknown. */
  lemma DebtBetweenDeltas()
    ensures Reconstruct([DeltaRow(100), DebtRow(300), DeltaRow(-50)]) == Reading(None, Some(300))
  {
    var rows := [DeltaRow(100), DebtRow(300), DeltaRow(-50)];
    UnknownWithoutSnapshot(rows);
    DebtFromNewestSnapshot(rows, 1);
  }

  /** A snapshot that is the 101st newest row is past the window: the balance is unknown. */
  lemma SnapshotPastWindow()
    ensures Reconstruct(seq(FetchLimit, _ => DeltaRow(1)) + [BalanceRow(1000)]).balance == None
  {
    var rows := seq(FetchLimit, _ => DeltaRow(1)) + [BalanceRow(1000)];
    assert forall j :: 0 <= j < FetchLimit ==> rows[j] == DeltaRow(1);
    UnknownWithoutSnapshot(rows);
  }

  /** A balance that reconstructs to 0 reads exactly like an account with no rows. */
  lemma ZeroBalanceReadsAsUnknown()
    ensures Reconstruct([DeltaRow(-500), BalanceRow(500)]) == Reconstruct([])
  {
    var rows := [DeltaRow(-500), BalanceRow(500)];
    BalanceFromNewestSnapshot(rows, 1);
    assert rows[..1] == [DeltaRow(-500)];
    UnknownDebtWithoutSnapshot(rows);
    UnknownWithoutSnapshot([]);
    UnknownDebtWithoutSnapshot([]);
  }
}
