/**
  Recording a multi-account transaction: `CreateTransactionHandler.post`
  in web/main.py.

  For each listed account, in name order, the form may supply a balance, a
  delta and a debt. A candidate row takes the supplied fields; it is kept
  only when one of them is truthy, so a row whose values are all zero is
  dropped. Then one transaction is stored, and after it every kept row,
  stamped with that transaction.
 */
module Recording {
  import opened Rows
  import opened Store
  import opened Reconstruction

  /** How many accounts, in name order, the handler fetches. */
  const AccountLimit: nat := 20

  /**
    One text field of the form, after `int(float(x) * 100)`: empty, the
    integer the conversion yields in minor units, or text on which the
    conversion raises (not a number, an infinity, a NaN).
   */
  datatype FieldInput = Blank | Amount(cents: int) | Malformed

  /**
    The field makes the request raise: either the conversion fails, or its
    result does not fit the 64-bit column it is assigned to.
   */
  function Raises(x: FieldInput): (raises: bool)
    ensures x.Blank? ==> !raises
    ensures x.Malformed? ==> raises
    ensures x.Amount? ==> (raises <==> !Fits(Supplied(x)))
    ensures !raises ==> Fits(Supplied(x))
  {
    x.Malformed? || (x.Amount? && !Fits(Some(x.cents)))
  }

  /** The three fields the form holds for one account. */
  datatype AccountInput = AccountInput(balance: FieldInput, delta: FieldInput, debt: FieldInput)
  {
    function Get(f: Field): (x: FieldInput)
    {
      match f
      case BalanceField => balance
      case DeltaField => delta
      case DebtField => debt
    }

    /** No field makes the request raise. */
    predicate WellFormed()
    {
      !Raises(balance) && !Raises(delta) && !Raises(debt)
    }
  }

  /** The submitted form, by account; a missing parameter reads as empty text. */
  type Form = map<AccountId, AccountInput>

  function InputFor(form: Form, a: AccountId): (input: AccountInput)
    ensures a !in form ==> forall f: Field :: input.Get(f) == Blank
  {
    if a in form then form[a] else AccountInput(Blank, Blank, Blank)
  }

  /** The value a field sets on the row: none unless it was supplied. */
  function Supplied(x: FieldInput): (v: Option<int>)
    ensures v.Some? <==> x.Amount?
    ensures v.Some? ==> v.value == x.cents
  {
    if x.Amount? then Some(x.cents) else None
  }

  /** The request fails on the first field that raises. */
  datatype ParseError = ParseError(account: AccountId, field: Field)

  datatype Result<+T> = Ok(value: T) | Err(error: ParseError)

  /** The accounts the handler fetches: the first `AccountLimit` in name order. */
  function Listed(accounts: seq<AccountId>): (listed: seq<AccountId>)
    ensures |listed| <= AccountLimit
    ensures |listed| <= |accounts| && listed == accounts[..|listed|]
    ensures |listed| < AccountLimit ==> listed == accounts
  {
    if |accounts| <= AccountLimit then accounts else accounts[..AccountLimit]
  }

  /** The candidate row of account `a`: each column set exactly when its field was supplied. */
  function Draft(a: AccountId, input: AccountInput): (row: Row)
    ensures row.account == a && row.transaction.None?
    ensures forall f: Field :: row.Get(f) == Supplied(input.Get(f))
  {
    var row := Row(None, a, Supplied(input.delta), Supplied(input.balance), Supplied(input.debt));
    assert row.Get(BalanceField) == Supplied(input.Get(BalanceField));
    assert row.Get(DeltaField) == Supplied(input.Get(DeltaField));
    assert row.Get(DebtField) == Supplied(input.Get(DebtField));
    row
  }

  /** Python truthiness of the candidate row. */
  function Keeps(row: Row): (kept: bool)
    ensures kept <==> exists f: Field :: Truthy(row.Get(f))
  {
    assert row.Get(BalanceField) == row.balance;
    assert row.Get(DeltaField) == row.delta;
    assert row.Get(DebtField) == row.debt;
    Truthy(row.balance) || Truthy(row.delta) || Truthy(row.debt)
  }

  /** The row built for one account, if any. */
  function Candidate(a: AccountId, input: AccountInput): (r: Result<Option<Row>>)
    ensures r.Ok? <==> input.WellFormed()
    ensures r.Err? ==> r.error.account == a && Raises(input.Get(r.error.field))
    ensures r.Err? && r.error.field != BalanceField ==> !Raises(input.balance)
    ensures r.Err? && r.error.field == DebtField ==> !Raises(input.delta)
    ensures r.Ok? ==> (r.value.Some? <==> exists f: Field :: Truthy(Supplied(input.Get(f))))
    ensures r.Ok? && r.value.Some? ==>
      && r.value.value.account == a
      && r.value.value.transaction.None?
      && Storable(r.value.value)
      && forall f: Field :: r.value.value.Get(f) == Supplied(input.Get(f))
  {
    if Raises(input.balance) then Err(ParseError(a, BalanceField))
    else if Raises(input.delta) then Err(ParseError(a, DeltaField))
    else if Raises(input.debt) then Err(ParseError(a, DebtField))
    else
      var row := Draft(a, input);
      if Keeps(row) then Ok(Some(row)) else Ok(None)
  }

  /** The rows built for `accounts`, in order, or the first parse error. */
  function Candidates(accounts: seq<AccountId>, form: Form): (r: Result<seq<Row>>)
    ensures r.Ok? <==> forall a :: a in accounts ==> InputFor(form, a).WellFormed()
    ensures r.Err? ==> r.error.account in accounts && !InputFor(form, r.error.account).WellFormed()
    ensures r.Ok? ==> |r.value| <= |accounts|
    ensures r.Ok? ==> forall row :: row in r.value ==>
      row.account in accounts && Keeps(row) && Storable(row) && row == Draft(row.account, InputFor(form, row.account))
    ensures r.Ok? ==> forall a :: a in accounts && Keeps(Draft(a, InputFor(form, a))) ==>
      Draft(a, InputFor(form, a)) in r.value
  {
    if |accounts| == 0 then Ok([])
    else
      var a := accounts[0];
      match Candidate(a, InputFor(form, a))
      case Err(e) => Err(e)
      case Ok(c) =>
        match Candidates(accounts[1..], form)
        case Err(e) => Err(e)
        case Ok(rest) =>
          assert forall x :: x in accounts <==> x == a || x in accounts[1..];
          if c.Some? then
            assert c.value == Draft(a, InputFor(form, a));
            Ok([c.value] + rest)
          else
            Ok(rest)
  }

  datatype Outcome = Rejected(error: ParseError) | Recorded(log: Log, txn: TransactionId)

  /** Stamps each row with the transaction and stores it, one put per row, in order. */
  function PutAll(log: Log, rows: seq<Row>, txn: TransactionId): (r: Log)
    ensures |r| == |log| + |rows|
    ensures r[..|log|] == log
    ensures forall k :: |log| <= k < |r| ==> r[k] == PutRow(rows[k - |log|].(transaction := Some(txn)))
    decreases |rows|
  {
    if |rows| == 0 then log
    else PutAll(log + [PutRow(rows[0].(transaction := Some(txn)))], rows[1..], txn)
  }

  /**
    Storing a non-row write and then stamped rows of distinct accounts puts
    the row of account `rows[i].account` on top of that account's history.
   */
  lemma {:induction false} StampedRowOnTop(log: Log, first: Put, rows: seq<Row>, txn: TransactionId, i: nat)
    requires first.PutTransaction?
    requires i < |rows|
    requires forall k :: 0 <= k < |rows| && k != i ==> rows[k].account != rows[i].account
    ensures History(PutAll(log + [first], rows, txn), rows[i].account)
      == [rows[i].(transaction := Some(txn))] + History(log, rows[i].account)
  {
    var a := rows[i].account;
    var stored := PutAll(log + [first], rows, txn);
    var later := stored[|log|..];
    assert stored[..|log| + 1] == log + [first];
    assert stored == log + later;
    HistoryAppend(log, later, a);
    forall k | 0 <= k < |later| && k != i + 1
      ensures !(later[k].PutRow? && later[k].row.account == a)
    {
      if k > 0 {
        assert later[k] == stored[|log| + k];
      }
    }
    HistoryWithOneRowOf(later, a, i + 1);
  }

  /**
    The writes of one recorded transaction on top of `log`: the earlier
    writes, then the transaction under the next key, then the stamped rows.
   */
  lemma StoredLayout(log: Log, description: string, rows: seq<Row>, listed: seq<AccountId>)
    requires forall row :: row in rows ==> row.account in listed
    ensures var stored := PutAll(log + [PutTransaction(|log|, description)], rows, |log|);
      && |stored| == |log| + 1 + |rows|
      && stored[..|log|] == log
      && stored[|log|] == PutTransaction(|log|, description)
      && (forall k :: |log| < k < |stored| ==> stored[k] == PutRow(rows[k - |log| - 1].(transaction := Some(|log|))))
      && (forall k :: |log| < k < |stored| ==> stored[k].row.account in listed)
  {
    var start := log + [PutTransaction(|log|, description)];
    var stored := PutAll(start, rows, |log|);
    assert stored[..|start|] == start;
    assert stored[..|log|] == start[..|log|] == log;
    forall k | |log| < k < |stored|
      ensures stored[k].row.account in listed
    {
      assert rows[k - |log| - 1] in rows;
    }
  }

  /**
    The whole request: build the candidates of the listed accounts, then
    store the transaction, then the stamped rows. A parse error stores
    nothing.
   */
  function Record(log: Log, description: string, accounts: seq<AccountId>, form: Form): (out: Outcome)
    ensures out.Rejected? <==> exists a :: a in Listed(accounts) && !InputFor(form, a).WellFormed()
    ensures out.Rejected? ==> out.error.account in Listed(accounts)
    ensures out.Recorded? ==>
      && Candidates(Listed(accounts), form).Ok?
      && out.txn == |log|
      && |out.log| == |log| + 1 + |Candidates(Listed(accounts), form).value|
      && out.log[..|log|] == log
      && out.log[|log|] == PutTransaction(out.txn, description)
      && (forall k :: |log| < k < |out.log| ==>
            out.log[k] == PutRow(Candidates(Listed(accounts), form).value[k - |log| - 1].(transaction := Some(out.txn))))
    ensures out.Recorded? ==> forall k :: |log| < k < |out.log| ==>
      && out.log[k].PutRow?
      && out.log[k].row.transaction == Some(out.txn)
      && out.log[k].row.account in Listed(accounts)
  {
    match Candidates(Listed(accounts), form)
    case Err(e) => Rejected(e)
    case Ok(rows) =>
      StoredLayout(log, description, rows, Listed(accounts));
      Recorded(PutAll(log + [PutTransaction(|log|, description)], rows, |log|), |log|)
  }

  // ---------------------------------------------------------------------------
  // Candidate rows
  // ---------------------------------------------------------------------------

  /** `x` comes strictly before `y` in `accounts`. */
  ghost predicate Precedes(accounts: seq<AccountId>, x: AccountId, y: AccountId)
  {
    exists p, q :: 0 <= p < q < |accounts| && accounts[p] == x && accounts[q] == y
  }

  lemma PrecedesInTail(accounts: seq<AccountId>, x: AccountId, y: AccountId)
    requires |accounts| > 0 && Precedes(accounts[1..], x, y)
    ensures Precedes(accounts, x, y)
  {
    var p, q :| 0 <= p < q < |accounts[1..]| && accounts[1..][p] == x && accounts[1..][q] == y;
    assert accounts[p + 1] == x && accounts[q + 1] == y;
  }

  /** One step of the loop over the accounts: the head's row, if any, then the rest. */
  lemma CandidatesUnfold(accounts: seq<AccountId>, form: Form)
    requires |accounts| > 0 && Candidates(accounts, form).Ok?
    ensures Candidate(accounts[0], InputFor(form, accounts[0])).Ok?
    ensures Candidates(accounts[1..], form).Ok?
    ensures var head := Candidate(accounts[0], InputFor(form, accounts[0])).value;
      Candidates(accounts, form).value
        == (if head.Some? then [head.value] else []) + Candidates(accounts[1..], form).value
  {
  }

  lemma HeadPrecedesTail(accounts: seq<AccountId>, y: AccountId)
    requires |accounts| > 0 && y in accounts[1..]
    ensures Precedes(accounts, accounts[0], y)
  {
    var q :| 0 <= q < |accounts[1..]| && accounts[1..][q] == y;
    assert accounts[q + 1] == y;
  }

  /**
    Putting at most one row of the first account in front of rows ordered
    along the remaining accounts gives rows ordered along all of them.
   */
  lemma {:induction false} OrderedCons(accounts: seq<AccountId>, first: seq<Row>, rest: seq<Row>)
    requires |accounts| > 0
    requires |first| <= 1 && forall row :: row in first ==> row.account == accounts[0]
    requires forall row :: row in rest ==> row.account in accounts[1..]
    requires forall i, j :: 0 <= i < j < |rest| ==> Precedes(accounts[1..], rest[i].account, rest[j].account)
    ensures var rows := first + rest;
      forall i, j :: 0 <= i < j < |rows| ==> Precedes(accounts, rows[i].account, rows[j].account)
  {
    var rows := first + rest;
    var skip := |first|;
    forall i, j | 0 <= i < j < |rows|
      ensures Precedes(accounts, rows[i].account, rows[j].account)
    {
      assert rows[j] == rest[j - skip] && rest[j - skip] in rest;
      if i < skip {
        assert rows[i] == first[0] && first[0] in first;
        HeadPrecedesTail(accounts, rest[j - skip].account);
      } else {
        assert rows[i] == rest[i - skip];
        PrecedesInTail(accounts, rows[i].account, rows[j].account);
      }
    }
  }

  /** The candidate rows follow the order of the accounts they were built for. */
  lemma {:induction false} CandidatesFollowAccountOrder(accounts: seq<AccountId>, form: Form)
    requires Candidates(accounts, form).Ok?
    ensures var rows := Candidates(accounts, form).value;
      forall i, j :: 0 <= i < j < |rows| ==> Precedes(accounts, rows[i].account, rows[j].account)
  {
    if |accounts| > 0 {
      CandidatesUnfold(accounts, form);
      CandidatesFollowAccountOrder(accounts[1..], form);
      var head := Candidate(accounts[0], InputFor(form, accounts[0])).value;
      OrderedCons(accounts, if head.Some? then [head.value] else [], Candidates(accounts[1..], form).value);
    }
  }

  /** With distinct accounts, no account gets two rows. */
  lemma CandidatesOnePerAccount(accounts: seq<AccountId>, form: Form)
    requires Distinct(accounts)
    requires Candidates(accounts, form).Ok?
    ensures var rows := Candidates(accounts, form).value;
      forall i, j :: 0 <= i < j < |rows| ==> rows[i].account != rows[j].account
  {
    var rows := Candidates(accounts, form).value;
    CandidatesFollowAccountOrder(accounts, form);
    forall i, j | 0 <= i < j < |rows|
      ensures rows[i].account != rows[j].account
    {
      assert Precedes(accounts, rows[i].account, rows[j].account);
    }
  }

  /** The reported error is the first rejected field in account order. */
  lemma {:induction false} FirstParseErrorReported(accounts: seq<AccountId>, form: Form)
    requires Candidates(accounts, form).Err?
    ensures var e := Candidates(accounts, form).error;
      exists i :: 0 <= i < |accounts| && accounts[i] == e.account
        && Raises(InputFor(form, accounts[i]).Get(e.field))
        && forall j :: 0 <= j < i ==> InputFor(form, accounts[j]).WellFormed()
  {
    var e := Candidates(accounts, form).error;
    var a := accounts[0];
    if Candidate(a, InputFor(form, a)).Err? {
      assert accounts[0] == e.account;
    } else {
      FirstParseErrorReported(accounts[1..], form);
      var i :| 0 <= i < |accounts[1..]| && accounts[1..][i] == e.account
        && Raises(InputFor(form, accounts[1..][i]).Get(e.field))
        && forall j :: 0 <= j < i ==> InputFor(form, accounts[1..][j]).WellFormed();
      assert accounts[i + 1] == e.account;
      assert forall j :: 1 <= j < i + 1 ==> accounts[j] == accounts[1..][j - 1];
    }
  }

  /** Supplied values that are all zero produce no row, exactly as if nothing were supplied. */
  lemma ZeroInputsProduceNoRow(a: AccountId)
    ensures Candidate(a, AccountInput(Blank, Amount(0), Blank)) == Ok(None)
    ensures Candidate(a, AccountInput(Amount(0), Amount(0), Amount(0))) == Ok(None)
    ensures Candidate(a, AccountInput(Blank, Amount(0), Blank)) == Candidate(a, AccountInput(Blank, Blank, Blank))
  {
  }

  // ---------------------------------------------------------------------------
  // What a recorded transaction does to the ledger
  // ---------------------------------------------------------------------------

  /** An account that gets no row keeps its history, and so its reading. */
  lemma UntouchedAccountUnchanged(log: Log, description: string, accounts: seq<AccountId>, form: Form, a: AccountId)
    requires Record(log, description, accounts, form).Recorded?
    requires !(a in Listed(accounts) && Keeps(Draft(a, InputFor(form, a))))
    ensures History(Record(log, description, accounts, form).log, a) == History(log, a)
    ensures Reconstruct(History(Record(log, description, accounts, form).log, a)) == Reconstruct(History(log, a))
  {
    var out := Record(log, description, accounts, form);
    var rows := Candidates(Listed(accounts), form).value;
    var later := out.log[|log|..];
    assert out.log == log + later;
    HistoryAppend(log, later, a);
    forall k | 0 <= k < |later|
      ensures !(later[k].PutRow? && later[k].row.account == a)
    {
      if k > 0 {
        assert later[k] == out.log[|log| + k];
        assert rows[k - 1] in rows;
      }
    }
    HistoryWithoutRowsOf(later, a);
  }

  /** An account whose supplied values are all zero is left exactly as it was. */
  lemma ZeroInputLeavesAccountUnchanged(log: Log, description: string, accounts: seq<AccountId>, form: Form, a: AccountId)
    requires Record(log, description, accounts, form).Recorded?
    requires forall f: Field :: InputFor(form, a).Get(f) == Blank || InputFor(form, a).Get(f) == Amount(0)
    ensures History(Record(log, description, accounts, form).log, a) == History(log, a)
  {
    var input := InputFor(form, a);
    assert input.Get(BalanceField) == input.balance;
    assert input.Get(DeltaField) == input.delta;
    assert input.Get(DebtField) == input.debt;
    UntouchedAccountUnchanged(log, description, accounts, form, a);
  }

  /** Accounts past the first `AccountLimit` in name order never get a row. */
  lemma UnlistedAccountUnchanged(log: Log, description: string, accounts: seq<AccountId>, form: Form, i: nat)
    requires Distinct(accounts)
    requires AccountLimit <= i < |accounts|
    requires Record(log, description, accounts, form).Recorded?
    ensures History(Record(log, description, accounts, form).log, accounts[i]) == History(log, accounts[i])
  {
    assert accounts[i] !in Listed(accounts);
    UntouchedAccountUnchanged(log, description, accounts, form, accounts[i]);
  }

  /**
    A listed account whose row is kept gets exactly that row, stamped with
    the new transaction, on top of its history.
   */
  lemma KeptRowOnTopOfHistory(log: Log, description: string, accounts: seq<AccountId>, form: Form, a: AccountId)
    requires Distinct(accounts)
    requires Record(log, description, accounts, form).Recorded?
    requires a in Listed(accounts) && Keeps(Draft(a, InputFor(form, a)))
    ensures var out := Record(log, description, accounts, form);
      History(out.log, a) == [Draft(a, InputFor(form, a)).(transaction := Some(out.txn))] + History(log, a)
  {
    var listed := Listed(accounts);
    var rows := Candidates(listed, form).value;
    assert Distinct(listed);
    CandidatesOnePerAccount(listed, form);
    var i :| 0 <= i < |rows| && rows[i] == Draft(a, InputFor(form, a));
    StampedRowOnTop(log, PutTransaction(|log|, description), rows, |log|, i);
  }

  /**
    A nonzero balance or debt entered for a listed account is what the
    account reads next, whatever delta was entered beside it.
   */
  lemma SnapshotsReadBack(log: Log, description: string, accounts: seq<AccountId>, form: Form, a: AccountId)
    requires Distinct(accounts)
    requires Record(log, description, accounts, form).Recorded?
    requires a in Listed(accounts)
    ensures var input := InputFor(form, a);
      var reading := Reconstruct(History(Record(log, description, accounts, form).log, a));
      && (Truthy(Supplied(input.balance)) ==> reading.balance == Supplied(input.balance))
      && (Truthy(Supplied(input.debt)) ==> reading.debt == Supplied(input.debt))
  {
    var d := Draft(a, InputFor(form, a));
    if Keeps(d) {
      KeptRowOnTopOfHistory(log, description, accounts, form, a);
      var out := Record(log, description, accounts, form);
      SnapshotOnTop(d.(transaction := Some(out.txn)), History(log, a));
    }
  }

  /**
    After a nonzero delta entered without a balance, the account reads as
    its old history with the stamped row on top: that delta, no balance, and
    whatever debt was entered beside it.
   */
  lemma DeltaRowOnTop(log: Log, description: string, accounts: seq<AccountId>, form: Form, a: AccountId, d: int)
    returns (row: Row)
    requires Distinct(accounts)
    requires Record(log, description, accounts, form).Recorded?
    requires a in Listed(accounts)
    requires InputFor(form, a).balance == Blank && InputFor(form, a).delta == Amount(d) && d != 0
    ensures Reconstruct(History(Record(log, description, accounts, form).log, a)) == Reconstruct([row] + History(log, a))
    ensures row.balance.None? && row.delta == Some(d)
    ensures row.debt == Supplied(InputFor(form, a).debt)
  {
    var draft := Draft(a, InputFor(form, a));
    assert draft.Get(BalanceField) == Supplied(InputFor(form, a).Get(BalanceField));
    assert draft.Get(DeltaField) == Supplied(InputFor(form, a).Get(DeltaField));
    assert draft.Get(DebtField) == Supplied(InputFor(form, a).Get(DebtField));
    assert Keeps(draft);
    KeptRowOnTopOfHistory(log, description, accounts, form, a);
    row := draft.(transaction := Some(Record(log, description, accounts, form).txn));
  }

  /**
    A nonzero delta entered without a balance, for a listed account whose newest
    snapshot is among the 99 newest rows, is added to the reading.
   */
  lemma DeltaAddsToReading(log: Log, description: string, accounts: seq<AccountId>, form: Form, a: AccountId, k: nat, d: int)
    requires Distinct(accounts)
    requires Record(log, description, accounts, form).Recorded?
    requires a in Listed(accounts)
    requires InputFor(form, a).balance == Blank && InputFor(form, a).delta == Amount(d) && d != 0
    requires NewestIndex(History(log, a), BalanceField) == Some(k) && k + 1 < FetchLimit
    ensures Reconstruct(History(Record(log, description, accounts, form).log, a)).balance
      == Shown(Some(AnchoredBalance(History(log, a)).value + d))
  {
    var row := DeltaRowOnTop(log, description, accounts, form, a, d);
    DeltaOnTop(row, History(log, a), k, d);
  }

  /** A delta of -50.00 recorded over a stored balance of 10.00 reads -40.00. */
  lemma DeltaOverStoredBalance()
    ensures var log := [PutTransaction(0, "open"), PutRow(Row(Some(0), 1, None, Some(1000), None))];
      var form := map[1 := AccountInput(Blank, Amount(-5000), Blank)];
      && Record(log, "fee", [1], form).Recorded?
      && NewestIndex(History(log, 1), BalanceField) == Some(0)
      && Reconstruct(History(Record(log, "fee", [1], form).log, 1)).balance == Some(-4000)
  {
    var log := [PutTransaction(0, "open"), PutRow(Row(Some(0), 1, None, Some(1000), None))];
    var form := map[1 := AccountInput(Blank, Amount(-5000), Blank)];
    assert Listed([1]) == [1];
    assert InputFor(form, 1) == AccountInput(Blank, Amount(-5000), Blank);
    assert InputFor(form, 1).WellFormed();
    assert log[..1] == [PutTransaction(0, "open")];
    assert History(log[..1], 1) == [];
    assert History(log, 1) == [Row(Some(0), 1, None, Some(1000), None)];
    assert AnchoredBalance(History(log, 1)) == Some(1000) by {
      assert History(log, 1)[..0] == [];
    }
    DeltaAddsToReading(log, "fee", [1], form, 1, 0, -5000);
  }

  /** Every row a recorded transaction stores fits its 64-bit columns. */
  lemma RecordedRowsFit(log: Log, description: string, accounts: seq<AccountId>, form: Form)
    requires Record(log, description, accounts, form).Recorded?
    ensures var out := Record(log, description, accounts, form);
      forall k :: |log| < k < |out.log| ==> Storable(out.log[k].row)
  {
    var out := Record(log, description, accounts, form);
    var rows := Candidates(Listed(accounts), form).value;
    forall k | |log| < k < |out.log|
      ensures Storable(out.log[k].row)
    {
      assert rows[k - |log| - 1] in rows;
    }
  }

  /** An amount one past the largest 64-bit integer aborts the request; the largest one is stored. */
  lemma ColumnBoundary()
    ensures Record([], "", [1], map[1 := AccountInput(Amount(ColumnMax + 1), Blank, Blank)])
      == Rejected(ParseError(1, BalanceField))
    ensures Record([], "", [1], map[1 := AccountInput(Amount(ColumnMax), Blank, Blank)]).Recorded?
  {
    var big := map[1 := AccountInput(Amount(ColumnMax + 1), Blank, Blank)];
    var max := map[1 := AccountInput(Amount(ColumnMax), Blank, Blank)];
    assert Listed([1]) == [1] && [1][1..] == [];
    assert InputFor(big, 1) == AccountInput(Amount(ColumnMax + 1), Blank, Blank);
    assert Candidates([1], big) == Err(ParseError(1, BalanceField));
    assert InputFor(max, 1).WellFormed();
  }

  /** Recording "rent": a balance of 1200.00 for one account and a delta of -50.00 for another. */
  lemma RentExample()
    ensures Record([], "rent", [1, 2], map[1 := AccountInput(Amount(120000), Blank, Blank), 2 := AccountInput(Blank, Amount(-5000), Blank)])
      == Recorded([PutTransaction(0, "rent"),
                   PutRow(Row(Some(0), 1, None, Some(120000), None)),
                   PutRow(Row(Some(0), 2, Some(-5000), None, None))], 0)
  {
    var form := map[1 := AccountInput(Amount(120000), Blank, Blank), 2 := AccountInput(Blank, Amount(-5000), Blank)];
    var first, second := Row(None, 1, None, Some(120000), None), Row(None, 2, Some(-5000), None, None);
    assert Listed([1, 2]) == [1, 2];
    assert InputFor(form, 1) == AccountInput(Amount(120000), Blank, Blank);
    assert InputFor(form, 2) == AccountInput(Blank, Amount(-5000), Blank);
    assert Candidate(1, InputFor(form, 1)) == Ok(Some(first));
    assert Candidate(2, InputFor(form, 2)) == Ok(Some(second));
    assert [1, 2][1..] == [2] && [2][1..] == [];
    assert Candidates([], form) == Ok([]);
    assert [second] + [] == [second];
    assert Candidates([2], form) == Ok([second]);
    assert [first] + [second] == [first, second];
    assert Candidates([1, 2], form) == Ok([first, second]);
  }
}
