/** The ledger engine: the whole store as one value, its invariant, and the six
    money-movement operations as functions from the store before a request to
    the answer and the store after it. Each operation runs as one atomic unit:
    on an error the store is returned unchanged. */
module Ledger {
  import opened Outcomes
  import opened Models
  import Helpers

  datatype Store = Store(
    accounts: map<Id, Account>,
    loans: map<Id, Loan>,
    transactions: seq<Transaction>,   // append-only, oldest first
    billPayments: seq<BillPayment>,   // append-only, oldest first
    nextLoanId: Id)                   // the id the next loan document receives

  /** The fixed annual rate of every loan, in basis points (5.5 %). */
  const InterestRate: nat := 550

  // ---------------------------------------------------------------------
  // The store invariant
  // ---------------------------------------------------------------------

  ghost predicate KeyedById(accounts: map<Id, Account>)
  {
    forall k :: k in accounts ==> accounts[k].id == k
  }

  /** The number of the account stored under `k`. */
  function NumberOf(accounts: map<Id, Account>, k: Id): string
    requires k in accounts
  {
    accounts[k].accountNumber
  }

  /** The unique index on `accountNumber`: no two accounts share a number. */
  ghost predicate UniqueNumbers(accounts: map<Id, Account>)
  {
    forall j, k :: j in accounts && k in accounts && j != k ==> NumberOf(accounts, j) != NumberOf(accounts, k)
  }

  ghost predicate LoanWellFormed(s: Store, loan: Loan)
  {
    && loan.id < s.nextLoanId
    && loan.accountId in s.accounts
    && 0 < loan.loanAmount
    && loan.outstandingBalance <= loan.loanAmount
    && (loan.status == LoanStatus.Active ==> 0 < loan.outstandingBalance)
    && (loan.status == Paid ==> loan.outstandingBalance == 0)
  }

  ghost predicate Valid(s: Store)
  {
    && KeyedById(s.accounts)
    && (forall k :: k in s.accounts ==> s.accounts[k].accountNumber != "")
    && UniqueNumbers(s.accounts)
    && (forall k :: k in s.loans ==> s.loans[k].id == k && LoanWellFormed(s, s.loans[k]))
    && (forall t :: t in s.transactions ==> t.accountId in s.accounts && 0 < t.amount)
    && (forall p :: p in s.billPayments ==> p.accountId in s.accounts && 0 < p.amount && p.billerName != "")
  }

  // ---------------------------------------------------------------------
  // The lookups: `findOne` with id, owner and status filters
  // ---------------------------------------------------------------------

  /** `Account.findOne({ _id: id, userId: caller })` finds a record. */
  predicate Owned(s: Store, id: Id, caller: Id)
  {
    id in s.accounts && s.accounts[id].userId == caller
  }

  /** `Account.findOne({ _id: id, userId: caller, status: 'active' })` finds a record. */
  predicate OwnedActive(s: Store, id: Id, caller: Id)
  {
    Owned(s, id, caller) && s.accounts[id].status == AccountStatus.Active
  }

  /** `Loan.findOne({ _id: id, userId: caller, status: 'active' })` finds a record. */
  predicate ActiveLoanOf(s: Store, id: Id, caller: Id)
  {
    id in s.loans && s.loans[id].userId == caller && s.loans[id].status == LoanStatus.Active
  }

  predicate IsRecipient(a: Account, accountNumber: string)
  {
    a.accountNumber == accountNumber && a.status == AccountStatus.Active
  }

  /** `Account.findOne({ accountNumber, status: 'active' })`: the key of the active
      account with that number; the unique index makes the answer unique. */
  ghost function Recipient(accounts: map<Id, Account>, accountNumber: string): (r: Option<Id>)
    ensures r.Some? <==> exists k :: k in accounts && IsRecipient(accounts[k], accountNumber)
    ensures r.Some? ==> r.value in accounts && IsRecipient(accounts[r.value], accountNumber)
    ensures UniqueNumbers(accounts) ==>
      forall k :: k in accounts && IsRecipient(accounts[k], accountNumber) ==> r == Some(k)
  {
    if exists k :: k in accounts && IsRecipient(accounts[k], accountNumber) then
      var k :| k in accounts && IsRecipient(accounts[k], accountNumber);
      Some(k)
    else
      None
  }

  // ---------------------------------------------------------------------
  // Sums of balances and the net effect of ledger entries
  // ---------------------------------------------------------------------

  /** The sum of the balances of the accounts in `accounts`. */
  ghost function BalanceSum(accounts: map<Id, Account>): nat
    decreases accounts.Keys
  {
    if accounts == map[] then 0
    else
      var k :| k in accounts;
      accounts[k].balance + BalanceSum(accounts - {k})
  }

  /** Any account can be taken out of the sum first. */
  lemma {:induction false} BalanceSumPick(accounts: map<Id, Account>, k: Id)
    requires k in accounts
    ensures BalanceSum(accounts) == accounts[k].balance + BalanceSum(accounts - {k})
    decreases accounts.Keys
  {
    var j :| j in accounts && BalanceSum(accounts) == accounts[j].balance + BalanceSum(accounts - {j});
    if j != k {
      var rest := accounts - {j} - {k};
      assert accounts - {j} - {k} == accounts - {k} - {j};
      BalanceSumPick(accounts - {j}, k);
      BalanceSumPick(accounts - {k}, j);
    }
  }

  /** Replacing one account changes the sum by the change of its balance. */
  lemma BalanceSumUpdate(accounts: map<Id, Account>, k: Id, a: Account)
    requires k in accounts
    ensures BalanceSum(accounts[k := a]) == BalanceSum(accounts) - accounts[k].balance + a.balance
  {
    BalanceSumPick(accounts, k);
    BalanceSumPick(accounts[k := a], k);
    assert accounts[k := a] - {k} == accounts - {k};
  }

  /** A new account document under a fresh id, with a number no other account
      holds, starts empty, active and a savings account; storing it keeps the
      invariant and leaves the sum of balances as it was. */
  lemma OpenAccountKeepsValid(s: Store, id: Id, userId: Id, accountNumber: string)
    requires Valid(s) && id !in s.accounts && accountNumber != ""
    requires forall k :: k in s.accounts ==> NumberOf(s.accounts, k) != accountNumber
    ensures var a := NewAccount(id, userId, accountNumber);
      && a.balance == 0 && a.status == AccountStatus.Active && a.accountType == Savings
      && Valid(s.(accounts := s.accounts[id := a]))
      && BalanceSum(s.accounts[id := a]) == BalanceSum(s.accounts)
  {
    var a := NewAccount(id, userId, accountNumber);
    var accounts := s.accounts[id := a];
    forall j, k | j in accounts && k in accounts && j != k
      ensures NumberOf(accounts, j) != NumberOf(accounts, k)
    {
      if j != id && k != id {
        assert NumberOf(accounts, j) == NumberOf(s.accounts, j);
        assert NumberOf(accounts, k) == NumberOf(s.accounts, k);
      }
    }
    forall k | k in s.loans
      ensures LoanWellFormed(s.(accounts := accounts), s.loans[k])
    {
      assert LoanWellFormed(s, s.loans[k]);
    }
    BalanceSumPick(accounts, id);
    assert accounts - {id} == s.accounts;
  }

  /** How an entry moved the balance of account `id`: plus its amount for a
      credit, minus for a debit, nothing for another account's entry. */
  function Delta(t: Transaction, id: Id): int
  {
    if t.accountId != id then 0
    else if IsCredit(t.transactionType) then t.amount
    else 0 - t.amount
  }

  /** The net movement the entries `ts` record for account `id`. */
  function Net(ts: seq<Transaction>, id: Id): int
  {
    if ts == [] then 0 else Net(ts[..|ts| - 1], id) + Delta(ts[|ts| - 1], id)
  }

  lemma {:induction false} NetConcat(xs: seq<Transaction>, ys: seq<Transaction>, id: Id)
    ensures Net(xs + ys, id) == Net(xs, id) + Net(ys, id)
    decreases |ys|
  {
    if ys == [] {
      assert xs + ys == xs;
    } else {
      var init := ys[..|ys| - 1];
      assert (xs + ys)[..|xs + ys| - 1] == xs + init;
      NetConcat(xs, init, id);
    }
  }

  /** `after` extends the ledger of `before`, and every account's balance moved by
      exactly the net of the entries appended in between. */
  ghost predicate Posted(before: Store, after: Store)
  {
    && |before.transactions| <= |after.transactions|
    && after.transactions[..|before.transactions|] == before.transactions
    && after.accounts.Keys == before.accounts.Keys
    && forall id :: id in before.accounts ==>
         after.accounts[id].balance
           == before.accounts[id].balance + Net(after.transactions[|before.transactions|..], id)
  }

  lemma NetOfOne(a: Transaction)
    ensures forall id :: Net([a], id) == Delta(a, id)
  {
    assert [a][..0] == [];
  }

  lemma NetOfTwo(a: Transaction, b: Transaction)
    ensures forall id :: Net([a, b], id) == Delta(a, id) + Delta(b, id)
  {
    assert [a, b][..1] == [a];
    NetOfOne(a);
  }

  /** Set one account's balance to the `balanceAfter` of a new entry and append
      that entry: the step every operation takes once its checks have passed. */
  ghost function PostEntry(s: Store, entry: Transaction): (s': Store)
    requires Valid(s) && entry.accountId in s.accounts && 0 < entry.amount
    requires entry.balanceAfter == s.accounts[entry.accountId].balance + Delta(entry, entry.accountId)
    ensures Valid(s') && Posted(s, s')
    ensures s'.accounts == s.accounts[entry.accountId := s.accounts[entry.accountId].(balance := entry.balanceAfter)]
    ensures s'.transactions == s.transactions + [entry]
    ensures s'.loans == s.loans && s'.billPayments == s.billPayments && s'.nextLoanId == s.nextLoanId
  {
    var id := entry.accountId;
    var s' := s.(accounts := s.accounts[id := s.accounts[id].(balance := entry.balanceAfter)],
                 transactions := s.transactions + [entry]);
    NetOfOne(entry);
    assert s'.transactions[|s.transactions|..] == [entry];
    s'
  }

  // ---------------------------------------------------------------------
  // Texts of the generated ledger entries
  // ---------------------------------------------------------------------

  const TransferInDefault: string := "Transfer received"
  const WithdrawalDefault: string := "ATM Withdrawal"
  const DepositDefault: string := "Cash Deposit"

  function DisbursementText(termMonths: int): string
  {
    "Loan approved - " + Helpers.IntToString(termMonths) + " months term"
  }

  function RepaymentText(loanId: Id): string
  {
    "Loan repayment for loan " + Helpers.NatToString(loanId)
  }

  function BillText(billerName: string): string
  {
    "Bill payment to " + billerName
  }

  // ---------------------------------------------------------------------
  // deposit
  // ---------------------------------------------------------------------

  /** Credit an owned, active account; there is no funds check. */
  ghost function Deposit(s: Store, caller: Id, accountId: Option<Id>, amount: int, description: Option<string>)
    : (r: (Result<nat>, Store))
    requires Valid(s)
    ensures Valid(r.1) && Posted(s, r.1)
    ensures r.0.Err? ==> r.1 == s
    ensures r.0 == Err(InvalidInput) <==> accountId.None? || amount <= 0
    ensures r.0 == Err(NotFound) <==>
      accountId.Some? && 0 < amount && !OwnedActive(s, accountId.value, caller)
    ensures r.0.Ok? || r.0 == Err(InvalidInput) || r.0 == Err(NotFound)
    ensures r.0.Ok? ==>
      var id := accountId.value;
      var balance := s.accounts[id].balance + amount;
      && r.0.value == balance
      && r.1.accounts == s.accounts[id := s.accounts[id].(balance := balance)]
      && r.1.transactions == s.transactions
           + [Transaction(id, TransactionType.Deposit, amount, balance, Some(Or(description, DepositDefault)), None, DefaultRecordStatus)]
      && r.1.loans == s.loans && r.1.billPayments == s.billPayments && r.1.nextLoanId == s.nextLoanId
    ensures r.0.Ok? ==> r.1.transactions[|r.1.transactions| - 1].balanceAfter == r.1.accounts[accountId.value].balance
  {
    if accountId.None? || amount <= 0 then (Err(InvalidInput), s)
    else if !OwnedActive(s, accountId.value, caller) then (Err(NotFound), s)
    else
      var account := s.accounts[accountId.value];
      var newBalance := account.balance + amount;
      var entry := Transaction(account.id, TransactionType.Deposit, amount, newBalance,
                               Some(Or(description, DepositDefault)), None, DefaultRecordStatus);
      (Ok(newBalance), PostEntry(s, entry))
  }

  // ---------------------------------------------------------------------
  // withdraw
  // ---------------------------------------------------------------------

  /** Debit an owned, active account that holds at least the amount. */
  ghost function Withdraw(s: Store, caller: Id, accountId: Option<Id>, amount: int, description: Option<string>)
    : (r: (Result<nat>, Store))
    requires Valid(s)
    ensures Valid(r.1) && Posted(s, r.1)
    ensures r.0.Err? ==> r.1 == s
    ensures r.0 == Err(InvalidInput) <==> accountId.None? || amount <= 0
    ensures r.0 == Err(NotFound) <==>
      accountId.Some? && 0 < amount && !OwnedActive(s, accountId.value, caller)
    ensures r.0 == Err(InsufficientFunds) <==>
      accountId.Some? && 0 < amount && OwnedActive(s, accountId.value, caller)
      && s.accounts[accountId.value].balance < amount
    ensures r.0 != Err(ExceedsOutstanding)
    ensures r.0.Ok? ==>
      var id := accountId.value;
      var balance := s.accounts[id].balance - amount;
      && 0 <= balance
      && r.0.value == balance
      && r.1.accounts == s.accounts[id := s.accounts[id].(balance := balance)]
      && r.1.transactions == s.transactions
           + [Transaction(id, Withdrawal, amount, balance, Some(Or(description, WithdrawalDefault)), None, DefaultRecordStatus)]
      && r.1.loans == s.loans && r.1.billPayments == s.billPayments && r.1.nextLoanId == s.nextLoanId
    ensures r.0.Ok? ==> r.1.transactions[|r.1.transactions| - 1].balanceAfter == r.1.accounts[accountId.value].balance
  {
    if accountId.None? || amount <= 0 then (Err(InvalidInput), s)
    else if !OwnedActive(s, accountId.value, caller) then (Err(NotFound), s)
    else
      var account := s.accounts[accountId.value];
      if account.balance < amount then (Err(InsufficientFunds), s)
      else
        var newBalance := account.balance - amount;
        var entry := Transaction(account.id, Withdrawal, amount, newBalance,
                                 Some(Or(description, WithdrawalDefault)), None, DefaultRecordStatus);
        (Ok(newBalance), PostEntry(s, entry))
  }

  // ---------------------------------------------------------------------
  // transfer
  // ---------------------------------------------------------------------

  /** Changing balances only, and appending entries on existing accounts with
      positive amounts, keeps the store invariant. */
  lemma BalanceChangeKeepsValid(s: Store, accounts: map<Id, Account>, entries: seq<Transaction>)
    requires Valid(s)
    requires accounts.Keys == s.accounts.Keys
    requires forall k :: k in accounts ==> accounts[k] == s.accounts[k].(balance := accounts[k].balance)
    requires forall t :: t in entries ==> t.accountId in s.accounts && 0 < t.amount
    ensures Valid(s.(accounts := accounts, transactions := s.transactions + entries))
  {
    var s' := s.(accounts := accounts, transactions := s.transactions + entries);
    forall k | k in s'.loans
      ensures LoanWellFormed(s', s'.loans[k])
    {
      assert LoanWellFormed(s, s.loans[k]);
    }
  }

  /** The accounts after a transfer's two writes: the sender debited from its
      own snapshot, then the recipient credited from its own snapshot. */
  function Moved(accounts: map<Id, Account>, from: Id, to: Id, amount: nat): map<Id, Account>
    requires from in accounts && to in accounts && amount <= accounts[from].balance
  {
    accounts[from := accounts[from].(balance := accounts[from].balance - amount)]
            [to := accounts[to].(balance := accounts[to].balance + amount)]
  }

  /** Debiting one account and then crediting another by the same amount keeps
      the sum of balances; when both are the same account, the credit is computed
      from the balance before the debit, so the sum rises by the amount. */
  lemma MoveTotal(accounts: map<Id, Account>, from: Id, to: Id, amount: nat)
    requires from in accounts && to in accounts && amount <= accounts[from].balance
    ensures BalanceSum(Moved(accounts, from, to, amount))
      == BalanceSum(accounts) + (if from == to then amount else 0)
  {
    var debited := accounts[from].(balance := accounts[from].balance - amount);
    var credited := accounts[to].(balance := accounts[to].balance + amount);
    var mid := accounts[from := debited];
    if from == to {
      assert mid[to := credited] == accounts[to := credited];
      BalanceSumUpdate(accounts, to, credited);
    } else {
      BalanceSumUpdate(accounts, from, debited);
      BalanceSumUpdate(mid, to, credited);
    }
  }

  /** The writes of a transfer whose checks passed: the sender and the recipient
      are both read before either is written, and each is written from its own
      snapshot; then the two entries are appended. */
  ghost function TransferWrites(s: Store, from: Id, to: Id, amount: nat, toAccountNumber: string,
                                description: Option<string>)
    : (s': Store)
    requires Valid(s) && from in s.accounts && to in s.accounts
    requires 0 < amount <= s.accounts[from].balance
    ensures Valid(s')
    ensures s'.accounts == Moved(s.accounts, from, to, amount)
    ensures s'.accounts.Keys == s.accounts.Keys
    ensures s'.accounts[to] == s.accounts[to].(balance := s.accounts[to].balance + amount)
    ensures from != to ==> s'.accounts[from] == s.accounts[from].(balance := s.accounts[from].balance - amount)
    ensures forall k :: k in s.accounts && k != from && k != to ==> s'.accounts[k] == s.accounts[k]
    ensures s'.transactions == s.transactions + [
      Transaction(from, TransferOut, amount, s.accounts[from].balance - amount, description,
                  Some(toAccountNumber), DefaultRecordStatus),
      Transaction(to, TransferIn, amount, s.accounts[to].balance + amount,
                  Some(Or(description, TransferInDefault)), None, DefaultRecordStatus)]
    ensures s'.loans == s.loans && s'.billPayments == s.billPayments && s'.nextLoanId == s.nextLoanId
  {
    var fromAccount := s.accounts[from];
    var toAccount := s.accounts[to];
    var newSenderBalance := fromAccount.balance - amount;
    var newRecipientBalance := toAccount.balance + amount;
    var accounts := Moved(s.accounts, from, to, amount);
    var sent := Transaction(from, TransferOut, amount, newSenderBalance,
                            description, Some(toAccountNumber), DefaultRecordStatus);
    var received := Transaction(to, TransferIn, amount, newRecipientBalance,
                                Some(Or(description, TransferInDefault)), None, DefaultRecordStatus);
    BalanceChangeKeepsValid(s, accounts, [sent, received]);
    s.(accounts := accounts, transactions := s.transactions + [sent, received])
  }

  /** The transfer's writes are accounted for by its two entries exactly when the
      two accounts differ. */
  lemma TransferWritesPosted(s: Store, from: Id, to: Id, amount: nat, toAccountNumber: string,
                             description: Option<string>)
    requires Valid(s) && from in s.accounts && to in s.accounts
    requires 0 < amount <= s.accounts[from].balance
    ensures Posted(s, TransferWrites(s, from, to, amount, toAccountNumber, description)) <==> from != to
  {
    var s' := TransferWrites(s, from, to, amount, toAccountNumber, description);
    var n := |s.transactions|;
    assert s'.transactions[n..] == [s'.transactions[n], s'.transactions[n + 1]];
    NetOfTwo(s'.transactions[n], s'.transactions[n + 1]);
    if from == to {
      assert s'.accounts[to].balance != s.accounts[to].balance + Net(s'.transactions[n..], to);
    }
  }

  /** The transfer's writes conserve the sum of balances when the two accounts
      differ, and raise it by the amount when they are the same account. */
  lemma TransferWritesTotal(s: Store, from: Id, to: Id, amount: nat, toAccountNumber: string,
                            description: Option<string>)
    requires Valid(s) && from in s.accounts && to in s.accounts
    requires 0 < amount <= s.accounts[from].balance
    ensures var s' := TransferWrites(s, from, to, amount, toAccountNumber, description);
      BalanceSum(s'.accounts) == BalanceSum(s.accounts) + (if from == to then amount else 0)
  {
    MoveTotal(s.accounts, from, to, amount);
  }

  /** Move money from an owned, active account to the active account with the
      given number, whoever owns it. The funds check comes before the recipient
      lookup. */
  ghost function Transfer(s: Store, caller: Id, fromAccountId: Option<Id>, toAccountNumber: string,
                          amount: int, description: Option<string>)
    : (r: (Result<nat>, Store))
    requires Valid(s)
    ensures Valid(r.1)
    ensures r.0.Err? ==> r.1 == s
    ensures r.0 == Err(InvalidInput) <==> fromAccountId.None? || toAccountNumber == "" || amount <= 0
    ensures r.0 == Err(NotFound) <==>
      fromAccountId.Some? && toAccountNumber != "" && 0 < amount
      && (!OwnedActive(s, fromAccountId.value, caller)
          || (amount <= s.accounts[fromAccountId.value].balance
              && Recipient(s.accounts, toAccountNumber).None?))
    ensures r.0 == Err(InsufficientFunds) <==>
      fromAccountId.Some? && toAccountNumber != "" && 0 < amount
      && OwnedActive(s, fromAccountId.value, caller)
      && s.accounts[fromAccountId.value].balance < amount
    ensures r.0 != Err(ExceedsOutstanding)
    ensures r.0.Ok? ==>
      && Recipient(s.accounts, toAccountNumber).Some?
      && r.0.value == s.accounts[fromAccountId.value].balance - amount
      && r.1 == TransferWrites(s, fromAccountId.value, Recipient(s.accounts, toAccountNumber).value,
                               amount, toAccountNumber, description)
  {
    if fromAccountId.None? || toAccountNumber == "" || amount <= 0 then (Err(InvalidInput), s)
    else if !OwnedActive(s, fromAccountId.value, caller) then (Err(NotFound), s)
    else
      var fromAccount := s.accounts[fromAccountId.value];
      if fromAccount.balance < amount then (Err(InsufficientFunds), s)
      else match Recipient(s.accounts, toAccountNumber)
        case None => (Err(NotFound), s)
        case Some(to) =>
          (Ok(fromAccount.balance - amount),
           TransferWrites(s, fromAccountId.value, to, amount, toAccountNumber, description))
  }

  /** Between two distinct accounts a successful transfer conserves the sum of all
      balances and is accounted for by its two entries. */
  lemma TransferConservesTotal(s: Store, caller: Id, fromAccountId: Option<Id>, toAccountNumber: string,
                               amount: int, description: Option<string>)
    requires Valid(s)
    ensures var r := Transfer(s, caller, fromAccountId, toAccountNumber, amount, description);
      r.0.Ok? && fromAccountId.value != Recipient(s.accounts, toAccountNumber).value ==>
        BalanceSum(r.1.accounts) == BalanceSum(s.accounts) && Posted(s, r.1)
  {
    var r := Transfer(s, caller, fromAccountId, toAccountNumber, amount, description);
    if r.0.Ok? {
      var to := Recipient(s.accounts, toAccountNumber).value;
      TransferWritesPosted(s, fromAccountId.value, to, amount, toAccountNumber, description);
      TransferWritesTotal(s, fromAccountId.value, to, amount, toAccountNumber, description);
    }
  }

  /** A transfer to the sender's own account number succeeds and raises that
      account's balance, and the sum of all balances, by the amount, although the
      two entries it records cancel out. */
  lemma SelfTransferMintsMoney(s: Store, caller: Id, fromAccountId: Option<Id>, toAccountNumber: string,
                               amount: int, description: Option<string>)
    requires Valid(s)
    requires fromAccountId.Some? && 0 < amount && OwnedActive(s, fromAccountId.value, caller)
    requires amount <= s.accounts[fromAccountId.value].balance
    requires toAccountNumber == s.accounts[fromAccountId.value].accountNumber
    ensures var r := Transfer(s, caller, fromAccountId, toAccountNumber, amount, description);
      && r.0.Ok?
      && r.1.accounts[fromAccountId.value].balance == s.accounts[fromAccountId.value].balance + amount
      && BalanceSum(r.1.accounts) == BalanceSum(s.accounts) + amount
      && !Posted(s, r.1)
  {
    var from := fromAccountId.value;
    assert IsRecipient(s.accounts[from], toAccountNumber);
    assert Recipient(s.accounts, toAccountNumber) == Some(from);
    TransferWritesPosted(s, from, from, amount, toAccountNumber, description);
    TransferWritesTotal(s, from, from, amount, toAccountNumber, description);
  }

  /** The transfer as evidently intended: the same operation, except that a
      recipient number naming the sender's own account is rejected. */
  ghost function SafeTransfer(s: Store, caller: Id, fromAccountId: Option<Id>, toAccountNumber: string,
                              amount: int, description: Option<string>)
    : (r: (Result<nat>, Store))
    requires Valid(s)
    ensures Valid(r.1) && Posted(s, r.1)
    ensures BalanceSum(r.1.accounts) == BalanceSum(s.accounts)
    ensures r.0.Err? ==> r.1 == s
    ensures r.0.Ok? <==>
      Transfer(s, caller, fromAccountId, toAccountNumber, amount, description).0.Ok?
      && fromAccountId.value != Recipient(s.accounts, toAccountNumber).value
    ensures r.0.Ok? ==> r == Transfer(s, caller, fromAccountId, toAccountNumber, amount, description)
    ensures !Transfer(s, caller, fromAccountId, toAccountNumber, amount, description).0.Ok? ==>
      r == Transfer(s, caller, fromAccountId, toAccountNumber, amount, description)
    ensures (Transfer(s, caller, fromAccountId, toAccountNumber, amount, description).0.Ok?
             && fromAccountId.value == Recipient(s.accounts, toAccountNumber).value) ==>
      r == (Err(InvalidInput), s)
  {
    var r := Transfer(s, caller, fromAccountId, toAccountNumber, amount, description);
    if r.0.Ok? && fromAccountId.value == Recipient(s.accounts, toAccountNumber).value then
      (Err(InvalidInput), s)
    else
      TransferConservesTotal(s, caller, fromAccountId, toAccountNumber, amount, description);
      r
  }

  // ---------------------------------------------------------------------
  // payBill
  // ---------------------------------------------------------------------

  /** Debit an owned, active account and record both a bill payment and a
      `bill_payment` entry. The reference number is optional. */
  ghost function PayBill(s: Store, caller: Id, accountId: Option<Id>, billerName: string, amount: int,
                         referenceNumber: Option<string>)
    : (r: (Result<nat>, Store))
    requires Valid(s)
    ensures Valid(r.1) && Posted(s, r.1)
    ensures r.0.Err? ==> r.1 == s
    ensures r.0 == Err(InvalidInput) <==> accountId.None? || billerName == "" || amount <= 0
    ensures r.0 == Err(NotFound) <==>
      accountId.Some? && billerName != "" && 0 < amount && !OwnedActive(s, accountId.value, caller)
    ensures r.0 == Err(InsufficientFunds) <==>
      accountId.Some? && billerName != "" && 0 < amount && OwnedActive(s, accountId.value, caller)
      && s.accounts[accountId.value].balance < amount
    ensures r.0 != Err(ExceedsOutstanding)
    ensures r.0.Ok? ==>
      var id := accountId.value;
      var balance := s.accounts[id].balance - amount;
      && 0 <= balance
      && r.0.value == balance
      && r.1.accounts == s.accounts[id := s.accounts[id].(balance := balance)]
      && r.1.billPayments == s.billPayments + [Payment(id, billerName, amount, referenceNumber, DefaultRecordStatus)]
      && r.1.transactions == s.transactions
           + [Transaction(id, TransactionType.BillPayment, amount, balance, Some(BillText(billerName)), None, DefaultRecordStatus)]
      && r.1.loans == s.loans && r.1.nextLoanId == s.nextLoanId
    ensures r.0.Ok? ==> r.1.transactions[|r.1.transactions| - 1].balanceAfter == r.1.accounts[accountId.value].balance
  {
    if accountId.None? || billerName == "" || amount <= 0 then (Err(InvalidInput), s)
    else if !OwnedActive(s, accountId.value, caller) then (Err(NotFound), s)
    else
      var account := s.accounts[accountId.value];
      if account.balance < amount then (Err(InsufficientFunds), s)
      else
        var newBalance := account.balance - amount;
        var payment := Payment(account.id, billerName, amount, referenceNumber, DefaultRecordStatus);
        var entry := Transaction(account.id, TransactionType.BillPayment, amount, newBalance,
                                 Some(BillText(billerName)), None, DefaultRecordStatus);
        (Ok(newBalance), PostEntry(s.(billPayments := s.billPayments + [payment]), entry))
  }

  // ---------------------------------------------------------------------
  // applyForLoan
  // ---------------------------------------------------------------------

  /** Storing a new active loan under the next loan id keeps the store invariant. */
  lemma LoanAddedKeepsValid(s: Store, loan: Loan)
    requires Valid(s) && loan.id == s.nextLoanId && loan.accountId in s.accounts
    requires 0 < loan.loanAmount && loan.outstandingBalance == loan.loanAmount
    requires loan.status == LoanStatus.Active
    ensures s.nextLoanId !in s.loans
    ensures Valid(s.(loans := s.loans[loan.id := loan], nextLoanId := s.nextLoanId + 1))
  {
    var s' := s.(loans := s.loans[loan.id := loan], nextLoanId := s.nextLoanId + 1);
    forall k | k in s.loans
      ensures k < s.nextLoanId
    {
      assert LoanWellFormed(s, s.loans[k]);
    }
    forall k | k in s'.loans
      ensures s'.loans[k].id == k && LoanWellFormed(s', s'.loans[k])
    {
      if k != loan.id {
        assert LoanWellFormed(s, s.loans[k]);
      }
    }
  }

  /** Open a loan on an account the caller owns, whatever its status, and credit
      the principal to it. `termMonths` is only checked for being non-zero; the
      monthly payment comes from the payment formula and is stored as given. */
  ghost function ApplyForLoan(s: Store, caller: Id, accountId: Option<Id>, loanAmount: int, termMonths: int,
                              monthlyPayment: int)
    : (r: (Result<(Loan, nat)>, Store))
    requires Valid(s)
    ensures Valid(r.1) && Posted(s, r.1)
    ensures r.0.Err? ==> r.1 == s
    ensures r.0 == Err(InvalidInput) <==> accountId.None? || termMonths == 0 || loanAmount <= 0
    ensures r.0 == Err(NotFound) <==>
      accountId.Some? && termMonths != 0 && 0 < loanAmount && !Owned(s, accountId.value, caller)
    ensures r.0.Ok? || r.0 == Err(InvalidInput) || r.0 == Err(NotFound)
    ensures r.0.Ok? ==>
      var id := accountId.value;
      var loan := r.0.value.0;
      var balance := s.accounts[id].balance + loanAmount;
      && loan.id !in s.loans
      && loan == Loan(loan.id, caller, id, loanAmount, InterestRate, termMonths, monthlyPayment,
                      loanAmount, LoanStatus.Active)
      && r.1.loans == s.loans[loan.id := loan]
      && r.0.value.1 == balance
      && r.1.accounts == s.accounts[id := s.accounts[id].(balance := balance)]
      && r.1.transactions == s.transactions
           + [Transaction(id, LoanDisbursement, loanAmount, balance, Some(DisbursementText(termMonths)), None, DefaultRecordStatus)]
      && r.1.billPayments == s.billPayments && r.1.nextLoanId == s.nextLoanId + 1
    ensures r.0.Ok? ==> r.1.transactions[|r.1.transactions| - 1].balanceAfter == r.1.accounts[accountId.value].balance
  {
    if accountId.None? || termMonths == 0 || loanAmount <= 0 then (Err(InvalidInput), s)
    else if !Owned(s, accountId.value, caller) then (Err(NotFound), s)
    else
      var id := accountId.value;
      var loan := Loan(s.nextLoanId, caller, id, loanAmount, InterestRate, termMonths, monthlyPayment,
                       loanAmount, LoanStatus.Active);
      var newBalance := s.accounts[id].balance + loanAmount;
      var entry := Transaction(id, LoanDisbursement, loanAmount, newBalance,
                               Some(DisbursementText(termMonths)), None, DefaultRecordStatus);
      LoanAddedKeepsValid(s, loan);
      (Ok((loan, newBalance)),
       PostEntry(s.(loans := s.loans[loan.id := loan], nextLoanId := s.nextLoanId + 1), entry))
  }

  // ---------------------------------------------------------------------
  // repayLoan
  // ---------------------------------------------------------------------

  /** `outstandingBalance = +(outstandingBalance - amount).toFixed(2)`, then zero
      and `paid` when that is not positive. In whole cents `toFixed(2)` changes
      nothing. */
  function Repaid(loan: Loan, amount: nat): (l: Loan)
    requires 0 < amount <= loan.outstandingBalance
    ensures l.outstandingBalance == loan.outstandingBalance - amount
    ensures l.status == Paid <==> (l.outstandingBalance == 0 || loan.status == Paid)
    ensures l.outstandingBalance != 0 ==> l.status == loan.status
    ensures l == loan.(outstandingBalance := l.outstandingBalance, status := l.status)
  {
    var remaining := loan.outstandingBalance - amount;
    if remaining <= 0 then loan.(outstandingBalance := 0, status := Paid)
    else loan.(outstandingBalance := remaining)
  }

  lemma RepaidKeepsValid(s: Store, loanId: Id, amount: nat)
    requires Valid(s) && loanId in s.loans
    requires s.loans[loanId].status == LoanStatus.Active
    requires 0 < amount <= s.loans[loanId].outstandingBalance
    ensures Valid(s.(loans := s.loans[loanId := Repaid(s.loans[loanId], amount)]))
  {
    var loan := Repaid(s.loans[loanId], amount);
    var s1 := s.(loans := s.loans[loanId := loan]);
    assert LoanWellFormed(s, s.loans[loanId]);
    forall k | k in s1.loans
      ensures s1.loans[k].id == k && LoanWellFormed(s1, s1.loans[k])
    {
      if k != loanId {
        assert LoanWellFormed(s, s.loans[k]);
      }
    }
  }

  /** The writes of a repayment whose checks passed: the account is debited, the
      loan is lowered by the amount, and one `loan_repayment` entry is appended. */
  ghost function RepayWrites(s: Store, loanId: Id, accountId: Id, amount: nat): (s': Store)
    requires Valid(s) && loanId in s.loans && accountId in s.accounts
    requires s.loans[loanId].status == LoanStatus.Active
    requires 0 < amount <= s.loans[loanId].outstandingBalance
    requires amount <= s.accounts[accountId].balance
    ensures Valid(s') && Posted(s, s')
    ensures s'.loans == s.loans[loanId := Repaid(s.loans[loanId], amount)]
    ensures s'.accounts == s.accounts[accountId := s.accounts[accountId].(balance := s.accounts[accountId].balance - amount)]
    ensures s'.transactions == s.transactions + [Transaction(accountId, LoanRepayment, amount,
      s.accounts[accountId].balance - amount, Some(RepaymentText(loanId)), None, DefaultRecordStatus)]
    ensures s'.billPayments == s.billPayments && s'.nextLoanId == s.nextLoanId
  {
    var s1 := s.(loans := s.loans[loanId := Repaid(s.loans[loanId], amount)]);
    RepaidKeepsValid(s, loanId, amount);
    var entry := Transaction(accountId, LoanRepayment, amount, s.accounts[accountId].balance - amount,
                             Some(RepaymentText(loanId)), None, DefaultRecordStatus);
    PostEntry(s1, entry)
  }

  /** Pay part or all of an active loan the caller owns from an account the caller
      owns, whatever its status. The loan, and the amount against what is still
      owed, are checked before the account is looked up. */
  ghost function RepayLoan(s: Store, caller: Id, loanId: Option<Id>, amount: int, accountId: Option<Id>)
    : (r: (Result<(Loan, nat)>, Store))
    requires Valid(s)
    ensures Valid(r.1) && Posted(s, r.1)
    ensures r.0.Ok? ==>
      && loanId.Some? && 0 < amount && accountId.Some?
      && ActiveLoanOf(s, loanId.value, caller) && amount <= s.loans[loanId.value].outstandingBalance
      && Owned(s, accountId.value, caller) && amount <= s.accounts[accountId.value].balance
    ensures r.0.Err? ==> r.1 == s
    ensures r.0.Ok? ==>
      && r.1 == RepayWrites(s, loanId.value, accountId.value, amount)
      && r.0.value == (Repaid(s.loans[loanId.value], amount), s.accounts[accountId.value].balance - amount)
    ensures r.0.Ok? ==> r.1.transactions[|r.1.transactions| - 1].balanceAfter == r.1.accounts[accountId.value].balance
  {
    if loanId.None? || amount <= 0 || accountId.None? then (Err(InvalidInput), s)
    else if !ActiveLoanOf(s, loanId.value, caller) then (Err(NotFound), s)
    else
      var loan := s.loans[loanId.value];
      if amount > loan.outstandingBalance then (Err(ExceedsOutstanding), s)
      else if !Owned(s, accountId.value, caller) then (Err(NotFound), s)
      else
        var account := s.accounts[accountId.value];
        if account.balance < amount then (Err(InsufficientFunds), s)
        else
          (Ok((Repaid(loan, amount), account.balance - amount)),
           RepayWrites(s, loanId.value, accountId.value, amount))
  }

  /** A repayment whose checks all pass answers with the repaid loan and the new
      balance, and performs `RepayWrites`. */
  lemma RepayLoanAccepted(s: Store, caller: Id, loanId: Id, amount: int, accountId: Id)
    requires Valid(s) && 0 < amount && ActiveLoanOf(s, loanId, caller)
    requires amount <= s.loans[loanId].outstandingBalance
    requires Owned(s, accountId, caller) && amount <= s.accounts[accountId].balance
    ensures RepayLoan(s, caller, Some(loanId), amount, Some(accountId))
      == (Ok((Repaid(s.loans[loanId], amount), s.accounts[accountId].balance - amount)),
          RepayWrites(s, loanId, accountId, amount))
  {
  }

  /** Why a repayment is refused, check by check, in the order the checks are made. */
  lemma RepayLoanErrors(s: Store, caller: Id, loanId: Option<Id>, amount: int, accountId: Option<Id>)
    requires Valid(s)
    ensures RepayLoan(s, caller, loanId, amount, accountId).0 == Err(InvalidInput) <==>
      loanId.None? || amount <= 0 || accountId.None?
    ensures RepayLoan(s, caller, loanId, amount, accountId).0 == Err(NotFound) <==>
      loanId.Some? && 0 < amount && accountId.Some?
      && (!ActiveLoanOf(s, loanId.value, caller)
          || (amount <= s.loans[loanId.value].outstandingBalance && !Owned(s, accountId.value, caller)))
    ensures RepayLoan(s, caller, loanId, amount, accountId).0 == Err(ExceedsOutstanding) <==>
      loanId.Some? && 0 < amount && accountId.Some? && ActiveLoanOf(s, loanId.value, caller)
      && s.loans[loanId.value].outstandingBalance < amount
    ensures RepayLoan(s, caller, loanId, amount, accountId).0 == Err(InsufficientFunds) <==>
      loanId.Some? && 0 < amount && accountId.Some? && ActiveLoanOf(s, loanId.value, caller)
      && amount <= s.loans[loanId.value].outstandingBalance && Owned(s, accountId.value, caller)
      && s.accounts[accountId.value].balance < amount
  {
  }
}
