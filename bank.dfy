/** The store as one object whose fields the six operations update in place, in
    the order the request handlers make their reads and writes. Each method is
    proved to compute exactly what the matching ledger function describes. */
module Bank {
  import opened Outcomes
  import opened Models
  import opened Ledger

  class Bank {
    var accounts: map<Id, Account>
    var loans: map<Id, Loan>
    var transactions: seq<Transaction>
    var billPayments: seq<BillPayment>
    var nextLoanId: Id

    /** The fields as one store value. */
    function State(): Store
      reads this
    {
      Store(accounts, loans, transactions, billPayments, nextLoanId)
    }

    ghost predicate Valid()
      reads this
    {
      Ledger.Valid(State())
    }

    /** An empty bank. */
    constructor()
      ensures Valid()
      ensures State() == Store(map[], map[], [], [], 0)
    {
      accounts := map[];
      loans := map[];
      transactions := [];
      billPayments := [];
      nextLoanId := 0;
    }

    method Deposit(caller: Id, accountId: Option<Id>, amount: int, description: Option<string>)
      returns (r: Result<nat>)
      requires Valid()
      modifies this
      ensures (r, State()) == Ledger.Deposit(old(State()), caller, accountId, amount, description)
      ensures Valid()
    {
      ghost var s := State();
      if accountId.None? || amount <= 0 {
        return Err(InvalidInput);
      }
      var id := accountId.value;
      if !OwnedActive(State(), id, caller) {
        return Err(NotFound);
      }
      var account := accounts[id];
      var newBalance := account.balance + amount;
      accounts := accounts[id := account.(balance := newBalance)];
      transactions := transactions + [Transaction(id, TransactionType.Deposit, amount, newBalance,
                                                  Some(Or(description, DepositDefault)), None, DefaultRecordStatus)];
      r := Ok(newBalance);
      Deposited(s, caller, id, amount, description, accounts, transactions);
    }

    method Withdraw(caller: Id, accountId: Option<Id>, amount: int, description: Option<string>)
      returns (r: Result<nat>)
      requires Valid()
      modifies this
      ensures (r, State()) == Ledger.Withdraw(old(State()), caller, accountId, amount, description)
      ensures Valid()
    {
      ghost var s := State();
      if accountId.None? || amount <= 0 {
        return Err(InvalidInput);
      }
      var id := accountId.value;
      if !OwnedActive(State(), id, caller) {
        return Err(NotFound);
      }
      var account := accounts[id];
      if account.balance < amount {
        return Err(InsufficientFunds);
      }
      var newBalance := account.balance - amount;
      accounts := accounts[id := account.(balance := newBalance)];
      transactions := transactions + [Transaction(id, Withdrawal, amount, newBalance,
                                                  Some(Or(description, WithdrawalDefault)), None, DefaultRecordStatus)];
      r := Ok(newBalance);
      Withdrawn(s, caller, id, amount, description, accounts, transactions);
    }

    /** `Account.findOne({ accountNumber, status: 'active' })`: the active account
        with that number, if there is one. */
    method FindRecipient(accountNumber: string) returns (found: Option<Id>)
      requires UniqueNumbers(accounts)
      ensures found == Recipient(accounts, accountNumber)
      ensures found.Some? ==> found.value in accounts && IsRecipient(accounts[found.value], accountNumber)
    {
      if exists k :: k in accounts && IsRecipient(accounts[k], accountNumber) {
        var k :| k in accounts && IsRecipient(accounts[k], accountNumber);
        found := Some(k);
      } else {
        found := None;
      }
    }

    /** The transfer as the handler performs it: both accounts are read first,
        then each is written from its own copy, so a transfer to the sender's own
        number leaves that account credited. */
    method Transfer(caller: Id, fromAccountId: Option<Id>, toAccountNumber: string, amount: int,
                    description: Option<string>)
      returns (r: Result<nat>)
      requires Valid()
      modifies this
      ensures (r, State()) == Ledger.Transfer(old(State()), caller, fromAccountId, toAccountNumber, amount,
                                              description)
      ensures Valid()
    {
      ghost var s := State();
      if fromAccountId.None? || toAccountNumber == "" || amount <= 0 {
        return Err(InvalidInput);
      }
      var from := fromAccountId.value;
      if !OwnedActive(State(), from, caller) {
        return Err(NotFound);
      }
      var fromAccount := accounts[from];
      if fromAccount.balance < amount {
        return Err(InsufficientFunds);
      }
      var found := FindRecipient(toAccountNumber);
      if found.None? {
        return Err(NotFound);
      }
      var to := found.value;
      var toAccount := accounts[to];

      var newSenderBalance := fromAccount.balance - amount;
      accounts := accounts[from := fromAccount.(balance := newSenderBalance)];
      var newRecipientBalance := toAccount.balance + amount;
      accounts := accounts[to := toAccount.(balance := newRecipientBalance)];

      var sent := Transaction(from, TransferOut, amount, newSenderBalance, description,
                              Some(toAccountNumber), DefaultRecordStatus);
      var received := Transaction(to, TransferIn, amount, newRecipientBalance,
                                  Some(Or(description, TransferInDefault)), None, DefaultRecordStatus);
      transactions := transactions + [sent, received];
      r := Ok(newSenderBalance);
      TransferCommitted(s, caller, from, to, toAccountNumber, amount, description, accounts, transactions);
    }

    method PayBill(caller: Id, accountId: Option<Id>, billerName: string, amount: int,
                   referenceNumber: Option<string>)
      returns (r: Result<nat>)
      requires Valid()
      modifies this
      ensures (r, State()) == Ledger.PayBill(old(State()), caller, accountId, billerName, amount, referenceNumber)
      ensures Valid()
    {
      ghost var s := State();
      if accountId.None? || billerName == "" || amount <= 0 {
        return Err(InvalidInput);
      }
      var id := accountId.value;
      if !OwnedActive(State(), id, caller) {
        return Err(NotFound);
      }
      var account := accounts[id];
      if account.balance < amount {
        return Err(InsufficientFunds);
      }
      var newBalance := account.balance - amount;
      accounts := accounts[id := account.(balance := newBalance)];
      billPayments := billPayments + [Payment(id, billerName, amount, referenceNumber, DefaultRecordStatus)];
      transactions := transactions + [Transaction(id, TransactionType.BillPayment, amount, newBalance,
                                                  Some(BillText(billerName)), None, DefaultRecordStatus)];
      r := Ok(newBalance);
      BillPaid(s, caller, id, billerName, amount, referenceNumber, accounts, billPayments, transactions);
    }

    /** Open a loan; `monthlyPayment` is the value the payment formula produced. */
    method ApplyForLoan(caller: Id, accountId: Option<Id>, loanAmount: int, termMonths: int,
                        monthlyPayment: int)
      returns (r: Result<(Loan, nat)>)
      requires Valid()
      modifies this
      ensures (r, State()) == Ledger.ApplyForLoan(old(State()), caller, accountId, loanAmount, termMonths,
                                                  monthlyPayment)
      ensures Valid()
    {
      ghost var s := State();
      if accountId.None? || termMonths == 0 || loanAmount <= 0 {
        return Err(InvalidInput);
      }
      var id := accountId.value;
      if !Owned(State(), id, caller) {
        return Err(NotFound);
      }
      var account := accounts[id];
      assert account.id == id;
      var loan := Loan(nextLoanId, caller, id, loanAmount, InterestRate, termMonths, monthlyPayment,
                       loanAmount, LoanStatus.Active);
      loans := loans[loan.id := loan];
      nextLoanId := nextLoanId + 1;

      var newBalance := account.balance + loanAmount;
      accounts := accounts[id := account.(balance := newBalance)];
      transactions := transactions + [Transaction(id, LoanDisbursement, loanAmount, newBalance,
                                                  Some(DisbursementText(termMonths)), None, DefaultRecordStatus)];
      r := Ok((loan, newBalance));
      LoanGranted(s, caller, id, loanAmount, termMonths, monthlyPayment, loans, accounts, transactions);
    }

    method RepayLoan(caller: Id, loanId: Option<Id>, amount: int, accountId: Option<Id>)
      returns (r: Result<(Loan, nat)>)
      requires Valid()
      modifies this
      ensures (r, State()) == Ledger.RepayLoan(old(State()), caller, loanId, amount, accountId)
      ensures Valid()
    {
      ghost var s := State();
      if loanId.None? || amount <= 0 || accountId.None? {
        return Err(InvalidInput);
      }
      var lid, id := loanId.value, accountId.value;
      if !ActiveLoanOf(State(), lid, caller) {
        return Err(NotFound);
      }
      var loan := loans[lid];
      if amount > loan.outstandingBalance {
        return Err(ExceedsOutstanding);
      }
      if !Owned(State(), id, caller) {
        return Err(NotFound);
      }
      var account := accounts[id];
      if account.balance < amount {
        return Err(InsufficientFunds);
      }

      var newBalance := account.balance - amount;
      accounts := accounts[id := account.(balance := newBalance)];

      var remaining := loan.outstandingBalance - amount;
      if remaining <= 0 {
        loan := loan.(outstandingBalance := 0, status := Paid);
      } else {
        loan := loan.(outstandingBalance := remaining);
      }
      assert loan == Repaid(s.loans[lid], amount);
      loans := loans[lid := loan];

      transactions := transactions + [Transaction(id, LoanRepayment, amount, newBalance,
                                                  Some(RepaymentText(lid)), None, DefaultRecordStatus)];
      r := Ok((loan, newBalance));
      LoanRepaid(s, caller, lid, amount, id, loans, accounts, transactions);
      assert State() == s.(loans := loans, accounts := accounts, transactions := transactions);
    }
  }
  // The value of each operation once its checks have passed, with the fields
  // the method assigned as parameters.

  lemma Deposited(s: Store, caller: Id, id: Id, amount: int, description: Option<string>,
                  accounts: map<Id, Account>, transactions: seq<Transaction>)
    requires Ledger.Valid(s) && 0 < amount && OwnedActive(s, id, caller)
    requires accounts == s.accounts[id := s.accounts[id].(balance := s.accounts[id].balance + amount)]
    requires transactions == s.transactions + [Transaction(id, TransactionType.Deposit, amount,
      s.accounts[id].balance + amount, Some(Or(description, DepositDefault)), None, DefaultRecordStatus)]
    ensures Ledger.Deposit(s, caller, Some(id), amount, description)
      == (Ok(s.accounts[id].balance + amount), s.(accounts := accounts, transactions := transactions))
  {
  }

  lemma Withdrawn(s: Store, caller: Id, id: Id, amount: int, description: Option<string>,
                  accounts: map<Id, Account>, transactions: seq<Transaction>)
    requires Ledger.Valid(s) && 0 < amount && OwnedActive(s, id, caller)
    requires amount <= s.accounts[id].balance
    requires accounts == s.accounts[id := s.accounts[id].(balance := s.accounts[id].balance - amount)]
    requires transactions == s.transactions + [Transaction(id, Withdrawal, amount,
      s.accounts[id].balance - amount, Some(Or(description, WithdrawalDefault)), None, DefaultRecordStatus)]
    ensures Ledger.Withdraw(s, caller, Some(id), amount, description)
      == (Ok(s.accounts[id].balance - amount), s.(accounts := accounts, transactions := transactions))
  {
  }

  lemma BillPaid(s: Store, caller: Id, id: Id, billerName: string, amount: int, referenceNumber: Option<string>,
                 accounts: map<Id, Account>, billPayments: seq<BillPayment>, transactions: seq<Transaction>)
    requires Ledger.Valid(s) && billerName != "" && 0 < amount && OwnedActive(s, id, caller)
    requires amount <= s.accounts[id].balance
    requires accounts == s.accounts[id := s.accounts[id].(balance := s.accounts[id].balance - amount)]
    requires billPayments == s.billPayments + [Payment(id, billerName, amount, referenceNumber, DefaultRecordStatus)]
    requires transactions == s.transactions + [Transaction(id, TransactionType.BillPayment, amount,
      s.accounts[id].balance - amount, Some(BillText(billerName)), None, DefaultRecordStatus)]
    ensures Ledger.PayBill(s, caller, Some(id), billerName, amount, referenceNumber)
      == (Ok(s.accounts[id].balance - amount),
          s.(accounts := accounts, billPayments := billPayments, transactions := transactions))
  {
  }

  lemma LoanGranted(s: Store, caller: Id, id: Id, loanAmount: int, termMonths: int, monthlyPayment: int,
                    loans: map<Id, Loan>, accounts: map<Id, Account>, transactions: seq<Transaction>)
    requires Ledger.Valid(s) && 0 < loanAmount && termMonths != 0 && Owned(s, id, caller)
    requires loans == s.loans[s.nextLoanId := Loan(s.nextLoanId, caller, id, loanAmount, InterestRate, termMonths,
                                                   monthlyPayment, loanAmount, LoanStatus.Active)]
    requires accounts == s.accounts[id := s.accounts[id].(balance := s.accounts[id].balance + loanAmount)]
    requires transactions == s.transactions + [Transaction(id, LoanDisbursement, loanAmount,
      s.accounts[id].balance + loanAmount, Some(DisbursementText(termMonths)), None, DefaultRecordStatus)]
    ensures Ledger.ApplyForLoan(s, caller, Some(id), loanAmount, termMonths, monthlyPayment)
      == (Ok((loans[s.nextLoanId], s.accounts[id].balance + loanAmount)),
          s.(loans := loans, nextLoanId := s.nextLoanId + 1, accounts := accounts, transactions := transactions))
  {
    var granted := s.(loans := loans, nextLoanId := s.nextLoanId + 1);
    assert s.(loans := loans, nextLoanId := s.nextLoanId + 1, accounts := accounts, transactions := transactions)
      == granted.(accounts := accounts, transactions := transactions);
  }

  lemma LoanRepaid(s: Store, caller: Id, loanId: Id, amount: int, id: Id,
                   loans: map<Id, Loan>, accounts: map<Id, Account>, transactions: seq<Transaction>)
    requires Ledger.Valid(s) && 0 < amount && ActiveLoanOf(s, loanId, caller)
    requires amount <= s.loans[loanId].outstandingBalance
    requires Owned(s, id, caller) && amount <= s.accounts[id].balance
    requires loans == s.loans[loanId := Repaid(s.loans[loanId], amount)]
    requires accounts == s.accounts[id := s.accounts[id].(balance := s.accounts[id].balance - amount)]
    requires transactions == s.transactions + [Transaction(id, LoanRepayment, amount,
      s.accounts[id].balance - amount, Some(RepaymentText(loanId)), None, DefaultRecordStatus)]
    ensures Ledger.RepayLoan(s, caller, Some(loanId), amount, Some(id))
      == (Ok((loans[loanId], s.accounts[id].balance - amount)),
          s.(loans := loans, accounts := accounts, transactions := transactions))
  {
    RepayLoanAccepted(s, caller, loanId, amount, id);
  }

  /** The value of a transfer whose checks pass. */
  lemma TransferCommitted(s: Store, caller: Id, from: Id, to: Id, toAccountNumber: string, amount: int,
                          description: Option<string>, accounts: map<Id, Account>, transactions: seq<Transaction>)
    requires Ledger.Valid(s) && 0 < amount && toAccountNumber != "" && OwnedActive(s, from, caller)
    requires amount <= s.accounts[from].balance
    requires to in s.accounts && IsRecipient(s.accounts[to], toAccountNumber)
    requires accounts == Moved(s.accounts, from, to, amount)
    requires transactions == s.transactions
      + [Transaction(from, TransferOut, amount, s.accounts[from].balance - amount, description,
                     Some(toAccountNumber), DefaultRecordStatus),
         Transaction(to, TransferIn, amount, s.accounts[to].balance + amount,
                     Some(Or(description, TransferInDefault)), None, DefaultRecordStatus)]
    ensures Ledger.Transfer(s, caller, Some(from), toAccountNumber, amount, description)
      == (Ok(s.accounts[from].balance - amount), s.(accounts := accounts, transactions := transactions))
  {
    assert Recipient(s.accounts, toAccountNumber) == Some(to);
  }
}
