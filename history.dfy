/** Sequences of requests against the ledger. Each request is one committed or
    rejected operation; the transfer is the corrected one, which refuses a
    recipient number naming the sender's own account. */
module History {
  import opened Outcomes
  import opened Models
  import opened Ledger

  datatype Request =
    | DepositRequest(caller: Id, accountId: Option<Id>, amount: int, description: Option<string>)
    | WithdrawRequest(caller: Id, accountId: Option<Id>, amount: int, description: Option<string>)
    | TransferRequest(caller: Id, fromAccountId: Option<Id>, toAccountNumber: string, amount: int,
                      description: Option<string>)
    | PayBillRequest(caller: Id, accountId: Option<Id>, billerName: string, amount: int,
                     referenceNumber: Option<string>)
    | LoanRequest(caller: Id, accountId: Option<Id>, loanAmount: int, termMonths: int, monthlyPayment: int)
    | RepayRequest(caller: Id, loanId: Option<Id>, amount: int, accountId: Option<Id>)

  /** Between `before` and `after` no loan disappeared, and a loan changed only by
      a lower outstanding balance and possibly its status; a loan that was not
      active did not change at all. */
  ghost predicate LoansSettle(before: Store, after: Store)
  {
    && before.loans.Keys <= after.loans.Keys
    && forall k :: k in before.loans ==>
         && after.loans[k] == before.loans[k].(outstandingBalance := after.loans[k].outstandingBalance,
                                               status := after.loans[k].status)
         && after.loans[k].outstandingBalance <= before.loans[k].outstandingBalance
         && (before.loans[k].status != LoanStatus.Active ==> after.loans[k] == before.loans[k])
  }

  /** The store after one request, whether it succeeded or was rejected. */
  ghost function Apply(s: Store, req: Request): (s': Store)
    requires Valid(s)
    ensures Valid(s') && Posted(s, s')
  {
    match req
    case DepositRequest(caller, id, amount, text) => Ledger.Deposit(s, caller, id, amount, text).1
    case WithdrawRequest(caller, id, amount, text) => Withdraw(s, caller, id, amount, text).1
    case TransferRequest(caller, id, number, amount, text) => SafeTransfer(s, caller, id, number, amount, text).1
    case PayBillRequest(caller, id, biller, amount, reference) => PayBill(s, caller, id, biller, amount, reference).1
    case LoanRequest(caller, id, principal, months, payment) =>
      ApplyForLoan(s, caller, id, principal, months, payment).1
    case RepayRequest(caller, loanId, amount, id) => RepayLoan(s, caller, loanId, amount, id).1
  }

  /** No request lets a loan disappear or its outstanding balance grow, and only
      an active loan can change. */
  lemma ApplySettlesLoans(s: Store, req: Request)
    requires Valid(s)
    ensures LoansSettle(s, Apply(s, req))
  {
    match req
    case RepayRequest(caller, loanId, amount, id) =>
      var r := RepayLoan(s, caller, loanId, amount, id);
      if r.0.Ok? {
        RepaySettles(s, loanId.value, id.value, amount);
      }
    case LoanRequest(caller, id, principal, months, payment) =>
      LoanSettles(s, caller, id, principal, months, payment);
    case TransferRequest(caller, id, number, amount, text) =>
      LoansKept(s, SafeTransfer(s, caller, id, number, amount, text).1);
    case DepositRequest(caller, id, amount, text) =>
      LoansKept(s, Ledger.Deposit(s, caller, id, amount, text).1);
    case WithdrawRequest(caller, id, amount, text) =>
      LoansKept(s, Withdraw(s, caller, id, amount, text).1);
    case PayBillRequest(caller, id, biller, amount, reference) =>
      LoansKept(s, PayBill(s, caller, id, biller, amount, reference).1);
  }

  lemma LoansKept(s: Store, s': Store)
    requires s'.loans == s.loans
    ensures LoansSettle(s, s')
  {
  }

  lemma LoanSettles(s: Store, caller: Id, accountId: Option<Id>, loanAmount: int, termMonths: int,
                    monthlyPayment: int)
    requires Valid(s)
    ensures LoansSettle(s, ApplyForLoan(s, caller, accountId, loanAmount, termMonths, monthlyPayment).1)
  {
    var r := ApplyForLoan(s, caller, accountId, loanAmount, termMonths, monthlyPayment);
    if r.0.Ok? {
      var loan := r.0.value.0;
      assert r.1.loans == s.loans[loan.id := loan] && loan.id !in s.loans;
      forall k | k in s.loans
        ensures r.1.loans[k] == s.loans[k]
      {
      }
    }
  }

  lemma RepaySettles(s: Store, loanId: Id, accountId: Id, amount: nat)
    requires Valid(s) && loanId in s.loans && accountId in s.accounts
    requires s.loans[loanId].status == LoanStatus.Active
    requires 0 < amount <= s.loans[loanId].outstandingBalance
    requires amount <= s.accounts[accountId].balance
    ensures LoansSettle(s, RepayWrites(s, loanId, accountId, amount))
  {
    var s' := RepayWrites(s, loanId, accountId, amount);
    forall k | k in s.loans
      ensures s'.loans[k] == s.loans[k].(outstandingBalance := s'.loans[k].outstandingBalance,
                                         status := s'.loans[k].status)
      ensures s'.loans[k].outstandingBalance <= s.loans[k].outstandingBalance
      ensures s.loans[k].status != LoanStatus.Active ==> s'.loans[k] == s.loans[k]
    {
    }
  }

  /** The store after the requests, in order. */
  ghost function Run(s: Store, reqs: seq<Request>): (s': Store)
    requires Valid(s)
    ensures Valid(s')
    decreases |reqs|
  {
    if reqs == [] then s else Run(Apply(s, reqs[0]), reqs[1..])
  }

  lemma PostedTransitive(a: Store, b: Store, c: Store)
    requires Posted(a, b) && Posted(b, c)
    ensures Posted(a, c)
  {
    var na, nb := |a.transactions|, |b.transactions|;
    assert c.transactions[..na] == c.transactions[..nb][..na];
    assert c.transactions[na..] == b.transactions[na..] + c.transactions[nb..] by {
      assert c.transactions == b.transactions + c.transactions[nb..];
    }
    forall id | id in a.accounts
      ensures c.accounts[id].balance == a.accounts[id].balance + Net(c.transactions[na..], id)
    {
      NetConcat(b.transactions[na..], c.transactions[nb..], id);
    }
  }

  lemma LoansSettleTransitive(a: Store, b: Store, c: Store)
    requires LoansSettle(a, b) && LoansSettle(b, c)
    ensures LoansSettle(a, c)
  {
  }

  /** Reconciliation: after any sequence of requests, every account's balance is
      its opening balance plus the credits minus the debits recorded for it since. */
  lemma {:induction false} RunReconciles(s: Store, reqs: seq<Request>)
    requires Valid(s)
    ensures Posted(s, Run(s, reqs))
    decreases |reqs|
  {
    if reqs != [] {
      var s1 := Apply(s, reqs[0]);
      RunReconciles(s1, reqs[1..]);
      PostedTransitive(s, s1, Run(s1, reqs[1..]));
    } else {
      assert s.transactions[|s.transactions|..] == [];
    }
  }

  /** After any sequence of requests, every earlier loan still exists, its
      outstanding balance has not grown, and a loan that was paid or defaulted
      is untouched. */
  lemma {:induction false} RunSettlesLoans(s: Store, reqs: seq<Request>)
    requires Valid(s)
    ensures LoansSettle(s, Run(s, reqs))
    decreases |reqs|
  {
    if reqs != [] {
      var s1 := Apply(s, reqs[0]);
      ApplySettlesLoans(s, reqs[0]);
      RunSettlesLoans(s1, reqs[1..]);
      LoansSettleTransitive(s, s1, Run(s1, reqs[1..]));
    }
  }

  /** A deposit followed by a withdrawal of the same amount from the same account
      restores its balance and records exactly two entries, each with the balance
      it left behind. */
  lemma DepositThenWithdraw(s: Store, caller: Id, id: Id, amount: int, description: Option<string>)
    requires Valid(s) && 0 < amount && OwnedActive(s, id, caller)
    ensures var d := Ledger.Deposit(s, caller, Some(id), amount, description);
      var w := Withdraw(d.1, caller, Some(id), amount, description);
      && d.0.Ok? && w.0.Ok?
      && w.1.accounts[id] == s.accounts[id]
      && |w.1.transactions| == |s.transactions| + 2
      && w.1.transactions[|s.transactions|].balanceAfter == s.accounts[id].balance + amount
      && w.1.transactions[|s.transactions| + 1].balanceAfter == s.accounts[id].balance
  {
  }
}
