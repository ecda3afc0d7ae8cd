/** The four stored records: Account, Transaction, Loan and BillPayment.
    Money is kept in integer cents, so every amount and balance is a whole number. */
module Models {
  import opened Outcomes

  /** A record id (a database object id). */
  type Id = nat

  datatype AccountType = Savings | Checking | Business
  datatype AccountStatus = Active | Suspended | Closed

  /** A bank account; `min: 0` on the balance is the type `nat`. */
  datatype Account = Account(
    id: Id,
    userId: Id,
    accountNumber: string,
    accountType: AccountType,
    balance: nat,
    status: AccountStatus)

  const DefaultAccountType: AccountType := Savings
  const DefaultAccountStatus: AccountStatus := AccountStatus.Active

  /** A new account document with the schema defaults filled in. */
  function NewAccount(id: Id, userId: Id, accountNumber: string): Account
  {
    Account(id, userId, accountNumber, DefaultAccountType, 0, DefaultAccountStatus)
  }

  datatype TransactionType =
    | TransferIn | TransferOut | Withdrawal | Deposit
    | LoanDisbursement | BillPayment | LoanRepayment

  /** The status enum shared by transactions and bill payments. */
  datatype RecordStatus = Pending | Completed | Failed

  const DefaultRecordStatus: RecordStatus := Completed

  /** One ledger entry; the amount is always stored unsigned and the type says
      in which direction it moved the balance. */
  datatype Transaction = Transaction(
    accountId: Id,
    transactionType: TransactionType,
    amount: nat,
    balanceAfter: nat,
    description: Option<string>,
    recipientAccount: Option<string>,
    status: RecordStatus)

  /** Whether an entry of this type added its amount to the account's balance. */
  predicate IsCredit(t: TransactionType)
  {
    t == TransferIn || t == Deposit || t == LoanDisbursement
  }

  datatype LoanStatus = Active | Paid | Defaulted

  /** An installment loan. The rate is in basis points (550 is 5.5 %); the monthly
      payment is whatever the payment formula produced, kept as an opaque number. */
  datatype Loan = Loan(
    id: Id,
    userId: Id,
    accountId: Id,
    loanAmount: nat,
    interestRate: nat,
    termMonths: int,
    monthlyPayment: int,
    outstandingBalance: nat,
    status: LoanStatus)

  /** A bill payment; its constructor is `Payment` because `BillPayment`
      already names a transaction type. */
  datatype BillPayment = Payment(
    accountId: Id,
    billerName: string,
    amount: nat,
    referenceNumber: Option<string>,
    status: RecordStatus)

  /** JavaScript's `text || fallback` on an optional string: an absent or empty
      text gives the fallback. */
  function Or(text: Option<string>, fallback: string): string
  {
    if text.Some? && text.value != "" then text.value else fallback
  }
}
