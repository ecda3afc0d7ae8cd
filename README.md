# Banking ledger core in Dafny

This project models the ledger of a small retail-banking backend. It covers the six request handlers that move money: `deposit`, `withdraw`, `transfer`, `payBill`, `applyForLoan` and `repayLoan`. Each one validates its inputs, looks up records with owner and status filters, checks funds, then updates balances and loans and appends ledger records. It also covers the read side (`getTransactions`, `getBillPayments`, `getLoans`, `getLoanById`, `getAccounts`, `getAccountById`, `getDashboard`), the four record schemas, and the account-number formatting in `generateAccountNumber`.

The project has seven modules:

- `Outcomes` (outcomes.dfy): `Option`, and a `Result` whose error is one of `InvalidInput`, `NotFound`, `InsufficientFunds` or `ExceedsOutstanding`. These stand for the handlers' 400 and 404 answers.
- `Models` (models.dfy): the Account, Transaction, Loan and BillPayment records, with their enums and defaults. Money is a whole number of cents (`nat`), so `min: 0` on a balance is the type itself.
- `Helpers` (helpers.dfy): decimal rendering, `padStart`, and the account-number generator. The random draw is a parameter.
- `Ledger` (ledger.dfy): the whole database as one value `Store`, with these parts:
  - the store invariant `Valid`: accounts are keyed by their id, account numbers are unique and non-empty, loans are well formed, and records reference existing accounts;
  - the reconciliation predicate `Posted`: every balance moved by exactly the credits minus the debits of the records appended in between;
  - the six operations as functions from the store before a request to the answer and the store after it.
- `Bank` (bank.dfy): a class whose fields are the accounts, loans, transactions and bill payments. Its six methods update those fields in place, in the handlers' own order of reads and writes. Each method is proved to produce exactly the answer and the new state of the matching `Ledger` function.
- `History` (history.dfy): sequences of requests. It proves reconciliation and the loan lifecycle over any run.
- `Queries` (queries.dfy): the read-side handlers as functions of the store.

In three places the handlers do something a reader might not expect; the model follows the code:

- `applyForLoan` only tests `termMonths` for being non-zero, so a negative term is accepted.
- `applyForLoan` and `repayLoan` accept an account of any status.
- A transfer to the sender's own account number is not rejected. See "## Findings".

## Model

| member | source | states |
|---|---|---|
| Helpers.PadStart | utils/helpers.js:2 | `padStart` gives a string of the requested width ending with the input, with only fill characters before it |
| Helpers.NatToString | utils/helpers.js:2 | `toString` of a non-negative integer is a non-empty digit string without a leading zero |
| Helpers.DecodeNatToString | utils/helpers.js:2 | reading the decimal rendering of `n` back gives `n` |
| Helpers.PaddedDraw | utils/helpers.js:2 | a draw below 10^8 padded to 8 characters is 8 digits that decode back to the draw |
| Helpers.GenerateAccountNumber | utils/helpers.js:1-3 | the account number has length 10, starts with "10", is all digits, and its last 8 digits decode to the draw |
| Helpers.GeneratedNumbersDistinct | utils/helpers.js:2 | distinct draws give distinct account numbers |
| Ledger.OpenAccountKeepsValid | models/Account.js:9-28 | a new account defaults to balance 0, status active and type savings; storing it under a fresh id and an unused number keeps the invariant (unique numbers included) and the sum of balances |
| Ledger.Recipient | controllers/transactionController.js:33-36 | the lookup by number finds an account exactly when an active account has that number; with unique numbers it is that account |
| Ledger.BalanceSumUpdate | controllers/accountController.js:16 | replacing one account changes the sum of balances by the change of its balance |
| Ledger.PostEntry | controllers/transactionController.js:194-206 | setting an account's balance to a new record's `balanceAfter` and appending that record keeps the invariant and is reconciled by that record |
| Ledger.Deposit | controllers/transactionController.js:176-206 | InvalidInput iff the account id is missing or amount ≤ 0; NotFound iff the account is not owned and active; no other error; on error the store is unchanged; on success the balance rises by the amount, one `deposit` record ("Cash Deposit" by default) carries the new balance, and nothing else changes |
| Ledger.Withdraw | controllers/transactionController.js:89-124 | InvalidInput, NotFound and InsufficientFunds each iff their check is the first to fail; on error the store is unchanged; on success the balance falls by the amount and stays ≥ 0, and one `withdrawal` record ("ATM Withdrawal" by default) carries the new balance |
| Ledger.MoveTotal | controllers/transactionController.js:43-51 | debiting the sender from its snapshot and then crediting the recipient from its own snapshot keeps the sum of balances for two distinct accounts, and raises it by the amount when both are one account |
| Ledger.TransferWrites | controllers/transactionController.js:43-70 | the recipient is credited, a distinct sender is debited, every other account is unchanged, and a `transfer_out` record then a `transfer_in` record ("Transfer received" by default) are appended with the two new balances |
| Ledger.TransferWritesPosted | controllers/transactionController.js:43-70 | the two records reconcile the balances if and only if sender and recipient differ |
| Ledger.TransferWritesTotal | controllers/transactionController.js:43-51 | the writes conserve the sum of balances between distinct accounts and raise it by the amount on a self-transfer |
| Ledger.Transfer | controllers/transactionController.js:10-74 | InvalidInput iff an input is missing or amount ≤ 0; NotFound iff the sender is not owned and active, or the funds suffice but no active account has the number; InsufficientFunds iff the sender is valid and short, which is checked before the recipient lookup; on error the store is unchanged; on success the answer is the sender's new balance and the store is `TransferWrites` |
| Ledger.TransferConservesTotal | controllers/transactionController.js:43-51 | a successful transfer between distinct accounts conserves the sum of balances and is reconciled by its records |
| Ledger.SelfTransferMintsMoney | controllers/transactionController.js:17-51 | a transfer to the sender's own number succeeds and raises that balance and the total by the amount, and the store is not reconciled by its records |
| Ledger.SafeTransfer | controllers/transactionController.js:12-70 | the corrected transfer: when `Transfer` rejects a request it gives the same error with the store unchanged; when `Transfer` would succeed with the sender as recipient it answers InvalidInput and changes nothing; otherwise it gives the same result as `Transfer`. It always conserves the total and is always reconciled |
| Ledger.PayBill | controllers/billController.js:11-54 | InvalidInput iff the account id or biller name is missing or amount ≤ 0; NotFound iff the account is not owned and active; InsufficientFunds iff the balance is short; on error the store is unchanged; on success one BillPayment with biller, amount and reference is appended, and one `bill_payment` record "Bill payment to <biller>" carries the new balance |
| Ledger.LoanAddedKeepsValid | controllers/loanController.js:32-42 | a new active loan with outstanding = principal, stored under the next loan id, gets an id no loan has and keeps the invariant |
| Ledger.ApplyForLoan | controllers/loanController.js:12-56 | InvalidInput iff the account id is missing, the term is 0 or the amount ≤ 0; NotFound iff the account is not the caller's, whatever its status; on success the new loan has rate 5.5 %, outstanding = principal and status active under a fresh id; the account is credited and one `loan_disbursement` record carries the new balance |
| Ledger.Repaid | controllers/loanController.js:153-158 | outstanding falls by exactly the amount; the loan becomes `paid` exactly when outstanding reaches 0; no other field changes |
| Ledger.RepaidKeepsValid | controllers/loanController.js:153-159 | repaying an active loan within its outstanding balance keeps the invariant |
| Ledger.RepayWrites | controllers/loanController.js:147-169 | the account is debited, the loan is replaced by `Repaid`, and one `loan_repayment` record carries the new balance; the result is reconciled |
| Ledger.RepayLoan | controllers/loanController.js:109-169 | success only when every check passed; on error the store is unchanged; on success the answer is the repaid loan and the new balance, and the store is `RepayWrites` |
| Ledger.RepayLoanAccepted | controllers/loanController.js:147-177 | a repayment whose checks all pass answers with the repaid loan and the new balance, and performs `RepayWrites` |
| Ledger.RepayLoanErrors | controllers/loanController.js:111-145 | InvalidInput, NotFound (no active loan of the caller, or no account of the caller), ExceedsOutstanding (checked before the account lookup) and InsufficientFunds each iff their check is the first to fail |
| Bank.Bank.Deposit | controllers/transactionController.js:171-218 | the in-place deposit returns and leaves exactly what `Ledger.Deposit` gives, and keeps the invariant |
| Bank.Bank.Withdraw | controllers/transactionController.js:84-136 | the in-place withdrawal returns and leaves exactly what `Ledger.Withdraw` gives |
| Bank.Bank.FindRecipient | controllers/transactionController.js:33-36 | the lookup by number returns the active account with that number, or none |
| Bank.Bank.Transfer | controllers/transactionController.js:5-82 | the in-place transfer, reading both snapshots before writing either, returns and leaves exactly what `Ledger.Transfer` gives |
| Bank.Bank.PayBill | controllers/billController.js:6-66 | the in-place bill payment returns and leaves exactly what `Ledger.PayBill` gives |
| Bank.Bank.ApplyForLoan | controllers/loanController.js:7-72 | the in-place loan application returns and leaves exactly what `Ledger.ApplyForLoan` gives |
| Bank.Bank.RepayLoan | controllers/loanController.js:104-185 | the in-place repayment, mutating the loan record then saving it, returns and leaves exactly what `Ledger.RepayLoan` gives |
| History.Apply | controllers/transactionController.js:5-218 | every request, accepted or rejected, keeps the invariant and leaves a store reconciled by the records it appended |
| History.ApplySettlesLoans | controllers/loanController.js:116-158 | no request removes a loan, raises an outstanding balance or changes anything but outstanding and status, and a paid or defaulted loan is untouched |
| History.LoanSettles | controllers/loanController.js:32-42 | a loan application leaves every existing loan as it was |
| History.RepaySettles | controllers/loanController.js:153-159 | a repayment changes only the outstanding balance and status of one active loan and never raises it |
| History.RunReconciles | controllers/transactionController.js:112-124 | after any sequence of requests each balance equals its opening balance plus the credits minus the debits recorded since |
| History.RunSettlesLoans | controllers/loanController.js:153-158 | after any sequence of requests every earlier loan exists, its outstanding balance has not grown, and a paid or defaulted loan is unchanged |
| History.DepositThenWithdraw | controllers/transactionController.js:112-206 | a deposit then a withdrawal of the same amount restores the balance and appends two records carrying the two balances in turn |
| Queries.OwnedIds | controllers/transactionController.js:150-152 | the id set holds exactly the caller's accounts |
| Queries.InAccounts | controllers/transactionController.js:155 | the reference filter: exactly the records of the given accounts, at most as many as the input |
| Queries.NewestFirst | controllers/transactionController.js:155-157 | the result is the reverse of the filtered records cut to the limit: length min(limit, matches), newest first |
| Queries.NewestFirstMembers | controllers/transactionController.js:155 | every returned record is a stored record of one of the accounts |
| Queries.NewestFirstComplete | controllers/transactionController.js:157 | when the limit covers all matches, every matching record is returned |
| Queries.PageSize | controllers/transactionController.js:140-157 | no limit gives 50; 0 means no limit; a negative limit counts by its magnitude |
| Queries.GetTransactions | controllers/transactionController.js:138-164 | NotFound iff a named account is not the caller's; otherwise the records of that account, or of all the caller's accounts, newest first, cut to the page size; with no limit nothing is dropped |
| Queries.GetBillPayments | controllers/billController.js:68-82 | the caller's bill payments, newest first, at most 50, each from an owned account |
| Queries.GetAccounts | controllers/accountController.js:30-38 | exactly the caller's accounts, whatever their status, as stored |
| Queries.GetAccountById | controllers/accountController.js:40-56 | found iff the caller owns the account, with no status filter; otherwise NotFound |
| Queries.LoansBelow | controllers/loanController.js:76-77 | exactly the caller's stored loans below an id bound (the active ones when asked), highest id first |
| Queries.GetLoans | controllers/loanController.js:74-83 | exactly the caller's loans of any status, newest (highest id) first |
| Queries.GetLoanById | controllers/loanController.js:85-101 | found iff the loan is the caller's, whatever its status; otherwise NotFound |
| Queries.GetDashboard | controllers/accountController.js:5-28 | the caller's accounts; a total equal to the sum of their balances, 0 with no accounts and at least each balance; as recent records, the caller's newest min(10, matches) records in newest-first order, all from owned accounts; exactly the caller's active loans |
| Queries.DepositRaisesTotal | controllers/accountController.js:16 | a deposit raises the depositor's dashboard total by the amount and leaves every other user's total unchanged |

## Left out

- Authentication, signup and signin, password hashing, token issuance, the rate limiter, file upload and the Express routes are not part of this model. The caller's user id is a parameter of every operation. `repayLoan` is modelled although no route reaches it.
- Sessions (start, commit, abort), store failures and the catch-all 500 answers are left out. Each operation is one atomic function whose error result returns the store unchanged.
- Concurrent requests are not modelled. `History.Run` applies requests one at a time.
- `calculateLoanPayment` uses floating-point powers and rounding and is not modelled. The monthly payment is a parameter that is stored as given.
- `Math.random` is not modelled. The draw is a parameter of `Helpers.GenerateAccountNumber`. Retrying on a duplicate number is not modelled either; `Ledger.OpenAccountKeepsValid` requires the number to be unused.
- Account creation at signup is not part of this model beyond `Ledger.OpenAccountKeepsValid`.
- JavaScript coercion of request values is not modelled (string amounts, `parseInt` of a non-numeric limit). Amounts are integers in cents, so `toFixed(2)` on the outstanding balance is the identity. A missing amount is 0. A missing or empty string (biller name, recipient number) is `""`.
- Timestamps (`createdAt`, `updatedAt`, `approvedAt`, `paymentDate`) are not modelled. "Newest first" is reverse insertion order for records and descending issue order for loans. Loan ids come from a counter in the store, which stands for the database's id issuance.
- Queries.GetAccounts: returns a map keyed by id, so the order of the array the handler returns is not modelled.
- Queries.GetDashboard: states membership of `activeLoans` and not the order, which the handler does not set.
- The handlers' success messages and the distinct error texts are not modelled. Only the error kind is kept.

## Findings

| source | as written | input that shows it | evidently intended | confidence | as-written member | corrected member |
|---|---|---|---|---|---|---|
| controllers/transactionController.js:33-51 | the sender and the recipient are read as two separate snapshots, and each is saved from its own copy; nothing rejects the sender's own number as the recipient | an active account with balance 100 and number N transfers 30 to N: both reads see 100, the sender is saved with 70, then the recipient is saved with 130, so the balance ends at 130 and the total rises by 30 | a transfer to the sender's own account is rejected (or changes nothing), and every transfer conserves the total | not executed | Ledger.SelfTransferMintsMoney | Ledger.SafeTransfer |

`Ledger.Transfer` and `Bank.Bank.Transfer` model the handler as written. `History.Apply` uses `Ledger.SafeTransfer`, so `History.RunReconciles` holds for the corrected transfer.
