# Bank API: a Dafny model of its business rules

The bank API is a small REST service with four controllers over one relational store:

- the customer directory (`controllers/customerController.js`);
- the account ledger (`controllers/bankAccountController.js`);
- the transaction processor (`controllers/transactionController.js`);
- the loan service (`controllers/loanController.js`).

This project models that store and every route handler of the four controllers, and proves
what each handler does to the store.

- `records.dfy` (`Records`): the rows (customer, bank account, transaction, loan request,
  loan account) and `Outcome`, the answer of a handler. `Outcome` is `Ok` (200),
  `NotFound` (404), `Invalid` (400), `Conflict` (409) or `InternalError` (500).
- `store.dfy` (`Store`): the class `Db` holding the tables. Customers and bank accounts are
  maps keyed by their autoincrement id. Transactions, loan requests and loan accounts are never
  deleted, so they are logs whose n-th row has id n. `Db.Valid()` holds these invariants:
  - every key matches its row's id and lies below the id counter;
  - emails and mobile numbers are unique;
  - each transaction names an account id that has been issued;
  - the loan book is backed (below).
- `ledger.dfy` (`Ledger`): the transaction rule as functions.
  - `Settle` gives the status recorded and the balance afterwards.
  - `Net` is what an account's recorded transactions add up to.
  - `Reconciled` says that an account's balance equals that `Net`.
- `lending.dfy` (`Lending`): the loan book. `Backed` says that the terms (amount, interest,
  bank account) of the loan accounts are, in order, those of the approved requests.
- `customers.dfy`, `bank_accounts.dfy`, `transactions.dfy`, `loans.dfy`: one module per
  controller.
  - Routes that write are methods with `modifies db`. Their `ensures` give the whole new
    content of the store (`Db.Contents()`) in terms of the old one.
  - Read-only routes are functions that `reads db`.

Two things are proved on top of the per-route contracts:

- **Reconciliation.** Every route that writes, except the balance overwrite, keeps each account
  reconciled (balance equal to `Net` of its transactions). A new account starts reconciled.
  The balance overwrite (`PUT /bank-accounts/:accountId`) is the one route that can break this.
- **Loan invariant.** The loan book stays backed. So there are as many loan accounts as approved
  requests, and each loan account mirrors one approved request.

Where the code and its API documentation comments disagree, the model follows the code:

- The comments promise 404 when the customer to update or delete is absent
  (controllers/customerController.js:245-246, 267-268). The handlers only have a generic catch,
  so the store's "record not found" error becomes 500 (`InternalError`). The same holds for the
  balance overwrite and the account delete.
- The comments list only `CREDIT` and `DEBIT` as transaction types
  (controllers/transactionController.js:176). The code subtracts for every type that is not
  `CREDIT`, and checks only `DEBIT` against going negative. So any other type subtracts without
  a check (`Ledger.SettleExamples`).

## Model

| member | source | states |
|---|---|---|
| `Ledger.Settle` | controllers/transactionController.js:43-61 | The transaction is recorded FAILED iff it is a DEBIT whose amount exceeds the balance, and then the balance is unchanged. A CREDIT adds the amount. A DEBIT with a large enough balance subtracts it, so a DEBIT down to exactly 0 succeeds. Any other type subtracts without a check. A successful DEBIT leaves the balance ≥ 0. A non-negative balance stays non-negative under a CREDIT or DEBIT of a non-negative amount. |
| `Ledger.SettleExamples` | controllers/transactionController.js:43-61 | Worked cases: balance 50, debit 100 ⇒ FAILED, 50. Debit 50 ⇒ SUCCESSFUL, 0. Credit 25 ⇒ 75. An unknown type takes 0 to -1. |
| `Ledger.NetAppend` | controllers/transactionController.js:50-72 | Recording one transaction changes its own account's net by the transaction's effect (0 if it failed) and changes no other account's net. |
| `Ledger.NetUnreferenced` | controllers/bankAccountController.js:24-29 | An account id that no transaction names has net 0. So a new account with balance 0 starts reconciled. |
| `Ledger.TransactionsOf` | controllers/transactionController.js:13-17 | The listing holds exactly the recorded transactions whose `bankAccountId` matches, in log order. |
| `Ledger.TransactionsOfAppend` | controllers/transactionController.js:50-72 | Recording a transaction adds it at the end of its own account's listing and leaves every other account's listing unchanged. |
| `Lending.ApprovedTerms` | controllers/loanController.js:28-35 | There is one entry per APPROVED request, and each entry is the terms of an approved request. |
| `Lending.TermsOf` | controllers/loanController.js:39-45 | Gives the terms (amount, interest, bank account) of each loan account, position by position. |
| `Lending.ApprovedTermsAppend` | controllers/loanController.js:28-35 | Recording a request adds its terms to the approved list iff its status is APPROVED. |
| `Lending.TermsOfAppend` | controllers/loanController.js:39-45 | Opening a loan account adds its terms at the end of the loan accounts' terms. |
| `Lending.BackedLoanAccounts` | controllers/loanController.js:37-50 | In a backed loan book, the number of loan accounts equals the number of approved requests. Every loan account copies the amount, interest and bank account of an approved request. |
| `CustomerController.DigitsThenEndExactly` | controllers/customerController.js:15 | The regular expression's tail `\d{n}$` matches iff the input is exactly n ASCII digits. |
| `CustomerController.ValidMobileIsTenDigits` | controllers/customerController.js:15 | A mobile number passes `/^\d{10}$/` iff it is exactly 10 characters, each `0`-`9`. |
| `CustomerController.TrailingNewlineRefused` | controllers/customerController.js:15 | `$` without the `m` flag anchors at the end of the input, so ten digits followed by a newline are refused. |
| `CustomerController.CreateCustomer` | controllers/customerController.js:12-40 | An invalid mobile number gives Invalid (400). An email or mobile number already stored gives Conflict (409). In both cases the store is unchanged. Otherwise exactly one customer with a fresh id and the four given fields is added, and nothing else changes. |
| `CustomerController.ListCustomers` | controllers/customerController.js:43-46 | Returns every stored customer and nothing else. It only reads. |
| `CustomerController.GetCustomer` | controllers/customerController.js:54-63 | NotFound iff the id is absent. Otherwise returns the stored customer with that id. It only reads. |
| `CustomerController.UpdateCustomer` | controllers/customerController.js:71-88 | An absent id, or a clash with another customer's email or mobile number, gives InternalError and leaves the store unchanged. Otherwise the fields present in the body overwrite that customer's, without re-validating the mobile number. Absent fields are kept, and nothing else changes. |
| `CustomerController.DeleteCustomer` | controllers/customerController.js:92-102 | Removes exactly that customer. An absent id gives InternalError, not NotFound, and leaves the store unchanged. |
| `BankAccountController.CreateBankAccount` | controllers/bankAccountController.js:8-31 | An absent customer gives NotFound and creates nothing. Otherwise exactly one account with a fresh id, balance 0 and that `customerId` is added. The new account is reconciled, and every reconciled account stays so. |
| `BankAccountController.ListBankAccounts` | controllers/bankAccountController.js:39-49 | Returns exactly the stored accounts whose `customerId` matches. |
| `BankAccountController.GetBankAccount` | controllers/bankAccountController.js:57-71 | NotFound iff the id is absent. Otherwise returns the stored account unchanged. |
| `BankAccountController.UpdateBalance` | controllers/bankAccountController.js:79-97 | Sets that account's balance to the given value, with no non-negativity check. A missing balance field keeps the balance. All other accounts and tables are unchanged. An absent id gives InternalError. The account stays reconciled iff the new balance equals its net. |
| `BankAccountController.DeleteBankAccount` | controllers/bankAccountController.js:101-115 | Removes exactly that account. An absent id gives InternalError, not NotFound. Reconciled accounts stay reconciled. |
| `TransactionController.ListTransactions` | controllers/transactionController.js:9-19 | Returns exactly the recorded transactions of that account. It only reads. |
| `TransactionController.CreateTransaction` | controllers/transactionController.js:27-105 | An absent account gives NotFound, records nothing and changes no balance. Otherwise exactly one record is appended with the given amount, description, type and account, and the status `Settle` decides. The account's balance becomes `Settle`'s balance: unchanged when FAILED, the candidate value otherwise. Every other account and table is unchanged. The balance moves by exactly the record's effect, so reconciled accounts stay reconciled. |
| `LoanController.ApplyLoan` | controllers/loanController.js:9-50 | An absent account gives NotFound and creates neither a request nor a loan account. Otherwise exactly one request is appended with the given amount, interest and account. It is APPROVED iff the approval input is true. A loan account copying the request's terms is opened iff approved and returned. When rejected, the request is returned. The decision depends on the approval input alone, and the loan book stays backed. |
| `LoanController.GetLoan` | controllers/loanController.js:58-72 | NotFound iff no loan account has that id. Otherwise returns the stored loan account with that id. |
| `LoanController.Payback` | controllers/loanController.js:80-95 | NotFound iff no loan account has that id. Otherwise it reports success. It is a function of the store, so it changes no table. |

## Left out

- HTTP wiring, routing, the generic 404/500 handlers, response bodies and messages, logging and
  the API documentation blocks are not modelled. Only the outcome kind and the returned row are.
- The database schema is not part of this model. Two things follow from that:
  - Referential constraints are not modelled. A customer or bank account can be deleted while
    rows still name it. A store with restrict-on-delete foreign keys would answer 500 there.
  - The column type of `transactionType` is not modelled. A store that restricts it to
    `CREDIT`/`DEBIT` would refuse other types with 500. The model records them, as the handler's
    code path does.
- Other errors the store raises on malformed bodies are not modelled: missing required fields,
  or a missing or non-numeric `customerId`/`bankAccountId`. Every body field except the
  optional update fields is a parameter.
- The type coercion of a non-string `mobileNumber` by the regular expression is not modelled.
- Path parameters are not parsed. The account, transaction and loan routes `parseInt` theirs,
  but the customer routes pass the raw string. Every id in the model is an integer.
- Ids come from counters that advance only on success. A real autoincrement sequence may skip
  values after a failed insert, so only the freshness of ids is meaningful.
- Amounts and balances are whole numbers (cents) and interest is a real number. Floating-point
  rounding is not modelled.
- TransactionController.CreateTransaction: does not model a balance write that fails after the SUCCESSFUL record
  exists, or the corrective status flip to FAILED that the handler fires without awaiting. The
  model takes the balance write to succeed.
- LoanController.ApplyLoan: does not model `Math.random()`. The approval is a boolean input, so both branches
  are stated, but not their 50% probability.
- Concurrent requests are not modelled. Two debits racing on one account could both pass the
  check in the service; the model handles one request at a time.
- Listing order: the store's `findMany` calls have no ordering clause. The model returns
  customers and accounts as sets, and transactions in the order they were recorded.
