/** Rows of the bank service's tables, and what a route handler answers. */
module Records {

  /** A body field the client may leave out; the store ignores a field that is absent. */
  datatype Option<T> = None | Some(value: T)

  /** The answer of a route handler: a value (HTTP 200) or one of the error kinds. */
  datatype Outcome<T> =
    | Ok(value: T)      // 200
    | NotFound          // 404: the referenced row does not exist
    | Invalid           // 400: the mobile number fails validation
    | Conflict          // 409: email or mobile number already in use
    | InternalError     // 500: any other failure the store reports

  datatype Customer = Customer(
    id: int, firstName: string, lastName: string, email: string, mobileNumber: string)

  /** Balances and amounts are whole cents. */
  datatype BankAccount = BankAccount(id: int, balance: int, customerId: int)

  datatype TransactionStatus = Successful | Failed

  /** `transactionType` is kept as the string the client sent: only "CREDIT" and "DEBIT" are special. */
  datatype Transaction = Transaction(
    id: int, amount: int, description: string, transactionType: string,
    status: TransactionStatus, bankAccountId: int)

  datatype LoanStatus = Approved | Rejected

  datatype LoanRequest = LoanRequest(
    id: int, amount: int, interest: real, status: LoanStatus, bankAccountId: int)

  datatype LoanAccount = LoanAccount(id: int, amount: int, interest: real, bankAccountId: int)

  /** The body of a loan application's answer: the new loan account, or the rejected request. */
  datatype LoanDecision = Granted(loanAccount: LoanAccount) | Declined(loanRequest: LoanRequest)
}
