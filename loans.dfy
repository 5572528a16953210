/** The loan service: applications, loan accounts and the repayment stub. */
module LoanController {
  import opened Records
  import opened Store
  import opened Lending

  /**
   * POST /loans/apply. `approved` stands for the coin the handler tosses: it is the only
   * thing the decision depends on. One request is always recorded; a loan account is
   * opened, mirroring the request, exactly when the request is approved.
   */
  method ApplyLoan(db: Db, bankAccountId: int, amount: int, interest: real, approved: bool)
    returns (r: Outcome<LoanDecision>)
    requires db.Valid()
    modifies db
    ensures db.Valid()
    ensures r.Ok? <==> bankAccountId in old(db.accounts)
    ensures !r.Ok? ==> r == NotFound && unchanged(db)
    ensures r.Ok? ==>
      var request := LoanRequest(|old(db.loanRequests)| + 1, amount, interest,
                                 if approved then Approved else Rejected, bankAccountId);
      && db.loanRequests == old(db.loanRequests) + [request]
      && (approved ==>
            && r.value == Granted(LoanAccount(|old(db.loanAccounts)| + 1, amount, interest, bankAccountId))
            && db.loanAccounts == old(db.loanAccounts) + [r.value.loanAccount])
      && (!approved ==> r.value == Declined(request) && db.loanAccounts == old(db.loanAccounts))
      && db.Contents() == old(db.Contents()).(loanRequests := db.loanRequests, loanAccounts := db.loanAccounts)
    ensures r.Ok? ==> CountApproved(db.loanRequests) == CountApproved(old(db.loanRequests)) + (if approved then 1 else 0)
  {
    if bankAccountId !in db.accounts {
      return NotFound;
    }
    var request := LoanRequest(|db.loanRequests| + 1, amount, interest,
                               if approved then Approved else Rejected, bankAccountId);
    ApprovedTermsAppend(db.loanRequests, request);
    db.loanRequests := db.loanRequests + [request];
    if approved {
      var loanAccount := LoanAccount(|db.loanAccounts| + 1, request.amount, request.interest, request.bankAccountId);
      TermsOfAppend(db.loanAccounts, loanAccount);
      db.loanAccounts := db.loanAccounts + [loanAccount];
      r := Ok(Granted(loanAccount));
    } else {
      r := Ok(Declined(request));
    }
  }

  /** Some loan account has this id. */
  predicate LoanAccountExists(db: Db, loanAccountId: int)
    reads db
  {
    exists a :: a in db.loanAccounts && a.id == loanAccountId
  }

  /** GET /loans/:loanAccountId */
  function GetLoan(db: Db, loanAccountId: int): (r: Outcome<LoanAccount>)
    reads db
    requires db.Valid()
    ensures r.Ok? <==> LoanAccountExists(db, loanAccountId)
    ensures r.Ok? ==> r.value in db.loanAccounts && r.value.id == loanAccountId
    ensures !r.Ok? ==> r == NotFound
  {
    if 1 <= loanAccountId <= |db.loanAccounts| then Ok(db.loanAccounts[loanAccountId - 1]) else NotFound
  }

  /** POST /loans/payback/:loanAccountId: checks the loan account exists and reports success; nothing is repaid. */
  function Payback(db: Db, loanAccountId: int): (r: Outcome<()>)
    reads db
    requires db.Valid()
    ensures r.Ok? <==> LoanAccountExists(db, loanAccountId)
    ensures !r.Ok? ==> r == NotFound
  {
    if GetLoan(db, loanAccountId).Ok? then Ok(()) else NotFound
  }
}
