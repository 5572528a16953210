/**
 * The loan book: a loan account is opened for an approved request and only for one,
 * copying that request's amount, interest and bank account.
 */
module Lending {
  import opened Records

  datatype LoanTerms = LoanTerms(amount: int, interest: real, bankAccountId: int)

  function RequestTerms(q: LoanRequest): LoanTerms {
    LoanTerms(q.amount, q.interest, q.bankAccountId)
  }

  function AccountTerms(a: LoanAccount): LoanTerms {
    LoanTerms(a.amount, a.interest, a.bankAccountId)
  }

  /** How many of the requests were approved. */
  function CountApproved(reqs: seq<LoanRequest>): nat {
    if reqs == [] then 0
    else (if reqs[0].status == Approved then 1 else 0) + CountApproved(reqs[1..])
  }

  /** The terms of the approved requests, in the order they were made. */
  function ApprovedTerms(reqs: seq<LoanRequest>): (r: seq<LoanTerms>)
    ensures |r| == CountApproved(reqs)
    ensures forall t :: t in r ==> exists q :: q in reqs && q.status == Approved && RequestTerms(q) == t
  {
    if reqs == [] then []
    else
      var rest := ApprovedTerms(reqs[1..]);
      assert forall q :: q in reqs[1..] ==> q in reqs;
      (if reqs[0].status == Approved then [RequestTerms(reqs[0])] else []) + rest
  }

  /** The terms of the loan accounts, in the order they were opened. */
  function TermsOf(accts: seq<LoanAccount>): (r: seq<LoanTerms>)
    ensures |r| == |accts|
    ensures forall i :: 0 <= i < |accts| ==> r[i] == AccountTerms(accts[i])
  {
    if accts == [] then [] else [AccountTerms(accts[0])] + TermsOf(accts[1..])
  }

  /** Every loan account matches, one for one and in order, an approved request. */
  predicate Backed(reqs: seq<LoanRequest>, accts: seq<LoanAccount>) {
    TermsOf(accts) == ApprovedTerms(reqs)
  }

  lemma {:induction false} ApprovedTermsAppend(reqs: seq<LoanRequest>, q: LoanRequest)
    ensures ApprovedTerms(reqs + [q])
         == ApprovedTerms(reqs) + (if q.status == Approved then [RequestTerms(q)] else [])
  {
    if reqs == [] {
      assert [q][1..] == [];
    } else {
      assert (reqs + [q])[1..] == reqs[1..] + [q];
      ApprovedTermsAppend(reqs[1..], q);
    }
  }

  lemma TermsOfAppend(accts: seq<LoanAccount>, a: LoanAccount)
    ensures TermsOf(accts + [a]) == TermsOf(accts) + [AccountTerms(a)]
  {
  }

  /** A backed loan book has as many loan accounts as approved requests, each mirroring one. */
  lemma BackedLoanAccounts(reqs: seq<LoanRequest>, accts: seq<LoanAccount>)
    requires Backed(reqs, accts)
    ensures |accts| == CountApproved(reqs)
    ensures forall a :: a in accts ==>
      exists q :: q in reqs && q.status == Approved && RequestTerms(q) == AccountTerms(a)
  {
    forall a | a in accts
      ensures exists q :: q in reqs && q.status == Approved && RequestTerms(q) == AccountTerms(a)
    {
      var i :| 0 <= i < |accts| && accts[i] == a;
      assert AccountTerms(a) in ApprovedTerms(reqs);
    }
  }
}
