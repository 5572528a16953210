/**
 * The relational store the controllers share, held in memory: customers and bank
 * accounts keyed by their autoincrement id, and the append-only tables (transactions,
 * loan requests, loan accounts) as logs whose n-th row has id n.
 */
module Store {
  import opened Records
  import Lending

  /** The whole content of the store at one moment. */
  datatype Tables = Tables(
    customers: map<int, Customer>, nextCustomerId: int,
    accounts: map<int, BankAccount>, nextAccountId: int,
    transactions: seq<Transaction>,
    loanRequests: seq<LoanRequest>,
    loanAccounts: seq<LoanAccount>)

  /** The unique constraints on a customer's email and mobile number. */
  ghost predicate UniqueContacts(customers: map<int, Customer>) {
    forall a, b :: a in customers && b in customers && a != b ==>
      customers[a].email != customers[b].email && customers[a].mobileNumber != customers[b].mobileNumber
  }

  /** Some stored customer already has this email or this mobile number. */
  predicate ContactTaken(customers: map<int, Customer>, email: string, mobileNumber: string) {
    exists id :: id in customers && (customers[id].email == email || customers[id].mobileNumber == mobileNumber)
  }

  class Db {
    var customers: map<int, Customer>
    var nextCustomerId: int
    var accounts: map<int, BankAccount>
    var nextAccountId: int
    var transactions: seq<Transaction>
    var loanRequests: seq<LoanRequest>
    var loanAccounts: seq<LoanAccount>

    function Contents(): Tables
      reads this
    {
      Tables(customers, nextCustomerId, accounts, nextAccountId, transactions, loanRequests, loanAccounts)
    }

    ghost predicate Valid()
      reads this
    {
      && 1 <= nextCustomerId && 1 <= nextAccountId
      && (forall id :: id in customers ==> customers[id].id == id && 1 <= id < nextCustomerId)
      && UniqueContacts(customers)
      && (forall id :: id in accounts ==> accounts[id].id == id && 1 <= id < nextAccountId)
      && (forall i :: 0 <= i < |transactions| ==>
            transactions[i].id == i + 1 && transactions[i].bankAccountId < nextAccountId)
      && (forall i :: 0 <= i < |loanRequests| ==> loanRequests[i].id == i + 1)
      && (forall i :: 0 <= i < |loanAccounts| ==> loanAccounts[i].id == i + 1)
      && Lending.Backed(loanRequests, loanAccounts)
    }

    /** An empty store; autoincrement ids start at 1. */
    constructor ()
      ensures Valid()
      ensures Contents() == Tables(map[], 1, map[], 1, [], [], [])
    {
      customers, nextCustomerId := map[], 1;
      accounts, nextAccountId := map[], 1;
      transactions, loanRequests, loanAccounts := [], [], [];
    }
  }
}
