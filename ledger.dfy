/**
 * The transaction processor's rule and the ledger it keeps: how a debit or credit
 * settles against a balance, and the net effect of the recorded transactions.
 */
module Ledger {
  import opened Records

  const CREDIT: string := "CREDIT"
  const DEBIT: string := "DEBIT"

  /** What a transaction type does to a balance: CREDIT adds, every other type subtracts. */
  function SignedAmount(transactionType: string, amount: int): int {
    if transactionType == CREDIT then amount else -amount
  }

  /** The balance the processor computes before deciding. */
  function CandidateBalance(balance: int, amount: int, transactionType: string): int {
    balance + SignedAmount(transactionType, amount)
  }

  /** Only a DEBIT is checked, and only against going below zero. */
  predicate Overdraws(balance: int, amount: int, transactionType: string) {
    transactionType == DEBIT && CandidateBalance(balance, amount, transactionType) < 0
  }

  /** The status a transaction is recorded with and the balance its account holds afterwards. */
  datatype Settlement = Settlement(status: TransactionStatus, balance: int)

  function Settle(balance: int, amount: int, transactionType: string): (r: Settlement)
    ensures r.status == Failed <==> transactionType == DEBIT && amount > balance
    ensures r.status == Failed ==> r.balance == balance
    ensures transactionType == CREDIT ==> r == Settlement(Successful, balance + amount)
    ensures transactionType == DEBIT && amount <= balance ==> r == Settlement(Successful, balance - amount)
    ensures transactionType != CREDIT && transactionType != DEBIT ==> r == Settlement(Successful, balance - amount)
    ensures transactionType == DEBIT && r.status == Successful ==> r.balance >= 0
    // a non-negative balance stays so under a CREDIT or DEBIT of a non-negative amount
    ensures balance >= 0 && amount >= 0 && (transactionType == CREDIT || transactionType == DEBIT) ==> r.balance >= 0
  {
    if Overdraws(balance, amount, transactionType) then Settlement(Failed, balance)
    else Settlement(Successful, CandidateBalance(balance, amount, transactionType))
  }

  /**
   * Worked cases: an overdrawing debit fails and keeps the balance, a debit down to exactly
   * zero succeeds, a credit adds, and a type other than CREDIT or DEBIT subtracts unchecked.
   */
  lemma SettleExamples()
    ensures Settle(50, 100, DEBIT) == Settlement(Failed, 50)
    ensures Settle(50, 50, DEBIT) == Settlement(Successful, 0)
    ensures Settle(50, 25, CREDIT) == Settlement(Successful, 75)
    ensures Settle(0, 1, "TRANSFER") == Settlement(Successful, -1)
  {
  }

  /** What a recorded transaction did to its account's balance: a failed one did nothing. */
  function Effect(t: Transaction): int {
    if t.status == Successful then SignedAmount(t.transactionType, t.amount) else 0
  }

  /** The net change that the log's transactions for account `id` made to its balance. */
  function Net(log: seq<Transaction>, id: int): int {
    if log == [] then 0
    else (if log[0].bankAccountId == id then Effect(log[0]) else 0) + Net(log[1..], id)
  }

  /** Appending one record changes the net of its own account by its effect, and no other. */
  lemma {:induction false} NetAppend(log: seq<Transaction>, t: Transaction, id: int)
    ensures Net(log + [t], id) == Net(log, id) + (if t.bankAccountId == id then Effect(t) else 0)
  {
    if log == [] {
      assert [t][1..] == [];
    } else {
      assert (log + [t])[1..] == log[1..] + [t];
      NetAppend(log[1..], t, id);
    }
  }

  /** An account that no record names has a net of zero. */
  lemma {:induction false} NetUnreferenced(log: seq<Transaction>, id: int)
    requires forall i :: 0 <= i < |log| ==> log[i].bankAccountId != id
    ensures Net(log, id) == 0
  {
    if log != [] {
      NetUnreferenced(log[1..], id);
    }
  }

  /** The account's balance is what its recorded transactions add up to. */
  predicate Reconciled(accounts: map<int, BankAccount>, log: seq<Transaction>, id: int) {
    id in accounts ==> accounts[id].balance == Net(log, id)
  }

  /** The records of account `id`, in the order they were made. */
  function TransactionsOf(log: seq<Transaction>, id: int): (r: seq<Transaction>)
    ensures forall t :: t in r <==> t in log && t.bankAccountId == id
    ensures |r| <= |log|
  {
    if log == [] then []
    else (if log[0].bankAccountId == id then [log[0]] else []) + TransactionsOf(log[1..], id)
  }

  /** Appending a record extends its own account's listing by that record and no other listing. */
  lemma {:induction false} TransactionsOfAppend(log: seq<Transaction>, t: Transaction, id: int)
    ensures TransactionsOf(log + [t], id)
         == TransactionsOf(log, id) + (if t.bankAccountId == id then [t] else [])
  {
    if log == [] {
      assert [t][1..] == [];
    } else {
      assert (log + [t])[1..] == log[1..] + [t];
      TransactionsOfAppend(log[1..], t, id);
    }
  }
}
