/** The transaction processor: debits and credits against a bank account. */
module TransactionController {
  import opened Records
  import opened Store
  import opened Ledger

  /** GET /transactions/:bankAccountId: the account's records, in the order they were made. */
  function ListTransactions(db: Db, bankAccountId: int): (r: seq<Transaction>)
    reads db
    requires db.Valid()
    ensures forall t :: t in r <==> t in db.transactions && t.bankAccountId == bankAccountId
    ensures |r| <= |db.transactions|
  {
    TransactionsOf(db.transactions, bankAccountId)
  }

  /**
   * POST /transactions. A DEBIT that would go below zero is recorded as FAILED and the
   * balance is left alone; anything else is recorded as SUCCESSFUL and the balance is
   * overwritten with the candidate value (the balance write is taken to succeed).
   */
  method CreateTransaction(db: Db, bankAccountId: int, amount: int, description: string, transactionType: string)
    returns (r: Outcome<Transaction>)
    requires db.Valid()
    modifies db
    ensures db.Valid()
    ensures r.Ok? <==> bankAccountId in old(db.accounts)
    ensures !r.Ok? ==> r == NotFound && unchanged(db)
    ensures r.Ok? ==>
      var before := old(db.accounts[bankAccountId]);
      var settled := Settle(before.balance, amount, transactionType);
      && r.value == Transaction(|old(db.transactions)| + 1, amount, description, transactionType,
                                settled.status, bankAccountId)
      && db.Contents() == old(db.Contents()).(
           transactions := old(db.transactions) + [r.value],
           accounts := old(db.accounts)[bankAccountId := before.(balance := settled.balance)])
    // the balance moves by exactly the recorded transaction's effect, which keeps the ledger reconciled
    ensures r.Ok? ==> db.accounts[bankAccountId].balance == old(db.accounts[bankAccountId].balance) + Effect(r.value)
    ensures forall id :: Reconciled(old(db.accounts), old(db.transactions), id) ==>
                         Reconciled(db.accounts, db.transactions, id)
  {
    if bankAccountId !in db.accounts {
      return NotFound;
    }
    var existing := db.accounts[bankAccountId];
    var updatedBalance := if transactionType == CREDIT then existing.balance + amount else existing.balance - amount;
    ghost var log0, accounts0 := db.transactions, db.accounts;
    if transactionType == DEBIT && updatedBalance < 0 {
      var failed := Transaction(|db.transactions| + 1, amount, description, transactionType, Failed, bankAccountId);
      db.transactions := db.transactions + [failed];
      r := Ok(failed);
    } else {
      var transaction := Transaction(|db.transactions| + 1, amount, description, transactionType, Successful, bankAccountId);
      db.transactions := db.transactions + [transaction];
      db.accounts := db.accounts[bankAccountId := existing.(balance := updatedBalance)];
      r := Ok(transaction);
    }
    forall id | Reconciled(accounts0, log0, id)
      ensures Reconciled(db.accounts, db.transactions, id)
    {
      NetAppend(log0, r.value, id);
    }
  }
}
