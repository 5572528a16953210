/** The account ledger: bank accounts owned by customers. */
module BankAccountController {
  import opened Records
  import opened Store
  import Ledger

  /** POST /bank-accounts: a new account with balance 0 for an existing customer. */
  method CreateBankAccount(db: Db, customerId: int) returns (r: Outcome<BankAccount>)
    requires db.Valid()
    modifies db
    ensures db.Valid()
    ensures r.Ok? <==> customerId in old(db.customers)
    ensures !r.Ok? ==> r == NotFound && unchanged(db)
    ensures r.Ok? ==>
      && r.value == BankAccount(old(db.nextAccountId), 0, customerId)
      && old(db.nextAccountId) !in old(db.accounts)
      && db.Contents() == old(db.Contents()).(
           accounts := old(db.accounts)[r.value.id := r.value],
           nextAccountId := old(db.nextAccountId) + 1)
    // the new account starts reconciled, and every account that was reconciled stays so
    ensures r.Ok? ==> Ledger.Reconciled(db.accounts, db.transactions, r.value.id)
    ensures forall id :: Ledger.Reconciled(old(db.accounts), old(db.transactions), id) ==>
                         Ledger.Reconciled(db.accounts, db.transactions, id)
  {
    if customerId !in db.customers {
      return NotFound;
    }
    var account := BankAccount(db.nextAccountId, 0, customerId);
    Ledger.NetUnreferenced(db.transactions, account.id);
    db.accounts := db.accounts[account.id := account];
    db.nextAccountId := db.nextAccountId + 1;
    r := Ok(account);
  }

  /** GET /bank-accounts/:customerId: the customer's accounts. */
  function ListBankAccounts(db: Db, customerId: int): (r: set<BankAccount>)
    reads db
    requires db.Valid()
    ensures forall id :: id in db.accounts && db.accounts[id].customerId == customerId ==> db.accounts[id] in r
    ensures forall a :: a in r ==> a.id in db.accounts && db.accounts[a.id] == a && a.customerId == customerId
  {
    set id | id in db.accounts && db.accounts[id].customerId == customerId :: db.accounts[id]
  }

  /** GET /bank-accounts/account/:accountId */
  function GetBankAccount(db: Db, accountId: int): (r: Outcome<BankAccount>)
    reads db
    requires db.Valid()
    ensures r.Ok? <==> accountId in db.accounts
    ensures r.Ok? ==> r.value == db.accounts[accountId] && r.value.id == accountId
    ensures !r.Ok? ==> r == NotFound
  {
    if accountId in db.accounts then Ok(db.accounts[accountId]) else NotFound
  }

  /**
   * PUT /bank-accounts/:accountId: overwrites the balance with whatever the body carries,
   * negative or not; an absent id reaches the generic error branch.
   */
  method UpdateBalance(db: Db, accountId: int, balance: Option<int>) returns (r: Outcome<BankAccount>)
    requires db.Valid()
    modifies db
    ensures db.Valid()
    ensures r.Ok? <==> accountId in old(db.accounts)
    ensures !r.Ok? ==> r == InternalError && unchanged(db)
    ensures r.Ok? ==>
      && r.value == old(db.accounts[accountId]).(balance := if balance.Some? then balance.value else old(db.accounts[accountId].balance))
      && db.Contents() == old(db.Contents()).(accounts := old(db.accounts)[accountId := r.value])
    // this is the one route that can take a balance away from what its transactions add up to
    ensures r.Ok? ==>
      (Ledger.Reconciled(db.accounts, db.transactions, accountId) <==>
       r.value.balance == Ledger.Net(db.transactions, accountId))
    ensures forall id :: id != accountId && Ledger.Reconciled(old(db.accounts), old(db.transactions), id) ==>
                         Ledger.Reconciled(db.accounts, db.transactions, id)
  {
    if accountId !in db.accounts {
      return InternalError;
    }
    var account := db.accounts[accountId];
    if balance.Some? {
      account := account.(balance := balance.value);
    }
    db.accounts := db.accounts[accountId := account];
    r := Ok(account);
  }

  /** DELETE /bank-accounts/:accountId. An absent id reaches the generic error branch, not 404. */
  method DeleteBankAccount(db: Db, accountId: int) returns (r: Outcome<()>)
    requires db.Valid()
    modifies db
    ensures db.Valid()
    ensures r.Ok? <==> accountId in old(db.accounts)
    ensures !r.Ok? ==> r == InternalError && unchanged(db)
    ensures r.Ok? ==> db.Contents() == old(db.Contents()).(accounts := old(db.accounts) - {accountId})
    ensures forall id :: Ledger.Reconciled(old(db.accounts), old(db.transactions), id) ==>
                         Ledger.Reconciled(db.accounts, db.transactions, id)
  {
    if accountId !in db.accounts {
      return InternalError;
    }
    db.accounts := db.accounts - {accountId};
    r := Ok(());
  }
}
