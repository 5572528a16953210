/** The customer directory: create, read, update and delete customers. */
module CustomerController {
  import opened Records
  import opened Store

  /** `\d` without the `u` flag: an ASCII digit. */
  predicate IsDigit(c: char) {
    '0' <= c <= '9'
  }

  /** The tail `\d{n}$` of the pattern, matched at the start of `s`: n digits, then the end of the input. */
  predicate DigitsThenEnd(s: string, n: nat)
    decreases n
  {
    if n == 0 then s == [] else s != [] && IsDigit(s[0]) && DigitsThenEnd(s[1..], n - 1)
  }

  /** The mobile-number pattern `^\d{10}$`. */
  predicate IsValidMobile(s: string) {
    DigitsThenEnd(s, 10)
  }

  lemma {:induction false} DigitsThenEndExactly(s: string, n: nat)
    ensures DigitsThenEnd(s, n) <==> |s| == n && forall i :: 0 <= i < |s| ==> IsDigit(s[i])
  {
    if n > 0 && s != [] {
      DigitsThenEndExactly(s[1..], n - 1);
      assert forall i :: 1 <= i < |s| ==> s[i] == s[1..][i - 1];
    }
  }

  /** A mobile number is valid exactly when it is ten ASCII digits and nothing else. */
  lemma ValidMobileIsTenDigits(s: string)
    ensures IsValidMobile(s) <==> |s| == 10 && forall i :: 0 <= i < |s| ==> '0' <= s[i] <= '9'
  {
    DigitsThenEndExactly(s, 10);
  }

  /** `$` without the `m` flag anchors at the end of the input, so a trailing newline is refused. */
  lemma TrailingNewlineRefused()
    ensures !IsValidMobile("0123456789\n")
  {
    var s := "0123456789\n";
    assert |s| == 11;
    ValidMobileIsTenDigits(s);
  }

  /** POST /customers */
  method CreateCustomer(db: Db, firstName: string, lastName: string, email: string, mobileNumber: string)
    returns (r: Outcome<Customer>)
    requires db.Valid()
    modifies db
    ensures db.Valid()
    ensures !IsValidMobile(mobileNumber) ==> r == Invalid
    ensures IsValidMobile(mobileNumber) && ContactTaken(old(db.customers), email, mobileNumber) ==> r == Conflict
    ensures IsValidMobile(mobileNumber) && !ContactTaken(old(db.customers), email, mobileNumber) ==>
      && r == Ok(Customer(old(db.nextCustomerId), firstName, lastName, email, mobileNumber))
      && old(db.nextCustomerId) !in old(db.customers)
      && db.Contents() == old(db.Contents()).(
           customers := old(db.customers)[r.value.id := r.value],
           nextCustomerId := old(db.nextCustomerId) + 1)
    ensures !r.Ok? ==> unchanged(db)
  {
    if !IsValidMobile(mobileNumber) {
      return Invalid;
    }
    if ContactTaken(db.customers, email, mobileNumber) {
      return Conflict;
    }
    assert forall id :: id in db.customers ==>
      db.customers[id].email != email && db.customers[id].mobileNumber != mobileNumber;
    var customer := Customer(db.nextCustomerId, firstName, lastName, email, mobileNumber);
    db.customers := db.customers[customer.id := customer];
    db.nextCustomerId := db.nextCustomerId + 1;
    r := Ok(customer);
  }

  /** GET /customers: every stored customer. */
  function ListCustomers(db: Db): (r: set<Customer>)
    reads db
    requires db.Valid()
    ensures forall id :: id in db.customers ==> db.customers[id] in r
    ensures forall c :: c in r ==> c.id in db.customers && db.customers[c.id] == c
  {
    set id | id in db.customers :: db.customers[id]
  }

  /** GET /customers/:id */
  function GetCustomer(db: Db, id: int): (r: Outcome<Customer>)
    reads db
    requires db.Valid()
    ensures r.Ok? <==> id in db.customers
    ensures r.Ok? ==> r.value == db.customers[id] && r.value.id == id
    ensures !r.Ok? ==> r == NotFound
  {
    if id in db.customers then Ok(db.customers[id]) else NotFound
  }

  function Pick<T>(field: Option<T>, current: T): T {
    if field.Some? then field.value else current
  }

  /** The customer with the fields that the body carries overwritten and the others kept. */
  function Patched(c: Customer, firstName: Option<string>, lastName: Option<string>,
                   email: Option<string>, mobileNumber: Option<string>): Customer
  {
    c.(firstName := Pick(firstName, c.firstName), lastName := Pick(lastName, c.lastName),
       email := Pick(email, c.email), mobileNumber := Pick(mobileNumber, c.mobileNumber))
  }

  /**
   * PUT /customers/:id. An absent id and a clash with another customer's email or
   * mobile number both reach the handler's generic error branch.
   */
  method UpdateCustomer(db: Db, id: int, firstName: Option<string>, lastName: Option<string>,
                        email: Option<string>, mobileNumber: Option<string>)
    returns (r: Outcome<Customer>)
    requires db.Valid()
    modifies db
    ensures db.Valid()
    ensures id !in old(db.customers) ==> r == InternalError
    ensures id in old(db.customers) ==>
      var updated := Patched(old(db.customers[id]), firstName, lastName, email, mobileNumber);
      if ContactTaken(old(db.customers) - {id}, updated.email, updated.mobileNumber) then
        r == InternalError
      else
        && r == Ok(updated)
        && r.value.id == id
        && db.Contents() == old(db.Contents()).(customers := old(db.customers)[id := updated])
    ensures !r.Ok? ==> unchanged(db)
  {
    if id !in db.customers {
      return InternalError;
    }
    var updated := Patched(db.customers[id], firstName, lastName, email, mobileNumber);
    var others := db.customers - {id};
    if ContactTaken(others, updated.email, updated.mobileNumber) {
      return InternalError;
    }
    forall k | k in db.customers && k != id
      ensures db.customers[k].email != updated.email && db.customers[k].mobileNumber != updated.mobileNumber
    {
      assert k in others && others[k] == db.customers[k];
    }
    db.customers := db.customers[id := updated];
    r := Ok(updated);
  }

  /** DELETE /customers/:id. An absent id reaches the generic error branch, not 404. */
  method DeleteCustomer(db: Db, id: int) returns (r: Outcome<()>)
    requires db.Valid()
    modifies db
    ensures db.Valid()
    ensures r.Ok? <==> id in old(db.customers)
    ensures !r.Ok? ==> r == InternalError && unchanged(db)
    ensures r.Ok? ==> db.Contents() == old(db.Contents()).(customers := old(db.customers) - {id})
  {
    if id !in db.customers {
      return InternalError;
    }
    db.customers := db.customers - {id};
    r := Ok(());
  }
}
