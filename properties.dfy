/** Properties of saveCustomer that relate several calls or fix a store state, and the
    integration-test scenarios replayed against the classes' contracts. */
module Properties {
  import opened Outcomes
  import opened Customers
  import opened Repository
  import opened Service

  /** The store after saving each candidate of `cs` in turn through the service; a
      rejected candidate leaves the store as it was and the next one is tried. */
  ghost function SaveAll(s: StoreState, cs: seq<CustomerValue>): (t: StoreState)
    requires WellFormed(s)
    ensures WellFormed(t)
    ensures s.rows.Keys <= t.rows.Keys
    decreases |cs|
  {
    if cs == [] then s
    else
      var next := match SaveOutcome(s, cs[0]) case Ok(v) => v.0 case Err(_) => s;
      SaveAll(next, cs[1..])
  }

  /** Saves made through the service never create two records with the same email. */
  lemma {:induction false} SaveAllKeepsEmailsDistinct(s: StoreState, cs: seq<CustomerValue>)
    requires WellFormed(s) && EmailsDistinct(s)
    ensures EmailsDistinct(SaveAll(s, cs))
    decreases |cs|
  {
    if cs != [] {
      SaveKeepsEmailsDistinct(s, cs[0]);
      var next := match SaveOutcome(s, cs[0]) case Ok(v) => v.0 case Err(_) => s;
      SaveAllKeepsEmailsDistinct(next, cs[1..]);
    }
  }

  /** With distinct emails in the store, a candidate whose email is stored is rejected
      with the invalid-argument error naming that email. */
  lemma DuplicateEmailRejected(s: StoreState, c: CustomerValue, k: Id)
    requires WellFormed(s) && EmailsDistinct(s)
    requires k in s.rows && s.rows[k].email == c.email
    ensures SaveOutcome(s, c) == Err(IllegalArgument("Email already exists: " + Shown(c.email)))
  {
    forall j | j in Matches(s, c.email) ensures j == k { }
    assert Matches(s, c.email) == {k};
  }

  /** A candidate that has no id and whose email is not stored is added as exactly
      one new record, under an id no stored record had, and can be found by it. */
  lemma NewCustomerAddsOneRecord(s: StoreState, c: CustomerValue)
    requires WellFormed(s) && c.id.None?
    requires forall k :: k in s.rows ==> s.rows[k].email != c.email
    ensures SaveOutcome(s, c).Ok?
    ensures var (t, saved) := SaveOutcome(s, c).value;
            && saved.id.Some? && saved.id.value !in s.rows
            && t.rows.Keys == s.rows.Keys + {saved.id.value}
            && |t.rows| == |s.rows| + 1
            && (forall k :: k in s.rows ==> t.rows[k] == s.rows[k])
            && saved.name == c.name && saved.email == c.email
            && ById(t, saved.id.value) == Some(saved)
  {
  }

  /** On success the service returns the candidate with the same name and email and a
      stored id, and looking that id up finds the returned record. */
  lemma SavedCustomerKeepsFields(s: StoreState, c: CustomerValue)
    requires WellFormed(s)
    ensures SaveOutcome(s, c).Ok? ==>
              var (t, saved) := SaveOutcome(s, c).value;
              && saved.name == c.name && saved.email == c.email && saved.id.Some?
              && ById(t, saved.id.value) == Some(saved)
  {
  }

  /** Only the email is compared: replacing the candidate's name by any other name
      changes neither whether the save is accepted nor the error it fails with. */
  lemma NameIsNotChecked(s: StoreState, c: CustomerValue, n: Option<string>)
    requires WellFormed(s)
    ensures SaveOutcome(s, c).Ok? <==> SaveOutcome(s, c.(name := n)).Ok?
    ensures SaveOutcome(s, c).Err? ==> SaveOutcome(s, c.(name := n)) == SaveOutcome(s, c)
  {
  }

  /** A second candidate with an email just saved through the service is rejected. */
  lemma SecondSaveOfSameEmailFails(s: StoreState, c1: CustomerValue, c2: CustomerValue)
    requires WellFormed(s)
    requires SaveOutcome(s, c1).Ok? && c2.email == c1.email
    ensures SaveOutcome(SaveOutcome(s, c1).value.0, c2)
              == Err(IllegalArgument("Email already exists: " + Shown(c2.email)))
  {
    var (t, saved) := SaveOutcome(s, c1).value;
    assert Matches(t, c2.email) == {saved.id.value};
  }

  /** A candidate with an email saved directly through the store is rejected by the
      service: with the invalid-argument error when no stored record had that email
      before, and in any case with some error and no save. */
  lemma DirectSaveThenServiceSaveFails(s: StoreState, c1: CustomerValue, c2: CustomerValue)
    requires WellFormed(s) && c2.email == c1.email
    ensures SaveOutcome(Persist(s, c1).0, c2).Err?
    ensures (forall k :: k in s.rows ==> s.rows[k].email != c1.email) ==>
              SaveOutcome(Persist(s, c1).0, c2)
                == Err(IllegalArgument("Email already exists: " + Shown(c2.email)))
  {
    var (t, saved) := Persist(s, c1);
    var id := saved.id.value;
    assert id in t.rows && t.rows[id].email == c2.email;
    if forall k :: k in s.rows ==> s.rows[k].email != c1.email {
      assert Matches(t, c2.email) == {id};
    }
  }

  /** The integration test that saves a new customer: the saved customer gets an id,
      and looking that id up in the store finds it with the fields that were set. */
  method ShouldSaveCustomerInDatabase() returns (id: Id, found: Option<CustomerValue>)
    ensures found == Some(CustomerValue(Some(id), Some("Pepito Perez"), Some("pepito.perez@nuamx.com")))
  {
    var repository := new CustomerRepository();
    var service := new CustomerService(repository);
    var customer := new Customer();
    customer.SetName(Some("Pepito Perez"));
    customer.SetEmail(Some("pepito.perez@nuamx.com"));
    var saved := service.SaveCustomer(customer);
    assert saved.Ok?;
    id := saved.value.id.value;
    found := repository.FindById(id);
  }

  /** A customer saved directly into an empty store blocks any later candidate with
      the same email, with the invalid-argument error naming it. */
  lemma DirectSaveIntoEmptyStoreRejects(first: CustomerValue, second: CustomerValue, e: string)
    requires first.email == Some(e) && second.email == Some(e)
    ensures SaveOutcome(Persist(Empty(), first).0, second)
              == Err(IllegalArgument("Email already exists: " + e))
  {
    DirectSaveThenServiceSaveFails(Empty(), first, second);
  }

  /** The duplicate-email integration test for any name and email: a customer with
      both is stored directly through a new store, then the service is offered a second
      customer with the same email and no name, and rejects it naming the email. */
  method DirectSaveThenServiceSave(name: string, email: string) returns (r: Result<Customer, Failure>)
    ensures r == Err(IllegalArgument("Email already exists: " + email))
  {
    var repository := new CustomerRepository();
    var service := new CustomerService(repository);
    var customer := new Customer();
    customer.SetName(Some(name));
    customer.SetEmail(Some(email));
    ghost var first := customer.Value();
    var _ := repository.Save(customer);
    var newCustomer := new Customer();
    newCustomer.SetEmail(Some(email));
    DirectSaveIntoEmptyStoreRejects(first, newCustomer.Value(), email);
    r := service.SaveCustomer(newCustomer);
  }

  /** The integration test itself, with its name and email. */
  method ShouldThrowExceptionWhenEmailAlreadyExistsInDatabase() returns (r: Result<Customer, Failure>)
    ensures r == Err(IllegalArgument("Email already exists: pepito.perez@nuamx.com"))
  {
    r := DirectSaveThenServiceSave("Pepito Perez", "pepito.perez@nuamx.com");
    assert "Email already exists: " + "pepito.perez@nuamx.com" == "Email already exists: pepito.perez@nuamx.com";
  }
}
