# Customer service: email-guarded save

This project models a small customer-record service. A `Customer` entity has a
store-generated `id`, plus a free-text `name` and `email`. `CustomerService.saveCustomer`
is the one piece of logic. It asks the customer store for a record with the candidate's
email. If one exists, it throws `IllegalArgumentException("Email already exists: " + email)`.
Otherwise it hands the candidate to the store's `save` and returns what `save` returns.

Files and modules:

- `outcomes.dfy` (`Outcomes`): `Option` stands for a Java null or an empty `Optional`.
  `Result` stands for a normal return or a thrown exception. `Failure` lists the
  exceptions the model distinguishes.
- `customer.dfy` (`Customers`): the mutable `Customer` class. It has a constructor and
  the two Lombok setters. `Value()` gives a snapshot of the fields as a `CustomerValue`.
- `repository.dfy` (`Repository`): the customer store. Its real implementation (Spring
  Data JPA over PostgreSQL) is not part of this model, so its behaviour is assumed and
  written as pure functions over a `StoreState`:
  - `ByEmail` is `findByEmail`;
  - `Persist` is `save`;
  - `ById` is `findById`.

  The `CustomerRepository` class implements these operations in memory. Each of its
  methods is proved equal to the matching function.
- `service.dfy` (`Service`): `SaveOutcome` is the pure specification of `saveCustomer`.
  `CustomerService.SaveCustomer` is the imperative method proved against it. The method
  also keeps the invariant that stored emails are pairwise distinct.
- `properties.dfy` (`Properties`): lemmas that relate several calls, plus the two
  integration-test scenarios replayed as client methods. Those methods use only the
  classes' contracts.

Assumptions about the store, whose implementation lies outside this model:

- Records are kept in a map from id to row.
- `findByEmail` is an exact match on the email. A null email matches stored null emails,
  as a derived query does with `IS NULL`.
- If more than one record matches, `findByEmail` does not return a value. It raises an
  incorrect-result-size error, as a single-result query does. The service passes that
  error on unchanged.
- `save` stores a record without an id under a fresh id taken from a counter. The counter
  stands for `@GeneratedValue`, and no proof depends on the value it hands out, only on its
  freshness. `save` writes the id
  into the same object and returns that object.
- `save` stores a record that already has an id under that id, replacing any row there.
- `findById` looks up one id.

The code throws `IllegalArgumentException`, modelled as `Failure.IllegalArgument`.

The integration test that saves a customer asserts that the saved id is non-null and
that `findById` returns a non-null `Optional`. The second always holds.
`ShouldSaveCustomerInDatabase` proves more: the saved id is present, and the lookup finds
the saved record with the name and email that were set.

## Model

| member | source | states |
|---|---|---|
| Customers.Customer.constructor | src/main/java/com/nuamx/customers/model/Customer.java:11-21 | a new Customer has null id, name and email: a candidate starts without an id |
| Customers.Customer.SetName | src/main/java/com/nuamx/customers/model/Customer.java:17-18 | only `name` changes; `id` and `email` keep their values (the frame allows writing `name` alone) |
| Customers.Customer.SetEmail | src/main/java/com/nuamx/customers/model/Customer.java:20-21 | only `email` changes; `id` and `name` keep their values |
| Repository.ByEmail | src/main/java/com/nuamx/customers/service/CustomerService.java:17 | empty result exactly when no stored record has the email; a single match is returned with its id and is the only match; more than one match is an incorrect-result-size error carrying the count |
| Repository.Persist | src/main/java/com/nuamx/customers/model/Customer.java:13-15 | the saved record keeps name and email and gets an id; an unset id becomes one no stored record has; an existing id is kept; the table gains exactly that row; findById on the id returns the record; store well-formedness is preserved |
| Repository.ById | src/test/java/com/nuamx/customers/integrationtesting/CustomerIntegrationTest.java:74 | a record is found exactly when the id is stored, and it carries that id and the stored name and email |
| Repository.CustomerRepository.FindByEmail | src/main/java/com/nuamx/customers/service/CustomerService.java:17 | the query changes nothing and returns what ByEmail specifies |
| Repository.CustomerRepository.Save | src/main/java/com/nuamx/customers/service/CustomerService.java:20 | returns the same object; the new table and the object's fields are those Persist specifies; only the store and the saved object change |
| Repository.CustomerRepository.FindById | src/test/java/com/nuamx/customers/integrationtesting/CustomerIntegrationTest.java:74 | the lookup changes nothing and returns what ById specifies |
| Service.SaveOutcome | src/main/java/com/nuamx/customers/service/CustomerService.java:16-21 | succeeds exactly when no stored record has the candidate's email; a single stored match gives IllegalArgument with "Email already exists: " followed by the email ("null" for a null email); several matches give the store's error; success is the store's save of the candidate |
| Service.SaveKeepsEmailsDistinct | src/main/java/com/nuamx/customers/service/CustomerService.java:17-20 | if stored emails are pairwise distinct before a save through the service, they still are after it |
| Service.CustomerService.constructor | src/main/java/com/nuamx/customers/service/CustomerService.java:10-14 | the service keeps the store it is given |
| Service.CustomerService.SaveCustomer | src/main/java/com/nuamx/customers/service/CustomerService.java:16-21 | on rejection it returns the specified error and leaves the store and the candidate unchanged; on success it returns the candidate object, and the store and candidate are in the state SaveOutcome specifies; it preserves store well-formedness and distinct emails |
| Properties.SaveAll | src/main/java/com/nuamx/customers/service/CustomerService.java:16-21 | a run of saves through the service keeps the store well-formed and never drops a stored id |
| Properties.SaveAllKeepsEmailsDistinct | src/main/java/com/nuamx/customers/service/CustomerService.java:16-21 | however many saves go through the service, no two stored records end up with the same email |
| Properties.DuplicateEmailRejected | src/main/java/com/nuamx/customers/service/CustomerService.java:17-18 | when stored emails are distinct and one record has the candidate's email, the save fails with IllegalArgument "Email already exists: " + email |
| Properties.NewCustomerAddsOneRecord | src/main/java/com/nuamx/customers/service/CustomerService.java:20 | a candidate without an id, whose email is not stored, is saved: exactly one row is added under a fresh id, the old rows are untouched, name and email are kept, and findById finds the record |
| Properties.SavedCustomerKeepsFields | src/test/java/com/nuamx/customers/unittesting/CustomerServiceTest.java:41-63 | on success the returned record has the candidate's name and email and an id under which findById finds it |
| Properties.NameIsNotChecked | src/main/java/com/nuamx/customers/service/CustomerService.java:17 | changing only the candidate's name never changes whether the save is accepted, nor the error it fails with: the name plays no part in the check |
| Properties.SecondSaveOfSameEmailFails | src/main/java/com/nuamx/customers/service/CustomerService.java:17-20 | on every well-formed store, after a successful save through the service, a second candidate with that email fails with IllegalArgument "Email already exists: " + email: saving is not idempotent |
| Properties.DirectSaveThenServiceSaveFails | src/test/java/com/nuamx/customers/integrationtesting/CustomerIntegrationTest.java:83-95 | after a direct store save, a candidate with that email always fails; it fails with IllegalArgument "Email already exists: " + email when no stored record had that email before |
| Properties.ShouldSaveCustomerInDatabase | src/test/java/com/nuamx/customers/integrationtesting/CustomerIntegrationTest.java:63-75 | on a fresh store, saving "Pepito Perez" / "pepito.perez@nuamx.com" yields an id, and findById on it returns that record |
| Properties.DirectSaveIntoEmptyStoreRejects | src/test/java/com/nuamx/customers/integrationtesting/CustomerIntegrationTest.java:83-95 | after a customer is saved directly into an empty store, any candidate with the same email fails with "Email already exists: " + email |
| Properties.DirectSaveThenServiceSave | src/test/java/com/nuamx/customers/integrationtesting/CustomerIntegrationTest.java:81-96 | for any name and email: a direct store save into a new store, then the service save of a nameless customer with that email, returns IllegalArgument "Email already exists: " + email |
| Properties.ShouldThrowExceptionWhenEmailAlreadyExistsInDatabase | src/test/java/com/nuamx/customers/integrationtesting/CustomerIntegrationTest.java:81-96 | after a direct store save, a nameless candidate with the same email is rejected with "Email already exists: pepito.perez@nuamx.com" |

## Left out

- Spring wiring (`@Service`, constructor injection) and the JPA and Lombok annotations are not modelled. The store is passed to the service explicitly, and the fields are written out.
- The Lombok getters are not modelled as members, because Dafny code reads the fields directly. Nothing in Dafny stops any module that imports `Customers` from writing `id`. In the model, after construction, only `CustomerRepository.Save` writes it, and the setters are framed so they cannot.
- The real `CustomerRepository` (Spring Data JPA, PostgreSQL) is not part of this model. Its behaviour is the set of assumptions above. Fresh ids come from a counter that stands for `@GeneratedValue`.
- Repository.Persist: saving a record that already has an id is modelled as replacing the row under that id. JPA merge semantics (a detached entity, an id missing from the database) are not modelled.
- The store keeps row values, not entity objects. It does not capture that a JPA-managed entity stays attached, so a setter call after `save` would later be flushed to the database.
- Store failures other than the incorrect-result-size error are not modelled: an unavailable database, constraint violations, transaction rollback. The in-memory store never fails.
- Ids are unbounded integers. The 64-bit range of `Long` is not modelled, because ids come from a generator that cannot overflow in practice.
- The race between two concurrent `saveCustomer` calls with the same email is not modelled. The check followed by the insert is not atomic, and this model is sequential.
- The integration test's Testcontainers setup, its datasource properties and its `@Transactional` rollback are test infrastructure and are not modelled. Each scenario instead starts from a new, empty store.
- Mockito stubbing in the unit test is not modelled. Its scenarios appear as `SavedCustomerKeepsFields` and `DuplicateEmailRejected`.
- `saveCustomer(null)` is not modelled: in Java it throws `NullPointerException` when it reads the email of a null customer, but `SaveCustomer` takes a non-null `Customer`, so the model has no null-candidate input and no such error.
- The uniqueness invariant is guaranteed only for saves made through the service. A direct store `save` can break it, as `DirectSaveThenServiceSaveFails` allows.
