/** The customer service: saving a customer is allowed only when no stored record
    already has the candidate's email. */
module Service {
  import opened Outcomes
  import opened Customers
  import opened Repository

  /** How Java's string concatenation renders a possibly null String. */
  function Shown(s: Option<string>): string
  {
    match s
    case None => "null"
    case Some(t) => t
  }

  /** The message of the exception raised for a duplicate email. */
  function DuplicateMessage(email: Option<string>): string
  {
    "Email already exists: " + Shown(email)
  }

  /** `saveCustomer` on a store state and a candidate snapshot: the store's
      exact-email query first, then either an exception or the store's save.
      Ok carries the new store state and the returned record. */
  ghost function SaveOutcome(s: StoreState, c: CustomerValue): (r: Result<(StoreState, CustomerValue), Failure>)
    requires WellFormed(s)
    ensures r.Ok? <==> (forall k :: k in s.rows ==> s.rows[k].email != c.email)
    ensures |Matches(s, c.email)| == 1 ==> r == Err(IllegalArgument(DuplicateMessage(c.email)))
    ensures |Matches(s, c.email)| > 1 ==> r == Err(IncorrectResultSize(|Matches(s, c.email)|))
    ensures r.Ok? ==> r.value == Persist(s, c)
  {
    match ByEmail(s, c.email)
    case Err(e) => Err(e)
    case Ok(Some(_)) => Err(IllegalArgument(DuplicateMessage(c.email)))
    case Ok(None) => Ok(Persist(s, c))
  }

  /** Only the email is checked, and a save happens only when no stored record has
      that email, so a store whose emails are pairwise distinct keeps them so. */
  lemma SaveKeepsEmailsDistinct(s: StoreState, c: CustomerValue)
    requires WellFormed(s) && EmailsDistinct(s)
    ensures SaveOutcome(s, c).Ok? ==> EmailsDistinct(SaveOutcome(s, c).value.0)
  {
  }

  /** The service object; the store it uses is fixed when it is built. */
  class CustomerService {
    const customerRepository: CustomerRepository

    constructor (customerRepository: CustomerRepository)
      ensures this.customerRepository == customerRepository
    {
      this.customerRepository := customerRepository;
    }

    /** Reject the customer if a stored record has its email, else save it through
        the store and return what the store returns. No write happens on failure. */
    method SaveCustomer(customer: Customer) returns (r: Result<Customer, Failure>)
      requires customerRepository.Valid()
      modifies customerRepository, customer
      ensures customerRepository.Valid()
      ensures EmailsDistinct(old(customerRepository.State())) ==> EmailsDistinct(customerRepository.State())
      ensures var spec := SaveOutcome(old(customerRepository.State()), old(customer.Value()));
              spec.Err? ==> r == Err(spec.error) && unchanged(customerRepository, customer)
      ensures var spec := SaveOutcome(old(customerRepository.State()), old(customer.Value()));
              spec.Ok? ==> r == Ok(customer)
                           && (customerRepository.State(), customer.Value()) == spec.value
    {
      ghost var before := customerRepository.State();
      ghost var candidate := customer.Value();
      if EmailsDistinct(before) {
        SaveKeepsEmailsDistinct(before, candidate);
      }
      var found := customerRepository.FindByEmail(customer.email);
      match found
      case Err(e) =>
        r := Err(e);
      case Ok(Some(_)) =>
        r := Err(IllegalArgument(DuplicateMessage(customer.email)));
      case Ok(None) =>
        var saved := customerRepository.Save(customer);
        r := Ok(saved);
    }
  }
}
