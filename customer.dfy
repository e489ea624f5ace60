/** The Customer entity: a store-generated id and two free-text fields. */
module Customers {
  import opened Outcomes

  /** The entity's identifier (a Java Long). */
  type Id = int

  /** A snapshot of a Customer's fields; a Java null is None. */
  datatype CustomerValue = CustomerValue(id: Option<Id>, name: Option<string>, email: Option<string>)

  /** The mutable entity. Its getters are the field reads themselves. Only `name` and
      `email` have setters; `id` is written by the store's save alone. */
  class Customer {
    var id: Option<Id>
    var name: Option<string>
    var email: Option<string>

    /** The current values of the three fields. */
    function Value(): CustomerValue
      reads this
    {
      CustomerValue(id, name, email)
    }

    /** `new Customer()`: every field is null, so a new candidate has no id. */
    constructor ()
      ensures Value() == CustomerValue(None, None, None)
    {
      id, name, email := None, None, None;
    }

    /** `setName`: overwrites the name and nothing else. */
    method SetName(name: Option<string>)
      modifies this`name
      ensures Value() == old(Value()).(name := name)
    {
      this.name := name;
    }

    /** `setEmail`: overwrites the email and nothing else. */
    method SetEmail(email: Option<string>)
      modifies this`email
      ensures Value() == old(Value()).(email := email)
    {
      this.email := email;
    }
  }
}
