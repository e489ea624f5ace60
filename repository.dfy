/** The customer store the service depends on. Its interface is a Spring Data
    repository whose implementation lies outside this model, so its behaviour is stated
    here as assumptions: records are kept by id, `findByEmail` is an exact-match query
    returning at most one record, `save` gives an unsaved record an id no stored record
    has, and `findById` looks a record up by its id. */
module Repository {
  import opened Outcomes
  import opened Customers

  /** The stored columns of one record; its id is the key it is stored under. */
  datatype Row = Row(name: Option<string>, email: Option<string>)

  /** The table, and the next value of the id generator. */
  datatype StoreState = StoreState(rows: map<Id, Row>, nextId: Id)

  /** Every stored id was handed out by the generator already. */
  ghost predicate WellFormed(s: StoreState)
  {
    forall k :: k in s.rows ==> k < s.nextId
  }

  /** No two stored records have the same email: the invariant the service maintains. */
  ghost predicate EmailsDistinct(s: StoreState)
  {
    forall k, k' :: k in s.rows && k' in s.rows && k != k' ==> s.rows[k].email != s.rows[k'].email
  }

  /** A store with no records. */
  function Empty(): (s: StoreState)
    ensures s.rows == map[] && WellFormed(s) && EmailsDistinct(s)
  {
    StoreState(map[], 1)
  }

  /** The record stored under `k`, as a Customer snapshot carrying its id. */
  function Record(s: StoreState, k: Id): (c: CustomerValue)
    requires k in s.rows
    ensures c.id == Some(k)
  {
    CustomerValue(Some(k), s.rows[k].name, s.rows[k].email)
  }

  /** The ids of the stored records whose email equals `email` (null matches null). */
  function Matches(s: StoreState, email: Option<string>): set<Id>
  {
    set k | k in s.rows && s.rows[k].email == email
  }

  lemma NonEmptyHasMember(m: set<Id>)
    requires |m| > 0
    ensures exists x :: x in m
  {
    assert (forall x :: x !in m) ==> m == {};
  }

  lemma SingletonMember<T>(m: set<T>, x: T)
    requires |m| == 1 && x in m
    ensures m == {x}
  {
    assert |m - {x}| == 0;
  }

  /** `findByEmail`: no match is an empty Optional, one match is that record, and more
      than one match is the store's incorrect-result-size error. */
  ghost function ByEmail(s: StoreState, email: Option<string>): (r: Result<Option<CustomerValue>, Failure>)
    ensures r == Ok(None) <==> (forall k :: k in s.rows ==> s.rows[k].email != email)
    ensures r.Ok? && r.value.Some? ==>
              r.value.value.id.Some? && r.value.value.id.value in s.rows
              && r.value.value == Record(s, r.value.value.id.value)
              && r.value.value.email == email && Matches(s, email) == {r.value.value.id.value}
    ensures r.Err? <==> |Matches(s, email)| > 1
    ensures r.Err? ==> r.error == IncorrectResultSize(|Matches(s, email)|)
  {
    var ms := Matches(s, email);
    if |ms| == 0 then
      assert forall k :: k in s.rows && s.rows[k].email == email ==> k in ms;
      Ok(None)
    else if |ms| == 1 then
      NonEmptyHasMember(ms);
      var k :| k in ms;
      SingletonMember(ms, k);
      Ok(Some(Record(s, k)))
    else
      NonEmptyHasMember(ms);
      Err(IncorrectResultSize(|ms|))
  }

  /** The id `save` stores a record under: its own if it has one, else a generated one. */
  function StoredId(s: StoreState, c: CustomerValue): Id
  {
    if c.id.Some? then c.id.value else s.nextId
  }

  /** `save`: the record is stored under its id (a fresh one when it had none), the id
      is written into the record, and the record is returned. */
  function Persist(s: StoreState, c: CustomerValue): (r: (StoreState, CustomerValue))
    requires WellFormed(s)
    ensures WellFormed(r.0)
    ensures r.1.id.Some? && r.1.name == c.name && r.1.email == c.email
    ensures c.id.Some? ==> r.1.id == c.id
    ensures c.id.None? ==> r.1.id.value !in s.rows
    ensures r.0.rows == s.rows[r.1.id.value := Row(c.name, c.email)]
    ensures r.1.id.value in r.0.rows && Record(r.0, r.1.id.value) == r.1
  {
    var k := StoredId(s, c);
    var next := if k < s.nextId then s.nextId else k + 1;
    (StoreState(s.rows[k := Row(c.name, c.email)], next), c.(id := Some(k)))
  }

  /** `findById`: the record stored under `id`, if any. */
  function ById(s: StoreState, id: Id): (r: Option<CustomerValue>)
    ensures r.Some? <==> id in s.rows
    ensures r.Some? ==> r.value.id == Some(id) && r.value.name == s.rows[id].name
                        && r.value.email == s.rows[id].email
  {
    if id in s.rows then Some(Record(s, id)) else None
  }

  /** An in-memory store object exposing the repository operations the service and
      its callers use. */
  class CustomerRepository {
    var rows: map<Id, Row>
    var nextId: Id

    function State(): StoreState
      reads this
    {
      StoreState(rows, nextId)
    }

    ghost predicate Valid()
      reads this
    {
      WellFormed(State())
    }

    /** A store with no records. */
    constructor ()
      ensures Valid() && State() == Empty()
    {
      rows, nextId := map[], 1;
    }

    /** Query by exact email; reads the store and changes nothing. */
    method FindByEmail(email: Option<string>) returns (r: Result<Option<CustomerValue>, Failure>)
      ensures r == ByEmail(State(), email)
    {
      var ms := set k | k in rows && rows[k].email == email;
      assert ms == Matches(State(), email);
      if |ms| == 0 {
        r := Ok(None);
      } else if |ms| == 1 {
        NonEmptyHasMember(ms);
        var k :| k in ms;
        SingletonMember(ms, k);
        r := Ok(Some(Record(State(), k)));
      } else {
        r := Err(IncorrectResultSize(|ms|));
      }
    }

    /** Persist `customer`: its row is stored under its id, a fresh id is written into
        the object when it had none, and the same object is returned. */
    method Save(customer: Customer) returns (r: Customer)
      requires Valid()
      modifies this, customer
      ensures Valid() && r == customer
      ensures (State(), customer.Value()) == Persist(old(State()), old(customer.Value()))
    {
      var k := if customer.id.Some? then customer.id.value else nextId;
      rows := rows[k := Row(customer.name, customer.email)];
      if nextId <= k {
        nextId := k + 1;
      }
      customer.id := Some(k);
      r := customer;
    }

    /** Query by id; reads the store and changes nothing. */
    method FindById(id: Id) returns (r: Option<CustomerValue>)
      ensures r == ById(State(), id)
    {
      if id in rows {
        r := Some(Record(State(), id));
      } else {
        r := None;
      }
    }
  }
}
