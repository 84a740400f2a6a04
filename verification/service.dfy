/** The Employee service: the business rules around the record store. Each operation
    takes the store state explicitly and, when it may write, returns the next state. */
module EmployeeService {
  import opened Employees
  import opened EmployeeRepository

  /** The service's domain errors, reduced to their kind and payload. */
  datatype Failure =
    | AlreadyExists(email: string)  // create: some row already has this email
    | NotFound(id: int)             // update: no row has this id

  datatype Result<+T> = Ok(value: T) | Err(failure: Failure)

  /** The outcome of a writing operation and the store after it. */
  datatype Step<+T> = Step(result: Result<T>, store: Store)

  /** `saveEmployee`: refuse when the email is taken, otherwise `save`. */
  function SaveEmployee(s: Store, e: Employee): (out: Step<Employee>)
    ensures EmailInUse(s, e.email) <==> out.result == Err(AlreadyExists(e.email))
    ensures EmailInUse(s, e.email) ==> out.store == s
    ensures !EmailInUse(s, e.email) ==> out == Step(Ok(Save(s, e).row), Save(s, e).store)
    ensures out.result.Ok? ==> Stored(out.store, out.result.value) && out.result.value.email == e.email
  {
    match FindByEmail(s, e.email)
    case Some(_) => Step(Err(AlreadyExists(e.email)), s)
    case None =>
      var saved := Save(s, e);
      Step(Ok(saved.row), saved.store)
  }

  /** `getAllEmployees`: the rows of `findAll`; an empty store gives an empty list, not an error. */
  function GetAllEmployees(s: Store): (r: seq<Employee>)
    ensures r == FindAll(s)
    ensures r == [] <==> s.rows == map[]
  {
    FindAll(s)
  }

  /** `getEmployeeById`: the row at this id, if any. */
  function GetEmployeeById(s: Store, id: int): (r: Option<Employee>)
    ensures r == FindById(s, id)
    ensures r.Some? <==> id in s.rows
    ensures r.Some? ==> r.value == s.rows[id]
  {
    FindById(s, id)
  }

  /** `updateEmployee`: refuse an unknown id, otherwise persist the incoming value as it is.
      There is no email check. */
  function UpdateEmployee(s: Store, updated: Employee): (out: Step<Employee>)
    ensures updated.id !in s.rows <==> out.result == Err(NotFound(updated.id))
    ensures updated.id !in s.rows ==> out.store == s
    ensures updated.id in s.rows ==> out.result == Ok(updated)
    ensures updated.id in s.rows ==> out.store == StoreState(s.rows[updated.id := updated], s.nextId)
  {
    match FindById(s, updated.id)
    case None => Step(Err(NotFound(updated.id)), s)
    case Some(_) =>
      var saved := Save(s, updated);
      Step(Ok(saved.row), saved.store)
  }

  /** `deleteEmployee`: `deleteById`, with no existence check and no error. */
  function DeleteEmployee(s: Store, id: int): (r: Store)
    ensures r == DeleteById(s, id)
    ensures GetEmployeeById(r, id) == None
    ensures forall k :: k != id && k in s.rows ==> GetEmployeeById(r, k) == Some(s.rows[k])
  {
    DeleteById(s, id)
  }

  /** Create keeps the store free of duplicate emails. */
  lemma SaveEmployeePreservesUniqueEmails(s: Store, e: Employee)
    requires UniqueEmails(s)
    ensures UniqueEmails(SaveEmployee(s, e).store)
  {
  }

  /** Update succeeds on any stored id, even when another row already holds the new email,
      and then leaves two rows with that email. */
  lemma UpdateIgnoresEmailCollisions(s: Store, updated: Employee, other: int)
    requires updated.id in s.rows
    requires other in s.rows && other != updated.id && s.rows[other].email == updated.email
    ensures UpdateEmployee(s, updated).result == Ok(updated)
    ensures !UniqueEmails(UpdateEmployee(s, updated).store)
  {
  }

  /** So update does not preserve the uniqueness invariant: a store with unique emails
      where one update leaves a duplicate. */
  lemma UpdateCanBreakUniqueEmails()
    ensures exists s: Store, updated: Employee ::
      UniqueEmails(s) && UpdateEmployee(s, updated).result.Ok? && !UniqueEmails(UpdateEmployee(s, updated).store)
  {
    var a := Employee(1, "Adarsh", "Kumar", "adarsh@gmail.com");
    var b := Employee(2, "Anand", "Kumar", "anand@gmail.com");
    var s: Store := StoreState(map[1 := a, 2 := b], 3);
    var updated := b.(email := a.email);
    assert UniqueEmails(s) by {
      assert a.email != b.email;
    }
    UpdateIgnoresEmailCollisions(s, updated, 1);
    assert UniqueEmails(s) && UpdateEmployee(s, updated).result.Ok? && !UniqueEmails(UpdateEmployee(s, updated).store);
  }

  /** Deleting twice is deleting once. */
  lemma DeleteEmployeeIdempotent(s: Store, id: int)
    ensures DeleteEmployee(DeleteEmployee(s, id), id) == DeleteEmployee(s, id)
  {
  }

  /** Two creates with the same email: whatever the store, the second one is refused. */
  lemma SecondCreateWithSameEmailFails(s: Store, e1: Employee, e2: Employee)
    requires e1.email == e2.email
    ensures SaveEmployee(SaveEmployee(s, e1).store, e2).result == Err(AlreadyExists(e2.email))
  {
  }

  /** A successful create is then found by id, with a positive id and the input's fields. */
  lemma CreateThenGetById(s: Store, e: Employee)
    requires SaveEmployee(s, e).result.Ok?
    ensures var created := SaveEmployee(s, e).result.value;
      && created.id > 0
      && created.firstName == e.firstName && created.lastName == e.lastName && created.email == e.email
      && GetEmployeeById(SaveEmployee(s, e).store, created.id) == Some(created)
  {
  }
}
