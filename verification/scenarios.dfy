/** The repository's and the service's test scenarios, stated over the model. */
module Scenarios {
  import opened Employees
  import opened EmployeeRepository
  import opened EmployeeService

  /** The employee the repository tests build: no id yet. */
  const Adarsh: Employee := Employee(Unset, "Adarsh", "Kumar", "adarsh@gmail.com")

  /** `save` of a new employee assigns a positive id, and `findById` then returns the row. */
  lemma SaveAssignsFreshId(s: Store, e: Employee)
    requires e.id == Unset
    ensures var saved := Save(s, e);
      && saved.row.id > 0
      && saved.row.id !in s.rows
      && FindById(saved.store, saved.row.id) == Some(saved.row)
  {
  }

  /** Two new employees saved into an empty store: `findAll` lists two rows. */
  lemma FindAllAfterTwoSaves(e1: Employee, e2: Employee)
    requires e1.id == Unset && e2.id == Unset
    ensures var first := Save(EmptyStore, e1);
      |FindAll(Save(first.store, e2).store)| == 2
  {
  }

  /** After `save`, `findByEmail` of the saved email finds a row. */
  lemma SaveThenFindByEmail(s: Store, e: Employee)
    ensures FindByEmail(Save(s, e).store, e.email).Some?
  {
  }

  /** Fetch a saved row, change its fields, save it again: the fields change in place and
      the store still holds one row. */
  lemma UpdateThroughRepository(update: Employee)
    ensures var first := Save(EmptyStore, Adarsh);
      var fetched := FindById(first.store, first.row.id);
      && fetched.Some?
      && var changed := fetched.value.(firstName := update.firstName, lastName := update.lastName, email := update.email);
      var second := Save(first.store, changed);
      && second.row.firstName == update.firstName
      && second.row.lastName == update.lastName
      && second.row.email == update.email
      && second.row.id == first.row.id
      && |FindAll(second.store)| == 1
  {
  }

  /** After `deleteById` of a saved row, `findById` finds nothing. */
  lemma SaveThenDelete(s: Store, e: Employee)
    ensures var saved := Save(s, e);
      FindById(DeleteById(saved.store, saved.row.id), saved.row.id) == None
  {
  }

  /** After saving Adarsh Kumar, each of the four name queries finds a row. */
  lemma SaveThenFindByFullName(s: Store)
    ensures var after := Save(s, Adarsh).store;
      && FindByFullNameJPQLIndexed(after, "Adarsh", "Kumar").Some?
      && FindByFullNameJPQLNamed(after, "Adarsh", "Kumar").Some?
      && FindByFullNameSQLIndexed(after, "Adarsh", "Kumar").Some?
      && FindByFullNameSQLNamed(after, "Adarsh", "Kumar").Some?
  {
  }

  /** The service walk-through: create, create again with the same email, update, delete. */
  lemma ServiceWalkThrough()
    ensures var created := SaveEmployee(EmptyStore, Adarsh);
      && created.result.Ok?
      && created.result.value.id > 0
      && var id := created.result.value.id;
      var again := SaveEmployee(created.store, Employee(Unset, "Anand", "Kumar", "adarsh@gmail.com"));
      && again.result == Err(AlreadyExists("adarsh@gmail.com"))
      && var updated := UpdateEmployee(again.store, Employee(id, "Anand", "K", "anand@gmail.com"));
      && updated.result == Ok(Employee(id, "Anand", "K", "anand@gmail.com"))
      && GetEmployeeById(DeleteEmployee(updated.store, id), id) == None
  {
  }
}
