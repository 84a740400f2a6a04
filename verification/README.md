# Employee service and record store, modelled in Dafny

This project models the core of a Spring Boot CRUD backend for Employee records: the
`EmployeeService` business layer and the `EmployeeRepository` store contract it calls.
An Employee has an `id`, a `firstName`, a `lastName` and an `email`. The store is modelled
abstractly as a finite map from id to Employee plus the next id it will generate
(`Employees.Store`, a subset type whose constraint says every stored id is positive, below
the next id, and carried by its own row). Every operation is a pure function: service
operations take the store state and, when they may write, return a `Step` holding the
`Result` and the next state. The two exceptions of the service become
`Failure.AlreadyExists(email)` and `Failure.NotFound(id)`.

Files:
- `employees.dfy` — module `Employees`: the entity, the store state, and the predicates
  `EmailInUse`, `NameInUse`, `UniqueEmails` (the at-most-one-row-per-email invariant).
- `repository.dfy` — module `EmployeeRepository`: `save`, `findById`, `findAll`,
  `deleteById`, `findByEmail` and the four name queries.
- `service.dfy` — module `EmployeeService`: `saveEmployee`, `getAllEmployees`,
  `getEmployeeById`, `updateEmployee`, `deleteEmployee`, and the lemmas about them.
- `scenarios.dfy` — module `Scenarios`: the repository and service test scenarios as lemmas.

Modelling decisions:
- An id of `0` (`Employees.Unset`) marks an employee that has not been persisted; the
  store generates ids 1, 2, 3, … and never reuses one.
- `save` overwrites the row when the employee's id is stored, and otherwise inserts a copy
  under a freshly generated id. This covers both an unset id and an id the store does not hold.
- `findAll` returns the rows in increasing id order; the store itself leaves the order open.
- `findByEmail` and the four name queries return the matching row with the lowest id.
- The four name queries are each written as the filter their query text states. The JPQL
  queries filter entity fields, and the native SQL queries filter `employees` table columns
  (`first_name`, `last_name`). The indexed queries bind `?1`/`?2` from a two-element list,
  and the named queries bind `:firstName`/`:lastName` from a map.
- `updateEmployee` persists the incoming value, as the code does at
  `EmployeeService.java:39`. Lines 35-37 also copy the three fields onto the fetched row.
  That row and the incoming value have the same id and fields, so saving either gives the
  same store.
- `deleteById` of an absent id does nothing.
- Emails and names compare as exact strings.

## Model

| member | source | states |
|---|---|---|
| EmployeeRepository.Save | src/test/java/com/example/repository/EmployeeRepositoryTests.java:99-121 | the saved row keeps the input's names and email and is stored under its id; an existing id is overwritten in place with the row count unchanged; any other input gets a positive id at or above the store's next id (so never one handed out before), the next id moves past it, and the row count grows by one; every other row is untouched |
| EmployeeRepository.FindById | src/test/java/com/example/repository/EmployeeRepositoryTests.java:69-80 | returns a row exactly when the id is stored, and that row carries the id asked for |
| EmployeeRepository.DeletedIdNotReused | src/test/java/com/example/repository/EmployeeRepositoryTests.java:124-136 | after a save and a delete of the saved id, the next save never gets that id back |
| EmployeeRepository.DeleteById | src/test/java/com/example/repository/EmployeeRepositoryTests.java:124-136 | the id is gone afterwards, every other row is unchanged, ids are not reused, and deleting an absent id leaves the store as it was |
| EmployeeRepository.FindAll | src/test/java/com/example/repository/EmployeeRepositoryTests.java:47-66 | lists every stored row exactly once (as many entries as rows, each stored, strictly increasing ids) |
| EmployeeRepository.FindByEmail | src/main/java/com/example/repository/EmployeeRepository.java:11 | returns a stored row with that email, the lowest-id one, and returns nothing exactly when no row has that email |
| EmployeeRepository.FindByFullNameJPQLIndexed | src/main/java/com/example/repository/EmployeeRepository.java:13-15 | returns a stored row with that first and last name (the lowest-id one), and nothing exactly when no row has that name |
| EmployeeRepository.FindByFullNameJPQLNamed | src/main/java/com/example/repository/EmployeeRepository.java:17-19 | as the indexed JPQL query, with the arguments bound by name |
| EmployeeRepository.FindByFullNameSQLIndexed | src/main/java/com/example/repository/EmployeeRepository.java:21-23 | as the JPQL query, evaluated over table rows and mapped back to the entity |
| EmployeeRepository.FindByFullNameSQLNamed | src/main/java/com/example/repository/EmployeeRepository.java:25-27 | as the indexed SQL query, with the arguments bound by name |
| EmployeeRepository.FullNameQueriesAgree | src/main/java/com/example/repository/EmployeeRepository.java:13-27 | the four name queries return the same result for the same store and arguments, even when several rows share the name |
| EmployeeService.SaveEmployee | src/main/java/com/example/service/EmployeeService.java:16-22 | fails with AlreadyExists carrying the email exactly when some stored row has that email, and then writes nothing; otherwise the result and the next store are exactly those of `save` |
| EmployeeService.GetAllEmployees | src/main/java/com/example/service/EmployeeService.java:24-26 | is `findAll` on an unchanged store; the list is empty exactly when the store is empty |
| EmployeeService.GetEmployeeById | src/main/java/com/example/service/EmployeeService.java:28-30 | is `findById` on an unchanged store: the row at that id exactly when the id is stored |
| EmployeeService.UpdateEmployee | src/main/java/com/example/service/EmployeeService.java:32-43 | fails with NotFound carrying the id exactly when the id is not stored, and then writes nothing; otherwise returns the incoming employee and stores it under its id with nothing else changed |
| EmployeeService.DeleteEmployee | src/main/java/com/example/service/EmployeeService.java:45-47 | never fails; the id is absent afterwards and every other row is still found by id |
| EmployeeService.SaveEmployeePreservesUniqueEmails | src/main/java/com/example/service/EmployeeService.java:17-21 | create keeps the invariant of at most one row per email |
| EmployeeService.UpdateIgnoresEmailCollisions | src/main/java/com/example/service/EmployeeService.java:32-39 | update of a stored id succeeds even when another row holds the new email, leaving two rows with that email |
| EmployeeService.UpdateCanBreakUniqueEmails | src/main/java/com/example/service/EmployeeService.java:32-39 | some store with unique emails loses that invariant after one successful update |
| EmployeeService.DeleteEmployeeIdempotent | src/main/java/com/example/service/EmployeeService.java:45-47 | deleting an id twice gives the same store as deleting it once |
| EmployeeService.SecondCreateWithSameEmailFails | src/test/java/com/example/service/EmployeeServiceTests.java:64-77 | two creates with the same email: the second is refused with AlreadyExists, whatever the store |
| EmployeeService.CreateThenGetById | src/main/java/com/example/service/EmployeeService.java:16-30 | a successful create has a positive id and the input's fields, and `getEmployeeById` of that id returns it |
| Scenarios.SaveAssignsFreshId | src/test/java/com/example/repository/EmployeeRepositoryTests.java:33-44 | `save` of an employee without an id assigns an unused positive id, and `findById` then returns the row |
| Scenarios.FindAllAfterTwoSaves | src/test/java/com/example/repository/EmployeeRepositoryTests.java:47-66 | two new employees saved into an empty store give a `findAll` of size two |
| Scenarios.SaveThenFindByEmail | src/test/java/com/example/repository/EmployeeRepositoryTests.java:83-94 | after `save`, `findByEmail` of that email finds a row |
| Scenarios.UpdateThroughRepository | src/test/java/com/example/repository/EmployeeRepositoryTests.java:97-121 | fetching a saved row, changing its fields and saving it again yields the new fields under the same id, still one row |
| Scenarios.SaveThenDelete | src/test/java/com/example/repository/EmployeeRepositoryTests.java:124-136 | `deleteById` of a saved row leaves `findById` empty |
| Scenarios.SaveThenFindByFullName | src/test/java/com/example/repository/EmployeeRepositoryTests.java:138-200 | after saving Adarsh Kumar, each of the four name queries finds a row |
| Scenarios.ServiceWalkThrough | src/main/java/com/example/service/EmployeeService.java:16-47 | create succeeds with a positive id; a second create with the same email fails with AlreadyExists; an update returns the new fields; after delete, get-by-id is empty |

## Left out

- The HTTP controller (routing, JSON, status codes) and Spring dependency injection: the
  store is passed explicitly instead of through the `employeeRepository` field.
- The Employee entity class and the database schema are not part of this model. No column
  constraint is modelled; in particular the store does not enforce unique emails itself.
- Concurrency: each operation is atomic, so the race between the email check and the save in
  `saveEmployee` is not modelled.
- Failures of the store itself (connectivity, constraint violations) are not modelled.
- Exception message texts: only the error kind and its payload are kept. The not-found message
  says "email" but carries the id; the model carries the id.
- The assignments to the fetched row before the save in `updateEmployee` (lines 35-37) are not
  modelled: the incoming value is what is saved, so they have no observable effect here.
- The `long` width of ids: ids are unbounded integers, so overflow after 2^63 - 1 inserts is
  not modelled.
- EmployeeRepository.FindByEmail: when several rows share an email (possible after an
  update), Spring Data raises an incorrect-result-size error. The model returns the lowest-id
  match instead.
- EmployeeRepository.FindByFullNameJPQLIndexed: when several rows share the name, Spring Data raises the same error; the model returns the lowest-id match.
- EmployeeRepository.FindByFullNameJPQLNamed: when several rows share the name, Spring Data raises the same error; the model returns the lowest-id match.
- EmployeeRepository.FindByFullNameSQLIndexed: when several rows share the name, Spring Data raises the same error; the model returns the lowest-id match.
- EmployeeRepository.FindByFullNameSQLNamed: when several rows share the name, Spring Data raises the same error; the model returns the lowest-id match.
- EmployeeService.SaveEmployee: on a store where two rows already share the email (reachable
  through an update), the source's `findByEmail` raises Spring Data's incorrect-result-size
  error, so `saveEmployee` fails with that store error; the model reports AlreadyExists.
- EmployeeRepository.Save: JPA's `save` of a new entity also writes the generated id into the
  caller's object, and the repository tests read the id back from that object. The model has
  no shared objects: only the returned row carries the id, and the input is left as it was.
- EmployeeRepository.Save: saving an employee whose non-zero id is not stored inserts it under
  a fresh id. This follows a JPA merge with generated ids; how a particular JPA provider treats
  that case is not modelled further.
- Parsing and executing the JPQL and SQL strings: each query is modelled only as its filter.
