/** The Employee entity and the state of the record store that holds Employee rows. */
module Employees {

  /** An optional value: Java's `Optional`, or a reference that may be null. */
  datatype Option<+T> = None | Some(value: T)

  /** The id an Employee carries before the store has persisted it (a primitive `long` left at zero). */
  const Unset: int := 0

  /** One Employee row; `id` is the surrogate key the store assigns on insert. */
  datatype Employee = Employee(id: int, firstName: string, lastName: string, email: string)

  /** Raw state of the store: the rows by id, and the next id the store will hand out. */
  datatype StoreState = StoreState(rows: map<int, Employee>, nextId: int)

  /** Every stored id is positive and below the next id (so ids are never reused),
      and every row carries its own key as its id. */
  predicate WellFormed(s: StoreState) {
    && s.nextId >= 1
    && forall k :: k in s.rows ==> 1 <= k < s.nextId && s.rows[k].id == k
  }

  /** The states the store can be in. */
  type Store = s: StoreState | WellFormed(s) witness StoreState(map[], 1)

  /** A store with no rows whose first generated id is 1. */
  const EmptyStore: Store := StoreState(map[], 1)

  /** Some stored row has this email. */
  predicate EmailInUse(s: Store, email: string) {
    exists k :: k in s.rows && s.rows[k].email == email
  }

  /** Some stored row has this first and last name. */
  predicate NameInUse(s: Store, firstName: string, lastName: string) {
    exists k :: k in s.rows && s.rows[k].firstName == firstName && s.rows[k].lastName == lastName
  }

  /** The business invariant: at most one row per email. */
  predicate UniqueEmails(s: Store) {
    forall j, k :: j in s.rows && k in s.rows && s.rows[j].email == s.rows[k].email ==> j == k
  }

  /** The row is stored under its own id. */
  predicate Stored(s: Store, e: Employee) {
    e.id in s.rows && s.rows[e.id] == e
  }
}
