/** The record store's contract: the inherited `save`, `findById`, `findAll` and
    `deleteById`, the derived `findByEmail`, and the four name queries. */
module EmployeeRepository {
  import opened Employees

  /** What `save` yields: the persisted representation and the store after the write. */
  datatype Saved = Saved(row: Employee, store: Store)

  /** `save`: overwrite the row with the same id when there is one, otherwise insert
      a copy of the employee under a freshly generated id. */
  function Save(s: Store, e: Employee): (out: Saved)
    ensures out.row.firstName == e.firstName && out.row.lastName == e.lastName && out.row.email == e.email
    ensures Stored(out.store, out.row)
    ensures forall k :: k in s.rows && k != out.row.id ==> k in out.store.rows && out.store.rows[k] == s.rows[k]
    ensures out.store.rows.Keys == s.rows.Keys + {out.row.id}
    ensures out.store.nextId >= s.nextId
    ensures e.id in s.rows ==> out.row == e && |out.store.rows| == |s.rows|
    ensures e.id !in s.rows ==> out.row.id > 0 && out.row.id !in s.rows && |out.store.rows| == |s.rows| + 1
    ensures e.id !in s.rows ==> s.nextId <= out.row.id < out.store.nextId
  {
    if e.id in s.rows then
      Saved(e, StoreState(s.rows[e.id := e], s.nextId))
    else
      var row := e.(id := s.nextId);
      Saved(row, StoreState(s.rows[row.id := row], s.nextId + 1))
  }

  /** `findById`. */
  function FindById(s: Store, id: int): (r: Option<Employee>)
    ensures r.Some? <==> id in s.rows
    ensures r.Some? ==> r.value.id == id && Stored(s, r.value)
  {
    if id in s.rows then Some(s.rows[id]) else None
  }

  /** `deleteById`: removes the row if present, and does nothing when it is absent. */
  function DeleteById(s: Store, id: int): (r: Store)
    ensures id !in r.rows
    ensures forall k :: k != id ==> (k in r.rows <==> k in s.rows)
    ensures forall k :: k in r.rows ==> r.rows[k] == s.rows[k]
    ensures r.nextId == s.nextId
    ensures id !in s.rows ==> r == s
  {
    StoreState(s.rows - {id}, s.nextId)
  }

  /** A deleted id is never handed out again: whatever is saved after a delete gets a
      different id from the deleted row. */
  lemma DeletedIdNotReused(s: Store, first: Employee, next: Employee)
    ensures var saved := Save(s, first);
      var after := Save(DeleteById(saved.store, saved.row.id), next);
      after.row.id != saved.row.id
  {
  }

  /** The stored ids in [lo, hi). */
  ghost function IdsBetween(s: Store, lo: int, hi: int): set<int> {
    set k | k in s.rows && lo <= k < hi
  }

  /** The stored rows whose ids lie in [lo, hi), scanned in increasing id order. */
  function RowsBetween(s: Store, lo: int, hi: int): (r: seq<Employee>)
    ensures forall i :: 0 <= i < |r| ==> lo <= r[i].id < hi && Stored(s, r[i])
    decreases hi - lo
  {
    if lo >= hi then []
    else if lo in s.rows then [s.rows[lo]] + RowsBetween(s, lo + 1, hi)
    else RowsBetween(s, lo + 1, hi)
  }

  /** The scan misses no stored row in its range. */
  lemma {:induction false} RowsBetweenComplete(s: Store, lo: int, hi: int)
    ensures forall k :: k in s.rows && lo <= k < hi ==> s.rows[k] in RowsBetween(s, lo, hi)
    decreases hi - lo
  {
    if lo < hi {
      RowsBetweenComplete(s, lo + 1, hi);
    }
  }

  /** Ids strictly increase along the sequence, so no row appears twice. */
  predicate IdsIncreasing(r: seq<Employee>) {
    forall i, j :: 0 <= i < j < |r| ==> r[i].id < r[j].id
  }

  /** The scan yields strictly increasing ids. */
  lemma {:induction false} RowsBetweenSorted(s: Store, lo: int, hi: int)
    ensures IdsIncreasing(RowsBetween(s, lo, hi))
    decreases hi - lo
  {
    if lo < hi {
      RowsBetweenSorted(s, lo + 1, hi);
      var rest := RowsBetween(s, lo + 1, hi);
      if lo in s.rows {
        var r := [s.rows[lo]] + rest;
        assert RowsBetween(s, lo, hi) == r;
        forall i, j | 0 <= i < j < |r| ensures r[i].id < r[j].id {
          assert r[j] == rest[j - 1];
          if 0 < i {
            assert r[i] == rest[i - 1];
          } else {
            assert r[i].id == lo < lo + 1 <= rest[j - 1].id;
          }
        }
      } else {
        assert RowsBetween(s, lo, hi) == rest;
      }
    }
  }

  /** The scan yields one row per stored id in its range. */
  lemma {:induction false} RowsBetweenCount(s: Store, lo: int, hi: int)
    ensures |RowsBetween(s, lo, hi)| == |IdsBetween(s, lo, hi)|
    decreases hi - lo
  {
    if lo >= hi {
      assert IdsBetween(s, lo, hi) == {};
    } else {
      RowsBetweenCount(s, lo + 1, hi);
      if lo in s.rows {
        assert IdsBetween(s, lo, hi) == {lo} + IdsBetween(s, lo + 1, hi);
      } else {
        assert IdsBetween(s, lo, hi) == IdsBetween(s, lo + 1, hi);
      }
    }
  }

  /** `findAll`: every stored row exactly once, in increasing id order. */
  function FindAll(s: Store): (r: seq<Employee>)
    ensures |r| == |s.rows|
    ensures forall i :: 0 <= i < |r| ==> Stored(s, r[i])
    ensures forall k :: k in s.rows ==> s.rows[k] in r
    ensures IdsIncreasing(r)
  {
    RowsBetweenComplete(s, 1, s.nextId);
    RowsBetweenSorted(s, 1, s.nextId);
    RowsBetweenCount(s, 1, s.nextId);
    assert IdsBetween(s, 1, s.nextId) == s.rows.Keys;
    RowsBetween(s, 1, s.nextId)
  }

  /** The position of the first element satisfying `p`, or `|xs|` when none does. */
  function FirstIndex<T>(xs: seq<T>, p: T -> bool): (r: nat)
    ensures r <= |xs|
    ensures forall j :: 0 <= j < r ==> !p(xs[j])
    ensures r < |xs| ==> p(xs[r])
  {
    if |xs| == 0 then 0
    else if p(xs[0]) then 0
    else 1 + FirstIndex(xs[1..], p)
  }

  /** Two filters that agree position by position pick the same position. */
  lemma FirstIndexAgrees<A, B>(xs: seq<A>, p: A -> bool, ys: seq<B>, q: B -> bool)
    requires |xs| == |ys|
    requires forall i :: 0 <= i < |xs| ==> p(xs[i]) == q(ys[i])
    ensures FirstIndex(xs, p) == FirstIndex(ys, q)
  {
  }

  /** The stored row with the lowest id among those satisfying `p`, or nothing. */
  function LowestMatch(s: Store, p: Employee -> bool): (r: Option<Employee>)
    ensures r.Some? ==> Stored(s, r.value) && p(r.value)
    ensures r.None? <==> forall k :: k in s.rows ==> !p(s.rows[k])
    ensures r.Some? ==> forall k :: k in s.rows && p(s.rows[k]) ==> r.value.id <= k
  {
    var rows := FindAll(s);
    var i := FirstIndex(rows, p);
    assert forall k :: k in s.rows && p(s.rows[k]) ==> i < |rows| && rows[i].id <= k by {
      forall k | k in s.rows && p(s.rows[k]) ensures i < |rows| && rows[i].id <= k {
        var j :| 0 <= j < |rows| && rows[j] == s.rows[k];
        assert i <= j;
        if i < j { assert rows[i].id < rows[j].id; }
      }
    }
    if i < |rows| then Some(rows[i]) else None
  }

  /** `findByEmail`: the stored row with this email (the lowest id if several), or nothing. */
  function FindByEmail(s: Store, email: string): (r: Option<Employee>)
    ensures r.Some? ==> r.value.email == email && Stored(s, r.value)
    ensures r.None? <==> !EmailInUse(s, email)
    ensures r.Some? ==> forall k :: k in s.rows && s.rows[k].email == email ==> r.value.id <= k
  {
    LowestMatch(s, (e: Employee) => e.email == email)
  }

  // The four name queries. Each is the filter its query text states; they differ in
  // the query language (JPQL over entity fields, native SQL over table columns) and
  // in how the two arguments are bound (`?1`/`?2` or `:firstName`/`:lastName`).

  /** Arguments bound by position, `?1` and `?2`. */
  function Positional(firstName: string, lastName: string): seq<string> {
    [firstName, lastName]
  }

  /** Arguments bound by name, `:firstName` and `:lastName`. */
  function Named(firstName: string, lastName: string): map<string, string> {
    map["firstName" := firstName, "lastName" := lastName]
  }

  /** A row of the `employees` table as native SQL sees it. */
  datatype TableRow = TableRow(id: int, first_name: string, last_name: string, email: string)

  function ToTableRow(e: Employee): TableRow {
    TableRow(e.id, e.firstName, e.lastName, e.email)
  }

  function FromTableRow(t: TableRow): (e: Employee)
    ensures ToTableRow(e) == t
  {
    Employee(t.id, t.first_name, t.last_name, t.email)
  }

  /** The rows as table rows, in the same order. */
  function ToTable(rows: seq<Employee>): (t: seq<TableRow>)
    ensures |t| == |rows|
    ensures forall i :: 0 <= i < |rows| ==> t[i] == ToTableRow(rows[i])
  {
    if |rows| == 0 then [] else [ToTableRow(rows[0])] + ToTable(rows[1..])
  }

  /** JPQL, positional binding: the entity's first name equals the first argument and its
      last name the second. */
  predicate JpqlIndexedWhere(e: Employee, args: seq<string>) {
    |args| == 2 && e.firstName == args[0] && e.lastName == args[1]
  }

  /** JPQL, named binding: the entity's first and last name equal the arguments bound to
      the names firstName and lastName. */
  predicate JpqlNamedWhere(e: Employee, args: map<string, string>) {
    && "firstName" in args && "lastName" in args
    && e.firstName == args["firstName"] && e.lastName == args["lastName"]
  }

  /** Native SQL, positional binding: the row's first-name column equals the first argument
      and its last-name column the second. */
  predicate SqlIndexedWhere(t: TableRow, args: seq<string>) {
    |args| == 2 && t.first_name == args[0] && t.last_name == args[1]
  }

  /** Native SQL, named binding: the row's first-name and last-name columns equal the
      arguments bound to the names firstName and lastName. */
  predicate SqlNamedWhere(t: TableRow, args: map<string, string>) {
    && "firstName" in args && "lastName" in args
    && t.first_name == args["firstName"] && t.last_name == args["lastName"]
  }

  /** A native query's single result: the first matching table row, mapped back to the entity. */
  function SqlResult(s: Store, p: TableRow -> bool): (r: Option<Employee>)
    ensures r == LowestMatch(s, (e: Employee) => p(ToTableRow(e)))
  {
    var rows := FindAll(s);
    var table := ToTable(rows);
    var i := FirstIndex(table, p);
    FirstIndexAgrees(table, p, rows, (e: Employee) => p(ToTableRow(e)));
    if i < |table| then Some(FromTableRow(table[i])) else None
  }

  function FindByFullNameJPQLIndexed(s: Store, firstName: string, lastName: string): (r: Option<Employee>)
    ensures r.Some? ==> Stored(s, r.value) && r.value.firstName == firstName && r.value.lastName == lastName
    ensures r.None? <==> !NameInUse(s, firstName, lastName)
    ensures r.Some? ==> forall k :: k in s.rows && s.rows[k].firstName == firstName && s.rows[k].lastName == lastName ==> r.value.id <= k
  {
    LowestMatch(s, (e: Employee) => JpqlIndexedWhere(e, Positional(firstName, lastName)))
  }

  function FindByFullNameJPQLNamed(s: Store, firstName: string, lastName: string): (r: Option<Employee>)
    ensures r.Some? ==> Stored(s, r.value) && r.value.firstName == firstName && r.value.lastName == lastName
    ensures r.None? <==> !NameInUse(s, firstName, lastName)
    ensures r.Some? ==> forall k :: k in s.rows && s.rows[k].firstName == firstName && s.rows[k].lastName == lastName ==> r.value.id <= k
  {
    LowestMatch(s, (e: Employee) => JpqlNamedWhere(e, Named(firstName, lastName)))
  }

  function FindByFullNameSQLIndexed(s: Store, firstName: string, lastName: string): (r: Option<Employee>)
    ensures r.Some? ==> Stored(s, r.value) && r.value.firstName == firstName && r.value.lastName == lastName
    ensures r.None? <==> !NameInUse(s, firstName, lastName)
    ensures r.Some? ==> forall k :: k in s.rows && s.rows[k].firstName == firstName && s.rows[k].lastName == lastName ==> r.value.id <= k
  {
    SqlResult(s, (t: TableRow) => SqlIndexedWhere(t, Positional(firstName, lastName)))
  }

  function FindByFullNameSQLNamed(s: Store, firstName: string, lastName: string): (r: Option<Employee>)
    ensures r.Some? ==> Stored(s, r.value) && r.value.firstName == firstName && r.value.lastName == lastName
    ensures r.None? <==> !NameInUse(s, firstName, lastName)
    ensures r.Some? ==> forall k :: k in s.rows && s.rows[k].firstName == firstName && s.rows[k].lastName == lastName ==> r.value.id <= k
  {
    SqlResult(s, (t: TableRow) => SqlNamedWhere(t, Named(firstName, lastName)))
  }

  /** The four name queries are interchangeable: same store and arguments, same result
      (the same row, not merely some matching row, when several rows share the name). */
  lemma FullNameQueriesAgree(s: Store, firstName: string, lastName: string)
    ensures FindByFullNameJPQLNamed(s, firstName, lastName) == FindByFullNameJPQLIndexed(s, firstName, lastName)
    ensures FindByFullNameSQLIndexed(s, firstName, lastName) == FindByFullNameJPQLIndexed(s, firstName, lastName)
    ensures FindByFullNameSQLNamed(s, firstName, lastName) == FindByFullNameJPQLIndexed(s, firstName, lastName)
  {
    var jIdx := FindByFullNameJPQLIndexed(s, firstName, lastName);
    var jNam := FindByFullNameJPQLNamed(s, firstName, lastName);
    var sIdx := FindByFullNameSQLIndexed(s, firstName, lastName);
    var sNam := FindByFullNameSQLNamed(s, firstName, lastName);
    if jIdx.Some? {
      assert jNam.value.id <= jIdx.value.id <= jNam.value.id;
      assert sIdx.value.id <= jIdx.value.id <= sIdx.value.id;
      assert sNam.value.id <= jIdx.value.id <= sNam.value.id;
    }
  }
}
