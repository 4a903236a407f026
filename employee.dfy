/** The Employee record manager: instances with validated fields, and the
    store they persist to together with the identity cache `all`, which
    maps a primary key to the one live instance for that row. */
module Employees {
  import opened Values
  import opened Tables

  class Employee {
    var id: Option<int>
    var name: string
    var jobTitle: string
    var departmentId: int

    /** An instance before its setters have run: the object __init__
        assigns id to and then hands to the three setters. */
    constructor Blank(id: Option<int>)
      ensures this.id == id && name == [] && jobTitle == [] && departmentId == 0
    {
      this.id := id;
      name := [];
      jobTitle := [];
      departmentId := 0;
    }

    /** The setters' constraints. Every instance a caller can hold meets
        them: construction goes through the setters, and a setter only ever
        stores a value it accepts. */
    predicate Valid(db: Database)
      reads this
    {
      name != [] && jobTitle != [] && FindDepartment(db.departments, departmentId).Some?
    }

    /** The row that save and update write for this instance under key k. */
    function RowWith(k: int): EmployeeRow
      reads this
    {
      EmployeeRow(k, name, jobTitle, departmentId)
    }

    /** This instance carries exactly the key and the columns of `row`. */
    predicate Mirrors(row: EmployeeRow)
      reads this
    {
      id == Some(row.id) && name == row.name && jobTitle == row.jobTitle && departmentId == row.departmentId
    }

    /** Build an instance the way __init__ does: id first, then name,
        job_title and department_id through their setters; the first setter
        that refuses its value aborts the construction. */
    static method New(db: Database, name: Value, jobTitle: Value, departmentId: Value, id: Option<int>)
      returns (r: Result<Employee>)
      ensures r.Err? <==> FirstInvalid(name, jobTitle, departmentId, db.departments).Some?
      ensures r.Err? ==> r.error == FirstInvalid(name, jobTitle, departmentId, db.departments).value
      ensures r.Ok? ==> fresh(r.value) && r.value.Valid(db) && r.value.id == id
      ensures r.Ok? ==> r.value.name == name.s && r.value.jobTitle == jobTitle.s
      ensures r.Ok? ==> r.value.departmentId == AsInteger(departmentId).value
    {
      var e := new Employee.Blank(id);
      var o := e.SetName(name);
      if o.Fail? {
        return Err(o.error);
      }
      o := e.SetJobTitle(jobTitle);
      if o.Fail? {
        return Err(o.error);
      }
      o := e.SetDepartmentId(db, departmentId);
      if o.Fail? {
        return Err(o.error);
      }
      r := Ok(e);
    }

    // ------------------------------------------------------------ setters

    /** Accepts exactly a non-empty str; otherwise fails and keeps the old
        name. */
    method SetName(v: Value) returns (o: Outcome)
      modifies this`name
      ensures o.Pass? <==> IsNonEmptyText(v)
      ensures o.Fail? ==> o.error == InvalidName && name == old(name)
      ensures o.Pass? ==> name == v.s && name != []
    {
      if IsNonEmptyText(v) {
        name := v.s;
        o := Pass;
      } else {
        o := Fail(InvalidName);
      }
    }

    /** Accepts exactly a non-empty str; otherwise fails and keeps the old
        job title. */
    method SetJobTitle(v: Value) returns (o: Outcome)
      modifies this`jobTitle
      ensures o.Pass? <==> IsNonEmptyText(v)
      ensures o.Fail? ==> o.error == InvalidJobTitle && jobTitle == old(jobTitle)
      ensures o.Pass? ==> jobTitle == v.s && jobTitle != []
    {
      if IsNonEmptyText(v) {
        jobTitle := v.s;
        o := Pass;
      } else {
        o := Fail(InvalidJobTitle);
      }
    }

    /** Accepts exactly an int that is the key of a row of the departments
        table, looked up at assignment time; otherwise fails and keeps the
        old department. */
    method SetDepartmentId(db: Database, v: Value) returns (o: Outcome)
      modifies this`departmentId
      ensures o.Pass? <==> AsInteger(v).Some? && (exists i :: 0 <= i < |db.departments| && db.departments[i].id == AsInteger(v).value)
      ensures o.Fail? ==> o.error == InvalidDepartmentId && departmentId == old(departmentId)
      ensures o.Pass? ==> departmentId == AsInteger(v).value && FindDepartment(db.departments, departmentId).Some?
    {
      var k := AsInteger(v);
      if k.Some? && FindDepartment(db.departments, k.value).Some? {
        departmentId := k.value;
        o := Pass;
      } else {
        o := Fail(InvalidDepartmentId);
      }
    }

    // --------------------------------------------------------------- CRUD

    /** Insert this instance as a new row under the key the store assigns,
        take that key as id and register this instance in the cache under
        it. A cache entry that still names this instance under its previous
        key is dropped first (see the findings in README.md). */
    method Save(db: Database) returns (o: Outcome)
      requires db.Valid() && Valid(db)
      modifies this`id, db`rows, db`all
      ensures db.Valid()
      ensures o == (if db.tableExists then Pass else Fail(NoSuchTable))
      ensures o.Fail? ==> id == old(id) && db.rows == old(db.rows) && db.all == old(db.all)
      ensures o.Pass? ==>
        var k := NextRowId(old(db.rows));
        && k !in Keys(old(db.rows))
        && id == Some(k)
        && db.rows == old(db.rows) + [RowWith(k)]
        && db.all == old(db.Evicted(this))[k := this]
    {
      if !db.tableExists {
        return Fail(NoSuchTable);
      }
      var k := NextRowId(db.rows);
      db.rows := db.rows + [RowWith(k)];
      if db.Cached(this) {
        db.all := db.all - {id.value};
      }
      id := Some(k);
      db.all := db.all[k := this];
      o := Pass;
    }

    /** save exactly as the source writes it: the entry under the previous
        key is left in place. The cache stays consistent only when this
        instance was not cached under its id before. */
    method SaveAsWritten(db: Database) returns (o: Outcome)
      requires db.Valid() && Valid(db)
      modifies this`id, db`rows, db`all
      ensures db.StoreValid()
      ensures !old(db.Cached(this)) ==> db.CacheConsistent()
      ensures o == (if db.tableExists then Pass else Fail(NoSuchTable))
      ensures o.Fail? ==> id == old(id) && db.rows == old(db.rows) && db.all == old(db.all)
      ensures o.Pass? ==>
        var k := NextRowId(old(db.rows));
        && id == Some(k)
        && db.rows == old(db.rows) + [RowWith(k)]
        && db.all == old(db.all)[k := this]
    {
      if !db.tableExists {
        return Fail(NoSuchTable);
      }
      var k := NextRowId(db.rows);
      db.rows := db.rows + [RowWith(k)];
      id := Some(k);
      db.all := db.all[k := this];
      o := Pass;
    }

    /** Overwrite the row whose key is id with the current fields. An
        unsaved instance binds NULL, which matches no row. */
    method Update(db: Database) returns (o: Outcome)
      requires db.Valid() && Valid(db)
      modifies db`rows
      ensures db.Valid()
      ensures o == (if db.tableExists then Pass else Fail(NoSuchTable))
      ensures db.rows == if o.Pass? && id.Some? then Overwrite(old(db.rows), id.value, name, jobTitle, departmentId) else old(db.rows)
      ensures o.Pass? && id.Some? ==>
        && RowById(db.rows, id.value) == (if id.value in Keys(old(db.rows)) then Some(RowWith(id.value)) else None)
        && forall j :: j != id.value ==> RowById(db.rows, j) == RowById(old(db.rows), j)
    {
      if !db.tableExists {
        return Fail(NoSuchTable);
      }
      if id.Some? {
        FindAfterOverwrite(db.rows, id.value, name, jobTitle, departmentId);
        db.rows := Overwrite(db.rows, id.value, name, jobTitle, departmentId);
      }
      o := Pass;
    }

    /** Delete the row whose key is id, then evict that key from the cache
        and clear id. The DELETE is committed before the eviction, so when
        the key is not cached the row is gone yet the call fails with the
        KeyError and id is kept. */
    method Delete(db: Database) returns (o: Outcome)
      requires db.Valid()
      modifies this`id, db`rows, db`all
      ensures db.Valid()
      ensures !old(db.tableExists) ==> o == Fail(NoSuchTable) && id == old(id) && db.rows == old(db.rows) && db.all == old(db.all)
      ensures old(db.tableExists) ==>
        && o == (if old(id).Some? && old(id).value in old(db.all) then Pass else Fail(KeyNotCached))
        && db.rows == (if old(id).Some? then Without(old(db.rows), old(id).value) else old(db.rows))
        && db.all == (if o.Pass? then old(db.all) - {old(id).value} else old(db.all))
        && id == (if o.Pass? then None else old(id))
    {
      if !db.tableExists {
        return Fail(NoSuchTable);
      }
      if id.Some? {
        db.rows := Without(db.rows, id.value);
      }
      if id.None? || id.value !in db.all {
        return Fail(KeyNotCached);
      }
      db.all := db.all - {id.value};
      id := None;
      o := Pass;
    }

    // ------------------------------------------------------ relationships

    /** The department row that department_id references, if there is one.
        A valid instance always finds one. */
    method Department(db: Database) returns (r: Option<DepartmentRow>)
      ensures r.None? <==> forall i :: 0 <= i < |db.departments| ==> db.departments[i].id != departmentId
      ensures r.Some? ==> r.value in db.departments && r.value.id == departmentId
      ensures Valid(db) ==> r.Some?
    {
      r := FindDepartment(db.departments, departmentId);
    }

    /** The review rows whose employee_id is this instance's id, none for
        an unsaved instance. */
    method Reviews(db: Database) returns (r: seq<ReviewRow>)
      ensures forall x :: x in r <==> x in db.reviews && id == Some(x.employeeId)
      ensures forall x :: multiset(r)[x] == if id == Some(x.employeeId) then multiset(db.reviews)[x] else 0
      ensures id.None? ==> r == []
    {
      r := ReviewsOf(db.reviews, id);
    }
  }

  /** A consistent cache hands out at most one live instance per row: two
      keys holding the same instance are the same key. */
  lemma CacheIsInjective(db: Database, j: int, k: int)
    requires db.CacheConsistent()
    requires j in db.all && k in db.all && db.all[j] == db.all[k]
    ensures j == k
  {
  }

  class Database {
    /** The departments and reviews tables, which this manager only reads. */
    const departments: seq<DepartmentRow>
    const reviews: seq<ReviewRow>
    /** Whether the employees table exists, and its rows in table order. */
    var tableExists: bool
    var rows: seq<EmployeeRow>
    /** The identity cache: primary key to the live instance for that row. */
    var all: map<int, Employee>

    /** The employees table: empty when absent, ascending by key, and every
        row meeting the setters' constraints (rows are only written from
        instances, whose fields went through the setters). */
    ghost predicate StoreValid()
      reads this`tableExists, this`rows
    {
      && (!tableExists ==> rows == [])
      && Ascending(rows)
      && RowsValid(rows, departments)
    }

    /** Every cached instance carries the key it is cached under, so no two
        keys share an instance. */
    ghost predicate CacheConsistent()
      reads this`all, all.Values
    {
      forall k :: k in all ==> all[k].id == Some(k)
    }

    ghost predicate Valid()
      reads this, all.Values
    {
      StoreValid() && CacheConsistent()
    }

    /** e is the instance cached under its own id. */
    predicate Cached(e: Employee)
      reads this, e
    {
      e.id.Some? && e.id.value in all && all[e.id.value] == e
    }

    /** The cache without the entry, if any, that holds e under e's id. */
    function Evicted(e: Employee): map<int, Employee>
      reads this, e
    {
      if Cached(e) then all - {e.id.value} else all
    }

    /** The instance cached under k, as a frame. */
    function CachedAt(k: int): set<Employee>
      reads this
    {
      if k in all then {all[k]} else {}
    }

    constructor (departments: seq<DepartmentRow>, reviews: seq<ReviewRow>)
      ensures Valid()
      ensures this.departments == departments && this.reviews == reviews
      ensures !tableExists && rows == [] && all == map[]
    {
      this.departments := departments;
      this.reviews := reviews;
      tableExists := false;
      rows := [];
      all := map[];
    }

    /** CREATE TABLE IF NOT EXISTS: creates an empty table when there is
        none and leaves an existing one, rows and all, as it is. */
    method CreateTable()
      requires Valid()
      modifies this`tableExists
      ensures Valid() && tableExists
      ensures old(tableExists) ==> unchanged(this)
    {
      tableExists := true;
    }

    /** DROP TABLE IF EXISTS: afterwards there is no table and no row. The
        identity cache is not cleared. */
    method DropTable()
      requires Valid()
      modifies this`tableExists, this`rows
      ensures Valid() && !tableExists && rows == []
      ensures !old(tableExists) ==> unchanged(this)
    {
      tableExists := false;
      rows := [];
    }

    /** Construct an instance and save it. A value a setter refuses fails
        before anything is written; so does a missing table, after the
        construction. */
    method Create(name: Value, jobTitle: Value, departmentId: Value) returns (r: Result<Employee>)
      requires Valid()
      modifies this`rows, this`all
      ensures Valid()
      ensures r.Ok? <==> FirstInvalid(name, jobTitle, departmentId, departments).None? && tableExists
      ensures FirstInvalid(name, jobTitle, departmentId, departments).Some? ==>
        r == Err(FirstInvalid(name, jobTitle, departmentId, departments).value)
      ensures FirstInvalid(name, jobTitle, departmentId, departments).None? && !tableExists ==>
        r == Err(NoSuchTable)
      ensures r.Err? ==> rows == old(rows) && all == old(all)
      ensures r.Ok? ==>
        var e := r.value;
        var k := NextRowId(old(rows));
        && fresh(e) && e.Valid(this) && e.id == Some(k)
        && e.name == name.s && e.jobTitle == jobTitle.s && e.departmentId == AsInteger(departmentId).value
        && rows == old(rows) + [e.RowWith(k)]
        && all == old(all)[k := e]
    {
      var c := Employee.New(this, name, jobTitle, departmentId, None);
      if c.Err? {
        return c;
      }
      var e := c.value;
      var o := e.Save(this);
      if o.Fail? {
        return Err(o.error);
      }
      r := Ok(e);
    }

    /** Turn a row into an instance. A cached instance for the row's key is
        refreshed in place through the setters, in the order name,
        job_title, department_id, and returned; if a setter refuses its
        value, the fields assigned before it keep their new values.
        Otherwise a new instance is built, given the key and cached. */
    method InstanceFromDb(row: EmployeeRow) returns (r: Result<Employee>)
      requires Valid()
      modifies this`all, CachedAt(row.id)
      ensures Valid()
      ensures r.Err? <==> FirstInvalid(Text(row.name), Text(row.jobTitle), Integer(row.departmentId), departments).Some?
      ensures r.Err? ==> r.error == FirstInvalid(Text(row.name), Text(row.jobTitle), Integer(row.departmentId), departments).value
      ensures RowValid(row, departments) ==> r.Ok?
      ensures r.Ok? ==> r.value.Mirrors(row) && r.value.Valid(this) && row.id in all && all[row.id] == r.value
      ensures row.id in old(all) ==> all == old(all) && (r.Ok? ==> r.value == old(all[row.id]))
      ensures row.id in old(all) ==>
        && all[row.id].name == (if row.name != [] then row.name else old(all[row.id].name))
        && all[row.id].jobTitle == (if row.name != [] && row.jobTitle != [] then row.jobTitle else old(all[row.id].jobTitle))
        && all[row.id].departmentId == (if r.Ok? then row.departmentId else old(all[row.id].departmentId))
      ensures row.id !in old(all) ==>
        && (r.Ok? ==> fresh(r.value) && all == old(all)[row.id := r.value])
        && (r.Err? ==> all == old(all))
      ensures forall k :: k in old(all) ==> k in all && all[k] == old(all[k])
      ensures r.Ok? ==> all.Keys == old(all).Keys + {row.id}
    {
      if row.id in all {
        var e := all[row.id];
        var o := e.SetName(Text(row.name));
        if o.Fail? {
          return Err(o.error);
        }
        o := e.SetJobTitle(Text(row.jobTitle));
        if o.Fail? {
          return Err(o.error);
        }
        o := e.SetDepartmentId(this, Integer(row.departmentId));
        if o.Fail? {
          return Err(o.error);
        }
        r := Ok(e);
      } else {
        var c := Employee.New(this, Text(row.name), Text(row.jobTitle), Integer(row.departmentId), None);
        if c.Err? {
          return c;
        }
        var e := c.value;
        e.id := Some(row.id);
        all := all[row.id := e];
        r := Ok(e);
      }
    }

    /** SELECT * FROM employees WHERE id = ?, then instance_from_db: the
        cached instance for k, refreshed, or a new one now cached; None when
        no row has key k. */
    method FindById(k: int) returns (r: Result<Option<Employee>>)
      requires Valid()
      modifies this`all, CachedAt(k)
      ensures Valid()
      ensures r.Err? <==> !tableExists
      ensures r.Err? ==> r.error == NoSuchTable && all == old(all)
      ensures r.Ok? ==> (r.value.None? <==> k !in Keys(rows))
      ensures r.Ok? && r.value.None? ==> all == old(all)
      ensures r.Ok? && r.value.Some? ==>
        var e := r.value.value;
        && e.Mirrors(RowById(rows, k).value) && e.id == Some(k) && e.Valid(this)
        && all == old(all)[k := e]
        && (k in old(all) ==> e == old(all[k]))
        && (k !in old(all) ==> fresh(e))
    {
      if !tableExists {
        return Err(NoSuchTable);
      }
      var row := RowById(rows, k);
      if row.None? {
        return Ok(None);
      }
      assert RowValid(row.value, departments);
      var c := InstanceFromDb(row.value);
      r := Ok(Some(c.value));
    }

    /** SELECT * FROM employees WHERE name = ?, then instance_from_db: the
        instance for the first row, in table order, named n; None when no
        row is. */
    method FindByName(n: string) returns (r: Result<Option<Employee>>)
      requires Valid()
      modifies this`all, if RowByName(rows, n).Some? then CachedAt(RowByName(rows, n).value.id) else {}
      ensures Valid()
      ensures r.Err? <==> !tableExists
      ensures r.Err? ==> r.error == NoSuchTable && all == old(all)
      ensures r.Ok? ==> (r.value.None? <==> forall i :: 0 <= i < |rows| ==> rows[i].name != n)
      ensures r.Ok? && r.value.None? ==> all == old(all)
      ensures r.Ok? && r.value.Some? ==>
        var e := r.value.value;
        var row := RowByName(rows, n).value;
        && e.Mirrors(row) && e.name == n && e.Valid(this)
        && all == old(all)[row.id := e]
        && (row.id in old(all) ==> e == old(all[row.id]))
        && (row.id !in old(all) ==> fresh(e))
    {
      if !tableExists {
        return Err(NoSuchTable);
      }
      var row := RowByName(rows, n);
      if row.None? {
        return Ok(None);
      }
      assert RowValid(row.value, departments);
      var c := InstanceFromDb(row.value);
      r := Ok(Some(c.value));
    }

    /** SELECT * FROM employees, then instance_from_db on every row: one
        instance per row, in table order, each the one now cached under its
        key; no key leaves the cache or changes its instance. */
    method GetAll() returns (r: Result<seq<Employee>>)
      requires Valid()
      modifies this`all, all.Values
      ensures Valid()
      ensures r.Err? <==> !tableExists
      ensures r.Err? ==> r.error == NoSuchTable && all == old(all)
      ensures r.Ok? ==> |r.value| == |rows|
      ensures r.Ok? ==> forall i :: 0 <= i < |rows| ==> r.value[i].Mirrors(rows[i]) && rows[i].id in all && all[rows[i].id] == r.value[i]
      ensures forall k :: k in old(all) ==> k in all && all[k] == old(all[k])
      ensures forall k :: k in all && k !in old(all) ==> fresh(all[k])
    {
      if !tableExists {
        return Err(NoSuchTable);
      }
      var es: seq<Employee> := [];
      var i := 0;
      while i < |rows|
        invariant 0 <= i <= |rows| && |es| == i
        invariant StoreValid() && CacheConsistent()
        invariant forall j :: 0 <= j < i ==> es[j].Mirrors(rows[j]) && rows[j].id in all && all[rows[j].id] == es[j]
        invariant forall k :: k in all && k !in old(all) ==> fresh(all[k])
        invariant forall k :: k in old(all) ==> k in all && all[k] == old(all[k])
      {
        var row := rows[i];
        var c := InstanceFromDb(row);
        es := es + [c.value];
        i := i + 1;
      }
      r := Ok(es);
    }
  }
}
