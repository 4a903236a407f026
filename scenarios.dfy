/** Sequences of calls on the Employee record manager and what they are
    guaranteed to produce: the lifecycle round trips (create then find,
    update then find, delete then find), the identity law of the finders,
    the idempotence of create_table, a worked example with one department,
    and the call sequence that breaks the identity cache when save runs
    as the source writes it. */
module Scenarios {
  import opened Values
  import opened Tables
  import opened Employees

  /** create, then find_by_id on the new key: the very instance create
      returned comes back, carrying the values it was created with. */
  method CreateThenFindById(db: Database, name: Value, jobTitle: Value, departmentId: Value)
    returns (c: Result<Employee>, f: Result<Option<Employee>>)
    requires db.Valid()
    modifies db`rows, db`all
    ensures c.Ok? ==> f == Ok(Some(c.value)) && c.value.id.Some?
    ensures c.Ok? ==> IsNonEmptyText(name) && IsNonEmptyText(jobTitle) && AsInteger(departmentId).Some?
    ensures c.Ok? ==> c.value.Mirrors(EmployeeRow(c.value.id.value, name.s, jobTitle.s, AsInteger(departmentId).value))
  {
    c := db.Create(name, jobTitle, departmentId);
    if c.Err? {
      f := Ok(None);
      return;
    }
    var e := c.value;
    var k := e.id.value;
    ghost var row := EmployeeRow(k, name.s, jobTitle.s, AsInteger(departmentId).value);
    assert db.rows == old(db.rows) + [row];
    FindAfterInsert(old(db.rows), row);
    assert db.tableExists && k in db.all && db.all[k] == e;
    f := db.FindById(k);
    assert f.Ok? && f.value.Some?;
    assert f.value.value == e && e.Mirrors(row);
  }

  /** Identity law: find_by_id called twice with the same key returns the
      same outcome, and when a row is found, the same instance. */
  method FindByIdTwice(db: Database, k: int) returns (a: Result<Option<Employee>>, b: Result<Option<Employee>>)
    requires db.Valid()
    modifies db`all, db.CachedAt(k)
    ensures db.Valid()
    ensures a == b
    ensures a.Ok? && a.value.Some? ==> a.value.value.id == Some(k) && k in db.all && db.all[k] == a.value.value
  {
    a := db.FindById(k);
    b := db.FindById(k);
    if a.Ok? && a.value.Some? {
      assert b.Ok? && b.value.Some? && b.value.value == a.value.value;
    }
  }

  /** update after the fields were assigned, then find_by_id on the
      instance's key: the instance found carries the fields the updated
      instance had. */
  method UpdateThenFindById(db: Database, e: Employee) returns (f: Result<Option<Employee>>)
    requires db.Valid() && e.Valid(db)
    requires db.tableExists && e.id.Some? && e.id.value in Keys(db.rows)
    modifies db`rows, db`all, db.all.Values
    ensures f.Ok? && f.value.Some?
    ensures f.value.value.Mirrors(old(e.RowWith(e.id.value)))
  {
    var k := e.id.value;
    ghost var row := e.RowWith(k);
    var o := e.Update(db);
    assert o.Pass? && RowById(db.rows, k) == Some(row);
    f := db.FindById(k);
    if f.Ok? && f.value.Some? {
      assert f.value.value.Mirrors(row);
    } else {
      assert false;
    }
  }

  /** delete, then find_by_id on the key the instance had: nothing is
      found, whether or not the eviction succeeded, and the instance's id is
      cleared when it did. */
  method DeleteThenFindById(db: Database, e: Employee) returns (o: Outcome, f: Result<Option<Employee>>)
    requires db.Valid() && db.tableExists && e.id.Some?
    modifies e`id, db`rows, db`all, db.all.Values
    ensures db.Valid()
    ensures f == Ok(None)
    ensures o.Pass? ==> e.id.None?
  {
    var k := e.id.value;
    o := e.Delete(db);
    FindAfterDelete(old(db.rows), k);
    f := db.FindById(k);
  }

  /** create_table twice in succession, whether or not the table existed:
      no failure, the table exists, and the rows and the cache are what
      they were. */
  method CreateTableTwice(db: Database)
    requires db.Valid()
    modifies db`tableExists
    ensures db.Valid() && db.tableExists
    ensures db.rows == old(db.rows) && db.all == old(db.all)
  {
    db.CreateTable();
    db.CreateTable();
  }

  /** One department with key 1, an empty employees table: creating Ada in
      department 1 succeeds under key 1 (the employees table numbers its own
      rows), her department is that row, and an employee in department 999
      is refused without writing a row. */
  method AdaInEngineering() returns (db: Database, ada: Result<Employee>, dept: Option<DepartmentRow>, stray: Result<Employee>)
    ensures ada.Ok? && ada.value.id == Some(1)
    ensures ada.value.name == "Ada" && ada.value.jobTitle == "Engineer" && ada.value.departmentId == 1
    ensures dept == Some(DepartmentRow(1, ["Engineering"]))
    ensures stray == Err(InvalidDepartmentId)
    ensures db.rows == [EmployeeRow(1, "Ada", "Engineer", 1)]
  {
    db := new Database([DepartmentRow(1, ["Engineering"])], []);
    db.CreateTable();
    ada := db.Create(Text("Ada"), Text("Engineer"), Integer(1));
    dept := ada.value.Department(db);
    stray := db.Create(Text("Bob"), Text("Engineer"), Integer(999));
  }

  /** save as the source writes it, called twice on the same instance:
      the second call caches the instance under its new key but leaves it
      under the first key too, so the cache holds an instance under a key
      that is no longer its id. */
  method DoubleSaveLeavesStaleEntry() returns (db: Database, e: Employee)
    ensures 1 in db.all && 2 in db.all && db.all[1] == e && db.all[2] == e
    ensures e.id == Some(2)
    ensures !db.CacheConsistent()
  {
    db := new Database([DepartmentRow(1, [])], []);
    db.CreateTable();
    var c := Employee.New(db, Text("Ada"), Text("Engineer"), Integer(1), None);
    e := c.value;
    var _ := e.SaveAsWritten(db);
    var _ := e.SaveAsWritten(db);
  }

  /** The corrected save called twice on the same instance: it ends up
      cached under its new key only, and the cache stays consistent. */
  method DoubleSaveKeepsCacheConsistent() returns (db: Database, e: Employee)
    ensures 1 !in db.all && 2 in db.all && db.all[2] == e
    ensures e.id == Some(2)
    ensures db.CacheConsistent()
  {
    db := new Database([DepartmentRow(1, [])], []);
    db.CreateTable();
    var c := Employee.New(db, Text("Ada"), Text("Engineer"), Integer(1), None);
    e := c.value;
    var _ := e.Save(db);
    var _ := e.Save(db);
  }
}
