# Employee record manager, modelled in Dafny

`lib/employee.py` is an object-relational record manager for employees stored
in a relational table. It works on top of a `departments` table and a
`reviews` table. This project models its core against an abstract in-memory
store and proves what the manager guarantees. The core has four parts:

- **Validated setters.** `name` and `job_title` accept only a non-empty
  string. `department_id` accepts only an int that is the key of an
  existing department. A refused value raises an error and leaves the field
  as it was. Construction (`__init__`) goes through the same setters, in
  the order name, job_title, department_id.
- **CRUD over the employees table.**
  - `create_table`/`drop_table` are modelled as a flag saying whether the
    table exists.
  - `create` constructs an instance and saves it.
  - `save` inserts a row and takes the key the store assigns. It uses
    SQLite's rowid rule: one more than the largest key in use, and 1 in an
    empty table.
  - `update` overwrites the row whose key is `id`.
  - `delete` removes that row, evicts the key from the cache and clears
    `id`.
- **The identity cache `all`.** It maps a key to the one live instance
  for that row. `instance_from_db` refreshes a cached instance in place
  through the setters, or builds, keys and caches a new one. The finders
  `get_all`, `find_by_id` and `find_by_name` all load through it.
- **Relationships.** `department()` looks up the department row with the
  instance's `department_id`. `reviews()` returns the review rows whose
  `employee_id` is the instance's `id`.

Layout:

- `values.dfy` (module `Values`): the values the manager is handed and its
  errors. Python's dynamic argument types become a tagged `Value`. A bool
  counts as an int, as `isinstance` counts it.
- `tables.dfy` (module `Tables`): the rows of the three tables and the
  queries and writes the manager issues, as functions on sequences of rows
  in table order, with lemmas relating a write to a later lookup.
- `employee.dfy` (module `Employees`): class `Employee` holds the fields
  the setters guard. Class `Database` holds the store and the cache. The
  class-level state of the source (`Employee.all`, the shared connection)
  becomes this one explicit session object. The classmethods are its
  methods, and the instance methods take it as a parameter.
- `scenarios.dfy` (module `Scenarios`): call sequences with their
  guaranteed outcomes. These are the round trips of the record lifecycle,
  the identity law, the idempotence of `create_table`, a worked example,
  and the counterexample of the finding below.

Invariants kept by every operation except `Employee.SaveAsWritten` (the
save as the source writes it; see the finding below), which keeps
`Database.CacheConsistent` only when the instance was not already cached
under its id:

- `Database.StoreValid`: the table is empty when absent, ascending by key,
  and every row meets the setters' constraints.
- `Database.CacheConsistent`: every cached instance carries the key it is
  cached under, so no two keys share an instance.
- `Employee.Valid`: an instance's fields meet the setters' constraints.

Where the code behaves differently from what a reader might expect, the
model follows the code:

- One might expect the first employee, created after department 1, to get
  id 2. The employees table numbers its own rows, so that employee gets
  key 1 (`Scenarios.AdaInEngineering`).
- `update()`/`delete()` on an unsaved instance are not guarded. The code
  binds `id = None` as SQL NULL, which matches no row.
  - `update` is then a silent no-op.
  - `delete` removes nothing and then fails with the `KeyError` of
    `del all[None]`.
- One might expect a validation failure to leave no partial state. The
  cached path of `instance_from_db` assigns the three fields one after
  another, so a refused later value leaves the earlier fields already
  overwritten in memory. The model states exactly which fields changed.
- `delete` commits the DELETE before evicting the key. So when the key is
  not cached, the row is gone although the call fails.

## Model

| member | source | states |
|---|---|---|
| `Tables.MaxKey` | lib/employee.py:93 | the largest key in use bounds every key of a non-empty table and is one of them |
| `Tables.NextRowId` | lib/employee.py:93 | the key an insert receives (lastrowid) is not in use, exceeds every key in use, and is 1 in an empty table |
| `Tables.RowById` | lib/employee.py:140-141 | the lookup by key finds nothing exactly when no row has that key; otherwise it returns the first row, in table order, with that key |
| `Tables.RowByName` | lib/employee.py:147-148 | the lookup by name finds nothing exactly when no row has that name; otherwise it returns the first row, in table order, with that name |
| `Tables.FindDepartment` | lib/employee.py:44-46 | the department lookup finds nothing exactly when no department has that key; otherwise a department row with that key |
| `Tables.ReviewsOf` | lib/employee.py:163-164 | the reviews returned are exactly the review rows whose employee_id is the given id, each as often as it occurs in the table; none for an unsaved employee (NULL matches nothing) |
| `Tables.ReviewsOfConcat` | lib/employee.py:163-164 | the reviews of a table split in two are those of the first part followed by those of the second, so the result keeps table order |
| `Tables.Overwrite` | lib/employee.py:98-103 | UPDATE replaces the columns of exactly the rows with key k; every other row, and every key and the row count, stay as they were |
| `Tables.Without` | lib/employee.py:109-110 | DELETE keeps exactly the rows whose key is not k, and an ascending table stays ascending |
| `Tables.KeysAfterInsert` | lib/employee.py:86-90 | an insert adds exactly the new row's key to the keys in use |
| `Tables.KeysAfterDelete` | lib/employee.py:109-110 | a delete by key removes exactly that key from the keys in use |
| `Tables.AscendingKeysUnique` | lib/employee.py:58 | in an ascending table a key names at most one row (id is the primary key) |
| `Tables.FindAfterInsert` | lib/employee.py:86-93 | after an insert under a fresh key, the lookup by that key finds the inserted row and every other key finds what it found before |
| `Tables.FindAfterOverwrite` | lib/employee.py:96-104 | after an update, the lookup by the updated key finds the new columns exactly when the key was in use, and every other key finds what it found before |
| `Tables.FindAfterDelete` | lib/employee.py:106-111 | after a delete, the lookup by the deleted key finds nothing and every other key finds what it found before |
| `Employees.Employee.New` | lib/employee.py:7-11 | construction fails exactly when a setter refuses its value, with the first such error in setter order; otherwise it yields a fresh valid instance holding the given id and values |
| `Employees.Employee.SetName` | lib/employee.py:20-25 | assigning name succeeds exactly for a non-empty string and stores it; otherwise InvalidName and the old name is kept |
| `Employees.Employee.SetJobTitle` | lib/employee.py:31-36 | assigning job_title succeeds exactly for a non-empty string and stores it; otherwise InvalidJobTitle and the old title is kept |
| `Employees.Employee.SetDepartmentId` | lib/employee.py:42-49 | assigning department_id succeeds exactly for an int (bools included) that is the key of a department row; otherwise InvalidDepartmentId and the old value is kept |
| `Employees.Employee.Save` | lib/employee.py:83-94 | corrected save: on a present table the row is appended under a fresh key, id becomes that key, the instance is cached under it and a stale entry under its old key is dropped; on a missing table NoSuchTable and nothing changes; all invariants are kept |
| `Employees.Employee.SaveAsWritten` | lib/employee.py:83-94 | save as written: same row and id, the cache gains the new key and keeps every old entry; the cache stays consistent only if the instance was not cached under its id before |
| `Employees.Employee.Update` | lib/employee.py:96-104 | on a present table, an id in use gets the instance's current columns and every other row is unchanged; an unsaved instance changes nothing; a missing table fails with NoSuchTable |
| `Employees.Employee.Delete` | lib/employee.py:106-113 | the row with key id is removed; if id was cached the entry is evicted and id cleared, otherwise KeyNotCached with id kept and the row still gone; a missing table fails with NoSuchTable and changes nothing |
| `Employees.Employee.Department` | lib/employee.py:153-158 | the department row with the instance's department_id, or None exactly when there is none; a valid instance always has one |
| `Employees.Employee.Reviews` | lib/employee.py:160-165 | exactly the review rows whose employee_id is the instance's id, each as often as it occurs in the table, none for an unsaved instance |
| `Employees.CacheIsInjective` | lib/employee.py:5 | a consistent cache holds each instance under one key only |
| `Employees.Database.CreateTable` | lib/employee.py:53-66 | afterwards the table exists; if it already existed nothing changes |
| `Employees.Database.DropTable` | lib/employee.py:68-73 | afterwards there is no table and no row, the cache is untouched; dropping a missing table changes nothing |
| `Employees.Database.Create` | lib/employee.py:75-80 | create succeeds exactly when all three values are accepted and the table exists; a refused value fails with the first setter's error and a missing table with NoSuchTable, in both cases writing no row; on success the new instance is stored under the next key and cached |
| `Employees.Database.InstanceFromDb` | lib/employee.py:117-128 | a cached key returns the cached instance refreshed through the setters in order (fields before a refused one stay overwritten) and adds no key; an uncached key builds, keys and caches a fresh instance; a valid row always loads and the instance then mirrors the row |
| `Employees.Database.GetAll` | lib/employee.py:130-135 | one instance per row, in table order, each mirroring its row and cached under its key; no cached key is lost or rebound, new entries are fresh; NoSuchTable on a missing table |
| `Employees.Database.FindById` | lib/employee.py:137-142 | None exactly when no row has key k; otherwise the instance mirroring that row, the previously cached one if k was cached, else a fresh one now cached |
| `Employees.Database.FindByName` | lib/employee.py:144-149 | None exactly when no row has name n; otherwise the instance for the first row in table order named n, cached under its key |
| `Scenarios.CreateThenFindById` | lib/employee.py:75-94 | find_by_id on the key create assigned returns the very instance create returned, with the values it was created with |
| `Scenarios.FindByIdTwice` | lib/employee.py:137-142 | find_by_id twice with the same key gives the same outcome and, when found, the same instance, the one cached under k |
| `Scenarios.UpdateThenFindById` | lib/employee.py:96-104 | find_by_id after update returns an instance carrying the columns the updated instance had |
| `Scenarios.DeleteThenFindById` | lib/employee.py:106-113 | find_by_id after delete finds nothing, whether or not the eviction succeeded; the id is cleared when it did |
| `Scenarios.CreateTableTwice` | lib/employee.py:53-66 | create_table twice, whether or not the table existed, leaves it present and keeps the rows and the cache |
| `Scenarios.AdaInEngineering` | lib/employee.py:42-49 | with department 1 present, creating Ada there yields key 1 and her department row; department 999 is refused with InvalidDepartmentId and no row is written |
| `Scenarios.DoubleSaveLeavesStaleEntry` | lib/employee.py:93-94 | saving one instance twice as written leaves it cached under key 1 while its id is 2, so the cache is inconsistent |
| `Scenarios.DoubleSaveKeepsCacheConsistent` | lib/employee.py:93-94 | saving one instance twice with the corrected save leaves it cached under its new key only, and the cache consistent |

## Left out

- The SQL text, `CURSOR.execute`/`fetchone`/`fetchall`, `lastrowid` and
  `CONN.commit` are modelled by the in-memory store. Parsing, commit,
  durability and connectivity errors are not modelled.
- The DDL of `create_table`: column types and the FOREIGN KEY clause. The
  store enforces no foreign key and cascades nothing on delete, since
  SQLite leaves both to a pragma this code does not set.
- The departments and reviews tables are constants. This manager only reads
  them. A department deleted while an employee references it is outside
  the model.
- `department()` and `reviews()` return the rows.
  `Department.instance_from_db` and `Review.instance_from_db`, and their
  caches, are not part of this model.
- `__repr__`, which is presentation only.
- Keys and department ids are unbounded integers. SQLite's fallback when
  the largest key is 2^63-1 (it picks an unused key at random) is not
  modelled. Binding an int outside the signed 64-bit range raises
  OverflowError in sqlite3. That happens in the `department_id` setter
  (lib/employee.py:44-46) and in `find_by_id` (lib/employee.py:141). The
  model instead returns `InvalidDepartmentId` from the setter, and
  `Ok(None)` from `Database.FindById`, because no row has such a key.
  `__init__` stores its `id` argument unchecked (lib/employee.py:7-8). When
  that id is out of range, `update`, `delete` and `reviews` raise
  OverflowError on binding it (lib/employee.py:103, 110, 164). The model
  instead returns `Pass` with nothing changed from `Employee.Update`,
  `Fail(KeyNotCached)` from `Employee.Delete`, and `[]` from
  `Employee.Reviews`.
- A full scan, a lookup by name, or the reviews of an employee is taken to
  return rows in rowid order. That is SQLite's order for this table, but SQL does not promise it.
- Rows hold typed columns (strings and an int). Rows with NULL or
  wrongly typed columns, written by another client, are not modelled. The
  empty string still exercises the setters' refusal path on reload.
- The run-time types the setters test are limited to text, int, bool,
  None and "anything else".
- `Employees.Database.GetAll` states neither that the cache afterwards
  holds exactly its old keys plus the table's keys, nor that instances
  cached under keys absent from the table keep their fields. The source
  implies both. Stating them made the proof too expensive.

## Findings

| source | as written | input that shows it | evidently intended | confidence | as-written member | corrected member |
|---|---|---|---|---|---|---|
| lib/employee.py:93-94 | `save` caches the instance under its new key and leaves any entry under its previous key in place | one instance saved twice: after the second save `all[1]` is the instance whose id is now 2 | one live instance per row: `all[k].id == k` for every cached key, so save drops the entry under the old key | medium, not executed | `Employees.Employee.SaveAsWritten`, `Scenarios.DoubleSaveLeavesStaleEntry` | `Employees.Employee.Save`, `Scenarios.DoubleSaveKeepsCacheConsistent` |
