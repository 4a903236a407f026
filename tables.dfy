/** The relational store behind the Employee record manager, as values: the
    rows of the employees, departments and reviews tables, and the queries
    and writes the manager issues against them. */
module Tables {
  import opened Values

  /** A row of the employees table: (id, name, job_title, department_id). */
  datatype EmployeeRow = EmployeeRow(id: int, name: string, jobTitle: string, departmentId: int)

  /** A row of the departments table. Only its key matters here; the other
      columns belong to the Department manager and are carried unread. */
  datatype DepartmentRow = DepartmentRow(id: int, columns: seq<string>)

  /** A row of the reviews table, with its foreign key to employees. */
  datatype ReviewRow = ReviewRow(id: int, employeeId: int, columns: seq<string>)

  /** The primary keys in use in a table. */
  function Keys(rows: seq<EmployeeRow>): set<int>
  {
    set r | r in rows :: r.id
  }

  /** Table order: rowids strictly ascending, hence pairwise distinct keys. */
  predicate Ascending(rows: seq<EmployeeRow>)
  {
    forall i, j :: 0 <= i < j < |rows| ==> rows[i].id < rows[j].id
  }

  /** The setters' constraints on a stored row (its department is checked
      against the departments table). */
  predicate RowValid(row: EmployeeRow, departments: seq<DepartmentRow>)
  {
    row.name != [] && row.jobTitle != [] && FindDepartment(departments, row.departmentId).Some?
  }

  predicate RowsValid(rows: seq<EmployeeRow>, departments: seq<DepartmentRow>)
  {
    forall i :: 0 <= i < |rows| ==> RowValid(rows[i], departments)
  }

  // ---------------------------------------------------------------- keys

  /** The largest key in a non-empty table. */
  function MaxKey(rows: seq<EmployeeRow>): (m: int)
    requires rows != []
    ensures forall i :: 0 <= i < |rows| ==> rows[i].id <= m
    ensures m in Keys(rows)
  {
    if |rows| == 1 then rows[0].id
    else
      var m' := MaxKey(rows[1..]);
      assert forall i :: 1 <= i < |rows| ==> rows[1..][i - 1] == rows[i];
      assert m' in Keys(rows) by {
        var j :| 0 <= j < |rows[1..]| && rows[1..][j].id == m';
        assert rows[j + 1].id == m';
      }
      if rows[0].id > m' then rows[0].id else m'
  }

  /** The key SQLite gives an inserted row of a table without AUTOINCREMENT
      (what lastrowid reports): one more than the largest key in use, and 1
      in an empty table. */
  function NextRowId(rows: seq<EmployeeRow>): (k: int)
    ensures k !in Keys(rows)
    ensures forall i :: 0 <= i < |rows| ==> rows[i].id < k
    ensures rows == [] ==> k == 1
  {
    if rows == [] then 1 else MaxKey(rows) + 1
  }

  // ------------------------------------------------------------- queries

  /** SELECT * FROM employees WHERE id = ?, fetchone: the first row, in
      table order, whose key is k. */
  function RowById(rows: seq<EmployeeRow>, k: int): (r: Option<EmployeeRow>)
    ensures r.None? <==> k !in Keys(rows)
    ensures r.Some? ==> r.value.id == k
    ensures r.Some? ==> exists i :: 0 <= i < |rows| && rows[i] == r.value && forall j :: 0 <= j < i ==> rows[j].id != k
  {
    if rows == [] then None
    else if rows[0].id == k then Some(rows[0])
    else
      var r := RowById(rows[1..], k);
      assert forall i :: 1 <= i < |rows| ==> rows[1..][i - 1] == rows[i];
      assert k in Keys(rows[1..]) <==> k in Keys(rows);
      if r.Some? then
        var i :| 0 <= i < |rows[1..]| && rows[1..][i] == r.value && forall j :: 0 <= j < i ==> rows[1..][j].id != k;
        assert rows[i + 1] == r.value && forall j :: 0 <= j < i + 1 ==> rows[j].id != k;
        r
      else r
  }

  /** SELECT * FROM employees WHERE name = ?, fetchone: the first row, in
      table order, whose name is n. */
  function RowByName(rows: seq<EmployeeRow>, n: string): (r: Option<EmployeeRow>)
    ensures r.None? <==> forall i :: 0 <= i < |rows| ==> rows[i].name != n
    ensures r.Some? ==> r.value.name == n
    ensures r.Some? ==> exists i :: 0 <= i < |rows| && rows[i] == r.value && forall j :: 0 <= j < i ==> rows[j].name != n
  {
    if rows == [] then None
    else if rows[0].name == n then Some(rows[0])
    else
      var r := RowByName(rows[1..], n);
      assert forall i :: 1 <= i < |rows| ==> rows[1..][i - 1] == rows[i];
      if r.Some? then
        var i :| 0 <= i < |rows[1..]| && rows[1..][i] == r.value && forall j :: 0 <= j < i ==> rows[1..][j].name != n;
        assert rows[i + 1] == r.value && forall j :: 0 <= j < i + 1 ==> rows[j].name != n;
        r
      else r
  }

  /** SELECT * FROM departments WHERE id = ?, fetchone. */
  function FindDepartment(departments: seq<DepartmentRow>, k: int): (r: Option<DepartmentRow>)
    ensures r.None? <==> forall i :: 0 <= i < |departments| ==> departments[i].id != k
    ensures r.Some? ==> r.value in departments && r.value.id == k
  {
    if departments == [] then None
    else if departments[0].id == k then Some(departments[0])
    else
      var r := FindDepartment(departments[1..], k);
      assert forall i :: 1 <= i < |departments| ==> departments[1..][i - 1] == departments[i];
      r
  }

  /** SELECT * FROM reviews WHERE employee_id = ?, fetchall. An unsaved
      employee binds NULL, which equals nothing, so it has no reviews. */
  function ReviewsOf(reviews: seq<ReviewRow>, employeeId: Option<int>): (r: seq<ReviewRow>)
    ensures forall x :: x in r <==> x in reviews && employeeId == Some(x.employeeId)
    ensures forall x :: multiset(r)[x] == if employeeId == Some(x.employeeId) then multiset(reviews)[x] else 0
    ensures employeeId.None? ==> r == []
    ensures |r| <= |reviews|
  {
    if reviews == [] then []
    else
      var rest := ReviewsOf(reviews[1..], employeeId);
      assert forall x :: x in reviews <==> x == reviews[0] || x in reviews[1..];
      CountsAfterHead(reviews, rest, employeeId);
      if employeeId == Some(reviews[0].employeeId) then [reviews[0]] + rest else rest
  }

  /** One step of ReviewsOf: if rest holds the matching rows of the tail
      with their counts, then rest with the head prepended when it matches
      holds those of the whole table. */
  lemma CountsAfterHead(reviews: seq<ReviewRow>, rest: seq<ReviewRow>, employeeId: Option<int>)
    requires reviews != []
    requires forall x :: multiset(rest)[x] == if employeeId == Some(x.employeeId) then multiset(reviews[1..])[x] else 0
    ensures var r := if employeeId == Some(reviews[0].employeeId) then [reviews[0]] + rest else rest;
      forall x :: multiset(r)[x] == if employeeId == Some(x.employeeId) then multiset(reviews)[x] else 0
  {
    assert reviews == [reviews[0]] + reviews[1..];
    assert multiset(reviews) == multiset{reviews[0]} + multiset(reviews[1..]);
  }

  /** The reviews of a table split in two are the reviews of the first
      part followed by those of the second: fetchall keeps table order. */
  lemma {:induction false} ReviewsOfConcat(a: seq<ReviewRow>, b: seq<ReviewRow>, employeeId: Option<int>)
    ensures ReviewsOf(a + b, employeeId) == ReviewsOf(a, employeeId) + ReviewsOf(b, employeeId)
  {
    if a == [] {
      assert a + b == b;
    } else {
      assert (a + b)[0] == a[0] && (a + b)[1..] == a[1..] + b;
      ReviewsOfConcat(a[1..], b, employeeId);
    }
  }

  // -------------------------------------------------------------- checks

  /** The department_id setter's test: an int that is the key of a
      department row. */
  predicate IsDepartmentKey(v: Value, departments: seq<DepartmentRow>)
  {
    match AsInteger(v)
    case Some(k) => FindDepartment(departments, k).Some?
    case None => false
  }

  /** The error of the first setter, in the order name, job_title,
      department_id, that refuses its value; None when all three accept. */
  function FirstInvalid(name: Value, jobTitle: Value, departmentId: Value, departments: seq<DepartmentRow>): Option<Error>
  {
    if !IsNonEmptyText(name) then Some(InvalidName)
    else if !IsNonEmptyText(jobTitle) then Some(InvalidJobTitle)
    else if !IsDepartmentKey(departmentId, departments) then Some(InvalidDepartmentId)
    else None
  }

  // -------------------------------------------------------------- writes

  /** UPDATE employees SET name, job_title, department_id WHERE id = k. */
  function Overwrite(rows: seq<EmployeeRow>, k: int, name: string, jobTitle: string, departmentId: int): (r: seq<EmployeeRow>)
    ensures |r| == |rows|
    ensures forall i :: 0 <= i < |rows| ==> r[i].id == rows[i].id
    ensures forall i :: 0 <= i < |rows| && rows[i].id != k ==> r[i] == rows[i]
    ensures forall i :: 0 <= i < |rows| && rows[i].id == k ==> r[i] == EmployeeRow(k, name, jobTitle, departmentId)
  {
    if rows == [] then []
    else
      var head := if rows[0].id == k then EmployeeRow(k, name, jobTitle, departmentId) else rows[0];
      [head] + Overwrite(rows[1..], k, name, jobTitle, departmentId)
  }

  /** DELETE FROM employees WHERE id = k: the other rows, in their order. */
  function Without(rows: seq<EmployeeRow>, k: int): (r: seq<EmployeeRow>)
    ensures forall x :: x in r <==> x in rows && x.id != k
    ensures Ascending(rows) ==> Ascending(r)
  {
    if rows == [] then []
    else
      var rest := Without(rows[1..], k);
      assert forall x :: x in rows <==> x == rows[0] || x in rows[1..];
      if rows[0].id == k then rest
      else
        assert Ascending(rows) ==> Ascending([rows[0]] + rest) by {
          if Ascending(rows) {
            forall x | x in rest ensures rows[0].id < x.id {
              var i :| 0 <= i < |rows[1..]| && rows[1..][i] == x;
              assert rows[i + 1] == x;
            }
            AscendingCons(rows[0], rest);
          }
        }
        [rows[0]] + rest
  }

  /** A row whose key is below every key of an ascending table can be put
      in front of it. */
  lemma AscendingCons(row: EmployeeRow, rows: seq<EmployeeRow>)
    requires Ascending(rows)
    requires forall x :: x in rows ==> row.id < x.id
    ensures Ascending([row] + rows)
  {
    forall i, j | 0 <= i < j < |[row] + rows|
      ensures ([row] + rows)[i].id < ([row] + rows)[j].id
    {
      assert ([row] + rows)[j] == rows[j - 1];
    }
  }

  // -------------------------------------------------------------- lemmas

  /** INSERT adds exactly the new row's key to the keys in use. */
  lemma KeysAfterInsert(rows: seq<EmployeeRow>, row: EmployeeRow)
    ensures Keys(rows + [row]) == Keys(rows) + {row.id}
  {
  }

  /** DELETE by key removes exactly that key from the keys in use. */
  lemma KeysAfterDelete(rows: seq<EmployeeRow>, k: int)
    ensures Keys(Without(rows, k)) == Keys(rows) - {k}
  {
  }

  /** In ascending table order a key names at most one row. */
  lemma AscendingKeysUnique(rows: seq<EmployeeRow>, i: int, j: int)
    requires Ascending(rows)
    requires 0 <= i < |rows| && 0 <= j < |rows|
    requires rows[i].id == rows[j].id
    ensures i == j
  {
  }

  /** INSERT then SELECT by key: the inserted row is found under its fresh
      key, and every other key finds what it found before. */
  lemma {:induction false} FindAfterInsert(rows: seq<EmployeeRow>, row: EmployeeRow)
    requires row.id !in Keys(rows)
    ensures RowById(rows + [row], row.id) == Some(row)
    ensures forall j :: j != row.id ==> RowById(rows + [row], j) == RowById(rows, j)
  {
    if rows != [] {
      assert (rows + [row])[1..] == rows[1..] + [row];
      assert forall x :: x in rows[1..] ==> x in rows;
      FindAfterInsert(rows[1..], row);
    }
  }

  /** UPDATE then SELECT by key: the updated key finds the new field values
      exactly when it was in use, and every other key finds what it found
      before. */
  lemma {:induction false} FindAfterOverwrite(rows: seq<EmployeeRow>, k: int, name: string, jobTitle: string, departmentId: int)
    ensures RowById(Overwrite(rows, k, name, jobTitle, departmentId), k)
         == if k in Keys(rows) then Some(EmployeeRow(k, name, jobTitle, departmentId)) else None
    ensures forall j :: j != k ==> RowById(Overwrite(rows, k, name, jobTitle, departmentId), j) == RowById(rows, j)
  {
    if rows != [] {
      var r := Overwrite(rows, k, name, jobTitle, departmentId);
      assert r[1..] == Overwrite(rows[1..], k, name, jobTitle, departmentId);
      assert forall i :: 1 <= i < |rows| ==> rows[1..][i - 1] == rows[i];
      assert k in Keys(rows) <==> rows[0].id == k || k in Keys(rows[1..]);
      FindAfterOverwrite(rows[1..], k, name, jobTitle, departmentId);
    }
  }

  /** DELETE then SELECT by key: the deleted key finds nothing, and every
      other key finds what it found before. */
  lemma {:induction false} FindAfterDelete(rows: seq<EmployeeRow>, k: int)
    ensures RowById(Without(rows, k), k) == None
    ensures forall j :: j != k ==> RowById(Without(rows, k), j) == RowById(rows, j)
  {
    if rows != [] {
      FindAfterDelete(rows[1..], k);
      if rows[0].id != k {
        assert ([rows[0]] + Without(rows[1..], k))[1..] == Without(rows[1..], k);
      }
    }
  }
}
