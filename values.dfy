/** Values handed to and returned by the Employee record manager, and the
    failures it reports. */
module Values {

  datatype Option<T> = None | Some(value: T)

  /** The ways an operation of the record manager fails. The first three are
      the setters' ValueErrors, NoSuchTable is the store's error when the
      employees table is absent, and KeyNotCached is the KeyError raised by
      evicting a key the identity cache does not hold. */
  datatype Error =
    | InvalidName
    | InvalidJobTitle
    | InvalidDepartmentId
    | NoSuchTable
    | KeyNotCached

  datatype Result<T> = Ok(value: T) | Err(error: Error)

  datatype Outcome = Pass | Fail(error: Error)

  /** A dynamically typed argument, as far as the setters' isinstance checks
      can see it. */
  datatype Value =
    | Text(s: string)
    | Integer(n: int)
    | Boolean(b: bool)
    | NoneValue
    | Other

  /** What the name and job_title setters accept: a str of non-zero length. */
  predicate IsNonEmptyText(v: Value)
  {
    v.Text? && |v.s| > 0
  }

  /** The integer an isinstance(v, int) check admits. A bool is an int in
      Python and is bound to the store as 0 or 1. */
  function AsInteger(v: Value): Option<int>
  {
    match v
    case Integer(n) => Some(n)
    case Boolean(b) => Some(if b then 1 else 0)
    case _ => None
  }
}
