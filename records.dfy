/**
 * The employee record of main.go and the two sort keys derived from it.
 */
module Records {
  import Text

  datatype Option<T> = None | Some(value: T)

  /** One employee: full name, position and years of experience (a Go float64, here exact). */
  datatype Employee = Employee(fullname: string, position: string, experience: real)

  /** The key sortEmployees compares: the lower-cased full name. */
  function FullnameKey(e: Employee): string
  {
    Text.Lower(e.fullname)
  }

  /** The key sortPositions compares: the lower-cased position. */
  function PositionKey(e: Employee): string
  {
    Text.Lower(e.position)
  }
}
