/** The record types of `src/types.ts`. */
module Types {
  import opened Wrappers

  /** A browser's lifecycle status: the four-member string union `Status`. */
  datatype Status = Active | UnderDevelopment | Dormant | Dead

  /** The string literal that represents each status in the data and on screen. */
  function StatusName(s: Status): (r: string)
    ensures |r| > 0
  {
    match s
    case Active => "active"
    case UnderDevelopment => "under development"
    case Dormant => "dormant"
    case Dead => "dead"
  }

  /** Distinct statuses are written differently, so a status label identifies its status. */
  lemma StatusNameInjective(a: Status, b: Status)
    ensures StatusName(a) == StatusName(b) ==> a == b
  {
  }

  /** One browser row: a required name and five optional fields. `os` is a free-form
      string expected to mention some of "macos", "windows" and "linux". */
  datatype Browser = Browser(
    name: string,
    homepage: Option<string>,
    code: Option<string>,
    engine: Option<string>,
    status: Option<Status>,
    os: Option<string>)
}
