// Data model shared by the utilities and the components (src/types/index.ts)
// and the application constants (src/constants/index.ts).

module Types {

  datatype Option<+T> = None | Some(value: T)

  /** A validated input record: a name and a "YYYY-MM-DD" birthday. */
  datatype Person = Person(name: string, birthday: string)

  /** A person enriched for display in one target year. */
  datatype ProcessedPerson = ProcessedPerson(
    name: string,
    birthday: string,
    age: int,
    dayOfWeek: int,  // 0 = Monday .. 6 = Sunday
    color: string)

  /** Weekday index to the people whose birthday falls on that weekday. */
  type CalendarData = map<int, seq<ProcessedPerson>>

  /** `{ success, data?, error? }`: the two optional fields are independent of `success`. */
  datatype ParseResult<T> = ParseResult(success: bool, data: Option<T>, error: Option<string>)
}

module Constants {

  /** Column headers, Monday first. */
  const DAY_NAMES: seq<string> :=
    ["Monday", "Tuesday", "Wednesday", "Thursday", "Friday", "Saturday", "Sunday"]

  /** Oldest year offered in the year selector. */
  const MIN_YEAR: int := 2000

  /** Square colours, reused cyclically within a day. */
  const COLOR_PALETTE: seq<string> := ["#545D79", "#8AB721", "#C77D99", "#78CAE3", "#E64A33"]
}
