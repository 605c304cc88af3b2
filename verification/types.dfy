/** The entities shared by the validators and the record orchestration. */
module Types {

  /** The two chambers of Congress. */
  datatype Chamber = House | Senate

  /** The literal, case-sensitive name a caller passes for a chamber. */
  function ChamberName(c: Chamber): string
  {
    match c
    case House => "House"
    case Senate => "Senate"
  }

  /** One joined voting-record row: its `congress` column, the calendar year
      of its roll-call date, and every other column as `payload`. */
  datatype Row<T> = Row(congress: int, year: int, payload: T)

  /** The errors the library raises (all are `ValueError`s in the library), plus
      `LoadFailed`, which a provider reports when it cannot read the tables of
      a Congress and chamber. */
  datatype Error =
    | CongressBeforeFirst(number: int)
    | CongressAfterCurrent(number: int, current: int)
    | UnknownChamber(name: string)
    | RangeNotIncreasing(first: int, last: int)
    | LoadFailed(number: int, chamber: Chamber)
}
