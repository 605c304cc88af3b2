/** Input checks run before any table is requested. The bound `current` (the
    present Congress, derived in the library from today's date) is a parameter. */
module Validators {
  import opened Wrappers
  import opened Types

  /** A Congress number is valid when it lies in `[1, current]`. The lower
      bound is checked first. */
  function ValidateCongressNumber(n: int, current: int): (r: Outcome<Error>)
    ensures r.Pass? <==> 1 <= n <= current
    ensures n < 1 ==> r == Fail(CongressBeforeFirst(n))
    ensures 1 <= n && current < n ==> r == Fail(CongressAfterCurrent(n, current))
  {
    if n < 1 then Fail(CongressBeforeFirst(n))
    else if current < n then Fail(CongressAfterCurrent(n, current))
    else Pass
  }

  /** A chamber is given by its exact, case-sensitive name. */
  function ValidateChamber(name: string): (r: Result<Chamber, Error>)
    ensures r.Ok? <==> name == "House" || name == "Senate"
    ensures r.Ok? ==> ChamberName(r.value) == name
    ensures r.Err? ==> r.error == UnknownChamber(name)
  {
    if name == "House" then Ok(House)
    else if name == "Senate" then Ok(Senate)
    else Err(UnknownChamber(name))
  }

  /** Every chamber's own name is accepted and names that chamber. */
  lemma ValidateChamberRoundTrip(c: Chamber)
    ensures ValidateChamber(ChamberName(c)) == Ok(c)
  {
  }

  /** The check is case-sensitive; the value from the library's tests is rejected. */
  lemma ValidateChamberRejects()
    ensures ValidateChamber("house") == Err(UnknownChamber("house"))
    ensures ValidateChamber("Supreme Court").Err?
  {
  }
}
