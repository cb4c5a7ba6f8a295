/** The custom business rule of the exception-handling notebook: an age
    guard that throws InvalidAgeException below 18. */
module ExceptionHandling {
  import opened Wrappers
  import Text

  /** The youngest accepted age. */
  const MinimumAge := 18
  const AgeMessage := "Age must be 18 or older."
  const ValidPrefix := "Valid age: "

  datatype InvalidAgeException = InvalidAgeException(message: string)

  /** ValidateAge: throws for an age under 18; otherwise the line it writes. */
  function ValidateAge(age: int): (r: Result<string, InvalidAgeException>)
    ensures r.Failure? <==> age < MinimumAge
    ensures r.Failure? ==> r.error.message == AgeMessage
    ensures r.Success? ==> |r.value| > |ValidPrefix| && r.value[..|ValidPrefix|] == ValidPrefix
    ensures r.Success? ==> AgeOf(r.value) == Some(age)
    ensures r.Success? ==> r.value[|ValidPrefix|..] == Text.IntToString(age)
    ensures r.Success? && |r.value| > |ValidPrefix| + 1 ==> r.value[|ValidPrefix|] != '0'
  {
    if age < MinimumAge then Failure(InvalidAgeException(AgeMessage))
    else Success(ValidPrefix + Text.IntToString(age))
  }

  /** Reads the age back out of a "Valid age: " line. */
  function AgeOf(line: string): Option<int> {
    if |line| > |ValidPrefix| && line[..|ValidPrefix|] == ValidPrefix && Text.AllDigits(line[|ValidPrefix|..])
    then Some(Text.ValueOf(line[|ValidPrefix|..]))
    else None
  }

  /** The boundary age is accepted and the one below it is not. */
  lemma ValidateAgeBoundary()
    ensures ValidateAge(MinimumAge).Success?
    ensures ValidateAge(MinimumAge - 1) == Failure(InvalidAgeException(AgeMessage))
  {
  }

  /** What the demo's try/catch writes after "Validating age...". */
  function DemoOutput(age: int): (lines: seq<string>)
    ensures |lines| == 1
    ensures age < MinimumAge ==> lines[0] == "Custom exception caught: " + AgeMessage
    ensures age >= MinimumAge ==> AgeOf(lines[0]) == Some(age)
    ensures age >= MinimumAge ==> lines[0] == ValidPrefix + Text.IntToString(age)
  {
    match ValidateAge(age)
    case Success(line) => [line]
    case Failure(e) => ["Custom exception caught: " + e.message]
  }

  /** The demo's call with 15. */
  lemma DemoFifteen()
    ensures DemoOutput(15) == ["Custom exception caught: Age must be 18 or older."]
  {
    assert "Custom exception caught: " + AgeMessage == "Custom exception caught: Age must be 18 or older.";
  }
}
