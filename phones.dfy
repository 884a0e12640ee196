/** Phone numbers and their validation (`Phone.validate`). */
module Phones {
  import opened Outcomes
  import opened Text

  const PhoneLength: int := 10

  /** What a valid phone number is: exactly ten ASCII digits. */
  predicate IsPhone(s: string)
  {
    |s| == PhoneLength && AllDigits(s)
  }

  /** `str.isdigit()` on ASCII text: at least one character, and only digits. */
  function IsDigitText(s: string): (b: bool)
    ensures b <==> |s| > 0 && AllDigits(s)
  {
    if |s| == 0 then false
    else IsDigit(s[0]) && (|s| == 1 || IsDigitText(s[1..]))
  }

  /** `Phone(value)`: the constructor validates and raises ValueError
      ("Phone number must consist of 10 digits.") unless the value is ten digits. */
  function Validate(value: string): (r: Result<string>)
    ensures r.Ok? <==> IsPhone(value)
    ensures r.Ok? ==> r.value == value
    ensures r.Err? ==> r.error == InvalidPhone
  {
    if !IsDigitText(value) || |value| != PhoneLength then Err(InvalidPhone) else Ok(value)
  }
}
