/** Values shared by every layer: Java's nullable references, the outcome of a
    service call, and the decimal rendering used in error messages. */
module Outcomes {

  /** A Java reference that may be null. */
  datatype Option<+T> = None | Some(value: T)

  /** How a service call ends: with its value, or with the exception it throws. */
  datatype Outcome<+T> =
    | Ok(value: T)
    | IllegalArgument(message: string)   // IllegalArgumentException
    | ResourceNotFound(message: string)  // ResourceNotFoundException
    | Unexpected(message: string)        // any other exception

  /** The HTTP status the global exception handler answers a failed call with:
      a missing resource is 404, an illegal argument is 400, anything else 500. */
  function ErrorStatus<T>(o: Outcome<T>): (code: int)
    requires !o.Ok?
    ensures code == 404 <==> o.ResourceNotFound?
    ensures code == 400 <==> o.IllegalArgument?
    ensures code == 500 <==> o.Unexpected?
  {
    match o
    case ResourceNotFound(_) => 404
    case IllegalArgument(_) => 400
    case Unexpected(_) => 500
  }

  /** The number a string of decimal digits denotes. */
  function DigitsValue(s: string): nat
    requires forall i :: 0 <= i < |s| ==> '0' <= s[i] <= '9'
  {
    if s == [] then 0 else DigitsValue(s[..|s| - 1]) * 10 + (s[|s| - 1] as int - '0' as int)
  }

  /** Decimal digits of a non-negative number, as Long.toString writes them:
      digits only, no leading zero, denoting n. */
  function NatToString(n: nat): (s: string)
    ensures |s| >= 1 && forall i :: 0 <= i < |s| ==> '0' <= s[i] <= '9'
    ensures s[0] == '0' ==> s == "0"
    ensures DigitsValue(s) == n
    decreases n
  {
    var d := n % 10;
    var digit := ["0123456789"[d]];
    assert digit[0] as int - '0' as int == d by {
      if d == 0 {} else if d == 1 {} else if d == 2 {} else if d == 3 {} else if d == 4 {}
      else if d == 5 {} else if d == 6 {} else if d == 7 {} else if d == 8 {} else {}
    }
    if n < 10 then digit
    else
      var prefix := NatToString(n / 10);
      assert (prefix + digit)[..|prefix + digit| - 1] == prefix;
      prefix + digit
  }

  /** Long.toString: an optional minus sign, then the digits. */
  function IntToString(n: int): (s: string)
    ensures |s| >= 1 && (s[0] == '-' <==> n < 0)
    ensures forall i :: (if n < 0 then 1 else 0) <= i < |s| ==> '0' <= s[i] <= '9'
    ensures n < 0 ==> DigitsValue(s[1..]) == -n
    ensures n >= 0 ==> DigitsValue(s) == n
  {
    if n < 0 then
      var digits := NatToString(-n);
      assert ("-" + digits)[1..] == digits;
      "-" + digits
    else NatToString(n)
  }
}
