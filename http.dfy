/** Outcomes of the request handlers as the web framework sends them, and
    the small string helpers the handlers share. */
module Http {

  datatype Option<+T> = None | Some(value: T)

  /** An HTTPException: its status code, its detail (sent as {"message": detail}
      by main.py) and whether it carries the `WWW-Authenticate: Bearer` header. */
  datatype Error = Error(code: nat, detail: string, bearerChallenge: bool)

  /** What a handler answers: a body with the endpoint's success status, or an error. */
  datatype Result<+T> = Ok(value: T) | Fail(error: Error)

  /** `raise HTTPException(status_code=code, detail=detail)` without extra headers. */
  function Raise<T>(code: nat, detail: string): (r: Result<T>)
    ensures r.Fail? && r.error.code == code && r.error.detail == detail && !r.error.bearerChallenge
  {
    Fail(Error(code, detail, false))
  }

  /** main.py turns every exception that is not an HTTPException into this answer. */
  const UNEXPECTED: Error := Error(500, "An unexpected error occurred", false)

  /** Python truthiness of an optional string: None and "" are both false. */
  predicate Truthy(s: Option<string>) {
    s.Some? && s.value != ""
  }

  predicate IsDigit(c: char) {
    '0' as int <= c as int <= '9' as int
  }

  function DigitChar(d: nat): (c: char)
    requires d < 10
    ensures IsDigit(c) && c as int - '0' as int == d
  {
    "0123456789"[d]
  }

  /** The value of a string of decimal digits. */
  function DigitsValue(s: string): nat
    requires forall i :: 0 <= i < |s| ==> IsDigit(s[i])
  {
    if s == [] then 0
    else
      assert IsDigit(s[|s| - 1]);
      DigitsValue(s[..|s| - 1]) * 10 + (s[|s| - 1] as int - '0' as int)
  }

  /** str() of a non-negative int: its decimal digits, without leading zeros. */
  function NatToString(n: nat): (s: string)
    ensures |s| > 0 && (forall i :: 0 <= i < |s| ==> IsDigit(s[i]))
    ensures |s| > 1 ==> s[0] != '0'
    ensures DigitsValue(s) == n
  {
    if n < 10 then [DigitChar(n)]
    else
      var s := NatToString(n / 10) + [DigitChar(n % 10)];
      assert s[..|s| - 1] == NatToString(n / 10);
      s
  }

  /** str() of an HTTPException in Starlette: "<status code>: <detail>". */
  function Describe(e: Error): string {
    NatToString(e.code) + ": " + e.detail
  }
}
