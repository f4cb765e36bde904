/**
  Small building blocks shared by every part of the quoting engine: an optional
  value, a value-or-exception result, the JavaScript `||` defaults the engine
  leans on, decimal rendering of counts, and a first-match search.
 */
module Common {

  /** A value that may be absent: an unset form field, a `find` that matched nothing, `null`. */
  datatype Option<T> = None | Some(value: T)

  /** A value, or the exception the JavaScript code would throw instead of returning. */
  datatype Result<T> = Ok(value: T) | Thrown(message: string)

  /** JavaScript truthiness of an optional text: unset and "" are falsy. */
  predicate Truthy(o: Option<string>) {
    o.Some? && o.value != ""
  }

  /** `o || d` on an optional text. */
  function OrElse(o: Option<string>, d: string): string {
    if Truthy(o) then o.value else d
  }

  /** How a template literal renders an optional text: an unset field reads "undefined". */
  function Render(o: Option<string>): string {
    if o.Some? then o.value else "undefined"
  }

  /** `parseFloat(x) || d`: a number that is missing (NaN) or zero falls back to `d`. */
  function NumberOr(o: Option<real>, d: real): (r: real)
    ensures d != 0.0 ==> r != 0.0
  {
    if o.Some? && o.value != 0.0 then o.value else d
  }

  /** `parseInt(x) || d` for integers. */
  function IntOr(o: Option<int>, d: int): (r: int)
    ensures d != 0 ==> r != 0
  {
    if o.Some? && o.value != 0 then o.value else d
  }

  function Max(a: int, b: int): int {
    if a >= b then a else b
  }

  /** `Math.ceil` on an exact real. */
  function Ceil(r: real): (c: int)
    ensures r <= c as real < r + 1.0
  {
    -((-r).Floor)
  }

  /** The decimal digit character for `d`. */
  function Digit(d: nat): (c: char)
    requires d < 10
    ensures '0' <= c <= '9'
  {
    (48 + d) as char
  }

  predicate AllDigits(s: string) {
    forall i :: 0 <= i < |s| ==> '0' <= s[i] <= '9'
  }

  /** Reads a run of decimal digits back as a number. */
  function DigitsValue(s: string): nat
    requires AllDigits(s)
  {
    if |s| == 0 then 0
    else 10 * DigitsValue(s[..|s| - 1]) + (s[|s| - 1] as int - 48)
  }

  /**
    How JavaScript renders a non-negative integer in a template literal:
    decimal digits without leading zeros, which read back as the same number.
   */
  function NatToString(n: nat): (s: string)
    ensures 1 <= |s|
    ensures AllDigits(s)
    ensures DigitsValue(s) == n
    ensures |s| > 1 ==> s[0] != '0'
    decreases n
  {
    if n < 10 then [Digit(n)]
    else
      var prefix := NatToString(n / 10);
      var s := prefix + [Digit(n % 10)];
      assert s[..|s| - 1] == prefix;
      s
  }

  /** Index of the first element satisfying `p`, as `Array.prototype.find` scans. */
  function First<T>(xs: seq<T>, p: T -> bool): (r: Option<nat>)
    ensures r.None? <==> forall i :: 0 <= i < |xs| ==> !p(xs[i])
    ensures r.Some? ==> r.value < |xs| && p(xs[r.value])
    ensures r.Some? ==> forall i :: 0 <= i < r.value ==> !p(xs[i])
  {
    if |xs| == 0 then None
    else if p(xs[0]) then Some(0)
    else
      match First(xs[1..], p)
      case None => None
      case Some(k) => Some(k + 1)
  }

  /** The parts joined with `sep` between neighbours, as a template literal or `Array.prototype.join` renders them. */
  function Join(parts: seq<string>, sep: string): string
    decreases |parts|
  {
    if |parts| == 0 then ""
    else if |parts| == 1 then parts[0]
    else Join(parts[..|parts| - 1], sep) + sep + parts[|parts| - 1]
  }
}
