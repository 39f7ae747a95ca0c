/** The few pieces of JavaScript value semantics the handlers depend on:
    null/undefined as Option, values of a JSON request body and their
    truthiness, strict equality against a Number field, String.toLowerCase,
    Number.toString and the Number cast of a digit string, and the kinds of
    error a handler can catch. */
module Js {

  /** A value that may be null or undefined. */
  datatype Option<T> = None | Some(value: T) {
    function GetOr(default: T): T {
      if Some? then value else default
    }
  }

  /** A value read from a parsed JSON request body. Numbers are integers. */
  datatype Json = Undefined | Null | Bool(b: bool) | Num(n: int) | Str(s: string) | Obj

  /** `if (v)`: JavaScript truthiness. */
  predicate Truthy(v: Json) {
    match v
    case Undefined => false
    case Null => false
    case Bool(b) => b
    case Num(n) => n != 0
    case Str(s) => s != ""
    case Obj => true
  }

  /** `stored === v`, where `stored` is a Number-typed document field that
      holds null when it is None. No conversion happens: a string never
      equals a number. */
  predicate StrictEqualsNumber(stored: Option<int>, v: Json) {
    match stored
    case None => v == Null
    case Some(n) => v == Num(n)
  }

  /** The errors a handler's `catch` can receive; `error.message` of each is
      an opaque text, so the kind stands for it. */
  datatype Fault =
    | MailFault(reason: string)        // sendMail rejected
    | SignFault(reason: string)        // jwt.sign threw
    | TokenFault(reason: string)       // jwt.verify threw
    | LookupFault(reason: string)      // ObjectId cast or findById threw
    | ValidationFault                  // a `required` validator failed on save
    | DuplicateKey                     // the unique index on email rejected the save
    | NullUser                         // a property read on a null user record
    | UndefinedAddresses               // `parsedAddresses._id` with no addresses in the body

  predicate IsUpper(c: char) {
    'A' <= c <= 'Z'
  }

  predicate IsLowerCase(s: string) {
    forall i | 0 <= i < |s| :: !IsUpper(s[i])
  }

  function LowerChar(c: char): (d: char)
    ensures !IsUpper(d)
    ensures !IsUpper(c) ==> d == c
  {
    if IsUpper(c) then (c as int + 32) as char else c
  }

  /** `s.toLowerCase()`, restricted to the ASCII letters. */
  function Lower(s: string): (r: string)
    ensures |r| == |s|
    ensures forall i | 0 <= i < |s| :: r[i] == LowerChar(s[i])
    ensures IsLowerCase(r)
  {
    if s == [] then [] else [LowerChar(s[0])] + Lower(s[1..])
  }

  lemma LowerOfLowerCase(s: string)
    requires IsLowerCase(s)
    ensures Lower(s) == s
  {
    assert forall i | 0 <= i < |s| :: Lower(s)[i] == s[i];
  }

  lemma LowerIdempotent(s: string)
    ensures Lower(Lower(s)) == Lower(s)
  {
    LowerOfLowerCase(Lower(s));
  }

  predicate IsDigit(c: char) {
    '0' <= c <= '9'
  }

  predicate IsDigits(s: string) {
    forall i | 0 <= i < |s| :: IsDigit(s[i])
  }

  function DigitChar(d: nat): (c: char)
    requires d < 10
    ensures IsDigit(c) && c as int - '0' as int == d
  {
    ('0' as int + d) as char
  }

  /** `n.toString()` for a natural number: its decimal digits, most
      significant first, with no leading zero. */
  function NatToDecimal(n: nat): (s: string)
    ensures |s| >= 1 && IsDigits(s)
    decreases n
  {
    if n < 10 then [DigitChar(n)] else NatToDecimal(n / 10) + [DigitChar(n % 10)]
  }

  /** `Number(s)` for a string of decimal digits (Mongoose's cast of a
      string into a Number field). */
  function DecimalValue(s: string): nat
    requires IsDigits(s)
  {
    if s == [] then 0 else DecimalValue(s[..|s| - 1]) * 10 + (s[|s| - 1] as int - '0' as int)
  }

  lemma {:induction false} DecimalRoundTrip(n: nat)
    ensures DecimalValue(NatToDecimal(n)) == n
    decreases n
  {
    if n >= 10 {
      var s := NatToDecimal(n);
      assert s[..|s| - 1] == NatToDecimal(n / 10);
      DecimalRoundTrip(n / 10);
    }
  }

  function Pow10(d: nat): (p: nat)
    ensures p >= 1
  {
    if d == 0 then 1 else 10 * Pow10(d - 1)
  }

  /** A number with `d` decimal digits prints as `d` characters. */
  lemma {:induction false} DecimalLength(n: nat, d: nat)
    requires d >= 1 && Pow10(d - 1) <= n < Pow10(d)
    ensures |NatToDecimal(n)| == d
    decreases d
  {
    if n >= 10 {
      DecimalLength(n / 10, d - 1);
    }
  }

  /** A positive number prints without a leading zero. */
  lemma {:induction false} NoLeadingZero(n: nat)
    requires n >= 1
    ensures NatToDecimal(n)[0] != '0'
    decreases n
  {
    if n >= 10 {
      NoLeadingZero(n / 10);
    }
  }
}
