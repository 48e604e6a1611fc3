/** JavaScript values and built-ins that the services rely on, modelled on
    Dafny values: optional values and results, the truthiness of strings,
    `String.prototype.trim`, UTF-16 `length`, `String(n)` and `parseInt`. */
module Js {

  datatype Option<+T> = None | Some(value: T)

  /** A thrown error or a returned value. */
  datatype Result<+T, +E> = Success(value: T) | Failure(error: E)

  /** A thrown JavaScript error: its `name`, its `code` ("" when it has
      none) and its `message`. */
  datatype JsError = JsError(name: string, code: string, message: string)

  /** An HTTP reply: status code and body. */
  datatype Reply<+B> = Reply(status: nat, body: B)

  /** What a request handler did: the arguments it passed to its service
      (None: the service was not called) and the reply it sent. */
  datatype Handled<+A, +B> = Handled(call: Option<A>, reply: Reply<B>)

  /** `s || fallback` for a string: the empty string is falsy. An absent
      field and an empty one are both written "" in this model. */
  function OrElse(s: string, fallback: string): string
  {
    if s != "" then s else fallback
  }

  /** A JSON body field that may be absent, tested with `!field`. */
  predicate Truthy(s: Option<string>)
  {
    s.Some? && s.value != ""
  }

  /** A numeric JSON body field, tested with `!field`: absent and 0 are falsy. */
  predicate TruthyNumber(n: Option<int>)
  {
    n.Some? && n.value != 0
  }

  // ---------------------------------------------------------------------
  // Whitespace and String.prototype.trim

  /** ECMAScript WhiteSpace and LineTerminator code points. */
  predicate IsWhitespace(c: char)
  {
    var n := c as int;
    (0x09 <= n <= 0x0D) || n == 0x20 || n == 0xA0 || n == 0x1680 ||
    (0x2000 <= n <= 0x200A) || n == 0x2028 || n == 0x2029 || n == 0x202F ||
    n == 0x205F || n == 0x3000 || n == 0xFEFF
  }

  predicate AllWhitespace(s: string)
  {
    forall i :: 0 <= i < |s| ==> IsWhitespace(s[i])
  }

  function TrimStart(s: string): (r: string)
    ensures |r| <= |s| && r == s[|s| - |r|..]
    ensures r != [] ==> !IsWhitespace(r[0])
    ensures AllWhitespace(s[..|s| - |r|])
  {
    if s == [] then []
    else if IsWhitespace(s[0]) then
      var r := TrimStart(s[1..]);
      assert s[..|s| - |r|] == [s[0]] + s[1..][..|s| - 1 - |r|];
      r
    else s
  }

  function TrimEnd(s: string): (r: string)
    ensures |r| <= |s| && r == s[..|r|]
    ensures r != [] ==> !IsWhitespace(r[|r| - 1])
    ensures AllWhitespace(s[|r|..])
  {
    if s == [] then []
    else if IsWhitespace(s[|s| - 1]) then
      var r := TrimEnd(s[..|s| - 1]);
      assert s[|r|..] == s[..|s| - 1][|r|..] + [s[|s| - 1]];
      r
    else s
  }

  /** `s.trim()`. */
  function Trim(s: string): string
  {
    TrimEnd(TrimStart(s))
  }

  /** `s.trim().length === 0` holds exactly for strings made of whitespace. */
  lemma TrimEmptyIffBlank(s: string)
    ensures |Trim(s)| == 0 <==> AllWhitespace(s)
  {
    if AllWhitespace(s) {
      BlankTrimsToEmpty(s);
    }
    if |Trim(s)| == 0 {
      EmptyTrimIsBlank(s);
    }
  }

  lemma BlankTrimsToEmpty(s: string)
    requires AllWhitespace(s)
    ensures Trim(s) == []
  {
    var t := TrimStart(s);
    assert forall i :: 0 <= i < |t| ==> t[i] == s[|s| - |t| + i];
    assert AllWhitespace(t);
  }

  lemma EmptyTrimIsBlank(s: string)
    requires |Trim(s)| == 0
    ensures AllWhitespace(s)
  {
    var t := TrimStart(s);
    assert AllWhitespace(t[0..]);
    assert t[0..] == t;
    assert t == [];
    assert s == s[..|s| - |t|];
  }

  // ---------------------------------------------------------------------
  // UTF-16 length

  /** `s.length`: JavaScript counts UTF-16 code units, so a code point
      above U+FFFF counts twice. */
  function Utf16Length(s: string): (n: nat)
    ensures n >= |s|
    ensures n <= 2 * |s|
  {
    if s == [] then 0
    else (if s[0] as int > 0xFFFF then 2 else 1) + Utf16Length(s[1..])
  }

  // ---------------------------------------------------------------------
  // String(n) for an integer id

  function DigitChar(d: nat): (c: char)
    requires d < 10
  {
    ['0', '1', '2', '3', '4', '5', '6', '7', '8', '9'][d]
  }

  predicate IsDecimalDigit(c: char)
  {
    '0' <= c <= '9'
  }

  predicate IsHexDigit(c: char)
  {
    IsDecimalDigit(c) || 'a' <= c <= 'f' || 'A' <= c <= 'F'
  }

  predicate IsDigitIn(c: char, radix: nat)
  {
    if radix == 16 then IsHexDigit(c) else IsDecimalDigit(c)
  }

  function DigitValue(c: char): nat
  {
    if IsDecimalDigit(c) then c as int - '0' as int
    else if 'a' <= c <= 'f' then c as int - 'a' as int + 10
    else if 'A' <= c <= 'F' then c as int - 'A' as int + 10
    else 0
  }

  /** The decimal digits of n, most significant first, without leading zeros. */
  function NatToString(n: nat): (s: string)
    ensures |s| > 0
    ensures forall i :: 0 <= i < |s| ==> IsDecimalDigit(s[i])
  {
    if n < 10 then [DigitChar(n)]
    else NatToString(n / 10) + [DigitChar(n % 10)]
  }

  /** `String(n)` for an integer n. */
  function IntToString(n: int): (s: string)
    ensures |s| > 0
  {
    if n < 0 then "-" + NatToString(-n) else NatToString(n)
  }

  // ---------------------------------------------------------------------
  // parseInt

  /** The longest prefix of s made of digits of the given radix. */
  function DigitPrefix(s: string, radix: nat): (d: string)
    ensures |d| <= |s| && d == s[..|d|]
    ensures forall i :: 0 <= i < |d| ==> IsDigitIn(d[i], radix)
    ensures |d| < |s| ==> !IsDigitIn(s[|d|], radix)
  {
    if s != [] && IsDigitIn(s[0], radix) then [s[0]] + DigitPrefix(s[1..], radix) else []
  }

  /** The value of a digit string, most significant digit first. */
  function DigitsValue(d: string, radix: nat): nat
  {
    if d == [] then 0
    else DigitsValue(d[..|d| - 1], radix) * radix + DigitValue(d[|d| - 1])
  }

  /** The digits after the sign: a "0x" or "0X" prefix selects radix 16
      when hexPrefix holds. None stands for NaN. */
  function ParseUnsigned(u: string, hexPrefix: bool): Option<nat>
  {
    var hex := hexPrefix && |u| >= 2 && u[0] == '0' && (u[1] == 'x' || u[1] == 'X');
    var radix := if hex then 16 else 10;
    var digits := DigitPrefix(if hex then u[2..] else u, radix);
    if digits == [] then None else Some(DigitsValue(digits, radix))
  }

  /** `parseInt(s)` (hexPrefix: the "0x" prefix switches to radix 16, as
      when no radix is given) or `parseInt(s, 10)` (hexPrefix false).
      None stands for NaN. Results beyond 2^53, where a JavaScript number
      loses precision, are not modelled. */
  function ParseInt(s: string, hexPrefix: bool): (r: Option<int>)
  {
    var t := TrimStart(s);
    if |t| > 0 && t[0] == '-' then
      match ParseUnsigned(t[1..], hexPrefix)
      case None => None
      case Some(v) => Some(0 - v as int)
    else
      match ParseUnsigned(if |t| > 0 && t[0] == '+' then t[1..] else t, hexPrefix)
      case None => None
      case Some(v) => Some(v)
  }

  lemma {:induction false} DigitPrefixOfDigits(s: string)
    requires forall i :: 0 <= i < |s| ==> IsDecimalDigit(s[i])
    ensures DigitPrefix(s, 10) == s
  {
    if s != [] {
      DigitPrefixOfDigits(s[1..]);
    }
  }

  lemma {:induction false} NatToStringValue(n: nat)
    ensures DigitsValue(NatToString(n), 10) == n
  {
    var s := NatToString(n);
    if n >= 10 {
      NatToStringValue(n / 10);
      assert s[..|s| - 1] == NatToString(n / 10);
    }
  }

  lemma ParseUnsignedOfDigits(digits: string, hexPrefix: bool)
    requires |digits| > 0
    requires forall i :: 0 <= i < |digits| ==> IsDecimalDigit(digits[i])
    ensures ParseUnsigned(digits, hexPrefix) == Some(DigitsValue(digits, 10))
  {
    assert |digits| >= 2 ==> IsDecimalDigit(digits[1]);
    DigitPrefixOfDigits(digits);
  }

  /** Reading back `String(n)` with `parseInt`, with or without radix 10,
      gives n again. */
  lemma ParseIntOfIntToString(n: int, hexPrefix: bool)
    ensures ParseInt(IntToString(n), hexPrefix) == Some(n)
  {
    var m: nat := if n < 0 then -n else n;
    var s := IntToString(n);
    NatToStringValue(m);
    ParseUnsignedOfDigits(NatToString(m), hexPrefix);
    assert !IsWhitespace(s[0]);
    assert TrimStart(s) == s;
    if n < 0 {
      assert s[1..] == NatToString(m);
    }
  }
}
