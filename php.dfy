/** The fragments of PHP value semantics that the controllers rely on:
    decoded JSON values, truthiness, string conversion, `trim`,
    `strtolower`, `explode` and the `(int)` / `(bool)` casts applied to
    CSV cells. */
module Php {

  /** A JSON-decoded value as PHP holds it; arrays are lists. */
  datatype Value = VNull | VBool(b: bool) | VInt(i: int) | VStr(s: string) | VList(items: seq<Value>)

  /** `if ($v)` on a string: only "" and "0" are false. */
  predicate TruthyString(s: string)
  {
    s != "" && s != "0"
  }

  /** `if ($v)` on a decoded value. */
  predicate Truthy(v: Value)
  {
    match v
    case VNull => false
    case VBool(b) => b
    case VInt(i) => i != 0
    case VStr(s) => TruthyString(s)
    case VList(items) => items != []
  }

  // ---------------------------------------------------------------- trim

  /** The characters `trim` strips when called without a character list. */
  predicate IsTrimmed(c: char)
  {
    c == ' ' || c == '\t' || c == '\n' || c == '\r' || c == '\U{0}' || c == '\U{0B}'
  }

  /** Number of strippable characters at the front of `s`. */
  function LeadingCount(s: string): (n: nat)
    ensures n <= |s|
    ensures forall k :: 0 <= k < n ==> IsTrimmed(s[k])
    ensures n < |s| ==> !IsTrimmed(s[n])
  {
    if s == [] || !IsTrimmed(s[0]) then 0 else 1 + LeadingCount(s[1..])
  }

  /** Number of strippable characters at the back of `s`. */
  function TrailingCount(s: string): (n: nat)
    ensures n <= |s|
    ensures forall k :: |s| - n <= k < |s| ==> IsTrimmed(s[k])
    ensures n < |s| ==> !IsTrimmed(s[|s| - 1 - n])
  {
    if s == [] || !IsTrimmed(s[|s| - 1]) then 0 else 1 + TrailingCount(s[..|s| - 1])
  }

  /** `trim($s)`: the result is the part of `s` between the strippable
      characters at either end; it is empty exactly when all of `s` is
      strippable. */
  function Trim(s: string): (r: string)
    ensures r != [] ==> !IsTrimmed(r[0]) && !IsTrimmed(r[|r| - 1])
    ensures r == [] <==> forall k :: 0 <= k < |s| ==> IsTrimmed(s[k])
    ensures |r| <= |s|
  {
    var a := LeadingCount(s);
    if a == |s| then []
    else
      var t := s[a..];
      var b := TrailingCount(t);
      assert t[0] == s[a];
      var r := t[..|t| - b];
      assert r[0] == s[a] && r[|r| - 1] == t[|t| - 1 - b];
      r
  }

  // ---------------------------------------------------------- strtolower

  /** ASCII lower-casing, as `strtolower` does since PHP 8.2. */
  function LowerChar(c: char): char
  {
    if 'A' <= c <= 'Z' then (c as int + 32) as char else c
  }

  function ToLower(s: string): (r: string)
    ensures |r| == |s|
    ensures forall k :: 0 <= k < |s| ==> r[k] == LowerChar(s[k])
  {
    if s == [] then [] else [LowerChar(s[0])] + ToLower(s[1..])
  }

  // ------------------------------------------------------------- explode

  /** `explode($sep, $s)`: the pieces between occurrences of `sep`. */
  function Explode(sep: char, s: string): (parts: seq<string>)
    ensures |parts| >= 1
    ensures forall i :: 0 <= i < |parts| ==> sep !in parts[i]
  {
    if s == [] then [""]
    else
      var rest := Explode(sep, s[1..]);
      if s[0] == sep then [""] + rest else [[s[0]] + rest[0]] + rest[1..]
  }

  /** `implode($sep, $parts)`, the inverse of `Explode`. */
  function Implode(sep: char, parts: seq<string>): string
  {
    if parts == [] then ""
    else if |parts| == 1 then parts[0]
    else parts[0] + [sep] + Implode(sep, parts[1..])
  }

  /** Exploding loses nothing: joining the pieces back gives the input. */
  lemma {:induction false} ImplodeExplode(sep: char, s: string)
    ensures Implode(sep, Explode(sep, s)) == s
  {
    if s != [] {
      ImplodeExplode(sep, s[1..]);
      var rest := Explode(sep, s[1..]);
      if s[0] == sep {
        assert Explode(sep, s) == [""] + rest;
      } else {
        var ps := Explode(sep, s);
        assert ps == [[s[0]] + rest[0]] + rest[1..];
        if |rest| == 1 {
          assert Implode(sep, rest) == rest[0];
        } else {
          assert Implode(sep, rest) == rest[0] + [sep] + Implode(sep, rest[1..]);
          assert ps[1..] == rest[1..];
        }
      }
    }
  }

  // ---------------------------------------------------- integer strings

  predicate IsDigit(c: char)
  {
    '0' <= c <= '9'
  }

  function DigitChar(d: nat): (c: char)
    requires d < 10
    ensures IsDigit(c) && c as int - '0' as int == d
  {
    (d + '0' as int) as char
  }

  /** Decimal digits of `n`, most significant first, no leading zeros. */
  function NatToString(n: nat): (s: string)
    ensures s != [] && forall k :: 0 <= k < |s| ==> IsDigit(s[k])
    decreases n
  {
    if n < 10 then [DigitChar(n)] else NatToString(n / 10) + [DigitChar(n % 10)]
  }

  /** `(string)$i` for an integer. */
  function IntToString(i: int): string
  {
    if i < 0 then "-" + NatToString(-i) else NatToString(i)
  }

  /** The value of a string of decimal digits. */
  function DigitsValue(s: string): nat
    requires forall k :: 0 <= k < |s| ==> IsDigit(s[k])
  {
    if s == [] then 0
    else
      assert IsDigit(s[|s| - 1]);
      10 * DigitsValue(s[..|s| - 1]) + (s[|s| - 1] as int - '0' as int)
  }

  /** Length of the run of decimal digits at the front of `s`. */
  function DigitRun(s: string): (n: nat)
    ensures n <= |s|
    ensures forall k :: 0 <= k < n ==> IsDigit(s[k])
    ensures n < |s| ==> !IsDigit(s[n])
  {
    if s == [] || !IsDigit(s[0]) then 0 else 1 + DigitRun(s[1..])
  }

  /** Whitespace PHP accepts in front of a numeric string. */
  predicate IsNumericSpace(c: char)
  {
    c == ' ' || c == '\t' || c == '\n' || c == '\r' || c == '\U{0B}' || c == '\U{0C}'
  }

  function NumericSpaceCount(s: string): (n: nat)
    ensures n <= |s|
    ensures n < |s| ==> !IsNumericSpace(s[n])
  {
    if s == [] || !IsNumericSpace(s[0]) then 0 else 1 + NumericSpaceCount(s[1..])
  }

  /** The range of PHP's 64-bit integers. */
  const PhpIntMax: int := 0x7FFF_FFFF_FFFF_FFFF
  const PhpIntMin: int := -PhpIntMax - 1

  /** An integer pinned to PHP's range, as an over-long numeric string is. */
  function Saturate(v: int): (r: int)
    ensures PhpIntMin <= r <= PhpIntMax
    ensures PhpIntMin <= v <= PhpIntMax ==> r == v
    ensures v > PhpIntMax ==> r == PhpIntMax
    ensures v < PhpIntMin ==> r == PhpIntMin
  {
    if v > PhpIntMax then PhpIntMax else if v < PhpIntMin then PhpIntMin else v
  }

  /** `(int)$s`: leading whitespace, an optional sign, then the leading
      run of digits, saturated at PHP's integer range; a string without
      digits casts to 0. */
  function IntCast(s: string): int
  {
    var t := s[NumericSpaceCount(s)..];
    if t != [] && (t[0] == '-' || t[0] == '+') then
      var u := t[1..];
      var v: int := DigitsValue(u[..DigitRun(u)]);
      Saturate(if t[0] == '-' then -v else v)
    else
      Saturate(DigitsValue(t[..DigitRun(t)]))
  }

  lemma {:induction false} DigitsOfNat(n: nat)
    ensures DigitsValue(NatToString(n)) == n
    decreases n
  {
    var s := NatToString(n);
    if n >= 10 {
      DigitsOfNat(n / 10);
      assert s[..|s| - 1] == NatToString(n / 10);
    }
  }

  lemma {:induction false} DigitRunAll(s: string)
    requires forall k :: 0 <= k < |s| ==> IsDigit(s[k])
    ensures DigitRun(s) == |s|
  {
    if s != [] {
      DigitRunAll(s[1..]);
    }
  }

  /** Casting the decimal form of an integer back gives the integer, when
      it lies in PHP's range, and the nearest bound otherwise. */
  lemma IntCastOfIntToString(i: int)
    ensures IntCast(IntToString(i)) == Saturate(i)
  {
    var s := IntToString(i);
    if i < 0 {
      var d := NatToString(-i);
      assert s == "-" + d;
      assert NumericSpaceCount(s) == 0;
      assert s[0..][1..] == d;
      DigitRunAll(d);
      assert d[..|d|] == d;
      DigitsOfNat(-i);
    } else {
      var d := NatToString(i);
      assert NumericSpaceCount(d) == 0 by { assert IsDigit(d[0]); }
      assert d[0..] == d;
      DigitRunAll(d);
      assert d[..|d|] == d;
      DigitsOfNat(i);
    }
  }

  /** Different integers have different decimal forms. */
  lemma IntToStringInjective(a: int, b: int)
    requires a != b
    ensures IntToString(a) != IntToString(b)
  {
    var sa, sb := IntToString(a), IntToString(b);
    if a < 0 && b < 0 {
      if sa == sb {
        assert sa[1..] == NatToString(-a) && sb[1..] == NatToString(-b);
        DigitsOfNat(-a);
        DigitsOfNat(-b);
      }
    } else if a >= 0 && b >= 0 {
      DigitsOfNat(a);
      DigitsOfNat(b);
    } else if a < 0 {
      assert sa[0] == '-' && IsDigit(sb[0]);
    } else {
      assert sb[0] == '-' && IsDigit(sa[0]);
    }
  }

  // ------------------------------------------------------ string casts

  /** `(string)$v`, with PHP's results for null, booleans and arrays. */
  function StrVal(v: Value): string
  {
    match v
    case VNull => ""
    case VBool(b) => if b then "1" else ""
    case VInt(i) => IntToString(i)
    case VStr(s) => s
    case VList(_) => "Array"
  }
}
