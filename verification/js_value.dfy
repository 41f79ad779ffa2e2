/**
 * The JavaScript values a frontmatter record holds, and the conversions the
 * frontmatter builder relies on: `parseInt`, the string form of an integer and
 * the string form of any value.
 */
module JsValue {
  import opened Text

  /** A frontmatter value: a string, an array, an integral number, `NaN`,
      `null` or `undefined`.  Nested objects do not occur in a fresh record
      and are not modelled. */
  datatype Value =
    | Str(s: string)
    | List(items: seq<Value>)
    | Int(n: int)
    | NaN
    | Null
    | Undefined

  // ---------------------------------------------------------------------------
  // Numerals.
  // ---------------------------------------------------------------------------

  /** `[0-9A-Fa-f]` */
  predicate IsHexDigit(ch: char) {
    IsDigit(ch) || 'a' <= ch <= 'f' || 'A' <= ch <= 'F'
  }

  /** The digit `ch` stands for, in any radix up to 16. */
  function DigitValue(ch: char): (v: nat)
    requires IsHexDigit(ch)
    ensures v < 16
    ensures IsDigit(ch) <==> v < 10
  {
    if '0' <= ch <= '9' then ch as int - '0' as int
    else if 'a' <= ch <= 'f' then ch as int - 'a' as int + 10
    else ch as int - 'A' as int + 10
  }

  /** The decimal digit for `v`. */
  function DigitChar(v: nat): (ch: char)
    requires v < 10
    ensures IsDigit(ch) && IsHexDigit(ch) && DigitValue(ch) == v
  {
    ('0' as int + v) as char
  }

  /** Every character of `t` is a digit in some radix up to 16. */
  predicate IsNumeral(t: string) {
    forall k :: 0 <= k < |t| ==> IsHexDigit(t[k])
  }

  /** The value of the numeral `t` in base `radix`, most significant digit
      first. */
  function NumeralValue(t: string, radix: nat): nat
    requires IsNumeral(t)
  {
    if |t| == 0 then 0 else NumeralValue(t[..|t| - 1], radix) * radix + DigitValue(t[|t| - 1])
  }

  /** The decimal numeral of `n`, without leading zeros. */
  function NatToString(n: nat): (t: string)
    ensures |t| > 0 && forall k :: 0 <= k < |t| ==> IsDigit(t[k])
    ensures |t| > 1 ==> t[0] != '0'
  {
    if n < 10 then [DigitChar(n)] else NatToString(n / 10) + [DigitChar(n % 10)]
  }

  /** `String(n)` for an integer `n` of fewer than 22 digits: an optional
      minus sign, then the decimal numeral. */
  function IntToString(n: int): (t: string)
    ensures |t| > 0 && (IsDigit(t[0]) || t[0] == '-')
  {
    if n < 0 then "-" + NatToString(-n) else NatToString(n)
  }

  /** Reading back a decimal numeral gives the number it was written from. */
  lemma {:induction false} NumeralOfNatToString(n: nat)
    ensures IsNumeral(NatToString(n)) && NumeralValue(NatToString(n), 10) == n
    decreases n
  {
    var t := NatToString(n);
    if n >= 10 {
      NumeralOfNatToString(n / 10);
      assert t[..|t| - 1] == NatToString(n / 10);
    }
  }

  // ---------------------------------------------------------------------------
  // parseInt.
  // ---------------------------------------------------------------------------

  /** `s` continues at `j` with the `0x` / `0X` prefix of a hexadecimal
      numeral. */
  predicate HasHexPrefix(s: string, j: nat) {
    j + 1 < |s| && s[j] == '0' && (s[j + 1] == 'x' || s[j + 1] == 'X')
  }

  /** The end of the run of hexadecimal digits starting at `i`. */
  function HexRun(s: string, i: nat): (j: nat)
    requires i <= |s|
    ensures i <= j <= |s| && forall k :: i <= k < j ==> IsHexDigit(s[k])
    decreases |s| - i
  {
    if i < |s| && IsHexDigit(s[i]) then HexRun(s, i + 1) else i
  }

  /** Where the digits of a decimal numeral would start: after leading
      whitespace and an optional sign. */
  function DigitsStart(s: string): (j: nat)
    ensures j <= |s|
  {
    var i := SkipWhile(s, 0, JsSpace);
    if i < |s| && (s[i] == '-' || s[i] == '+') then i + 1 else i
  }

  /** JavaScript `parseInt(s)` without a radix: skip leading whitespace, read
      an optional sign and an optional `0x` prefix, then the longest run of
      digits of the radix; `NaN` when that run is empty.  Trailing characters
      are ignored. */
  function ParseInt(s: string): (r: Value)
    ensures r.Int? || r.NaN?
  {
    var i := SkipWhile(s, 0, JsSpace);
    var negative := i < |s| && s[i] == '-';
    var j := DigitsStart(s);
    var hex := HasHexPrefix(s, j);
    var d := if hex then j + 2 else j;
    var e := if hex then HexRun(s, d) else SkipWhile(s, d, Digit);
    if e == d then NaN
    else
      assert IsNumeral(s[d..e]) by {
        forall k | 0 <= k < e - d ensures IsHexDigit(s[d..e][k]) {
          assert s[d..e][k] == s[d + k];
        }
      }
      var v: int := NumeralValue(s[d..e], if hex then 16 else 10);
      Int(if negative then -v else v)
  }

  /** The run of decimal digits at `j` is exactly the numeral `t`. */
  lemma DigitRunIs(s: string, t: string, j: nat)
    requires |t| > 0 && forall k :: 0 <= k < |t| ==> IsDigit(t[k])
    requires j + |t| <= |s| && s[j..j + |t|] == t
    requires j + |t| < |s| ==> !Digit.Has(s[j + |t|])
    ensures SkipWhile(s, j, Digit) == j + |t|
  {
    assert forall k :: 0 <= k < |t| ==> s[j + k] == t[k];
    SkipWhileIsLongest(s, j, j + |t|, Digit);
    if j + |t| < |s| {
      SkipWhileStopsAt(s, j, j + |t|, Digit);
    }
  }

  /** `parseInt` on input that starts with a decimal numeral `t`, after a
      minus sign when `negative`, and continues with no further digit. */
  lemma ParseIntAt(s: string, t: string, j: nat, negative: bool)
    requires |t| > 0 && forall k :: 0 <= k < |t| ==> IsDigit(t[k])
    requires j == (if negative then 1 else 0) && j + |t| <= |s| && s[j..j + |t|] == t
    requires negative ==> s[0] == '-'
    requires !HasHexPrefix(s, j)
    requires j + |t| < |s| ==> !Digit.Has(s[j + |t|])
    ensures IsNumeral(t)
    ensures ParseInt(s) == Int(if negative then -(NumeralValue(t, 10) as int) else NumeralValue(t, 10))
  {
    assert s[j] == t[0];
    assert SkipWhile(s, 0, JsSpace) == 0;
    DigitRunIs(s, t, j);
  }

  /** With no digit after the whitespace and the sign, `parseInt` gives
      `NaN`; an empty CSV column is such a string. */
  lemma ParseIntNoDigits(s: string)
    requires DigitsStart(s) == |s| || !IsDigit(s[DigitsStart(s)])
    ensures ParseInt(s) == NaN
  {
    var j := DigitsStart(s);
    assert !HasHexPrefix(s, j);
    if j < |s| {
      SkipWhileStopsAt(s, j, j, Digit);
    }
  }

  /** `parseInt("")` is `NaN`. */
  lemma ParseIntEmpty()
    ensures ParseInt("") == NaN
  {
    ParseIntNoDigits("");
  }

  /** `parseInt` reads back what `String` wrote, and stops at the first
      character after the numeral that is not a digit, except that a `0`
      followed by `x` opens a hexadecimal numeral. */
  lemma ParseIntOfIntToString(n: int, rest: string)
    requires |rest| > 0 ==> !IsDigit(rest[0]) && (n == 0 ==> rest[0] != 'x' && rest[0] != 'X')
    ensures ParseInt(IntToString(n) + rest) == Int(n)
  {
    var s := IntToString(n) + rest;
    var m: nat := if n < 0 then -n else n;
    var t := NatToString(m);
    var j := if n < 0 then 1 else 0;
    assert s[j..j + |t|] == t;
    assert !HasHexPrefix(s, j) by {
      if |t| > 1 {
        assert s[j] == t[0];
      } else if |rest| > 0 {
        assert s[j + 1] == rest[0];
      }
    }
    assert j + |t| < |s| ==> s[j + |t|] == rest[0];
    NumeralOfNatToString(m);
    ParseIntAt(s, t, j, n < 0);
  }

  /** Every integer survives a trip through its string form. */
  lemma ParseIntRoundTrip(n: int)
    ensures ParseInt(IntToString(n)) == Int(n)
  {
    ParseIntOfIntToString(n, "");
    assert IntToString(n) + "" == IntToString(n);
  }

  // ---------------------------------------------------------------------------
  // String conversion.
  // ---------------------------------------------------------------------------

  /** `String(v)`.  An array joins its elements with `,`, writing `null` and
      `undefined` elements as empty strings. */
  function JsString(v: Value): string {
    match v
    case Str(s) => s
    case Int(n) => IntToString(n)
    case NaN => "NaN"
    case Null => "null"
    case Undefined => "undefined"
    case List(items) =>
      Join(seq(|items|, i requires 0 <= i < |items| =>
        if items[i].Null? || items[i].Undefined? then "" else JsString(items[i])), ',')
  }

  /** What `parseInt` returns survives `parseInt(String(v))`. */
  lemma ParseIntOfJsString(v: Value)
    requires v.Int? || v.NaN?
    ensures ParseInt(JsString(v)) == v
  {
    if v.Int? {
      ParseIntRoundTrip(v.n);
    } else {
      assert SkipWhile("NaN", 0, JsSpace) == 0;
    }
  }
}
