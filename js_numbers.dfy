/** JavaScript's `parseInt(_, 10)` and number-to-string conversion, for integral values.
    A JavaScript number is modelled as `Number`: `Some(n)` for an integer, `None` for `NaN`. */
module JsNumbers {
  import opened Wrappers

  type Number = Option<int>

  predicate IsDigit(c: char) {
    '0' <= c <= '9'
  }

  predicate AllDigits(s: string) {
    forall i :: 0 <= i < |s| ==> IsDigit(s[i])
  }

  /** The value of a decimal digit (0 for any other character). */
  function DigitValue(c: char): nat {
    if IsDigit(c) then c as int - '0' as int else 0
  }

  function DigitChar(d: nat): (c: char)
    requires d < 10
    ensures IsDigit(c) && DigitValue(c) == d
  {
    ('0' as int + d) as char
  }

  /** ECMAScript's StrWhiteSpaceChar: WhiteSpace (TAB, VT, FF, ZWNBSP and the Zs
      space separators) and LineTerminator (LF, CR, LS, PS). */
  predicate IsJsWhitespace(c: char) {
    || c == '\t' || c == '\n' || c == '\U{000B}' || c == '\U{000C}' || c == '\r'
    || c == ' ' || c == '\U{00A0}' || c == '\U{1680}'
    || ('\U{2000}' <= c <= '\U{200A}')
    || c == '\U{2028}' || c == '\U{2029}' || c == '\U{202F}' || c == '\U{205F}'
    || c == '\U{3000}' || c == '\U{FEFF}'
  }

  /** `s` without its leading white space. */
  function TrimStart(s: string): string {
    if s != [] && IsJsWhitespace(s[0]) then TrimStart(s[1..]) else s
  }

  /** What `TrimStart` keeps is a suffix of `s`. */
  lemma {:induction false} TrimStartIsSuffix(s: string)
    ensures |TrimStart(s)| <= |s| && TrimStart(s) == s[|s| - |TrimStart(s)|..]
  {
    if s != [] && IsJsWhitespace(s[0]) {
      TrimStartIsSuffix(s[1..]);
      assert s[1..][|s| - 1 - |TrimStart(s[1..])|..] == s[|s| - |TrimStart(s[1..])|..];
    }
  }

  /** What `TrimStart` removes is white space, and what it keeps does not start with
      white space. */
  lemma {:induction false} TrimStartRemovesWhitespace(s: string)
    ensures |TrimStart(s)| <= |s|
    ensures forall i :: 0 <= i < |s| - |TrimStart(s)| ==> IsJsWhitespace(s[i])
    ensures TrimStart(s) == [] || !IsJsWhitespace(TrimStart(s)[0])
  {
    if s != [] && IsJsWhitespace(s[0]) {
      var t := s[1..];
      TrimStartRemovesWhitespace(t);
      forall i | 0 <= i < |s| - |TrimStart(s)|
        ensures IsJsWhitespace(s[i])
      {
        if i > 0 {
          assert s[i] == t[i - 1];
        }
      }
    }
  }

  /** The longest prefix of `s` made of decimal digits. */
  function DigitPrefix(s: string): string {
    if s != [] && IsDigit(s[0]) then [s[0]] + DigitPrefix(s[1..]) else []
  }

  /** `DigitPrefix` is a prefix of `s` made of digits, and no longer run of leading
      digits exists. */
  lemma {:induction false} DigitPrefixIsLongest(s: string)
    ensures var r := DigitPrefix(s);
      && r <= s && AllDigits(r)
      && (|r| < |s| ==> !IsDigit(s[|r|]))
  {
    if s != [] && IsDigit(s[0]) {
      DigitPrefixIsLongest(s[1..]);
    }
  }

  /** The value of a string of decimal digits, most significant first. */
  function DigitsValue(ds: string): nat {
    if ds == [] then 0 else 10 * DigitsValue(ds[..|ds| - 1]) + DigitValue(ds[|ds| - 1])
  }

  /** `parseInt(s, 10)`: skip leading white space, take an optional sign, then the longest
      run of decimal digits; `NaN` when that run is empty. */
  function ParseInt(s: string): Number {
    ParseSigned(TrimStart(s))
  }

  /** The part of `parseInt` after the white space is gone. */
  function ParseSigned(t: string): Number {
    var negative := t != [] && t[0] == '-';
    var unsigned := if t != [] && (t[0] == '-' || t[0] == '+') then t[1..] else t;
    var ds := DigitPrefix(unsigned);
    var magnitude: int := DigitsValue(ds);
    if ds == [] then None
    else if negative then Some(-magnitude)
    else Some(magnitude)
  }

  lemma StartsWithoutWhitespace(s: string)
    requires s != [] && (IsDigit(s[0]) || s[0] == '-')
    ensures TrimStart(s) == s
  {
    assert !IsJsWhitespace(s[0]);
  }

  /** The decimal rendering of a non-negative integer, as `String(n)` prints it. */
  function NatToDecimal(n: nat): (r: string)
    ensures |r| >= 1
  {
    if n < 10 then [DigitChar(n)] else NatToDecimal(n / 10) + [DigitChar(n % 10)]
  }

  /** Every character `NatToDecimal` prints is a digit. */
  lemma {:induction false} NatToDecimalDigits(n: nat)
    ensures AllDigits(NatToDecimal(n))
    decreases n
  {
    if n >= 10 {
      NatToDecimalDigits(n / 10);
    }
  }

  /** A number printed by `NatToDecimal` holds no character other than digits. */
  lemma NatToDecimalLacks(n: nat, c: char)
    requires !IsDigit(c)
    ensures c !in NatToDecimal(n)
  {
    NatToDecimalDigits(n);
  }

  /** `String(n)` for an integral number (no exponent form, see README). */
  function IntToDecimal(n: int): string {
    if n < 0 then "-" + NatToDecimal(-n) else NatToDecimal(n)
  }

  /** A template literal's `${x}`: `"NaN"` for `NaN`. */
  function NumberToString(x: Number): string {
    match x
    case None => "NaN"
    case Some(n) => IntToDecimal(n)
  }

  /** `a - b` and `a + b`: `NaN` in, `NaN` out. */
  function Minus(a: Number, b: Number): Number {
    if a.Some? && b.Some? then Some(a.value - b.value) else None
  }

  function Plus(a: Number, b: Number): Number {
    if a.Some? && b.Some? then Some(a.value + b.value) else None
  }

  lemma {:induction false} DecimalValue(n: nat)
    ensures DigitsValue(NatToDecimal(n)) == n
    decreases n
  {
    if n >= 10 {
      var ds := NatToDecimal(n);
      assert ds[..|ds| - 1] == NatToDecimal(n / 10);
      DecimalValue(n / 10);
    }
  }

  lemma {:induction false} DigitPrefixStopsAtNonDigit(ds: string, rest: string)
    requires AllDigits(ds)
    requires rest == [] || !IsDigit(rest[0])
    ensures DigitPrefix(ds + rest) == ds
    decreases |ds|
  {
    if ds == [] {
      assert ds + rest == rest;
    } else {
      assert (ds + rest)[1..] == ds[1..] + rest;
      DigitPrefixStopsAtNonDigit(ds[1..], rest);
      assert [ds[0]] + ds[1..] == ds;
    }
  }

  /** Reading back a printed non-negative integer that is followed by a non-digit. */
  lemma ParseIntOfDecimal(n: nat, rest: string)
    requires rest == [] || !IsDigit(rest[0])
    ensures ParseInt(NatToDecimal(n) + rest) == Some(n)
  {
    var s := NatToDecimal(n) + rest;
    NatToDecimalDigits(n);
    StartsWithoutWhitespace(s);
    DigitPrefixStopsAtNonDigit(NatToDecimal(n), rest);
    DecimalValue(n);
  }

  /** `parseInt(String(n), 10) === n` for every integer `n`. */
  lemma ParseIntRoundTrip(n: int)
    ensures ParseInt(IntToDecimal(n)) == Some(n)
  {
    if n < 0 {
      var d := NatToDecimal(-n);
      var s := "-" + d;
      NatToDecimalDigits(-n);
      StartsWithoutWhitespace(s);
      assert s[1..] == d;
      DigitPrefixStopsAtNonDigit(d, []);
      assert d + [] == d;
      DecimalValue(-n);
      assert ParseSigned(s) == Some(n);
    } else {
      ParseIntOfDecimal(n, []);
      assert NatToDecimal(n) + [] == NatToDecimal(n);
    }
  }

  lemma {:induction false} TrimStartSkipsWhitespace(w: string, s: string)
    requires forall i :: 0 <= i < |w| ==> IsJsWhitespace(w[i])
    ensures TrimStart(w + s) == TrimStart(s)
    decreases |w|
  {
    if w != [] {
      assert (w + s)[1..] == w[1..] + s;
      TrimStartSkipsWhitespace(w[1..], s);
    } else {
      assert w + s == s;
    }
  }

  /** Leading white space never changes what `parseInt` reads. */
  lemma ParseIntSkipsWhitespace(w: string, s: string)
    requires forall i :: 0 <= i < |w| ==> IsJsWhitespace(w[i])
    ensures ParseInt(w + s) == ParseInt(s)
  {
    TrimStartSkipsWhitespace(w, s);
  }

  /** Without a '-' anywhere in the text, `parseInt` yields `NaN` or a non-negative number. */
  lemma ParseIntWithoutMinus(s: string)
    requires '-' !in s
    ensures ParseInt(s) == None || ParseInt(s).value >= 0
  {
    var t := TrimStart(s);
    TrimStartIsSuffix(s);
    if t != [] {
      assert t[0] == s[|s| - |t|];
    }
  }
}
