/**
 * The JavaScript numbers the page size and the page index take, and
 * `parseInt(string, 10)`. Numbers are integers or NaN; the model does
 * not bound their magnitude.
 */
module JsNumbers {

  /** A JavaScript number as far as this program uses one. */
  datatype JsNumber = Finite(value: int) | NaN

  /** JavaScript `a * b`: NaN is absorbing. */
  function Mul(a: JsNumber, b: JsNumber): JsNumber
  {
    if a.Finite? && b.Finite? then Finite(a.value * b.value) else NaN
  }

  /** The characters `parseInt` skips at the front (WhiteSpace and LineTerminator). */
  predicate IsSpace(c: char)
  {
    // WhiteSpace: TAB, VT, FF, ZWNBSP and the space separators (category Zs)
    || c == '\t' || c == '\U{000B}' || c == '\U{000C}' || c == '\U{FEFF}'
    || c == ' ' || c == '\U{00A0}' || c == '\U{1680}' || ('\U{2000}' <= c <= '\U{200A}')
    || c == '\U{202F}' || c == '\U{205F}' || c == '\U{3000}'
    // LineTerminator: LF, CR, LS, PS
    || c == '\n' || c == '\r' || c == '\U{2028}' || c == '\U{2029}'
  }

  predicate IsDigit(c: char)
  {
    '0' <= c <= '9'
  }

  predicate AllDigits(s: string)
  {
    forall i :: 0 <= i < |s| ==> IsDigit(s[i])
  }

  function DigitValue(c: char): (r: nat)
    requires IsDigit(c)
    ensures r < 10
  {
    (c as int) - ('0' as int)
  }

  /** The number a string of decimal digits denotes. */
  function DigitsValue(s: string): nat
    requires AllDigits(s)
  {
    if |s| == 0 then 0 else DigitsValue(s[..|s| - 1]) * 10 + DigitValue(s[|s| - 1])
  }

  /** The text after the leading white space. */
  function TrimStart(s: string): (r: string)
    ensures |r| <= |s| && r == s[|s| - |r|..]
    ensures forall i :: 0 <= i < |s| - |r| ==> IsSpace(s[i])
    ensures r == [] || !IsSpace(r[0])
  {
    if |s| > 0 && IsSpace(s[0]) then TrimStart(s[1..]) else s
  }

  /** The length of the longest prefix made of decimal digits. */
  function DigitPrefix(s: string): (n: nat)
    ensures n <= |s| && AllDigits(s[..n])
    ensures n == |s| || !IsDigit(s[n])
  {
    if |s| > 0 && IsDigit(s[0]) then
      var n := 1 + DigitPrefix(s[1..]);
      assert s[..n] == [s[0]] + s[1..][..n - 1];
      n
    else 0
  }

  /** The text without its sign character, if it has one. */
  function Unsigned(t: string): string
  {
    if |t| > 0 && (t[0] == '+' || t[0] == '-') then t[1..] else t
  }

  /** The magnitude read from `u`, the text after the sign: NaN when no digit follows. */
  function Magnitude(u: string): JsNumber
  {
    var n := DigitPrefix(u);
    if n == 0 then NaN else Finite(DigitsValue(u[..n]))
  }

  /**
   * `parseInt(s, 10)`: skip leading white space, read an optional sign,
   * then the longest run of decimal digits; NaN when that run is empty.
   * A negative zero is the integer 0 here. A string of digits reads as the
   * number it denotes; a string that starts with anything but white
   * space, a sign or a digit reads as NaN.
   */
  function ParseInt(s: string): (r: JsNumber)
    ensures |s| > 0 && AllDigits(s) ==> r == Finite(DigitsValue(s))
    ensures |s| > 0 && !IsSpace(s[0]) && !IsDigit(s[0]) && s[0] != '+' && s[0] != '-' ==> r == NaN
  {
    assert |s| > 0 && AllDigits(s) ==> DigitPrefix(s) == |s| && s[..|s|] == s by {
      if |s| > 0 && AllDigits(s) {
        DigitPrefixOf(s, []);
        assert s + [] == s;
      }
    }
    var t := TrimStart(s);
    var m := Magnitude(Unsigned(t));
    if m.Finite? && |t| > 0 && t[0] == '-' then Finite(-m.value) else m
  }

  /** The decimal representation of `n`, without leading zeros. */
  function DecimalString(n: nat): (r: string)
    ensures |r| > 0 && AllDigits(r) && DigitsValue(r) == n
    ensures r[0] != '0' || n == 0
  {
    var c := ('0' as int + n % 10) as char;
    if n < 10 then
      assert [c][..0] == [];
      [c]
    else
      var p := DecimalString(n / 10);
      assert (p + [c])[..|p|] == p;
      p + [c]
  }

  /** A run of digits followed by anything that is not a digit reads as that run. */
  lemma ParseIntDigitsThen(ds: string, rest: string)
    requires |ds| > 0 && AllDigits(ds)
    requires rest == [] || !IsDigit(rest[0])
    ensures ParseInt(ds + rest) == Finite(DigitsValue(ds))
  {
    var s := ds + rest;
    assert !IsSpace(s[0]) && s[0] != '+' && s[0] != '-';
    assert TrimStart(s) == s;
    assert Unsigned(s) == s;
    DigitPrefixOf(ds, rest);
    assert s[..|ds|] == ds;
  }

  /** The digit prefix of `ds + rest` is `ds` when `rest` does not start with a digit. */
  lemma {:induction false} DigitPrefixOf(ds: string, rest: string)
    requires AllDigits(ds)
    requires rest == [] || !IsDigit(rest[0])
    ensures DigitPrefix(ds + rest) == |ds|
    decreases |ds|
  {
    if |ds| > 0 {
      assert (ds + rest)[1..] == ds[1..] + rest;
      DigitPrefixOf(ds[1..], rest);
    } else {
      assert ds + rest == rest;
    }
  }

  /** `parseInt` inverts the decimal representation of a natural number. */
  lemma ParseIntDecimal(n: nat)
    ensures ParseInt(DecimalString(n)) == Finite(n)
  {
  }

  /** A leading minus sign negates the digits after it. */
  lemma ParseIntNegative(s: string)
    requires |s| > 1 && s[0] == '-' && AllDigits(s[1..])
    ensures ParseInt(s) == Finite(-(DigitsValue(s[1..]) as int))
  {
    var ds := s[1..];
    assert TrimStart(s) == s;
    assert Unsigned(s) == ds;
    DigitPrefixOf(ds, []);
    assert ds + [] == ds;
    assert ds[..|ds|] == ds;
  }
}
