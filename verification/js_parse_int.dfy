/** JavaScript's global `parseInt(string)` with no radix argument, as the
    route handlers apply it to query-string values (ECMAScript 2023,
    section 19.2.5). The result `None` stands for `NaN`. */
module JsParseInt {
  import opened Wrappers
  import opened Numerals

  /** The StrWhiteSpaceChar set: WhiteSpace (TAB, VT, FF, ZWNBSP and the
      Unicode space separators) and LineTerminator (LF, CR, LS, PS). */
  predicate IsWhiteSpace(c: char) {
    c == '\t' || c == '\U{B}' || c == '\U{C}' || c == '\U{FEFF}'
    || c == ' ' || c == '\U{A0}' || c == '\U{1680}'
    || ('\U{2000}' <= c <= '\U{200A}') || c == '\U{202F}' || c == '\U{205F}' || c == '\U{3000}'
    || c == '\n' || c == '\r' || c == '\U{2028}' || c == '\U{2029}'
  }

  function TrimStart(s: string): (r: string)
    ensures |r| <= |s| && r == s[|s| - |r|..]
    ensures |r| > 0 ==> !IsWhiteSpace(r[0])
    decreases |s|
  {
    if |s| > 0 && IsWhiteSpace(s[0]) then TrimStart(s[1..]) else s
  }

  predicate HasHexPrefix(s: string) {
    |s| >= 2 && s[0] == '0' && (s[1] == 'x' || s[1] == 'X')
  }

  /** `parseInt(s)`: skip leading white space, read an optional sign, read
      base 16 after a `0x`/`0X` prefix and base 10 otherwise, and stop at
      the first character that is not a digit; no digit at all is `NaN`. */
  function ParseInt(s: string): Option<int> {
    var t := TrimStart(s);
    var negative := |t| > 0 && t[0] == '-';
    var u := if |t| > 0 && (t[0] == '-' || t[0] == '+') then t[1..] else t;
    var radix := if HasHexPrefix(u) then 16 else 10;
    var v := if HasHexPrefix(u) then u[2..] else u;
    var n := DigitRun(v, radix);
    if n == 0 then None
    else
      var magnitude := Value(v[..n], radix);
      Some(if negative then -(magnitude as int) else magnitude)
  }

  /** A string that starts with a decimal digit and has no hex prefix is
      read as the decimal number of its leading digit run. */
  lemma ParseDecimalStart(s: string)
    requires |s| > 0 && DigitOf(s[0], 10).Some?
    requires !HasHexPrefix(s)
    ensures DigitRun(s, 10) > 0
    ensures ParseInt(s) == Some(Value(s[..DigitRun(s, 10)], 10))
  {
    DigitIsPlain(s[0]);
    assert TrimStart(s) == s;
  }

  /** The decimal numeral of `n`, followed by anything that does not extend
      it, parses back to `n`; this includes the numeral alone. */
  lemma ParseNumeral(n: nat, rest: string)
    requires |rest| == 0 || DigitOf(rest[0], 10).None?
    requires n == 0 ==> |rest| == 0 || (rest[0] != 'x' && rest[0] != 'X')
    ensures ParseInt(NatToString(n) + rest) == Some(n)
  {
    var d := NatToString(n);
    var s := d + rest;
    assert s[0] == d[0];
    DigitRunOfNumeral(d, rest);
    ParseDecimalStart(s);
    assert s[..|d|] == d;
    NatToStringValue(n);
  }

  lemma {:induction false} DigitRunOfNumeral(d: string, rest: string)
    requires AllDigits(d, 10)
    requires |rest| == 0 || DigitOf(rest[0], 10).None?
    ensures DigitRun(d + rest, 10) == |d|
    decreases |d|
  {
    if |d| == 0 {
      assert d + rest == rest;
    } else {
      var s := d + rest;
      assert s[0] == d[0];
      assert s[1..] == d[1..] + rest;
      assert AllDigits(d[1..], 10) by {
        forall k | 0 <= k < |d[1..]| ensures DigitOf(d[1..][k], 10).Some? {
          assert d[1..][k] == d[k + 1];
        }
      }
      DigitRunOfNumeral(d[1..], rest);
    }
  }

  /** A decimal digit is neither white space nor a sign. */
  lemma DigitIsPlain(c: char)
    requires DigitOf(c, 10).Some?
    ensures '0' <= c <= '9'
    ensures !IsWhiteSpace(c) && c != '-' && c != '+'
  {
  }

  /** `parseInt(String(i)) == i` for every integer. */
  lemma ParseIntToString(i: int)
    ensures ParseInt(IntToString(i)) == Some(i)
  {
    if i >= 0 {
      ParseNumeral(i, "");
      assert NatToString(i) + "" == NatToString(i);
    } else {
      var d := NatToString(-i);
      var s := "-" + d;
      assert TrimStart(s) == s;
      assert s[1..] == d;
      DigitIsPlain(d[0]);
      assert !HasHexPrefix(d);
      DigitRunOfNumeral(d, "");
      assert d + "" == d;
      assert d[..|d|] == d;
      NatToStringValue(-i);
    }
  }
}
