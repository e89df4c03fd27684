/** The JavaScript string built-ins the scripts lean on: the white-space class
    of `\s` and `String.prototype.trim`, and the global `parseInt`. */
module JsText {
  import opened Base
  import opened Strings

  /** WhiteSpace and LineTerminator of ECMAScript: the class `\s` and what
      `trim` removes (the Zs category written out). */
  predicate IsJsSpace(c: char) {
    || c == '\t' || c == '\U{000B}' || c == '\U{000C}' || c == ' ' || c == '\U{00A0}' || c == '\U{FEFF}'
    || c == '\U{1680}' || ('\U{2000}' <= c <= '\U{200A}') || c == '\U{202F}' || c == '\U{205F}' || c == '\U{3000}'
    || IsLineTerminator(c)
  }

  predicate AllSpace(s: string) {
    forall i :: 0 <= i < |s| ==> IsJsSpace(s[i])
  }

  /** `trimStart()`: the suffix left after the leading white space. */
  function TrimStart(s: string): string {
    if |s| > 0 && IsJsSpace(s[0]) then TrimStart(s[1..]) else s
  }

  /** `trimEnd()`: the prefix left before the trailing white space. */
  function TrimEnd(s: string): string {
    if |s| > 0 && IsJsSpace(s[|s| - 1]) then TrimEnd(s[..|s| - 1]) else s
  }

  /** `trimStart()` removes leading white space and nothing else. */
  lemma {:induction false} TrimStartSpec(s: string)
    ensures |TrimStart(s)| <= |s| && TrimStart(s) == s[|s| - |TrimStart(s)|..]
    ensures AllSpace(s[..|s| - |TrimStart(s)|])
    ensures TrimStart(s) == [] || !IsJsSpace(TrimStart(s)[0])
  {
    if |s| > 0 && IsJsSpace(s[0]) {
      var t := TrimStart(s[1..]);
      TrimStartSpec(s[1..]);
      assert s[..|s| - |t|] == [s[0]] + s[1..][..|s[1..]| - |t|];
    }
  }

  /** `trimEnd()` removes trailing white space and nothing else. */
  lemma {:induction false} TrimEndSpec(s: string)
    ensures |TrimEnd(s)| <= |s| && TrimEnd(s) == s[..|TrimEnd(s)|]
    ensures AllSpace(s[|TrimEnd(s)|..])
    ensures TrimEnd(s) == [] || !IsJsSpace(TrimEnd(s)[|TrimEnd(s)| - 1])
  {
    if |s| > 0 && IsJsSpace(s[|s| - 1]) {
      var t := TrimEnd(s[..|s| - 1]);
      TrimEndSpec(s[..|s| - 1]);
      assert s[|t|..] == s[..|s| - 1][|t|..] + [s[|s| - 1]];
    }
  }

  /** `trim()`. */
  function Trim(s: string): string {
    TrimEnd(TrimStart(s))
  }

  /** `trim()` cuts `s` into white space, a core that neither starts nor ends
      with white space, and white space. */
  lemma TrimSpec(s: string) returns (pre: nat, post: nat)
    ensures pre + |Trim(s)| + post == |s|
    ensures Trim(s) == s[pre..pre + |Trim(s)|]
    ensures AllSpace(s[..pre]) && AllSpace(s[pre + |Trim(s)|..])
    ensures Trim(s) == [] || (!IsJsSpace(Trim(s)[0]) && !IsJsSpace(Trim(s)[|Trim(s)| - 1]))
  {
    var a := TrimStart(s);
    var r := Trim(s);
    TrimStartSpec(s);
    TrimEndSpec(a);
    pre := |s| - |a|;
    post := |a| - |r|;
    assert s[pre..pre + |r|] == a[..|r|];
    assert s[pre + |r|..] == a[|r|..];
    if r != [] {
      assert r[0] == a[0];
    }
  }

  /** A string that neither starts nor ends with white space is its own trim. */
  lemma TrimIdempotent(s: string)
    requires s == [] || (!IsJsSpace(s[0]) && !IsJsSpace(s[|s| - 1]))
    ensures Trim(s) == s
  {
  }

  /** The value of a character as a digit of radix 36 (`36` for a non-digit). */
  function DigitValue(c: char): (d: nat)
    ensures d <= 36
    ensures d < 10 <==> IsDigit(c)
  {
    if '0' <= c <= '9' then c as int - '0' as int
    else if 'a' <= c <= 'z' then c as int - 'a' as int + 10
    else if 'A' <= c <= 'Z' then c as int - 'A' as int + 10
    else 36
  }

  /** End of the run of radix-`radix` digits starting at `from`. */
  function DigitRunEnd(s: string, from: nat, radix: nat): (n: nat)
    requires from <= |s|
    ensures from <= n <= |s|
    ensures forall j :: from <= j < n ==> DigitValue(s[j]) < radix
    ensures n < |s| ==> DigitValue(s[n]) >= radix
    decreases |s| - from
  {
    if from == |s| || DigitValue(s[from]) >= radix then from else DigitRunEnd(s, from + 1, radix)
  }

  /** The number a string of radix-`radix` digits denotes. */
  function RadixValue(s: string, radix: nat): nat {
    if |s| == 0 then 0
    else RadixValue(s[..|s| - 1], radix) * radix + DigitValue(s[|s| - 1])
  }

  /** The global `parseInt(s, radix)`, with `radix` already converted by
      ToInt32 (an omitted radix is `0`); `None` is `NaN`. */
  function ParseInt(s: string, radix: int): (r: Option<int>)
    ensures radix == 1 || radix < 0 || radix > 36 ==> r.None?
  {
    var t := TrimStart(s);
    var negative := |t| > 0 && t[0] == '-';
    var u := if |t| > 0 && (t[0] == '-' || t[0] == '+') then t[1..] else t;
    if radix != 0 && (radix < 2 || radix > 36) then None
    else match ParseUnsigned(u, radix)
      case None => None
      case Some(v) => Some(if negative then 0 - v else v)
  }

  /** The digits after the sign: a `0x`/`0X` prefix switches radix 0 or 16 to
      hexadecimal, otherwise radix 0 is ten; then the longest run of digits. */
  function ParseUnsigned(u: string, radix: int): (r: Option<nat>)
    requires radix == 0 || 2 <= radix <= 36
  {
    var hex := (radix == 0 || radix == 16) && |u| >= 2 && u[0] == '0' && (u[1] == 'x' || u[1] == 'X');
    var digits := if hex then u[2..] else u;
    var base: nat := if hex then 16 else if radix == 0 then 10 else radix;
    var end := DigitRunEnd(digits, 0, base);
    if end == 0 then None else Some(RadixValue(digits[..end], base))
  }

  lemma {:induction false} RadixValueDecimal(s: string)
    requires forall i :: 0 <= i < |s| ==> IsDigit(s[i])
    ensures RadixValue(s, 10) == DigitsValue(s)
  {
    if |s| > 0 {
      RadixValueDecimal(s[..|s| - 1]);
    }
  }

  /** A non-empty string of decimal digits parses to its value. */
  lemma UnsignedDigits(u: string, radix: int)
    requires radix == 0 || radix == 10
    requires |u| >= 1 && forall i :: 0 <= i < |u| ==> IsDigit(u[i])
    ensures ParseUnsigned(u, radix) == Some(DigitsValue(u))
  {
    if |u| >= 2 {
      assert IsDigit(u[1]);
    }
    DigitRunEndIs(u, 0, 10, |u|);
    assert u[..|u|] == u;
    RadixValueDecimal(u);
  }

  /** Without leading white space or sign, `parseInt` is the unsigned parse. */
  lemma ParseIntUnsigned(u: string, radix: int, v: nat)
    requires radix == 0 || 2 <= radix <= 36
    requires |u| >= 1 && TrimStart(u) == u && u[0] != '-' && u[0] != '+'
    requires ParseUnsigned(u, radix) == Some(v)
    ensures ParseInt(u, radix) == Some(v)
  {
    var t := TrimStart(u);
    assert t == u && !(t[0] == '-' || t[0] == '+');
  }

  lemma ParseIntDigits(u: string, radix: int)
    requires radix == 0 || radix == 10
    requires |u| >= 1 && forall i :: 0 <= i < |u| ==> IsDigit(u[i])
    ensures ParseInt(u, radix) == Some(DigitsValue(u))
  {
    DigitStart(u);
    UnsignedDigits(u, radix);
    ParseIntUnsigned(u, radix, DigitsValue(u));
  }

  /** A text starting with a digit has no leading white space or sign. */
  lemma DigitStart(u: string)
    requires |u| >= 1 && IsDigit(u[0])
    ensures TrimStart(u) == u && u[0] != '-' && u[0] != '+'
  {
  }

  /** `parseInt` reads back the decimal rendering of every natural number, with
      the radix omitted or ten. */
  lemma ParseIntOfNatToString(n: nat, radix: int)
    requires radix == 0 || radix == 10
    ensures ParseInt(NatToString(n), radix) == Some(n)
  {
    ParseIntDigits(NatToString(n), radix);
    DigitsValueOfNatToString(n);
  }

  lemma {:induction false} DigitRunEndIs(s: string, from: nat, radix: nat, n: nat)
    requires from <= n <= |s|
    requires forall j :: from <= j < n ==> DigitValue(s[j]) < radix
    requires n < |s| ==> DigitValue(s[n]) >= radix
    ensures DigitRunEnd(s, from, radix) == n
    decreases n - from
  {
    if from < n {
      DigitRunEndIs(s, from + 1, radix, n);
    }
  }

  /** `parseInt` is `NaN` exactly when the radix is out of range, or when
      no digit of the effective radix follows the white space, the sign and,
      for radix 0 and 16, a `0x`/`0X` prefix (which makes the radix 16; an
      omitted radix is otherwise ten). */
  lemma ParseIntNaN(s: string, radix: int)
    ensures ParseInt(s, radix).None? <==>
      || radix == 1 || radix < 0 || radix > 36
      || var u := TrimStart(s);
         var v := if |u| > 0 && (u[0] == '-' || u[0] == '+') then u[1..] else u;
         var hex := (radix == 0 || radix == 16) && |v| >= 2 && v[0] == '0' && (v[1] == 'x' || v[1] == 'X');
         var w := if hex then v[2..] else v;
         var base := if hex then 16 else if radix == 0 then 10 else radix;
         w == [] || DigitValue(w[0]) >= base
  {
  }

  /** With the radix omitted, as in `parseInt(n)`: a decimal digit after the
      sign gives a number, except that `0x` then needs a hexadecimal digit. */
  lemma ParseIntOmittedRadix(s: string)
    ensures var u := TrimStart(s);
      var v := if |u| > 0 && (u[0] == '-' || u[0] == '+') then u[1..] else u;
      && (v == [] || !IsDigit(v[0]) ==> ParseInt(s, 0).None?)
      && (|v| >= 2 && v[0] == '0' && (v[1] == 'x' || v[1] == 'X') ==>
            (ParseInt(s, 0).Some? <==> |v| >= 3 && DigitValue(v[2]) < 16))
      && (|v| >= 1 && IsDigit(v[0]) && !(|v| >= 2 && v[0] == '0' && (v[1] == 'x' || v[1] == 'X')) ==> ParseInt(s, 0).Some?)
  {
    ParseIntNaN(s, 0);
  }
}
