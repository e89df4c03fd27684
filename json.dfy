/** JSON string literals (section 7 of RFC 8259) as the scripts write and
    read them: JavaScript's `JSON.stringify` and Python's `json.dumps` (with
    its default `ensure_ascii`) on the writing side, Python's `json.loads`
    on the reading side. Text is a sequence of Unicode scalar values, so a
    lone surrogate can neither be written nor read back. */
module Json {
  import opened Base
  import opened Strings

  /** A lower-case hexadecimal digit, as both encoders print them. */
  function HexDigit(d: nat): (c: char)
    requires d < 16
  {
    if d < 10 then ('0' as int + d) as char else ('a' as int + d - 10) as char
  }

  /** The value of a hexadecimal digit of either case. */
  function HexValue(c: char): (r: Option<nat>)
    ensures r.Some? ==> r.value < 16
  {
    if '0' <= c <= '9' then Some(c as int - '0' as int)
    else if 'a' <= c <= 'f' then Some(c as int - 'a' as int + 10)
    else if 'A' <= c <= 'F' then Some(c as int - 'A' as int + 10)
    else None
  }

  lemma HexValueOfDigit(d: nat)
    requires d < 16
    ensures HexValue(HexDigit(d)) == Some(d)
  {
  }

  /** Four hexadecimal digits of a 16-bit value. */
  function Hex4(n: nat): (r: string)
    requires n < 0x10000
    ensures |r| == 4
  {
    [HexDigit(n / 4096), HexDigit(n / 256 % 16), HexDigit(n / 16 % 16), HexDigit(n % 16)]
  }

  /** The value of four hexadecimal digits. */
  function ParseHex4(s: string): (r: Option<nat>)
    requires |s| == 4
    ensures r.Some? ==> r.value < 0x10000
  {
    match (HexValue(s[0]), HexValue(s[1]), HexValue(s[2]), HexValue(s[3]))
    case (Some(a), Some(b), Some(c), Some(d)) => Some(((a * 16 + b) * 16 + c) * 16 + d)
    case _ => None
  }

  lemma ParseHex4Hex4(n: nat)
    requires n < 0x10000
    ensures ParseHex4(Hex4(n)) == Some(n)
  {
    HexValueOfDigit(n / 4096);
    HexValueOfDigit(n / 256 % 16);
    HexValueOfDigit(n / 16 % 16);
    HexValueOfDigit(n % 16);
    assert n / 256 == n / 4096 * 16 + n / 256 % 16;
    assert n / 16 == n / 256 * 16 + n / 16 % 16;
  }

  /** The character a two-character escape `\x` stands for. */
  function Unescape(x: char): Option<char> {
    match x
    case '"' => Some('"')
    case '\\' => Some('\\')
    case '/' => Some('/')
    case 'b' => Some('\U{0008}')
    case 'f' => Some('\U{000C}')
    case 'n' => Some('\n')
    case 'r' => Some('\r')
    case 't' => Some('\t')
    case _ => None
  }

  /** The two-character escape both encoders use for a character, if any. */
  function ShortEscape(c: char): (r: Option<char>)
    ensures r.Some? ==> Unescape(r.value) == Some(c) && ' ' <= r.value <= '~'
  {
    match c
    case '"' => Some('"')
    case '\\' => Some('\\')
    case '\U{0008}' => Some('b')
    case '\U{000C}' => Some('f')
    case '\n' => Some('n')
    case '\r' => Some('r')
    case '\t' => Some('t')
    case _ => None
  }

  function Prepend(c: char, r: Option<string>): Option<string> {
    match r
    case None => None
    case Some(s) => Some([c] + s)
  }

  predicate IsHigh(n: nat) { 0xD800 <= n < 0xDC00 }
  predicate IsLow(n: nat) { 0xDC00 <= n < 0xE000 }

  /** The character a surrogate pair stands for. */
  function Pair(hi: nat, lo: nat): (c: char)
    requires IsHigh(hi) && IsLow(lo)
    ensures c as int >= 0x10000
  {
    (0x10000 + (hi - 0xD800) * 1024 + (lo - 0xDC00)) as char
  }

  /** Python's string scanner on what follows the opening quote: the text
      when the rest is exactly its body and the closing quote, `None` where
      `json.loads` raises (a raw control character, a bad escape, no closing
      quote, anything after it) or where the result would hold a lone
      surrogate. */
  function Body(b: string): (r: Option<string>)
    decreases |b|
  {
    if |b| == 0 then None
    else if b[0] == '"' then (if |b| == 1 then Some("") else None)
    else if b[0] == '\\' then
      if |b| < 2 then None
      else if b[1] == 'u' then
        if |b| < 6 then None
        else match ParseHex4(b[2..6])
          case None => None
          case Some(n) =>
            if IsHigh(n) then
              if |b| >= 12 && b[6] == '\\' && b[7] == 'u' && ParseHex4(b[8..12]).Some? && IsLow(ParseHex4(b[8..12]).value)
              then Prepend(Pair(n, ParseHex4(b[8..12]).value), Body(b[12..]))
              else None
            else if IsLow(n) then None
            else Prepend(n as char, Body(b[6..]))
      else match Unescape(b[1])
        case None => None
        case Some(c) => Prepend(c, Body(b[2..]))
    else if b[0] < ' ' then None
    else Prepend(b[0], Body(b[1..]))
  }

  /** `json.loads` of a text that starts with a quote. */
  function Decode(lit: string): Option<string> {
    if |lit| > 0 && lit[0] == '"' then Body(lit[1..]) else None
  }

  /** `\u` and four digits. */
  function UEscape(n: nat): (r: string)
    requires n < 0x10000
    ensures |r| == 6
  {
    "\\u" + Hex4(n)
  }

  /** How `JSON.stringify` writes one character (QuoteJSONString of
      ECMA-262). */
  function JsUnit(c: char): (r: string)
    ensures |r| > 0
  {
    match ShortEscape(c)
    case Some(x) => ['\\', x]
    case None => if c < ' ' then UEscape(c as int) else [c]
  }

  /** How `json.dumps` writes one character with `ensure_ascii`: printable
      ASCII as itself, everything else escaped, through a surrogate pair
      beyond the Basic Multilingual Plane. */
  function PyUnit(c: char): (r: string)
    ensures |r| > 0
  {
    match ShortEscape(c)
    case Some(x) => ['\\', x]
    case None =>
      if ' ' <= c <= '~' then [c]
      else if c as int < 0x10000 then UEscape(c as int)
      else
        var v := c as int - 0x10000;
        UEscape(0xD800 + v / 1024) + UEscape(0xDC00 + v % 1024)
  }

  function JsUnits(s: string): string {
    if |s| == 0 then "" else JsUnit(s[0]) + JsUnits(s[1..])
  }

  function PyUnits(s: string): string {
    if |s| == 0 then "" else PyUnit(s[0]) + PyUnits(s[1..])
  }

  /** `JSON.stringify(s)` for a string. */
  function Stringify(s: string): string {
    "\"" + JsUnits(s) + "\""
  }

  /** `json.dumps(s)` for a string. */
  function Dumps(s: string): string {
    "\"" + PyUnits(s) + "\""
  }

  /** Reading one written character consumes exactly what was written. */
  lemma JsUnitRead(c: char, tail: string)
    ensures Body(JsUnit(c) + tail) == Prepend(c, Body(tail))
  {
    if ShortEscape(c).Some? {
      ShortRead(c, tail);
    } else if c < ' ' {
      BmpRead(c, tail);
    } else {
      PlainRead(c, tail);
    }
  }

  lemma ShortRead(c: char, tail: string)
    requires ShortEscape(c).Some?
    ensures Body(['\\', ShortEscape(c).value] + tail) == Prepend(c, Body(tail))
  {
    var b := ['\\', ShortEscape(c).value] + tail;
    assert b[0] == '\\' && b[1] == ShortEscape(c).value && b[1] != 'u';
    assert b[2..] == tail;
  }

  lemma PlainRead(c: char, tail: string)
    requires ShortEscape(c).None? && c >= ' '
    ensures Body([c] + tail) == Prepend(c, Body(tail))
  {
    var b := [c] + tail;
    assert b[0] == c && c != '\\';
    assert b[1..] == tail;
  }

  lemma PyUnitRead(c: char, tail: string)
    ensures Body(PyUnit(c) + tail) == Prepend(c, Body(tail))
  {
    if ShortEscape(c).Some? {
      ShortRead(c, tail);
    } else if ' ' <= c <= '~' {
      PlainRead(c, tail);
    } else if c as int < 0x10000 {
      BmpRead(c, tail);
    } else {
      PairRead(c, tail);
    }
  }

  lemma BmpRead(c: char, tail: string)
    requires c as int < 0x10000
    ensures Body(UEscape(c as int) + tail) == Prepend(c, Body(tail))
  {
    var b := UEscape(c as int) + tail;
    ParseHex4Hex4(c as int);
    assert b[0] == '\\' && b[1] == 'u';
    assert b[2..6] == Hex4(c as int);
    assert b[6..] == tail;
  }

  lemma PairRead(c: char, tail: string)
    requires c as int >= 0x10000
    ensures var v := c as int - 0x10000;
      Body(UEscape(0xD800 + v / 1024) + UEscape(0xDC00 + v % 1024) + tail) == Prepend(c, Body(tail))
  {
    var v := c as int - 0x10000;
    var hi, lo := 0xD800 + v / 1024, 0xDC00 + v % 1024;
    var b := UEscape(hi) + UEscape(lo) + tail;
    ParseHex4Hex4(hi);
    ParseHex4Hex4(lo);
    assert b[2..6] == Hex4(hi);
    assert b[8..12] == Hex4(lo);
    assert b[12..] == tail;
    assert Pair(hi, lo) == c;
  }

  /** Reading the first character and then the rest reads the whole. */
  lemma PrependFront(s: string, r: Option<string>)
    requires |s| > 0
    ensures Prepend(s[0], match r case None => None case Some(t) => Some(s[1..] + t))
      == match r case None => None case Some(t) => Some(s + t)
  {
    if r.Some? {
      assert [s[0]] + (s[1..] + r.value) == s + r.value;
    }
  }

  lemma {:induction false} JsUnitsRead(s: string, tail: string)
    ensures Body(JsUnits(s) + tail) == match Body(tail) case None => None case Some(t) => Some(s + t)
  {
    var r := Body(tail);
    if |s| > 0 {
      var b := JsUnits(s[1..]) + tail;
      assert JsUnits(s) + tail == JsUnit(s[0]) + b;
      JsUnitRead(s[0], b);
      JsUnitsRead(s[1..], tail);
      PrependFront(s, r);
    } else {
      assert JsUnits(s) + tail == tail;
      if r.Some? {
        assert s + r.value == r.value;
      }
    }
  }

  lemma {:induction false} PyUnitsRead(s: string, tail: string)
    ensures Body(PyUnits(s) + tail) == match Body(tail) case None => None case Some(t) => Some(s + t)
  {
    var r := Body(tail);
    if |s| > 0 {
      var b := PyUnits(s[1..]) + tail;
      assert PyUnits(s) + tail == PyUnit(s[0]) + b;
      PyUnitRead(s[0], b);
      PyUnitsRead(s[1..], tail);
      PrependFront(s, r);
    } else {
      assert PyUnits(s) + tail == tail;
      if r.Some? {
        assert s + r.value == r.value;
      }
    }
  }

  /** `JSON.stringify` writes a literal that reads back as the string. */
  lemma DecodeStringify(s: string)
    ensures Decode(Stringify(s)) == Some(s)
  {
    assert Stringify(s)[1..] == JsUnits(s) + "\"";
    JsUnitsRead(s, "\"");
    assert Body("\"") == Some("");
    assert s + "" == s;
  }

  /** `json.dumps` writes a literal that reads back as the string. */
  lemma DecodeDumps(s: string)
    ensures Decode(Dumps(s)) == Some(s)
  {
    assert Dumps(s)[1..] == PyUnits(s) + "\"";
    PyUnitsRead(s, "\"");
    assert Body("\"") == Some("");
    assert s + "" == s;
  }

  /** No proper prefix of what `json.dumps` writes for one character reads
      as a finished literal body. */
  lemma PyUnitPrefix(c: char, j: nat)
    requires j <= |PyUnit(c)|
    ensures Body(PyUnit(c)[..j]) == None
  {
    var u := PyUnit(c);
    if j == |u| {
      PyUnitRead(c, "");
      assert u + "" == u;
    } else if j > 0 && ShortEscape(c).Some? {
      assert u[..j] == ['\\'];
    } else if j > 0 && !(' ' <= c <= '~') && c as int < 0x10000 {
      UEscapePrefix(c as int, j);
    } else if j > 0 && !(' ' <= c <= '~') {
      var v := c as int - 0x10000;
      var hi := 0xD800 + v / 1024;
      if j < 6 {
        assert u[..j] == UEscape(hi)[..j];
        UEscapePrefix(hi, j);
      } else {
        ParseHex4Hex4(hi);
        assert u[..j][2..6] == Hex4(hi);
      }
    }
  }

  /** A proper prefix of one `\u` escape is not a finished body. */
  lemma UEscapePrefix(n: nat, j: nat)
    requires n < 0x10000 && j < 6
    ensures Body(UEscape(n)[..j]) == None
  {
    var b := UEscape(n)[..j];
    if j >= 2 {
      assert b[0] == '\\' && b[1] == 'u';
    }
  }

  lemma {:induction false} PyUnitsPrefix(s: string, j: nat)
    requires j <= |PyUnits(s)|
    ensures Body(PyUnits(s)[..j]) == None
  {
    if |s| > 0 {
      var u := PyUnit(s[0]);
      if j <= |u| {
        assert PyUnits(s)[..j] == u[..j];
        PyUnitPrefix(s[0], j);
      } else {
        var rest := PyUnits(s[1..]);
        assert PyUnits(s)[..j] == u + rest[..j - |u|];
        PyUnitRead(s[0], rest[..j - |u|]);
        PyUnitsPrefix(s[1..], j - |u|);
      }
    }
  }

  /** Every proper prefix of a literal written by `json.dumps` fails to
      parse: the first quote that closes a parsable literal is its last. */
  lemma DumpsShortest(s: string, k: nat)
    requires k < |Dumps(s)|
    ensures Decode(Dumps(s)[..k]) == None
  {
    if k > 0 {
      assert Dumps(s)[..k][1..] == PyUnits(s)[..k - 1];
      PyUnitsPrefix(s, k - 1);
    }
  }

  predicate Printable(s: string) {
    forall i :: 0 <= i < |s| ==> ' ' <= s[i] <= '~'
  }

  lemma {:induction false} PyUnitPrintable(c: char)
    ensures Printable(PyUnit(c))
  {
    if ShortEscape(c).Some? {
      assert PyUnit(c) == ['\\', ShortEscape(c).value];
    } else if ' ' <= c <= '~' {
      assert PyUnit(c) == [c];
    } else {
      if c as int < 0x10000 {
        UEscapePrintable(c as int);
      } else {
        var v := c as int - 0x10000;
        SurrogateHalves(v);
        UEscapePrintable(0xD800 + v / 1024);
        UEscapePrintable(0xDC00 + v % 1024);
        PrintableAppend(UEscape(0xD800 + v / 1024), UEscape(0xDC00 + v % 1024));
      }
    }
  }

  /** The two halves of a supplementary character's offset fit ten bits. */
  lemma SurrogateHalves(v: nat)
    requires v < 0x100000
    ensures v / 1024 < 1024 && v % 1024 < 1024
  {
  }

  lemma UEscapePrintable(n: nat)
    requires n < 0x10000
    ensures Printable(UEscape(n))
  {
    var u := UEscape(n);
    assert u == ['\\', 'u'] + Hex4(n);
  }

  lemma PrintableAppend(a: string, b: string)
    requires Printable(a) && Printable(b)
    ensures Printable(a + b)
  {
    assert forall i :: 0 <= i < |a + b| ==> (a + b)[i] == if i < |a| then a[i] else b[i - |a|];
  }

  /** `json.dumps` writes printable ASCII only: no line break can appear in
      what it writes. */
  lemma {:induction false} DumpsPrintable(s: string)
    ensures Printable(PyUnits(s)) && Printable(Dumps(s))
  {
    if |s| > 0 {
      PyUnitPrintable(s[0]);
      DumpsPrintable(s[1..]);
      var u, rest := PyUnit(s[0]), PyUnits(s[1..]);
      assert PyUnits(s) == u + rest;
      assert forall i :: 0 <= i < |u + rest| ==> (u + rest)[i] == if i < |u| then u[i] else rest[i - |u|];
    }
  }

  /** The JSON values the scripts write: `null`, booleans, integers and
      strings. */
  datatype Value = Null | Bool(b: bool) | Int(i: int) | Str(s: string)

  /** `json.dumps` of a value. */
  function DumpsValue(v: Value): string {
    match v
    case Null => "null"
    case Bool(b) => if b then "true" else "false"
    case Int(i) => IntToString(i)
    case Str(s) => Dumps(s)
  }
}
