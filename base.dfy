/** Small value types shared by every module of the model. */
module Base {
  /** An octet, as held by a `Uint8Array` or a Node `Buffer`. */
  type byte = x: int | 0 <= x < 256

  datatype Option<+T> = None | Some(value: T)

  /** The outcome of an operation that may throw: `Err` carries the message. */
  datatype Result<+T, +E> = Ok(value: T) | Err(error: E)
}

/** Character and string helpers with the semantics of the JavaScript and
    Python string methods the scripts call (ASCII case mapping only). */
module Strings {
  import opened Base

  predicate StartsWith(s: string, p: string) {
    |p| <= |s| && s[..|p|] == p
  }

  predicate EndsWith(s: string, p: string) {
    |p| <= |s| && s[|s| - |p|..] == p
  }

  predicate IsDigit(c: char) {
    '0' <= c <= '9'
  }

  predicate IsAsciiLetter(c: char) {
    'a' <= c <= 'z' || 'A' <= c <= 'Z'
  }

  /** `[a-zA-Z0-9]`, and also `[a-z0-9]` under the `i` flag. */
  predicate IsAsciiAlnum(c: char) {
    IsAsciiLetter(c) || IsDigit(c)
  }

  predicate AllAlnum(s: string) {
    forall i :: 0 <= i < |s| ==> IsAsciiAlnum(s[i])
  }

  /** The characters a JavaScript `.` refuses to match. */
  predicate IsLineTerminator(c: char) {
    c == '\n' || c == '\r' || c == '\U{2028}' || c == '\U{2029}'
  }

  predicate NoLineTerminator(s: string) {
    forall i :: 0 <= i < |s| ==> !IsLineTerminator(s[i])
  }

  function LowerChar(c: char): char {
    if 'A' <= c <= 'Z' then (c as int + 32) as char else c
  }

  /** `toLowerCase()` restricted to ASCII letters. */
  function Lower(s: string): (r: string)
    ensures |r| == |s|
    ensures forall i :: 0 <= i < |s| ==> r[i] == LowerChar(s[i])
  {
    seq(|s|, i requires 0 <= i < |s| => LowerChar(s[i]))
  }

  lemma LowerAppend(a: string, b: string)
    ensures Lower(a + b) == Lower(a) + Lower(b)
  {
  }

  predicate OccursAt(s: string, pat: string, i: nat) {
    i + |pat| <= |s| && s[i..i + |pat|] == pat
  }

  predicate Contains(s: string, pat: string) {
    exists i: nat | i <= |s| :: OccursAt(s, pat, i)
  }

  /** A suffix is its part up to a cut followed by the rest. */
  lemma SliceSplit(s: string, a: nat, b: nat)
    requires a <= b <= |s|
    ensures s[a..] == s[a..b] + s[b..]
  {
  }

  /** An occurrence that ends inside `s` is one of `s + t` and back. */
  lemma OccursAtPrefix(s: string, t: string, pat: string, j: nat)
    ensures j + |pat| <= |s| ==> (OccursAt(s + t, pat, j) <==> OccursAt(s, pat, j))
  {
    if j + |pat| <= |s| {
      assert (s + t)[j..j + |pat|] == s[j..j + |pat|];
    }
  }

  /** A character of an occurrence is the pattern's. */
  lemma OccursAtChar(s: string, pat: string, j: nat, k: nat)
    ensures OccursAt(s, pat, j) && k < |pat| ==> s[j + k] == pat[k]
  {
    if OccursAt(s, pat, j) && k < |pat| {
      assert s[j..j + |pat|][k] == s[j + k];
    }
  }

  /** A character of a suffix is the suffix's. */
  lemma EndsWithChar(s: string, suf: string, k: nat)
    ensures EndsWith(s, suf) && k < |suf| ==> s[|s| - |suf| + k] == suf[k]
  {
    if EndsWith(s, suf) && k < |suf| {
      assert s[|s| - |suf|..][k] == s[|s| - |suf| + k];
    }
  }

  /** First index at or after `from` where `pat` occurs. */
  function IndexOf(s: string, pat: string, from: nat): (r: Option<nat>)
    ensures r.Some? ==> from <= r.value && OccursAt(s, pat, r.value)
    ensures r.Some? ==> forall j: nat :: from <= j < r.value ==> !OccursAt(s, pat, j)
    ensures r.None? ==> forall j: nat :: from <= j ==> !OccursAt(s, pat, j)
    decreases |s| - from
  {
    if from + |pat| > |s| then None
    else if s[from..from + |pat|] == pat then Some(from)
    else IndexOf(s, pat, from + 1)
  }

  /** `s.replace(pat, rep)` with a string pattern: only the first occurrence. */
  function ReplaceFirst(s: string, pat: string, rep: string): string {
    match IndexOf(s, pat, 0)
    case None => s
    case Some(i) => s[..i] + rep + s[i + |pat|..]
  }

  /** First index of `c`. */
  function IndexOfChar(s: string, c: char): (r: Option<nat>)
    ensures r.Some? ==> r.value < |s| && s[r.value] == c && c !in s[..r.value]
    ensures r.None? ==> c !in s
  {
    if |s| == 0 then None
    else if s[0] == c then Some(0)
    else match IndexOfChar(s[1..], c)
      case None => None
      case Some(i) => assert s[1..][..i] == s[1..i + 1]; Some(i + 1)
  }

  lemma {:induction false} IndexOfCharAt(s: string, c: char, k: nat)
    requires k < |s| && s[k] == c && c !in s[..k]
    ensures IndexOfChar(s, c) == Some(k)
  {
    if k > 0 {
      assert s[0] in s[..k];
      assert s[1..][..k - 1] == s[1..k];
      IndexOfCharAt(s[1..], c, k - 1);
    }
  }

  /** Last index of `c`. */
  function LastIndexOfChar(s: string, c: char): (r: Option<nat>)
    ensures r.Some? ==> r.value < |s| && s[r.value] == c && c !in s[r.value + 1..]
    ensures r.None? ==> c !in s
  {
    if |s| == 0 then None
    else if s[|s| - 1] == c then Some(|s| - 1)
    else
      match LastIndexOfChar(s[..|s| - 1], c)
      case None => None
      case Some(i) =>
        assert s[i + 1..] == s[..|s| - 1][i + 1..] + [s[|s| - 1]];
        Some(i)
  }

  /** `s.split(c)` for a one-character separator (JavaScript and Python agree). */
  function Split(s: string, c: char): (r: seq<string>)
    ensures |r| >= 1
    ensures forall k :: 0 <= k < |r| ==> c !in r[k]
    decreases |s|
  {
    match IndexOfChar(s, c)
    case None => [s]
    case Some(i) => [s[..i]] + Split(s[i + 1..], c)
  }

  /** `parts.join(sep)`. */
  function Join(parts: seq<string>, sep: string): string {
    if |parts| == 0 then ""
    else if |parts| == 1 then parts[0]
    else parts[0] + sep + Join(parts[1..], sep)
  }

  lemma {:induction false} JoinSplit(s: string, c: char)
    ensures Join(Split(s, c), [c]) == s
    decreases |s|
  {
    match IndexOfChar(s, c)
    case None =>
      assert Split(s, c) == [s];
    case Some(i) =>
      var rest := Split(s[i + 1..], c);
      var parts := [s[..i]] + rest;
      assert Split(s, c) == parts;
      assert |parts| > 1 && parts[0] == s[..i] && parts[1..] == rest;
      assert Join(parts, [c]) == s[..i] + [c] + Join(rest, [c]);
      JoinSplit(s[i + 1..], c);
      assert s == s[..i] + [c] + s[i + 1..];
  }

  lemma {:induction false} SplitJoin(parts: seq<string>, c: char)
    requires |parts| >= 1
    requires forall k :: 0 <= k < |parts| ==> c !in parts[k]
    ensures Split(Join(parts, [c]), c) == parts
    decreases |parts|
  {
    if |parts| > 1 {
      var rest := Join(parts[1..], [c]);
      var s := parts[0] + [c] + rest;
      assert s[..|parts[0]|] == parts[0];
      assert s[|parts[0]| + 1..] == rest;
      IndexOfCharAt(s, c, |parts[0]|);
      SplitJoin(parts[1..], c);
    } else {
      assert Join(parts, [c]) == parts[0];
    }
  }

  /** Splitting at a separator splits the two sides apart. */
  lemma {:induction false} SplitAppend(a: string, c: char, b: string)
    ensures Split(a + [c] + b, c) == Split(a, c) + Split(b, c)
    decreases |a|
  {
    var s := a + [c] + b;
    match IndexOfChar(a, c)
    case None =>
      assert s[..|a|] == a;
      IndexOfCharAt(s, c, |a|);
      assert s[|a| + 1..] == b;
    case Some(i) =>
      assert s[..i] == a[..i];
      IndexOfCharAt(s, c, i);
      assert s[i + 1..] == a[i + 1..] + [c] + b;
      SplitAppend(a[i + 1..], c, b);
  }

  /** `s.split(c).pop()`: the text after the last `c`, or all of `s`. */
  function LastPart(s: string, c: char): string {
    var parts := Split(s, c);
    parts[|parts| - 1]
  }

  /** The last occurrence is the one with no `c` after it. */
  lemma LastIndexOfCharIs(s: string, c: char, k: nat)
    requires k < |s| && s[k] == c && c !in s[k + 1..]
    ensures LastIndexOfChar(s, c) == Some(k)
  {
    assert s[k] in s;
  }

  /** The last part of a split is what follows the last separator. */
  lemma {:induction false} SplitLast(s: string, c: char)
    ensures LastPart(s, c) == match LastIndexOfChar(s, c) case None => s case Some(i) => s[i + 1..]
    decreases |s|
  {
    if IndexOfChar(s, c).Some? {
      var i := IndexOfChar(s, c).value;
      var t := s[i + 1..];
      LastPartTail(s, c, i);
      SplitLast(t, c);
      if LastIndexOfChar(t, c).None? {
        LastIndexOfCharIs(s, c, i);
      } else {
        var j := LastIndexOfChar(t, c).value;
        assert s[i + 1 + j + 1..] == t[j + 1..];
        LastIndexOfCharIs(s, c, i + 1 + j);
      }
    }
  }

  lemma LastPartTail(s: string, c: char, i: nat)
    requires IndexOfChar(s, c) == Some(i)
    ensures LastPart(s, c) == LastPart(s[i + 1..], c)
  {
    var rest := Split(s[i + 1..], c);
    assert Split(s, c) == [s[..i]] + rest;
  }

  /** Whatever precedes it, the last part after a separator is the text that
      follows it when that text holds no separator. */
  lemma LastAfter(a: string, c: char, b: string)
    requires c !in b
    ensures LastPart(a + [c] + b, c) == b
  {
    var s := a + [c] + b;
    assert s[|a| + 1..] == b;
    LastIndexOfCharIs(s, c, |a|);
    SplitLast(s, c);
  }

  /** Without a separator the last part is the whole text. */
  lemma LastWhole(s: string, c: char)
    requires c !in s
    ensures LastPart(s, c) == s
  {
    SplitLast(s, c);
  }

  /** End of the alphanumeric run of `s` that starts at `from`. */
  function AlnumEnd(s: string, from: nat): (n: nat)
    requires from <= |s|
    ensures from <= n <= |s|
    ensures forall j :: from <= j < n ==> IsAsciiAlnum(s[j])
    ensures n < |s| ==> !IsAsciiAlnum(s[n])
    decreases |s| - from
  {
    if from == |s| || !IsAsciiAlnum(s[from]) then from else AlnumEnd(s, from + 1)
  }

  lemma {:induction false} AlnumEndIs(s: string, from: nat, n: nat)
    requires from <= n <= |s|
    requires forall j :: from <= j < n ==> IsAsciiAlnum(s[j])
    requires n < |s| ==> !IsAsciiAlnum(s[n])
    ensures AlnumEnd(s, from) == n
    decreases n - from
  {
    if from < n {
      AlnumEndIs(s, from + 1, n);
    }
  }

  /** First index at or after `from` holding `c`, or `|s|`. */
  function FindFrom(s: string, from: nat, c: char): (n: nat)
    requires from <= |s|
    ensures from <= n <= |s|
    ensures forall j :: from <= j < n ==> s[j] != c
    ensures n < |s| ==> s[n] == c
    decreases |s| - from
  {
    if from == |s| || s[from] == c then from else FindFrom(s, from + 1, c)
  }

  lemma {:induction false} FindFromIs(s: string, from: nat, c: char, n: nat)
    requires from <= n <= |s|
    requires forall j :: from <= j < n ==> s[j] != c
    requires n < |s| ==> s[n] == c
    ensures FindFrom(s, from, c) == n
    decreases n - from
  {
    if from < n {
      FindFromIs(s, from + 1, c, n);
    }
  }

  lemma {:induction false} FindFromAtLeast(s: string, from: nat, c: char, m: nat)
    requires from <= m <= |s|
    requires forall j :: from <= j < m ==> s[j] != c
    ensures FindFrom(s, from, c) >= m
    decreases m - from
  {
    if from < m {
      FindFromAtLeast(s, from + 1, c, m);
    }
  }

  lemma AlnumSlice(s: string, from: nat, to: nat)
    requires from <= to <= |s|
    requires forall j :: from <= j < to ==> IsAsciiAlnum(s[j])
    ensures AllAlnum(s[from..to])
  {
    forall j | 0 <= j < to - from ensures IsAsciiAlnum(s[from..to][j]) {
      assert s[from..to][j] == s[from + j];
    }
  }

  /** Text without capital letters is its own lower case. */
  lemma LowerNoCapitals(s: string)
    requires forall i :: 0 <= i < |s| ==> !('A' <= s[i] <= 'Z')
    ensures Lower(s) == s
  {
  }

  /** Decimal rendering of an integer, as JavaScript and Python print one. */
  function IntToString(n: int): (r: string)
    ensures |r| >= 1
  {
    if n < 0 then "-" + NatToString(-n) else NatToString(n)
  }

  function NatToString(n: nat): (r: string)
    ensures |r| >= 1
    ensures forall i :: 0 <= i < |r| ==> IsDigit(r[i])
  {
    if n < 10 then [DigitChar(n)] else NatToString(n / 10) + [DigitChar(n % 10)]
  }

  function DigitChar(d: nat): (c: char)
    requires d < 10
    ensures IsDigit(c)
  {
    ('0' as int + d) as char
  }

  /** The value of a string of decimal digits. */
  function DigitsValue(s: string): nat
    requires forall i :: 0 <= i < |s| ==> IsDigit(s[i])
  {
    if |s| == 0 then 0
    else
      assert IsDigit(s[|s| - 1]);
      DigitsValue(s[..|s| - 1]) * 10 + (s[|s| - 1] as int - '0' as int)
  }

  lemma {:induction false} DigitsValueOfNatToString(n: nat)
    ensures DigitsValue(NatToString(n)) == n
  {
    if n >= 10 {
      var r := NatToString(n);
      assert r[..|r| - 1] == NatToString(n / 10);
      DigitsValueOfNatToString(n / 10);
    }
  }
}

/** `path.join` of POSIX paths, without the normalisation of `.`, `..` and
    repeated separators. */
module Paths {
  import opened Strings

  function JoinPath(a: string, b: string): (r: string)
    ensures a != "" && b != "" && !EndsWith(a, "/") ==> r == a + "/" + b
  {
    if a == "" then b
    else if b == "" then a
    else if EndsWith(a, "/") then a + b
    else a + "/" + b
  }
}
