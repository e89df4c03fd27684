/** The few JavaScript regular-expression replacements the build scripts
    use, each written out as the string operation it performs. A `.` does
    not match a line terminator; `[^/]` and `[^.]` do; `^` and `$` (without
    the `m` flag) hold only at the ends of the whole text; a non-global
    `replace` rewrites the leftmost match only. */
module JsRegex {
  import opened Base
  import opened Strings

  /** The first line terminator at or after `p`, or the end. */
  function LineEnd(s: string, p: nat): (r: nat)
    requires p <= |s|
    ensures p <= r <= |s| && (r < |s| ==> IsLineTerminator(s[r]))
    ensures forall i :: p <= i < r ==> !IsLineTerminator(s[i])
    decreases |s| - p
  {
    if p == |s| || IsLineTerminator(s[p]) then p else LineEnd(s, p + 1)
  }

  /** Where `/.*@/` matches: the first start from which an `@` can be
      reached without crossing a line terminator, up to the last such `@`. */
  function AtMatch(s: string, p: nat): Option<(nat, nat)>
    requires p <= |s|
    decreases |s| - p
  {
    if p == |s| then None
    else
      var e := LineEnd(s, p);
      match LastIndexOfChar(s[p..e], '@')
      case Some(j) => Some((p, p + j))
      case None => AtMatch(s, p + 1)
  }

  lemma {:induction false} AtMatchRange(s: string, p: nat)
    requires p <= |s|
    ensures AtMatch(s, p).Some? ==> p <= AtMatch(s, p).value.0 <= AtMatch(s, p).value.1 < |s|
    decreases |s| - p
  {
    if p < |s| && LastIndexOfChar(s[p..LineEnd(s, p)], '@').None? {
      AtMatchRange(s, p + 1);
    }
  }

  lemma {:induction false} AtMatchNone(s: string, p: nat)
    requires p <= |s| && '@' !in s[p..]
    ensures AtMatch(s, p).None?
    decreases |s| - p
  {
    if p < |s| {
      var e := LineEnd(s, p);
      assert forall c :: c in s[p..e] ==> c in s[p..];
      assert s[p + 1..] == s[p..][1..];
      AtMatchNone(s, p + 1);
    }
  }

  /** `s.replace(/.*@/, rep)`. */
  function ReplaceThroughAt(s: string, rep: string): string {
    AtMatchRange(s, 0);
    match AtMatch(s, 0)
    case None => s
    case Some(m) => s[..m.0] + rep + s[m.1 + 1..]
  }

  /** An address `local@domain` with a single-line local part becomes
      `rep` followed by the domain, however many `@` the local part holds;
      text without `@` is left alone. */
  lemma ReplaceThroughAtSpec(local: string, domain: string, rep: string)
    requires NoLineTerminator(local) && '@' !in domain
    ensures ReplaceThroughAt(local + "@" + domain, rep) == rep + domain
    ensures '@' !in local ==> ReplaceThroughAt(local, rep) == local
  {
    var s := local + "@" + domain;
    AddressMatch(local, domain);
    assert s[..0] + rep + s[|local| + 1..] == rep + domain;
    if '@' !in local {
      assert local[0..] == local;
      AtMatchNone(local, 0);
    }
  }

  /** On `local@domain` the pattern matches from the start through the `@`
      before the domain. */
  lemma AddressMatch(local: string, domain: string)
    requires NoLineTerminator(local) && '@' !in domain
    ensures AtMatch(local + "@" + domain, 0) == Some((0, |local|))
  {
    var s := local + "@" + domain;
    var e := LineEnd(s, 0);
    assert s[|local|] == '@';
    assert forall i :: 0 <= i < |local| ==> s[i] == local[i];
    assert forall i :: 0 <= i <= |local| ==> !IsLineTerminator(s[i]);
    assert e > |local|;
    var line := s[0..e];
    forall i | |local| + 1 <= i < e ensures line[i] != '@' {
      assert line[i] == domain[i - |local| - 1];
      assert domain[i - |local| - 1] in domain;
    }
    assert '@' !in line[|local| + 1..];
    LastIndexOfCharIs(line, '@', |local|);
  }

  /** The replacement of the pattern `@.*` by the empty text: from the first
      `@` to the end of its line. */
  function DropFromAt(s: string): string {
    match IndexOfChar(s, '@')
    case None => s
    case Some(i) => s[..i] + s[LineEnd(s, i + 1)..]
  }

  /** An id `name@rest` with a single-line rest and no `@` in the name gives
      the name; text without `@` is left alone. */
  lemma DropFromAtSpec(name: string, rest: string)
    requires '@' !in name && NoLineTerminator(rest)
    ensures DropFromAt(name + "@" + rest) == name
    ensures DropFromAt(name) == name
  {
    var s := name + "@" + rest;
    assert s[..|name|] == name;
    IndexOfCharAt(s, '@', |name|);
    assert forall i :: |name| + 1 <= i < |s| ==> s[i] == rest[i - |name| - 1];
    assert LineEnd(s, |name| + 1) == |s|;
  }

  const CHROME := "chrome://"

  /** `s.replace(/^chrome:\/\/[^/]+\//, '')`: a `chrome://` URL loses its
      scheme and non-empty host. */
  function StripChrome(s: string): string {
    if !StartsWith(s, CHROME) then s
    else
      match IndexOfChar(s[|CHROME|..], '/')
      case None => s
      case Some(j) => if j == 0 then s else s[|CHROME| + j + 1..]
  }

  /** `chrome://host/rest` becomes `rest`; anything not starting with
      `chrome://`, or with an empty host, is left alone. */
  lemma StripChromeSpec(host: string, rest: string, s: string)
    requires host != "" && '/' !in host
    ensures StripChrome(CHROME + host + "/" + rest) == rest
    ensures !StartsWith(s, CHROME) ==> StripChrome(s) == s
    ensures StripChrome(CHROME + "/" + rest) == CHROME + "/" + rest
  {
    var u := CHROME + host + "/" + rest;
    assert u[..|CHROME|] == CHROME;
    var t := u[|CHROME|..];
    assert t == host + "/" + rest;
    assert t[..|host|] == host;
    IndexOfCharAt(t, '/', |host|);
    assert u[|CHROME| + |host| + 1..] == rest;
    var v := CHROME + "/" + rest;
    assert v[..|CHROME|] == CHROME;
    assert v[|CHROME|..][0] == '/';
    IndexOfCharAt(v[|CHROME|..], '/', 0);
  }

  /** `s.replace(/[.](svg|png)$/, ...)` with the callback of the icon lists:
      a trailing `.svg` becomes `.png` and a trailing `.png` becomes `.svg`. */
  function SwapExt(s: string): string {
    if EndsWith(s, ".svg") then s[..|s| - 4] + ".png"
    else if EndsWith(s, ".png") then s[..|s| - 4] + ".svg"
    else s
  }

  /** The swap exchanges the two extensions, keeps the stem and the length,
      leaves every other name alone, and undoes itself. */
  lemma SwapExtSpec(stem: string, s: string)
    ensures SwapExt(stem + ".svg") == stem + ".png"
    ensures SwapExt(stem + ".png") == stem + ".svg"
    ensures !EndsWith(s, ".svg") && !EndsWith(s, ".png") ==> SwapExt(s) == s
    ensures |SwapExt(s)| == |s|
    ensures SwapExt(SwapExt(s)) == s
  {
    var a, b := stem + ".svg", stem + ".png";
    assert a[|a| - 4..] == ".svg" && a[..|a| - 4] == stem;
    assert b[|b| - 4..] == ".png" && b[..|b| - 4] == stem;
    if EndsWith(s, ".svg") {
      var t := s[..|s| - 4];
      assert s == t + ".svg";
      assert SwapExt(t + ".png") == t + ".svg" by {
        assert (t + ".png")[|t| ..] == ".png" && (t + ".png")[..|t|] == t;
      }
    } else if EndsWith(s, ".png") {
      var t := s[..|s| - 4];
      assert s == t + ".png";
      assert SwapExt(t + ".svg") == t + ".png" by {
        assert (t + ".svg")[|t| ..] == ".svg" && (t + ".svg")[..|t|] == t;
      }
    }
  }

  /** `s.replace(/([.][^.]+)$/, '@2x$1')`: `@2x` before the last extension,
      when the text ends in a dot followed by at least one character. */
  function Retina(s: string): string {
    match LastIndexOfChar(s, '.')
    case None => s
    case Some(d) => if d == |s| - 1 then s else s[..d] + "@2x" + s[d..]
  }

  /** With an extension, `@2x` goes right before its dot; a name without a
      dot, or ending in one, is left alone. */
  lemma RetinaSpec(stem: string, ext: string, s: string)
    requires ext != "" && '.' !in ext
    ensures Retina(stem + "." + ext) == stem + "@2x." + ext
    ensures '.' !in s || EndsWith(s, ".") ==> Retina(s) == s
  {
    RetinaExt(stem, ext);
    if EndsWith(s, ".") {
      LastIndexOfCharIs(s, '.', |s| - 1);
    }
  }

  lemma RetinaExt(stem: string, ext: string)
    requires ext != "" && '.' !in ext
    ensures Retina(stem + "." + ext) == stem + "@2x." + ext
  {
    var u := stem + "." + ext;
    assert u[|stem| + 1..] == ext;
    LastIndexOfCharIs(u, '.', |stem|);
    var d := |stem|;
    assert u[..d] == stem;
    assert u[d..] == "." + ext;
    calc {
      Retina(u);
      u[..d] + "@2x" + u[d..];
      stem + "@2x" + ("." + ext);
      stem + "@2x." + ext;
    }
  }
}
