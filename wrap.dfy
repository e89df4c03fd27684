/** `loader/wrap.ts`: the build loader that wraps each TypeScript module in
    a `try`/`catch` that logs its loading, its completion and its failure to
    the Zotero debug log. */
module Loader {
  import opened Base
  import opened Strings

  /** Line 11: the resource path relative to the working directory, with the
      separator after it dropped (`substring` past the end gives `''`). */
  function Src(resourcePath: string, cwd: string): string {
    if |cwd| + 1 <= |resourcePath| then resourcePath[|cwd| + 1..] else ""
  }

  /** A path under the working directory keeps only its relative part. */
  lemma SrcUnderCwd(cwd: string, sep: char, rel: string)
    ensures Src(cwd + [sep] + rel, cwd) == rel
  {
    assert (cwd + [sep] + rel)[|cwd| + 1..] == rel;
  }

  function IdChar(c: char): char {
    if IsAsciiAlnum(c) then c else '_'
  }

  /** Line 20: `src.replace(/[^a-zA-Z0-9]/g, '_')`. */
  function Id(src: string): (id: string)
    ensures |id| == |src|
    ensures forall i :: 0 <= i < |src| ==> id[i] == IdChar(src[i])
  {
    seq(|src|, i requires 0 <= i < |src| => IdChar(src[i]))
  }

  predicate IsIdentChar(c: char) {
    IsAsciiAlnum(c) || c == '_'
  }

  /** The id is a valid identifier tail: letters, digits and `_` only; it
      keeps every letter and digit where it was; replacing again changes
      nothing; and a text made only of such characters is its own id. */
  lemma IdSpec(src: string)
    ensures forall i :: 0 <= i < |src| ==> IsIdentChar(Id(src)[i])
    ensures forall i :: 0 <= i < |src| ==> (IsAsciiAlnum(src[i]) <==> IsAsciiAlnum(Id(src)[i]))
    ensures Id(Id(src)) == Id(src)
    ensures (forall i :: 0 <= i < |src| ==> IsIdentChar(src[i])) <==> Id(src) == src
  {
    if Id(src) == src {
      forall i | 0 <= i < |src| ensures IsIdentChar(src[i]) {
        assert src[i] == Id(src)[i];
      }
    }
  }

  const CATCHER := "$wrap_loader_catcher_"
  const MESSAGE := "$wrap_loader_message_"

  /** Line 21. */
  function ErrVar(id: string): string {
    CATCHER + id
  }

  /** Line 22. */
  function MsgVar(id: string): string {
    MESSAGE + id
  }

  /** The two variables never clash with each other, and each names its
      module: different ids give different variables. */
  lemma VarsDistinct(id: string, id': string)
    ensures ErrVar(id) != MsgVar(id')
    ensures ErrVar(id) == ErrVar(id') <==> id == id'
    ensures MsgVar(id) == MsgVar(id') <==> id == id'
  {
    assert ErrVar(id)[13] != MsgVar(id')[13];
    if ErrVar(id) == ErrVar(id') {
      assert id == ErrVar(id)[|CATCHER|..] && id' == ErrVar(id')[|CATCHER|..];
    }
    if MsgVar(id) == MsgVar(id') {
      assert id == MsgVar(id)[|MESSAGE|..] && id' == MsgVar(id')[|MESSAGE|..];
    }
  }

  /** Lines 13-15. */
  function Loading(name: string, src: string): string {
    "\n    Zotero.debug('" + name + ": loading " + src + "')\n  "
  }

  /** Lines 16-18. */
  function Loaded(name: string, src: string): string {
    "\n    Zotero.debug('" + name + ": loaded " + src + "')\n  "
  }

  /** Lines 23-30. */
  function Failed(name: string, src: string, errvar: string, msgvar: string): string {
    "\n    var " + msgvar + " = 'Error: " + name + ": load of " + src + " failed:' + " + errvar + " + '::' + " + errvar + ".stack;\n"
    + "    if (typeof Zotero.logError === 'function') {\n"
    + "      Zotero.logError(" + msgvar + ")\n"
    + "    } else {\n"
    + "      Zotero.debug(" + msgvar + ")\n"
    + "    }\n  "
  }

  /** Line 32: `src.split('.').pop()`. */
  function Extension(src: string): string {
    LastPart(src, '.')
  }

  /** The extension is `ts` exactly when the path ends in `.ts`, or is `ts`
      itself (a path without a dot is its own last part). */
  lemma ExtensionTs(src: string)
    ensures Extension(src) == "ts" <==> src == "ts" || EndsWith(src, ".ts")
  {
    SplitLast(src, '.');
    if EndsWith(src, ".ts") {
      LastIndexOfCharIs(src, '.', |src| - 3);
    }
  }

  /** The text around the module's source: everything before it, */
  function Before(name: string, src: string): string {
    Loading(name, src) + "; try { "
  }

  /** and everything after it. */
  function After(name: string, src: string): string {
    var id := Id(src);
    "; " + Loaded(name, src) + "; } catch (" + ErrVar(id) + ") { " + Failed(name, src, ErrVar(id), MsgVar(id)) + " };"
  }

  /** `loader(source)` (lines 8-39): the wrapped text of line 34, or the
      error thrown for any other extension. `name` is the package name. */
  function Wrap(source: string, resourcePath: string, cwd: string, name: string): Result<string, string> {
    var src := Src(resourcePath, cwd);
    match Extension(src)
    case "ts" => Ok(Before(name, src) + source + After(name, src))
    case _ => Err("Unexpected extension on " + src)
  }

  /** A `.ts` module is wrapped, anything else throws. The wrapped text
      starts by logging the load and ends by closing the `catch`, and the
      source sits verbatim right after the `try {`. */
  lemma WrapSpec(source: string, resourcePath: string, cwd: string, name: string)
    ensures var src := Src(resourcePath, cwd);
      && (Wrap(source, resourcePath, cwd, name).Ok? <==> src == "ts" || EndsWith(src, ".ts"))
      && (Wrap(source, resourcePath, cwd, name).Err? ==>
            Wrap(source, resourcePath, cwd, name).error == "Unexpected extension on " + src)
      && (Wrap(source, resourcePath, cwd, name).Ok? ==>
            var w := Wrap(source, resourcePath, cwd, name).value;
            var n := |Loading(name, src) + "; try { "|;
            && StartsWith(w, Loading(name, src) + "; try { ")
            && w[n..n + |source|] == source
            && EndsWith(w, " };"))
  {
    var src := Src(resourcePath, cwd);
    ExtensionTs(src);
    if Wrap(source, resourcePath, cwd, name).Ok? {
      AfterCloses(name, src);
      Framed(Before(name, src), source, After(name, src));
    }
  }

  /** The text after the source closes the `catch`. */
  lemma AfterCloses(name: string, src: string)
    ensures EndsWith(After(name, src), " };")
  {
    var a := After(name, src);
    assert a[|a| - 3..] == " };";
  }

  /** `b + s + a` starts with `b`, holds `s` right after it, and ends as
      `a` does. */
  lemma Framed(b: string, s: string, a: string)
    requires EndsWith(a, " };")
    ensures var w := b + s + a;
      StartsWith(w, b) && w[|b|..|b| + |s|] == s && EndsWith(w, " };")
  {
    var w := b + s + a;
    assert w[..|b|] == b;
    assert w[|b|..|b| + |s|] == s;
    assert w[|w| - 3..] == a[|a| - 3..];
  }

  /** The wrapped text determines the source: two modules at the same path
      wrap alike only if they are the same. */
  lemma WrapInjective(source: string, source': string, resourcePath: string, cwd: string, name: string)
    requires Wrap(source, resourcePath, cwd, name).Ok?
    requires Wrap(source, resourcePath, cwd, name) == Wrap(source', resourcePath, cwd, name)
    ensures source == source'
  {
    var src := Src(resourcePath, cwd);
    var b, a := Before(name, src), After(name, src);
    var w := b + source + a;
    assert w == b + source' + a;
    assert |source| == |source'|;
    assert source == w[|b|..|b| + |source|];
    assert source' == (b + source' + a)[|b|..|b| + |source'|];
  }
}
