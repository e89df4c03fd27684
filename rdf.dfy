/** `rdf.ts`: the older build script. It completes the package like
    `bin/make-manifest.ts` (an id without the `zotero-` prefix, reading the
    descriptions from `.properties` files), writes `install.rdf` and
    `update.rdf` when the minimum version starts with `6`, and
    `updates.json` and `manifest.json` when the maximum version starts
    with `7`. The properties reader, the URI-template library, the pug
    templates and the file system are parameters: the descriptions read,
    `expand`, the `Rendered` files and `present`. */
module Rdf {
  import opened Base
  import opened Strings
  import opened Records
  import opened JsValues
  import opened Addon
  import JsRegex
  import MakeManifest

  // ---------------------------------------------------------------------
  // The package (lines 14-22)

  const ZOTERO := "zotero-"

  /** `name.replace(/^zotero-/, '')`. */
  function StripZotero(name: string): string {
    if StartsWith(name, ZOTERO) then name[|ZOTERO|..] else name
  }

  /** The prefix comes off once, and a name without it is kept. */
  lemma StripZoteroSpec(rest: string, name: string)
    ensures StripZotero(ZOTERO + rest) == rest
    ensures !StartsWith(name, ZOTERO) ==> StripZotero(name) == name
  {
    assert (ZOTERO + rest)[..|ZOTERO|] == ZOTERO;
    assert (ZOTERO + rest)[|ZOTERO|..] == rest;
  }

  /** Line 16: the text before the `@` of a derived id is the name without
      its prefix; `replace` on a name that is not a string throws. */
  function Stem(pkg: Record<JsValue>): Option<string> {
    match Field(pkg, "name")
    case Str(n) => Some(StripZotero(n))
    case _ => None
  }

  /** Lines 14-22: the package as the rest of the script sees it. */
  function Prepared(pkg: Record<JsValue>, version: string, expand: (string, string) -> string): Result<Record<JsValue>, string> {
    Completed(pkg, Stem(pkg), version, expand)
  }

  /** The two scripts complete a package alike when it has an id of its
      own or a string name without the prefix; without an id, a name that
      is not a string stops this script, whatever the other one does. */
  lemma ComparePrepared(pkg: Record<JsValue>, version: string, expand: (string, string) -> string)
    ensures Truthy(Field(pkg, "id")) || (Field(pkg, "name").Str? && !StartsWith(Field(pkg, "name").s, ZOTERO)) ==>
      Prepared(pkg, version, expand) == MakeManifest.Prepared(pkg, version, expand)
    ensures !Truthy(Field(pkg, "id")) && !Field(pkg, "name").Str? ==> Prepared(pkg, version, expand) == Err(TYPE_ERROR)
  {
    IdentifySpec(pkg, Stem(pkg), "id");
    IdentifySpec(pkg, MakeManifest.Stem(pkg), "id");
    if Field(pkg, "name").Str? {
      StripZoteroSpec("", Field(pkg, "name").s);
    }
  }

  /** A package without an id, whose `xpi` brings none, named
      `zotero-rest` and written by `local@domain`, goes on with
      `rest@domain`, lower-cased, once it has an `xpi`. */
  lemma DerivedId(pkg: Record<JsValue>, version: string, expand: (string, string) -> string,
                  rest: string, local: string, domain: string)
    requires UniqueKeys(pkg) && XpiUnique(pkg)
    requires !Truthy(Field(pkg, "id")) && "id" !in XpiKeys(pkg) && Field(pkg, "name") == Str(ZOTERO + rest)
    requires Prop(Field(pkg, "author"), "email") == Str(local + "@" + domain)
    requires NoLineTerminator(local) && '@' !in domain
    requires !Field(Overlay(pkg), "xpi").Undefined? && !Field(Overlay(pkg), "xpi").Null?
    ensures Prepared(pkg, version, expand).Ok?
    ensures Field(Prepared(pkg, version, expand).value, "id") == Str(Lower(rest) + "@" + Lower(domain))
  {
    StripZoteroSpec(rest, "");
    CompletedOk(pkg, Stem(pkg), version, expand);
    CompletedId(pkg, Stem(pkg), version, expand);
    DefaultIdSpec(rest, local, domain);
  }

  // ---------------------------------------------------------------------
  // The descriptions (lines 24-39)

  /** Each `.properties` file's locale and its `xpi.description`, in the
      order of the glob, the description `null` when the file has none.
      The loop ends with the package, or with the `TypeError` of line 37. */
  method DescribeLocales(pkg: Record<JsValue>, translations: seq<(string, JsValue)>) returns (r: Result<Record<JsValue>, string>)
    ensures r == Described(pkg, translations)
  {
    var p := pkg;
    for i := 0 to |translations|
      invariant Described(pkg, translations[..i]) == Ok(p)
    {
      assert translations[..i + 1][..i] == translations[..i];
      var locale := translations[i].0;
      var description := translations[i].1;
      if !Truthy(description) {
        continue;
      }
      if locale == EN_US {
        p := Put(p, DESCRIPTION, description);
      } else {
        var old_p := p;
        var localized := Field(p, LOCALIZED);
        localized := if Truthy(localized) then localized else Obj([]);
        if !localized.Obj? && !localized.Arr? {
          DescribedPrefixThrows(pkg, translations, i + 1);
          return Err(TYPE_ERROR);
        }
        p := Put(p, LOCALIZED, localized);
        if localized.Obj? {
          PutTwice(old_p, LOCALIZED, localized, Obj(Put(localized.fields, locale, description)));
          p := Put(p, LOCALIZED, Obj(Put(localized.fields, locale, description)));
        }
      }
    }
    assert translations[..|translations|] == translations;
    r := Ok(p);
  }

  // ---------------------------------------------------------------------
  // The icon list (lines 89-107)

  /** One element of `icons`: its `48` path and, after the third loop, its
      `96` path. */
  class IconEntry {
    var small: string
    var big: Option<string>

    constructor(small: string)
      ensures this.small == small && big == None
    {
      this.small := small;
      big := None;
    }
  }

  /** The `48` paths, in order. */
  function Smalls(icons: seq<IconEntry>): (r: seq<string>)
    reads icons
    ensures |r| == |icons| && forall k :: 0 <= k < |icons| ==> r[k] == icons[k].small
  {
    seq(|icons|, k requires 0 <= k < |icons| reads icons => icons[k].small)
  }

  /** No element appears twice: each `push` adds a new object. */
  predicate Distinct(icons: seq<IconEntry>) {
    forall i, j :: 0 <= i < j < |icons| ==> icons[i] != icons[j]
  }

  /** Lines 89-91: the stripped `iconURL`, kept when it is not empty. */
  function FirstIcons(chrome: Option<string>): seq<string> {
    if chrome.Some? && chrome.value != "" then [chrome.value] else []
  }

  /** Lines 89-107: the three loops. The list holds the candidates of
      `bin/make-manifest.ts`, and each entry's `96` path is its `48` path
      for an `.svg`, else the `@2x` name. */
  method IconList(chrome: Option<string>, basename: string) returns (icons: seq<IconEntry>)
    ensures Smalls(icons) == Candidates(FirstIcons(chrome), basename)
    ensures forall k :: 0 <= k < |icons| ==> icons[k].big == Some(Big(icons[k].small))
  {
    icons := [];
    if chrome.Some? && chrome.value != "" {
      var e := new IconEntry(chrome.value);
      icons := [e];
    }
    var first := FirstIcons(chrome);
    var bases := Bases(basename);
    var listed := first + Variants(bases);
    ghost var start := icons;
    assert forall k :: 0 <= k < |start| ==> fresh(start[k]);
    icons := PushBases(icons, bases);
    assert forall k :: 0 <= k < |icons| ==> icons[k].small == listed[k];
    assert forall k :: 0 <= k < |start| ==> icons[k] == start[k];
    assert forall k :: 0 <= k < |icons| ==> fresh(icons[k]);
    var candidates := WithSwapped(listed);
    ghost var middle := icons;
    icons := PushSwapped(icons);
    assert forall k :: 0 <= k < |middle| ==> middle[k].small == listed[k];
    SwappedNames(icons, middle, listed);
    assert forall k :: 0 <= k < |middle| ==> icons[k] == middle[k];
    assert forall k :: 0 <= k < |icons| ==> fresh(icons[k]);
    SetBig(icons);
    SmallsAre(icons, candidates);
  }

  /** The entries so far named after `listed`, then their swapped copies,
      are named after the swapped list. */
  lemma SwappedNames(icons: seq<IconEntry>, middle: seq<IconEntry>, listed: seq<string>)
    requires |middle| == |listed| && |icons| == 2 * |middle| && icons[..|middle|] == middle
    requires forall k :: 0 <= k < |middle| ==> middle[k].small == listed[k]
    requires forall k :: |middle| <= k < |icons| ==> icons[k].small == JsRegex.SwapExt(middle[k - |middle|].small)
    ensures forall k :: 0 <= k < |icons| ==> icons[k].small == WithSwapped(listed)[k]
  {
    var c := WithSwapped(listed);
    forall k | 0 <= k < |icons| ensures icons[k].small == c[k] {
      if k < |middle| {
        assert icons[k] == middle[k] && c[k] == c[..|listed|][k];
      } else {
        assert c[k] == c[|listed| + (k - |listed|)];
      }
    }
  }

  lemma SmallsAre(icons: seq<IconEntry>, names: seq<string>)
    requires |icons| == |names| && forall k :: 0 <= k < |icons| ==> icons[k].small == names[k]
    ensures Smalls(icons) == names
  {
  }

  /** `icons.push({ 48: small })`: a new entry at the end. */
  method Push(icons: seq<IconEntry>, small: string) returns (out: seq<IconEntry>)
    requires Distinct(icons)
    ensures Distinct(out) && |out| == |icons| + 1 && out[..|icons|] == icons
    ensures fresh(out[|icons|]) && out[|icons|].small == small
  {
    var e := new IconEntry(small);
    out := icons + [e];
    assert out[..|icons|] == icons;
  }

  /** Lines 93-96: each base path and its unprefixed variant, after the
      entries already there. */
  method PushBases(icons: seq<IconEntry>, paths: seq<string>) returns (out: seq<IconEntry>)
    requires Distinct(icons)
    ensures Distinct(out) && |out| == |icons| + 2 * |paths| && out[..|icons|] == icons
    ensures forall k :: |icons| <= k < |out| ==> fresh(out[k]) && out[k].small == Variants(paths)[k - |icons|]
  {
    out := icons;
    for i := 0 to |paths|
      invariant Distinct(out) && |out| == |icons| + 2 * i && out[..|icons|] == icons
      invariant forall k :: |icons| <= k < |out| ==> fresh(out[k]) && out[k].small == Variants(paths[..i])[k - |icons|]
    {
      VariantsSnoc(paths, i);
      ghost var before := out;
      ghost var names := Variants(paths[..i + 1]);
      out := Push(out, paths[i]);
      assert out[..|before|] == before;
      ghost var middle := out;
      out := Push(out, Unprefixed(paths[i]));
      assert out[..|middle|] == middle;
      assert forall k :: 0 <= k < |before| ==> out[k] == before[k];
      assert out[..|icons|] == before[..|icons|];
      assert names[2 * i] == paths[i] && names[2 * i + 1] == Unprefixed(paths[i]);
      assert forall j :: 0 <= j < 2 * i ==> names[j] == Variants(paths[..i])[j];
    }
    assert paths[..|paths|] == paths;
  }

  /** Lines 97-99: the swapped copy of every entry so far. */
  method PushSwapped(icons: seq<IconEntry>) returns (out: seq<IconEntry>)
    requires Distinct(icons)
    ensures Distinct(out) && |out| == 2 * |icons| && out[..|icons|] == icons
    ensures forall k :: |icons| <= k < |out| ==> fresh(out[k]) && out[k].small == JsRegex.SwapExt(icons[k - |icons|].small)
  {
    out := icons;
    var snapshot := icons;
    for i := 0 to |snapshot|
      invariant Distinct(out) && |out| == |icons| + i && out[..|icons|] == icons
      invariant forall k :: |icons| <= k < |out| ==> fresh(out[k]) && out[k].small == JsRegex.SwapExt(icons[k - |icons|].small)
    {
      var small := snapshot[i].small;
      assert small == icons[i].small;
      ghost var before := out;
      // `i[48] || ''` is `i[48]` itself for a string, the empty one included.
      out := Push(out, JsRegex.SwapExt(small));
      assert out[..|before|] == before;
      assert forall k :: 0 <= k < |before| ==> out[k] == before[k];
      assert out[..|icons|] == before[..|icons|];
    }
  }

  /** Lines 100-107: each entry gets its `96` path, in place. */
  method SetBig(icons: seq<IconEntry>)
    requires Distinct(icons)
    modifies icons
    ensures forall k :: 0 <= k < |icons| ==> icons[k].small == old(icons[k].small)
    ensures forall k :: 0 <= k < |icons| ==> icons[k].big == Some(Big(icons[k].small))
  {
    var all := icons;
    for i := 0 to |all|
      invariant forall k :: 0 <= k < |icons| ==> icons[k].small == old(icons[k].small)
      invariant forall k :: 0 <= k < i ==> icons[k].big == Some(Big(icons[k].small))
    {
      var e := all[i];
      if EndsWith(e.small, ".svg") {
        e.big := Some(e.small);
      } else {
        e.big := Some(JsRegex.Retina(e.small));
      }
    }
  }

  // ---------------------------------------------------------------------
  // The options and the files (lines 41-138)

  /** Line 41: the version bounds before the package overrides them. */
  const DEFAULTS: Record<JsValue> := [("minVersion", Str("6.0.9")), ("maxVersion", Str("7.*"))]

  /** Lines 76, 129 and 130: the bounds the Zotero 7 files carry. */
  const STRICT_MIN := "6.999"
  const STRICT_MAX := "7.*"

  /** Line 41's defaults. */
  lemma DefaultsRead(k: string)
    ensures Field(DEFAULTS, k) ==
      if k == "minVersion" then Str("6.0.9") else if k == "maxVersion" then Str(STRICT_MAX) else Undefined
  {
    PositionIs(DEFAULTS, "minVersion", 0, 0);
    if k == "maxVersion" {
      PositionIs(DEFAULTS, "maxVersion", 0, 1);
    } else if k != "minVersion" {
      PositionAbsent(DEFAULTS, k, 0);
    }
  }

  /** The bounds the gates test: `supported.json` first, then the
      package, then the defaults. */
  lemma BoundsRead(d: Record<JsValue>, supported: Option<Record<JsValue>>, k: string)
    requires UniqueKeys(d) && MakeManifest.SupportedUnique(supported) && (k == "minVersion" || k == "maxVersion")
    ensures Field(Options(DEFAULTS, d, supported), k) ==
      if supported.Some? && k in Keys(supported.value) then Field(supported.value, k)
      else if k in Keys(d) then Field(d, k)
      else if k == "minVersion" then Str("6.0.9") else Str(STRICT_MAX)
  {
    OptionsSpec(DEFAULTS, d, supported, k);
    DefaultsRead(k);
  }

  /** `v.match(/^prefix/)` as a test: only a string has `match`. */
  function Matches(v: JsValue, prefix: string): Result<bool, string> {
    if v.Str? then Ok(StartsWith(v.s, prefix)) else Err(TYPE_ERROR)
  }

  /** Lines 50-59: `install.rdf` and `update.rdf`, rendered with the
      options. */
  function LegacyFiles(options: Record<JsValue>): seq<File> {
    [Rendered("install.rdf.pug", options, "build/install.rdf"), Rendered("update.rdf.pug", options, "gen/update.rdf")]
  }

  /** Line 90: `pkg.xpi?.iconURL?.replace(...)`: nothing when absent, the
      stripped path for a string, and a `TypeError` for anything else,
      which has no `replace`. */
  function ChromeIcon(iconURL: JsValue): Result<Option<string>, string> {
    match iconURL
    case Undefined => Ok(None)
    case Null => Ok(None)
    case Str(u) => Ok(Some(JsRegex.StripChrome(u)))
    case _ => Err(TYPE_ERROR)
  }

  /** Lines 89-107 as values: the `48` paths of the list, in order. */
  function IconPaths(chrome: Option<string>, id: string): seq<string> {
    Candidates(FirstIcons(chrome), JsRegex.DropFromAt(id))
  }

  /** Lines 108-114: the icons of the first entry that exists, else the
      options unchanged. */
  function WithIcons(options: Record<JsValue>, c: seq<string>, present: string -> bool): Record<JsValue> {
    match FirstPresent(c, present)
    case Some(k) => Put(options, "icons", IconsValue(c[k], present))
    case None => options
  }

  /** Setting the icons changes no other option. */
  lemma WithIconsSpec(options: Record<JsValue>, c: seq<string>, present: string -> bool, k: string)
    ensures Field(WithIcons(options, c, present), k) ==
      match FirstPresent(c, present)
      case Some(j) => if k == "icons" then IconsValue(c[j], present) else Field(options, k)
      case None => Field(options, k)
  {
    if FirstPresent(c, present).Some? {
      FieldPut(options, "icons", IconsValue(c[FirstPresent(c, present).value], present), k);
    }
  }

  /** What the script writes, and where it stops. `translations` are the
      locales and descriptions read, `supported` the object of
      `schema/supported.json`, `present` is `fs.existsSync` below the
      project root. */
  function Generate(pkg: Record<JsValue>, version: string, expand: (string, string) -> string,
                    translations: seq<(string, JsValue)>, supported: Option<Record<JsValue>>,
                    present: string -> bool): Outcome
  {
    match Prepared(pkg, version, expand)
    case Err(e) => Outcome([], Some(e))
    case Ok(p) =>
      match Described(p, translations)
      case Err(e) => Outcome([], Some(e))
      case Ok(d) => Write(d, supported, present)
  }

  /** Nothing is written when line 37 throws, which happens exactly when
      `localizedDescriptions` is a string, number or boolean and a locale
      other than en-US has a description. */
  lemma GenerateDescribes(pkg: Record<JsValue>, version: string, expand: (string, string) -> string,
                          translations: seq<(string, JsValue)>, supported: Option<Record<JsValue>>,
                          present: string -> bool)
    ensures Prepared(pkg, version, expand).Ok? ==>
      var r := Described(Prepared(pkg, version, expand).value, translations);
      && (r.Err? <==> Unassignable(Field(Prepared(pkg, version, expand).value, LOCALIZED)) && SomeLocalized(translations))
      && (r.Err? ==> Generate(pkg, version, expand, translations, supported, present) == Outcome([], Some(TYPE_ERROR)))
      && (r.Ok? ==> Generate(pkg, version, expand, translations, supported, present) == Write(r.value, supported, present))
  {
    if Prepared(pkg, version, expand).Ok? {
      DescribedThrows(Prepared(pkg, version, expand).value, translations);
    }
  }

  /** Lines 41-138 once the descriptions are in. */
  function Write(described: Record<JsValue>, supported: Option<Record<JsValue>>, present: string -> bool): Outcome {
    Emit(described, Options(DEFAULTS, described, supported), present)
  }

  /** Lines 49-138 with the options assembled: the two gates. */
  function Emit(described: Record<JsValue>, options: Record<JsValue>, present: string -> bool): Outcome {
    match Matches(Field(options, "minVersion"), "6")
    case Err(e) => Outcome([], Some(e))
    case Ok(legacy) =>
      var rdfs := if legacy then LegacyFiles(options) else [];
      match Matches(Field(options, "maxVersion"), "7")
      case Err(e) => Outcome(rdfs, Some(e))
      case Ok(modern) => if modern then Modern(described, options, present, rdfs) else Outcome(rdfs, None)
  }

  /** Lines 63-137, after the files in `rdfs`. */
  function Modern(described: Record<JsValue>, options: Record<JsValue>, present: string -> bool, rdfs: seq<File>): Outcome {
    var updates := UpdatesFile(described, options, Str(STRICT_MIN), Undefined);
    match (ChromeIcon(Prop(Field(described, "xpi"), "iconURL")), Field(described, "id"))
    case (Ok(chrome), Str(id)) =>
      var final := WithIcons(options, IconPaths(chrome, id), present);
      (match ManifestFile(final, Str(STRICT_MIN), Str(STRICT_MAX))
       case Ok(m) => Outcome(rdfs + [updates, m], None)
       case Err(e) => Outcome(rdfs + [updates], Some(e)))
    case (Err(e), _) => Outcome(rdfs + [updates], Some(e))
    case _ => Outcome(rdfs + [updates], Some(TYPE_ERROR))
  }

  /** A minimum version that is not a string stops the script before any
      file; one starting with `6` writes the two RDF files first; a
      maximum version that is not a string stops it after them; one not
      starting with `7` ends it there. */
  lemma EmitGates(d: Record<JsValue>, options: Record<JsValue>, present: string -> bool)
    ensures var out := Emit(d, options, present);
      var min := Field(options, "minVersion");
      var max := Field(options, "maxVersion");
      var rdfs := if min.Str? && StartsWith(min.s, "6") then LegacyFiles(options) else [];
      (!min.Str? ==> out == Outcome([], Some(TYPE_ERROR)))
      && (min.Str? && !max.Str? ==> out == Outcome(rdfs, Some(TYPE_ERROR)))
      && (min.Str? && max.Str? && !StartsWith(max.s, "7") ==> out == Outcome(rdfs, None))
      && (min.Str? && max.Str? && StartsWith(max.s, "7") ==> out == Modern(d, options, present, rdfs))
  {
  }

  /** After the RDF files comes `updates.json`, keyed by the package id,
      with the options' version and link and the Zotero 7 minimum; the
      manifest follows exactly when the icon URL can be stripped and the
      id and the update URL are strings, and otherwise the script stops
      with a `TypeError` after `updates.json`. */
  lemma ModernShape(d: Record<JsValue>, options: Record<JsValue>, present: string -> bool, rdfs: seq<File>)
    ensures var out := Modern(d, options, present, rdfs);
      |out.written| > |rdfs| && out.written[..|rdfs|] == rdfs
      && out.written[|rdfs|] == UpdatesJson(ToString(Field(d, "id")), Field(options, "version"),
           Field(options, "updateLink"), Str(STRICT_MIN), Undefined)
      && (out.thrown.None? <==>
            ChromeIcon(Prop(Field(d, "xpi"), "iconURL")).Ok? && Field(d, "id").Str? && Field(options, "updateURL").Str?)
      && (out.thrown.Some? ==> |out.written| == |rdfs| + 1 && out.thrown == Some(TYPE_ERROR))
      && (out.thrown.None? ==> |out.written| == |rdfs| + 2)
  {
    var chrome := ChromeIcon(Prop(Field(d, "xpi"), "iconURL"));
    var id := Field(d, "id");
    if chrome.Ok? && id.Str? {
      WithIconsSpec(options, IconPaths(chrome.value, id.s), present, "updateURL");
    }
  }

  /** The manifest carries the options' name, version, description and
      id, the `updates.json` URL, the Zotero 7 bounds, and the icons of the
      first listed path that exists, else the options' own. */
  lemma ModernManifest(d: Record<JsValue>, options: Record<JsValue>, present: string -> bool, rdfs: seq<File>)
    requires ChromeIcon(Prop(Field(d, "xpi"), "iconURL")).Ok? && Field(d, "id").Str? && Field(options, "updateURL").Str?
    ensures var out := Modern(d, options, present, rdfs);
      var c := IconPaths(ChromeIcon(Prop(Field(d, "xpi"), "iconURL")).value, Field(d, "id").s);
      var icons := match FirstPresent(c, present)
        case Some(k) => IconsValue(c[k], present)
        case None => Field(options, "icons");
      |out.written| == |rdfs| + 2 && out.written[|rdfs| + 1] == ManifestJson(
        Field(options, "name"), Field(options, "version"), Field(options, DESCRIPTION),
        icons, Field(options, "id"), UpdateUrl(Field(options, "updateURL").s), Str(STRICT_MIN), Str(STRICT_MAX))
  {
    var c := IconPaths(ChromeIcon(Prop(Field(d, "xpi"), "iconURL")).value, Field(d, "id").s);
    var final := WithIcons(options, c, present);
    WithIconsSpec(options, c, present, "updateURL");
    WithIconsSpec(options, c, present, "name");
    WithIconsSpec(options, c, present, "version");
    WithIconsSpec(options, c, present, DESCRIPTION);
    WithIconsSpec(options, c, present, "icons");
    WithIconsSpec(options, c, present, "id");
    var u := Field(options, "updateURL").s;
    var m := ManifestJson(Field(final, "name"), Field(final, "version"), Field(final, DESCRIPTION),
      Field(final, "icons"), Field(final, "id"), UpdateUrl(u), Str(STRICT_MIN), Str(STRICT_MAX));
    assert ManifestFile(final, Str(STRICT_MIN), Str(STRICT_MAX)) == Ok(m);
    var updates := UpdatesFile(d, options, Str(STRICT_MIN), Undefined);
    assert Modern(d, options, present, rdfs) == Outcome(rdfs + [updates, m], None);
    assert (rdfs + [updates, m])[|rdfs| + 1] == m;
  }

  /** With neither the package nor `supported.json` naming a bound, the
      script writes all four files: the two RDF files, then `updates.json`
      and, given a string id, icon URL and update URL, `manifest.json`. */
  lemma DefaultBounds(d: Record<JsValue>, present: string -> bool)
    requires UniqueKeys(d) && "minVersion" !in Keys(d) && "maxVersion" !in Keys(d)
    ensures var out := Write(d, None, present);
      |out.written| > 2 && out.written[..2] == LegacyFiles(Options(DEFAULTS, d, None))
      && out.written[2].UpdatesJson?
  {
    var options := Options(DEFAULTS, d, None);
    BoundsRead(d, None, "minVersion");
    BoundsRead(d, None, "maxVersion");
    assert StartsWith("6.0.9", "6") && StartsWith(STRICT_MAX, "7");
    EmitGates(d, options, present);
    ModernShape(d, options, present, LegacyFiles(options));
  }

  /** The icon lists of the two scripts agree, so the same icon is chosen,
      except where an `iconURL` that strips to nothing stays a candidate in
      `bin/make-manifest.ts` and is filtered out here, and where any other
      non-string, non-null `iconURL` is ignored there and throws here. */
  lemma IconsAgree(iconURL: JsValue, b: string)
    ensures iconURL.Undefined? || iconURL.Null? || (iconURL.Str? && JsRegex.StripChrome(iconURL.s) != "") ==>
      ChromeIcon(iconURL).Ok? &&
      Candidates(FirstIcons(ChromeIcon(iconURL).value), b) == Candidates(MakeManifest.ChromeIcon(iconURL), b)
    ensures iconURL.Str? && JsRegex.StripChrome(iconURL.s) == "" ==>
      FirstIcons(ChromeIcon(iconURL).value) == [] && MakeManifest.ChromeIcon(iconURL) == [""]
    ensures !iconURL.Undefined? && !iconURL.Null? && !iconURL.Str? ==>
      ChromeIcon(iconURL).Err? && MakeManifest.ChromeIcon(iconURL) == []
  {
  }

  /** The script, with its loops and its `icons` objects. */
  method Run(pkg: Record<JsValue>, version: string, expand: (string, string) -> string,
             translations: seq<(string, JsValue)>, supported: Option<Record<JsValue>>,
             present: string -> bool) returns (outcome: Outcome)
    ensures outcome == Generate(pkg, version, expand, translations, supported, present)
  {
    var prepared := Prepared(pkg, version, expand);
    if prepared.Err? {
      return Outcome([], Some(prepared.error));
    }
    var describedOrError := DescribeLocales(prepared.value, translations);
    if describedOrError.Err? {
      return Outcome([], Some(describedOrError.error));
    }
    var described := describedOrError.value;
    var options := Options(DEFAULTS, described, supported);
    outcome := WriteFiles(described, options, present);
  }

  /** Lines 49-138: the two gates on the assembled options. */
  method WriteFiles(described: Record<JsValue>, options: Record<JsValue>, present: string -> bool) returns (outcome: Outcome)
    ensures outcome == Emit(described, options, present)
  {
    var minVersion := Field(options, "minVersion");
    if !minVersion.Str? {
      return Outcome([], Some(TYPE_ERROR));
    }
    var written: seq<File> := [];
    if StartsWith(minVersion.s, "6") {
      written := written + [Rendered("install.rdf.pug", options, "build/install.rdf")];
      written := written + [Rendered("update.rdf.pug", options, "gen/update.rdf")];
    }
    assert written == if StartsWith(minVersion.s, "6") then LegacyFiles(options) else [];
    assert Matches(minVersion, "6") == Ok(StartsWith(minVersion.s, "6"));
    var maxVersion := Field(options, "maxVersion");
    if !maxVersion.Str? {
      return Outcome(written, Some(TYPE_ERROR));
    }
    assert Matches(maxVersion, "7") == Ok(StartsWith(maxVersion.s, "7"));
    if !StartsWith(maxVersion.s, "7") {
      return Outcome(written, None);
    }
    outcome := WriteModern(described, options, present, written);
  }

  /** Lines 63-137: `updates.json`, the icons and `manifest.json`, after
      the files already `written`. */
  method WriteModern(described: Record<JsValue>, options: Record<JsValue>, present: string -> bool,
                     written: seq<File>) returns (outcome: Outcome)
    ensures outcome == Modern(described, options, present, written)
  {
    var updates := UpdatesFile(described, options, Str(STRICT_MIN), Undefined);
    var chrome := ChromeIcon(Prop(Field(described, "xpi"), "iconURL"));
    if chrome.Err? {
      return Outcome(written + [updates], Some(chrome.error));
    }
    var id := Field(described, "id");
    if !id.Str? {
      return Outcome(written + [updates], Some(TYPE_ERROR));
    }
    var final := ChooseIcons(options, chrome.value, id.s, present);
    var manifest := ManifestFile(final, Str(STRICT_MIN), Str(STRICT_MAX));
    if manifest.Err? {
      return Outcome(written + [updates], Some(manifest.error));
    }
    outcome := Outcome(written + [updates, manifest.value], None);
  }

  /** Lines 89-114: the list of icon entries, the first whose `48` path
      exists, and the options with its `icons`. */
  method ChooseIcons(options: Record<JsValue>, chrome: Option<string>, id: string, present: string -> bool)
    returns (final: Record<JsValue>)
    ensures final == WithIcons(options, IconPaths(chrome, id), present)
  {
    final := options;
    var icons := IconList(chrome, JsRegex.DropFromAt(id));
    var found := FirstPresent(Smalls(icons), present);
    if found.Some? {
      var icon := icons[found.value];
      var big := if icon.big.Some? then icon.big.value else "";
      var large := if present(big) then (if icon.big.Some? then Str(icon.big.value) else Undefined) else Str(icon.small);
      final := Put(options, "icons", Obj([("48", Str(icon.small)), ("96", large)]));
    }
  }
}
