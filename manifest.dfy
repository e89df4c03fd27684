/** `bin/make-manifest.ts`: completes the package object (id, version,
    update URL, localized descriptions from the Fluent files), writes
    `gen/updates.json`, picks the icons and writes `build/manifest.json`.
    The Fluent parser, the URI-template library and the file system are
    parameters: the parsed files, `expand` and `present`. */
module MakeManifest {
  import opened Base
  import opened Strings
  import opened Records
  import opened JsValues
  import opened Addon
  import JsRegex

  // ---------------------------------------------------------------------
  // The Fluent resource (lines 24-30)

  datatype Element = TextElement(value: string) | Placeable
  datatype Attribute = Attribute(id: string, elements: seq<Element>)
  /** A parsed entry; comments and junk are `Other`. */
  datatype Entry =
    | Message(id: string, attributes: seq<Attribute>)
    | Term(id: string, attributes: seq<Attribute>)
    | Other

  /** `body.find(...)` for the message with the given name. */
  function FindMessage(body: seq<Entry>, name: string): (r: Option<nat>)
    ensures r.Some? ==> r.value < |body| && body[r.value].Message? && body[r.value].id == name
    ensures r.Some? ==> forall j :: 0 <= j < r.value ==> !(body[j].Message? && body[j].id == name)
    ensures r.None? ==> forall j :: 0 <= j < |body| ==> !(body[j].Message? && body[j].id == name)
  {
    if |body| == 0 then None
    else if body[0].Message? && body[0].id == name then Some(0)
    else match FindMessage(body[1..], name)
      case None => None
      case Some(j) => Some(j + 1)
  }

  /** `msg.attributes.find(...)` for the attribute with the given name. */
  function FindAttribute(attrs: seq<Attribute>, name: string): (r: Option<nat>)
    ensures r.Some? ==> r.value < |attrs| && attrs[r.value].id == name
    ensures r.Some? ==> forall j :: 0 <= j < r.value ==> attrs[j].id != name
    ensures r.None? ==> forall j :: 0 <= j < |attrs| ==> attrs[j].id != name
  {
    if |attrs| == 0 then None
    else if attrs[0].id == name then Some(0)
    else match FindAttribute(attrs[1..], name)
      case None => None
      case Some(j) => Some(j + 1)
  }

  /** The text elements' values, joined; placeables are dropped. */
  function Text(elements: seq<Element>): string
    decreases |elements|
  {
    if |elements| == 0 then ""
    else
      var last := elements[|elements| - 1];
      Text(elements[..|elements| - 1]) + (if last.TextElement? then last.value else "")
  }

  /** The text of a pattern is the text of its parts, in order: a text
      element gives its value, a placeable nothing. */
  lemma {:induction false} TextSpec(a: seq<Element>, b: seq<Element>, v: string)
    ensures Text(a + b) == Text(a) + Text(b)
    ensures Text([TextElement(v)]) == v && Text([Placeable]) == ""
    decreases |b|
  {
    if |b| > 0 {
      var b' := b[..|b| - 1];
      assert (a + b)[..|a + b| - 1] == a + b';
      TextSpec(a, b', v);
    } else {
      assert a + b == a;
    }
    assert [TextElement(v)][..0] == [];
    assert [Placeable][..0] == [];
  }

  /** The description a file gives: the text of the `description`
      attribute of its first `xpi` message; empty when either is missing,
      which the loop skips like an empty text. */
  function Description(body: seq<Entry>): string {
    match FindMessage(body, "xpi")
    case None => ""
    case Some(i) =>
      match FindAttribute(body[i].attributes, "description")
      case None => ""
      case Some(j) => Text(body[i].attributes[j].elements)
  }

  /** The first `xpi` message decides, and within it the first
      `description` attribute; a file without such a message gives none. */
  lemma DescriptionSpec(body: seq<Entry>, i: nat, j: nat)
    ensures (forall k :: 0 <= k < |body| ==> !(body[k].Message? && body[k].id == "xpi")) ==> Description(body) == ""
    ensures i < |body| && body[i].Message? && body[i].id == "xpi"
      && (forall k :: 0 <= k < i ==> !(body[k].Message? && body[k].id == "xpi"))
      && j < |body[i].attributes| && body[i].attributes[j].id == "description"
      && (forall k :: 0 <= k < j ==> body[i].attributes[k].id != "description")
      ==> Description(body) == Text(body[i].attributes[j].elements)
  {
    match FindMessage(body, "xpi")
    case None =>
    case Some(m) =>
      if i < |body| && body[i].Message? && body[i].id == "xpi"
        && (forall k :: 0 <= k < i ==> !(body[k].Message? && body[k].id == "xpi")) {
        assert m == i by {
          assert !(m < i) && !(i < m);
        }
      }
  }

  // ---------------------------------------------------------------------
  // The loop over the locales (lines 20-40)

  /** One Fluent file of `locale/<locale>`, parsed. */
  datatype Translation = Translation(locale: string, body: seq<Entry>)

  /** Each translation's locale and description. */
  function Texts(ts: seq<Translation>): (r: seq<(string, JsValue)>)
    ensures |r| == |ts| && forall k :: 0 <= k < |ts| ==> r[k] == (ts[k].locale, Str(Description(ts[k].body)))
  {
    seq(|ts|, k requires 0 <= k < |ts| => (ts[k].locale, Str(Description(ts[k].body))))
  }

  /** The loop: the package after every translation has set its
      description, or the `TypeError` of line 38. */
  method DescribeLocales(pkg: Record<JsValue>, translations: seq<Translation>) returns (r: Result<Record<JsValue>, string>)
    ensures r == Described(pkg, Texts(translations))
  {
    var p := pkg;
    for i := 0 to |translations|
      invariant Described(pkg, Texts(translations[..i])) == Ok(p)
    {
      assert Texts(translations[..i + 1])[..i] == Texts(translations[..i]);
      var locale := translations[i].locale;
      var body := translations[i].body;
      var msg := FindMessage(body, "xpi");
      if msg.None? {
        continue;
      }
      var attr := FindAttribute(body[msg.value].attributes, "description");
      if attr.None? {
        continue;
      }
      var description := Text(body[msg.value].attributes[attr.value].elements);
      if description == "" {
        continue;
      }
      if locale == EN_US {
        p := Put(p, DESCRIPTION, Str(description));
      } else {
        var old_p := p;
        var localized := Field(p, LOCALIZED);
        localized := if Truthy(localized) then localized else Obj([]);
        if !localized.Obj? && !localized.Arr? {
          assert Texts(translations)[..i + 1] == Texts(translations[..i + 1]);
          DescribedPrefixThrows(pkg, Texts(translations), i + 1);
          return Err(TYPE_ERROR);
        }
        p := Put(p, LOCALIZED, localized);
        if localized.Obj? {
          PutTwice(old_p, LOCALIZED, localized, Obj(Put(localized.fields, locale, Str(description))));
          p := Put(p, LOCALIZED, Obj(Put(localized.fields, locale, Str(description))));
        }
      }
    }
    assert translations[..|translations|] == translations;
    r := Ok(p);
  }

  // ---------------------------------------------------------------------
  // The icons (lines 77-94)

  /** Line 78: a string `iconURL`, its `chrome://` host stripped. */
  function ChromeIcon(iconURL: JsValue): seq<string> {
    if iconURL.Str? then [JsRegex.StripChrome(iconURL.s)] else []
  }

  /** Lines 77-85: the pushes that build the candidate list. */
  method IconCandidates(iconURL: JsValue, basename: string) returns (icons: seq<string>)
    ensures icons == Candidates(ChromeIcon(iconURL), basename)
  {
    icons := [];
    if iconURL.Str? {
      icons := icons + [JsRegex.StripChrome(iconURL.s)];
    }
    icons := PushVariants(icons, Bases(basename));
    icons := icons + seq(|icons|, k requires 0 <= k < |icons| => JsRegex.SwapExt(icons[k]));
  }

  /** Lines 81-84: each path and its unprefixed variant pushed in turn. */
  method PushVariants(icons: seq<string>, paths: seq<string>) returns (out: seq<string>)
    ensures out == icons + Variants(paths)
  {
    out := icons;
    for i := 0 to |paths|
      invariant out == icons + Variants(paths[..i])
    {
      VariantsSnoc(paths, i);
      out := out + [paths[i]];
      out := out + [Unprefixed(paths[i])];
    }
    assert paths[..|paths|] == paths;
  }

  /** Line 86: the candidates that exist, in order. */
  function Existing(c: seq<string>, present: string -> bool): (e: seq<string>)
    ensures forall x :: x in e ==> x in c && present(x)
  {
    if |c| == 0 then []
    else (if present(c[0]) then [c[0]] else []) + Existing(c[1..], present)
  }

  /** Lines 87-94: the icons of the first existing candidate, if any. */
  function Chosen(c: seq<string>, present: string -> bool): Option<JsValue> {
    var e := Existing(c, present);
    if |e| > 0 then Some(IconsValue(e[0], present)) else None
  }

  /** Filtering and taking the first is finding the first: some icon is
      chosen exactly when a candidate exists, and it is the first one. */
  lemma {:induction false} ExistingFirst(c: seq<string>, present: string -> bool)
    ensures |Existing(c, present)| > 0 <==> FirstPresent(c, present).Some?
    ensures |Existing(c, present)| > 0 ==> Existing(c, present)[0] == c[FirstPresent(c, present).value]
    ensures Chosen(c, present) == match FirstPresent(c, present)
      case None => None
      case Some(k) => Some(IconsValue(c[k], present))
  {
    if |c| > 0 && !present(c[0]) {
      ExistingFirst(c[1..], present);
    }
  }

  // ---------------------------------------------------------------------
  // The script

  /** Line 42: the version bounds before the package overrides them. */
  const DEFAULTS: Record<JsValue> := [("minVersion", Str("7.0.32")), ("maxVersion", Str("9.*"))]

  /** Lines 12-18: the package as the rest of the script sees it. */
  function Prepared(pkg: Record<JsValue>, version: string, expand: (string, string) -> string): Result<Record<JsValue>, string> {
    Completed(pkg, Stem(pkg), version, expand)
  }

  /** Line 12: the text before the `@` of a derived id is the name, as a
      template literal writes it. */
  function Stem(pkg: Record<JsValue>): Option<string> {
    Some(ToString(Field(pkg, "name")))
  }

  /** The options of the manifest once the icons are settled. */
  function WithIcons(options: Record<JsValue>, chosen: Option<JsValue>): Record<JsValue> {
    match chosen
    case None => options
    case Some(v) => Put(options, "icons", v)
  }

  /** What the script writes, and where it stops. `supported` is the object
      of `schema/supported.json`, `present` is `fs.existsSync` on a path
      below the project root. */
  function Generate(pkg: Record<JsValue>, version: string, expand: (string, string) -> string,
                    translations: seq<Translation>, supported: Option<Record<JsValue>>,
                    present: string -> bool): Outcome
  {
    match Prepared(pkg, version, expand)
    case Err(e) => Outcome([], Some(e))
    case Ok(p) =>
      match Described(p, Texts(translations))
      case Err(e) => Outcome([], Some(e))
      case Ok(d) => Write(d, supported, present)
  }

  /** Lines 42-118 once the descriptions are in. */
  function Write(described: Record<JsValue>, supported: Option<Record<JsValue>>, present: string -> bool): Outcome {
    Emit(described, Options(DEFAULTS, described, supported), present)
  }

  /** Lines 50-118 with the options assembled. */
  function Emit(described: Record<JsValue>, options: Record<JsValue>, present: string -> bool): Outcome {
    var updates := UpdatesFile(described, options, Field(options, "minVersion"), Field(options, "maxVersion"));
    match Field(described, "id")
    case Str(id) =>
      var final := WithIcons(options, Chosen(IconPaths(described), present));
      (match ManifestFile(final, Field(final, "minVersion"), Field(final, "maxVersion"))
       case Ok(m) => Outcome([updates, m], None)
       case Err(e) => Outcome([updates], Some(e)))
    case _ => Outcome([updates], Some(TYPE_ERROR))
  }

  /** `supported.json`, when read, is an object with distinct keys. */
  predicate SupportedUnique(supported: Option<Record<JsValue>>) {
    supported.Some? ==> UniqueKeys(supported.value)
  }

  /** Lines 42-48: what `options_and_vars` holds under a key the icons do
      not set: `supported.json` first, then `pretty`, then the package,
      then the defaults. */
  function Setting(described: Record<JsValue>, supported: Option<Record<JsValue>>, k: string): JsValue {
    if supported.Some? && k in Keys(supported.value) then Field(supported.value, k)
    else if k == "pretty" then Bool(true)
    else if k in Keys(described) then Field(described, k)
    else Field(DEFAULTS, k)
  }

  /** Lines 77-85: the candidates, from `xpi.iconURL` and the id before
      its `@`. */
  function IconPaths(described: Record<JsValue>): seq<string> {
    Candidates(ChromeIcon(Prop(Field(described, "xpi"), "iconURL")), JsRegex.DropFromAt(ToString(Field(described, "id"))))
  }

  /** Lines 77-94: the icons of the first candidate that exists, else
      whatever the options held. */
  function ManifestIcons(described: Record<JsValue>, supported: Option<Record<JsValue>>, present: string -> bool): JsValue {
    var c := IconPaths(described);
    match FirstPresent(c, present)
    case Some(k) => IconsValue(c[k], present)
    case None => Setting(described, supported, "icons")
  }

  /** Nothing is written when lines 12-18 throw, nor when line 38 throws,
      which happens exactly when `localizedDescriptions` is a string, number
      or boolean and a locale other than en-US has a description; otherwise
      the descriptions go in and the keys stay distinct. */
  lemma GenerateSpec(pkg: Record<JsValue>, version: string, expand: (string, string) -> string,
                     translations: seq<Translation>, supported: Option<Record<JsValue>>,
                     present: string -> bool)
    requires UniqueKeys(pkg) && XpiUnique(pkg)
    ensures Prepared(pkg, version, expand).Err? ==>
      Generate(pkg, version, expand, translations, supported, present) == Outcome([], Some(TYPE_ERROR))
    ensures Prepared(pkg, version, expand).Ok? ==>
      var r := Described(Prepared(pkg, version, expand).value, Texts(translations));
      && (r.Err? <==> Unassignable(Field(Prepared(pkg, version, expand).value, LOCALIZED)) && SomeLocalized(Texts(translations)))
      && (r.Err? ==> Generate(pkg, version, expand, translations, supported, present) == Outcome([], Some(TYPE_ERROR)))
      && (r.Ok? ==> UniqueKeys(r.value) && Generate(pkg, version, expand, translations, supported, present) == Write(r.value, supported, present))
  {
    IdentifySpec(pkg, Stem(pkg), "id");
    if Prepared(pkg, version, expand).Ok? {
      CompletedId(pkg, Stem(pkg), version, expand);
      DescribedThrows(Prepared(pkg, version, expand).value, Texts(translations));
      DescribedOthers(Prepared(pkg, version, expand).value, Texts(translations), "id");
    }
  }

  /** The options read as `Setting` says. */
  lemma OptionsRead(d: Record<JsValue>, supported: Option<Record<JsValue>>, k: string)
    requires UniqueKeys(d) && SupportedUnique(supported)
    ensures Field(Options(DEFAULTS, d, supported), k) == Setting(d, supported, k)
  {
    OptionsSpec(DEFAULTS, d, supported, k);
  }

  /** `updates.json` always comes first, keyed by the package id and
      carrying the options' version, link and bounds; the manifest follows
      exactly when the id and the update URL are strings, and otherwise
      the script stops with a `TypeError` after `updates.json`. */
  lemma EmitShape(d: Record<JsValue>, options: Record<JsValue>, present: string -> bool)
    ensures var out := Emit(d, options, present);
      |out.written| > 0
      && out.written[0] == UpdatesJson(ToString(Field(d, "id")), Field(options, "version"),
           Field(options, "updateLink"), Field(options, "minVersion"), Field(options, "maxVersion"))
      && (out.thrown.None? <==> Field(d, "id").Str? && Field(options, "updateURL").Str?)
      && (out.thrown.Some? ==> |out.written| == 1 && out.thrown == Some(TYPE_ERROR))
      && (out.thrown.None? ==> |out.written| == 2)
  {
    var final := WithIcons(options, Chosen(IconPaths(d), present));
    WithIconsSpec(options, Chosen(IconPaths(d), present), "updateURL");
    assert Field(final, "updateURL") == Field(options, "updateURL");
    var m := ManifestFile(final, Field(final, "minVersion"), Field(final, "maxVersion"));
    assert m.Ok? <==> Field(options, "updateURL").Str?;
    assert m.Err? ==> m.error == TYPE_ERROR;
  }

  /** The manifest carries the options' name, version, description, id
      and bounds, the `updates.json` URL, and the icons of the first
      candidate that exists, else the options' own. */
  lemma EmitManifest(d: Record<JsValue>, options: Record<JsValue>, present: string -> bool)
    requires Field(d, "id").Str? && Field(options, "updateURL").Str?
    ensures var out := Emit(d, options, present);
      var icons := match FirstPresent(IconPaths(d), present)
        case Some(k) => IconsValue(IconPaths(d)[k], present)
        case None => Field(options, "icons");
      |out.written| == 2 && out.written[1] == ManifestJson(
        Field(options, "name"), Field(options, "version"), Field(options, DESCRIPTION),
        icons, Field(options, "id"), UpdateUrl(Field(options, "updateURL").s),
        Field(options, "minVersion"), Field(options, "maxVersion"))
  {
    ExistingFirst(IconPaths(d), present);
    var chosen := Chosen(IconPaths(d), present);
    var final := WithIcons(options, chosen);
    WithIconsSpec(options, chosen, "updateURL");
    WithIconsSpec(options, chosen, "name");
    WithIconsSpec(options, chosen, "version");
    WithIconsSpec(options, chosen, DESCRIPTION);
    WithIconsSpec(options, chosen, "icons");
    WithIconsSpec(options, chosen, "id");
    WithIconsSpec(options, chosen, "minVersion");
    WithIconsSpec(options, chosen, "maxVersion");
    var u := Field(options, "updateURL").s;
    var m := ManifestJson(Field(final, "name"), Field(final, "version"), Field(final, DESCRIPTION),
      Field(final, "icons"), Field(final, "id"), UpdateUrl(u), Field(final, "minVersion"), Field(final, "maxVersion"));
    assert ManifestFile(final, Field(final, "minVersion"), Field(final, "maxVersion")) == Ok(m);
  }

  /** Setting the icons changes no other option. */
  lemma WithIconsSpec(options: Record<JsValue>, chosen: Option<JsValue>, k: string)
    ensures Field(WithIcons(options, chosen), k) ==
      if k == "icons" && chosen.Some? then chosen.value else Field(options, k)
  {
    if chosen.Some? {
      FieldPut(options, "icons", chosen.value, k);
    }
  }

  /** Where an option the script does not set comes from: `supported.json`,
      else `xpi`, else the package, else the defaults of line 42. */
  function Source(pkg: Record<JsValue>, supported: Option<Record<JsValue>>, k: string): JsValue {
    if supported.Some? && k in Keys(supported.value) then Field(supported.value, k)
    else if k in XpiKeys(pkg) then Prop(Field(pkg, "xpi"), k)
    else if k in Keys(pkg) then Field(pkg, k)
    else if k == "minVersion" then Str("7.0.32")
    else if k == "maxVersion" then Str("9.*")
    else Undefined
  }

  /** The keys the script itself sets. */
  const SET_KEYS := {"id", "version", "updateLink", "updateURL", DESCRIPTION, LOCALIZED, "pretty", "icons"}

  /** An option the script does not set reads from its source. */
  lemma SettingSource(pkg: Record<JsValue>, version: string, expand: (string, string) -> string,
                      translations: seq<Translation>, supported: Option<Record<JsValue>>, k: string)
    requires XpiUnique(pkg) && k !in SET_KEYS
    ensures Prepared(pkg, version, expand).Ok? && Described(Prepared(pkg, version, expand).value, Texts(translations)).Ok? ==>
      Setting(Described(Prepared(pkg, version, expand).value, Texts(translations)).value, supported, k) == Source(pkg, supported, k)
  {
    if Prepared(pkg, version, expand).Ok? {
      var p := Prepared(pkg, version, expand).value;
      var d := Described(p, Texts(translations));
      if d.Ok? {
        CompletedOthers(pkg, Stem(pkg), version, expand, k);
        OverlaySpec(pkg, k);
        DescribedOthers(p, Texts(translations), k);
        SettingOfOverlay(d.value, pkg, supported, k);
      }
    }
  }

  /** An option read from a record that agrees with `Overlay(pkg)` on `k`
      is the one `Source` names. */
  lemma SettingOfOverlay(d: Record<JsValue>, pkg: Record<JsValue>, supported: Option<Record<JsValue>>, k: string)
    requires XpiUnique(pkg) && k !in SET_KEYS
    requires Lookup(d, k) == Lookup(Overlay(pkg), k)
    ensures Setting(d, supported, k) == Source(pkg, supported, k)
  {
    OverlaySpec(pkg, k);
    DefaultsRead(k);
    assert (k in Keys(d)) == (k in XpiKeys(pkg) || k in Keys(pkg));
  }

  /** Line 42's defaults. */
  lemma DefaultsRead(k: string)
    ensures Field(DEFAULTS, k) ==
      if k == "minVersion" then Str("7.0.32") else if k == "maxVersion" then Str("9.*") else Undefined
  {
    PositionIs(DEFAULTS, "minVersion", 0, 0);
    if k == "maxVersion" {
      PositionIs(DEFAULTS, "maxVersion", 0, 1);
    } else if k != "minVersion" {
      PositionAbsent(DEFAULTS, k, 0);
    }
  }

  /** Both files carry the options' version bounds. */
  lemma VersionBounds(d: Record<JsValue>, supported: Option<Record<JsValue>>, present: string -> bool)
    requires UniqueKeys(d) && SupportedUnique(supported)
    ensures var out := Write(d, supported, present);
      |out.written| > 0 && out.written[0].UpdatesJson?
      && out.written[0].strictMin == Setting(d, supported, "minVersion")
      && out.written[0].strictMax == Setting(d, supported, "maxVersion")
      && (|out.written| > 1 ==>
            |out.written| == 2 && out.written[1].ManifestJson?
            && out.written[1].strictMin == Setting(d, supported, "minVersion")
            && out.written[1].strictMax == Setting(d, supported, "maxVersion"))
  {
    var options := Options(DEFAULTS, d, supported);
    assert Write(d, supported, present) == Emit(d, options, present);
    OptionsRead(d, supported, "minVersion");
    OptionsRead(d, supported, "maxVersion");
    EmitShape(d, options, present);
    if Field(d, "id").Str? && Field(options, "updateURL").Str? {
      EmitManifest(d, options, present);
    }
  }

  /** A package without an id, whose `xpi` brings none, goes on with
      `name@domain`, lower-cased, for an author mail `local@domain`, once
      it has an `xpi`; the descriptions leave that id alone, so it is the
      key of `updates.json`. */
  lemma DerivedId(pkg: Record<JsValue>, version: string, expand: (string, string) -> string,
                  translations: seq<Translation>, name: string, local: string, domain: string)
    requires UniqueKeys(pkg) && XpiUnique(pkg)
    requires !Truthy(Field(pkg, "id")) && "id" !in XpiKeys(pkg) && Field(pkg, "name") == Str(name)
    requires Prop(Field(pkg, "author"), "email") == Str(local + "@" + domain)
    requires NoLineTerminator(local) && '@' !in domain
    requires !Field(Overlay(pkg), "xpi").Undefined? && !Field(Overlay(pkg), "xpi").Null?
    ensures Prepared(pkg, version, expand).Ok?
    ensures Field(Prepared(pkg, version, expand).value, "id") == Str(Lower(name) + "@" + Lower(domain))
    ensures Described(Prepared(pkg, version, expand).value, Texts(translations)).Ok? ==>
      Field(Described(Prepared(pkg, version, expand).value, Texts(translations)).value, "id") == Str(Lower(name) + "@" + Lower(domain))
  {
    CompletedOk(pkg, Stem(pkg), version, expand);
    CompletedId(pkg, Stem(pkg), version, expand);
    DefaultIdSpec(name, local, domain);
    DescribedOthers(Prepared(pkg, version, expand).value, Texts(translations), "id");
  }

  /** Unless `supported.json` sets its own, the manifest's update URL is
      the release URL followed by `updates.json` where the script wrote
      `update.rdf`; with a string id the manifest is then always written. */
  lemma ReleaseUpdateUrl(pkg: Record<JsValue>, version: string, expand: (string, string) -> string,
                         translations: seq<Translation>, supported: Option<Record<JsValue>>,
                         present: string -> bool)
    requires UniqueKeys(pkg) && XpiUnique(pkg) && SupportedUnique(supported)
    requires !(supported.Some? && "updateURL" in Keys(supported.value))
    ensures Prepared(pkg, version, expand).Ok? && Described(Prepared(pkg, version, expand).value, Texts(translations)).Ok? ==>
      var out := Generate(pkg, version, expand, translations, supported, present);
      var d := Described(Prepared(pkg, version, expand).value, Texts(translations)).value;
      (out.thrown.None? <==> Field(d, "id").Str?)
      && (out.thrown.None? ==>
            |out.written| == 2 && out.written[1].ManifestJson?
            && out.written[1].updateUrl == UpdateUrl(ToString(Prop(Field(Overlay(pkg), "xpi"), "releaseURL")) + "update.rdf"))
  {
    GenerateSpec(pkg, version, expand, translations, supported, present);
    if Prepared(pkg, version, expand).Ok? && Described(Prepared(pkg, version, expand).value, Texts(translations)).Ok? {
      var p := Prepared(pkg, version, expand).value;
      CompletedUpdateUrl(pkg, Stem(pkg), version, expand);
      var d := Described(p, Texts(translations)).value;
      DescribedOthers(p, Texts(translations), "updateURL");
      var options := Options(DEFAULTS, d, supported);
      OptionsRead(d, supported, "updateURL");
      EmitShape(d, options, present);
      if Field(d, "id").Str? {
        EmitManifest(d, options, present);
      }
    }
  }

  /** The script, with its two loops. */
  method Run(pkg: Record<JsValue>, version: string, expand: (string, string) -> string,
             translations: seq<Translation>, supported: Option<Record<JsValue>>,
             present: string -> bool) returns (outcome: Outcome)
    ensures outcome == Generate(pkg, version, expand, translations, supported, present)
  {
    var prepared := Prepared(pkg, version, expand);
    if prepared.Err? {
      return Outcome([], Some(prepared.error));
    }
    var describedOrError := DescribeLocales(prepared.value, translations);
    if describedOrError.Err? {
      return Outcome([], Some(describedOrError.error));
    }
    var described := describedOrError.value;
    var options := Options(DEFAULTS, described, supported);
    var updates := UpdatesFile(described, options, Field(options, "minVersion"), Field(options, "maxVersion"));
    var id := Field(described, "id");
    if !id.Str? {
      return Outcome([updates], Some(TYPE_ERROR));
    }
    var icons := IconCandidates(Prop(Field(described, "xpi"), "iconURL"), JsRegex.DropFromAt(id.s));
    var final := WithIcons(options, Chosen(icons, present));
    var manifest := ManifestFile(final, Field(final, "minVersion"), Field(final, "maxVersion"));
    if manifest.Err? {
      return Outcome([updates], Some(manifest.error));
    }
    outcome := Outcome([updates, manifest.value], None);
  }
}
