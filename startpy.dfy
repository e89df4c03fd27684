/** `bin/start.py`: reads `zotero-plugin.ini`, patches the Firefox prefs
    files of the test profile, points the profile at the build and composes
    the command that starts Zotero. */
module StartPy {
  import opened Base
  import opened Strings
  import Json
  import Records
  import Paths

  // ---------------------------------------------------------------------
  // Preference values (lines 60-75)

  /** A Python value `pref_value` can yield, apart from `None`. `Other` is
      what `float()` or `json.loads` make of a text that is neither a
      string literal nor an int: a float, a list or a dict, kept as its
      text. */
  datatype Pref = Bool(b: bool) | Int(i: int) | Str(s: string) | Other(text: string)

  /** Digits with single underscores between them, as `int()` accepts. */
  predicate UnderscoredDigits(t: string) {
    && |t| > 0 && IsDigit(t[0]) && IsDigit(t[|t| - 1])
    && (forall i :: 0 <= i < |t| ==> IsDigit(t[i]) || t[i] == '_')
    && (forall i :: 0 <= i < |t| - 1 ==> t[i] == '_' ==> t[i + 1] != '_')
  }

  function DropUnderscores(t: string): (r: string)
    ensures (forall i :: 0 <= i < |t| ==> IsDigit(t[i]) || t[i] == '_') ==>
      forall i :: 0 <= i < |r| ==> IsDigit(r[i])
  {
    if |t| == 0 then "" else (if t[0] == '_' then "" else [t[0]]) + DropUnderscores(t[1..])
  }

  /** `int(t)` in base 10 on a stripped text: an optional sign, then digits
      that single underscores may group; leading zeros are allowed. */
  function PyInt(t: string): Option<int> {
    var negative := |t| > 0 && t[0] == '-';
    var digits := if |t| > 0 && (t[0] == '-' || t[0] == '+') then t[1..] else t;
    if UnderscoredDigits(digits) then
      var n: int := DigitsValue(DropUnderscores(digits));
      Some(if negative then -n else n)
    else None
  }

  lemma {:induction false} DropUnderscoresOfDigits(t: string)
    requires forall i :: 0 <= i < |t| ==> IsDigit(t[i])
    ensures DropUnderscores(t) == t
  {
    if |t| > 0 {
      DropUnderscoresOfDigits(t[1..]);
    }
  }

  /** What Python prints for an int, `int()` reads back. */
  lemma PyIntOfIntToString(n: int)
    ensures PyInt(IntToString(n)) == Some(n)
  {
    var m := if n < 0 then -n else n;
    var digits := NatToString(m);
    var t := IntToString(n);
    DropUnderscoresOfDigits(digits);
    DigitsValueOfNatToString(m);
    assert UnderscoredDigits(digits);
    if n < 0 {
      assert t == "-" + digits && t[1..] == digits;
    } else {
      assert t == digits && IsDigit(t[0]);
    }
  }

  /** Grouping and leading zeros: `int("-0_07")` is -7, and a doubled or
      trailing underscore is refused. */
  lemma PyIntExamples()
    ensures PyInt("-0_07") == Some(-7)
    ensures PyInt("1__0") == None && PyInt("10_") == None && PyInt("+") == None
  {
    assert "-0_07"[1..] == "0_07";
    assert UnderscoredDigits("0_07");
    assert DropUnderscores("0_07") == "007" by {
      assert "0_07"[1..] == "_07" && "_07"[1..] == "07" && "07"[1..] == "7" && "7"[1..] == "";
    }
    assert "007"[..2] == "00" && "00"[..1] == "0" && "0"[..0] == "";
    assert DigitsValue("007") == 7;
    assert !UnderscoredDigits("1__0") by { assert "1__0"[1] == '_' && "1__0"[2] == '_'; }
    assert !UnderscoredDigits("10_") by { assert "10_"[2] == '_'; }
  }

  /** The texts that `float()` accepts or that `json.loads` reads as a
      number, a list or a dict: never one that starts with a quote, which
      only a JSON string literal does. */
  ghost predicate OtherSound(other: string -> bool) {
    forall t :: other(t) ==> |t| > 0 && t[0] != '"'
  }

  /** `pref_value(v)` (lines 60-75): `None` is Python's `None`. `other`
      tells which texts the float and JSON branches turn into something
      other than a string. */
  function PrefValue(v: string, other: string -> bool): Option<Pref> {
    if v == "true" || v == "false" then Some(Bool(v == "true"))
    else if v == "null" then None
    else if PyInt(v).Some? then Some(Int(PyInt(v).value))
    else if other(v) then Some(Other(v))
    else match Json.Decode(v)
      case Some(s) => Some(Str(s))
      case None => Some(Str(v))
  }

  /** `json.dumps(value)` of a configured preference; an `Other` value is
      written as the text it was read from. */
  function DumpsPref(p: Pref): string {
    match p
    case Bool(b) => if b then "true" else "false"
    case Int(i) => IntToString(i)
    case Str(s) => Json.Dumps(s)
    case Other(t) => t
  }

  /** Writing a value and reading it back as an ini value gives the value
      again: booleans, ints and strings survive `pref_value`, and so does
      an `Other` that `pref_value` made. */
  lemma PrefValueDumps(p: Pref, other: string -> bool)
    requires OtherSound(other)
    requires p.Other? ==> PrefValue(p.text, other) == Some(p)
    ensures PrefValue(DumpsPref(p), other) == Some(p)
  {
    match p
    case Bool(b) =>
    case Int(i) =>
      PyIntOfIntToString(i);
      var t := IntToString(i);
      assert t != "true" && t != "false" && t != "null" by {
        assert t[0] == '-' || IsDigit(t[0]);
      }
    case Str(s) =>
      var t := Json.Dumps(s);
      assert t[0] == '"';
      assert PyInt(t).None? by {
        assert !UnderscoredDigits(t);
      }
      Json.DecodeDumps(s);
    case Other(t) =>
  }

  /** The order of the tries: the literal words first, then an int, and a
      text nothing else reads is kept as a string. */
  lemma PrefValueSpec(v: string, other: string -> bool)
    ensures PrefValue(v, other).None? <==> v == "null"
    ensures PrefValue(v, other) == Some(Bool(true)) <==> v == "true"
    ensures PrefValue(v, other) == Some(Bool(false)) <==> v == "false"
    ensures v != "true" && v != "false" && PyInt(v).Some? ==> PrefValue(v, other) == Some(Int(PyInt(v).value))
    ensures PyInt(v).None? && !other(v) && Json.Decode(v).None? && v != "true" && v != "false" && v != "null"
      ==> PrefValue(v, other) == Some(Str(v))
  {
    if v == "null" || v == "true" || v == "false" {
      assert !UnderscoredDigits(v) by { assert !IsDigit(v[0]); }
    }
  }

  // ---------------------------------------------------------------------
  // The configuration (lines 15-58)

  /** `os.path.expanduser` on POSIX. `home` is `$HOME`, or the current
      user's password entry when that is unset, `None` when neither is
      there; `homeOf` looks up another user's entry. */
  function ExpandUser(path: string, home: Option<string>, homeOf: string -> Option<string>): (r: string)
    ensures !StartsWith(path, "~") ==> r == path
  {
    if !StartsWith(path, "~") then path
    else
      var i := match IndexOfChar(path[1..], '/') case None => |path| case Some(j) => j + 1;
      var user := if i == 1 then home else homeOf(path[1..i]);
      match user
      case None => path
      case Some(h) =>
        var r := RStripSlash(h) + path[i..];
        if r == "" then "/" else r
  }

  /** `h.rstrip('/')`. */
  function RStripSlash(h: string): (r: string)
    ensures |r| <= |h| && r == h[..|r|] && (r == "" || r[|r| - 1] != '/')
    ensures forall i :: |r| <= i < |h| ==> h[i] == '/'
  {
    if |h| > 0 && h[|h| - 1] == '/' then RStripSlash(h[..|h| - 1]) else h
  }

  /** `~` and `~/rest` stand for the home directory without its trailing
      separators; an unknown home leaves the path alone, and an expanded
      path that starts with `/` is not expanded again. */
  lemma ExpandUserSpec(rest: string, home: Option<string>, homeOf: string -> Option<string>)
    ensures ExpandUser("~", home, homeOf) == match home
      case None => "~"
      case Some(h) => if RStripSlash(h) == "" then "/" else RStripSlash(h)
    ensures ExpandUser("~/" + rest, home, homeOf) == match home
      case None => "~/" + rest
      case Some(h) => RStripSlash(h) + "/" + rest
    ensures forall p :: StartsWith(p, "/") ==> ExpandUser(p, home, homeOf) == p
  {
    var p := "~/" + rest;
    assert p[1..] == "/" + rest;
    IndexOfCharAt(p[1..], '/', 0);
    assert p[1..] == "/" + rest;
    forall q | StartsWith(q, "/") ensures ExpandUser(q, home, homeOf) == q {
      assert q[0] == '/';
    }
  }

  /** `~name/rest` uses `name`'s home directory. */
  lemma ExpandOtherUser(name: string, rest: string, home: Option<string>, homeOf: string -> Option<string>)
    requires name != "" && '/' !in name
    ensures ExpandUser("~" + name + "/" + rest, home, homeOf) == match homeOf(name)
      case None => "~" + name + "/" + rest
      case Some(h) => RStripSlash(h) + "/" + rest
  {
    var p := "~" + name + "/" + rest;
    assert p[1..] == name + "/" + rest;
    assert p[1..][..|name|] == name;
    IndexOfCharAt(p[1..], '/', |name|);
    assert p[1..|name| + 1] == name;
    assert p[|name| + 1..] == "/" + rest;
  }

  /** A parsed `zotero-plugin.ini`: each section's options with their
      names as written, in file order. */
  type Ini = map<string, Records.Record<string>>

  /** How option names are keyed. `configparser` lower-cases them
      (`optionxform`), which is what the script gets; `Preserved` keeps
      them as written, which Firefox's case-sensitive preference names
      need. */
  datatype KeyForm = Lowered | Preserved

  function OptionKey(form: KeyForm, k: string): string {
    match form
    case Lowered => Lower(k)
    case Preserved => k
  }

  /** A section as `configparser` holds it with `strict = False`: a
      repeated option keeps its first place and its last value. */
  function Section(options: Records.Record<string>, form: KeyForm): Records.Record<string> {
    if |options| == 0 then []
    else
      var last := options[|options| - 1];
      Records.Put(Section(options[..|options| - 1], form), OptionKey(form, last.0), last.1)
  }

  lemma {:induction false} SectionUnique(options: Records.Record<string>, form: KeyForm)
    ensures Records.UniqueKeys(Section(options, form))
  {
    if |options| > 0 {
      var last := options[|options| - 1];
      SectionUnique(options[..|options| - 1], form);
      Records.PutSpec(Section(options[..|options| - 1], form), OptionKey(form, last.0), last.1);
    }
  }

  /** Options with distinct names are kept as written when names are
      preserved. */
  lemma {:induction false} SectionPreserved(options: Records.Record<string>)
    requires Records.UniqueKeys(options)
    ensures Section(options, Preserved) == options
  {
    if |options| > 0 {
      var front := options[..|options| - 1];
      var last := options[|options| - 1];
      SectionPreserved(front);
      assert last.0 !in Records.Keys(front);
      Records.PositionAbsent(front, last.0, 0);
    }
  }

  lemma LowerLower(s: string)
    ensures Lower(Lower(s)) == Lower(s)
  {
  }

  /** Lower-cased, every option name is free of capitals. */
  lemma {:induction false} SectionLowered(options: Records.Record<string>)
    ensures forall k :: k in Records.Keys(Section(options, Lowered)) ==> Lower(k) == k
  {
    if |options| > 0 {
      var front := options[..|options| - 1];
      var last := options[|options| - 1];
      SectionLowered(front);
      SectionUnique(front, Lowered);
      Records.PutSpec(Section(front, Lowered), Lower(last.0), last.1);
      LowerLower(last.0);
      var r := Section(options, Lowered);
      forall k | k in Records.Keys(r) ensures Lower(k) == k {
        if k != Lower(last.0) {
          assert Records.Lookup(r, k) == Records.Lookup(Section(front, Lowered), k);
        }
      }
    }
  }

  /** `config.get(section, option, fallback=None)`. */
  function Get(ini: Ini, section: string, option: string, form: KeyForm): Option<string> {
    if section in ini then Records.Lookup(Section(ini[section], form), OptionKey(form, option)) else None
  }

  /** Python truthiness of an optional string. */
  predicate Truthy(s: Option<string>) {
    s.Some? && s.value != ""
  }

  /** The machine the script runs on: `platform.system()` and what
      `expanduser` consults. */
  datatype Host = Host(system: string, home: Option<string>, homeOf: string -> Option<string>)

  function Expand(host: Host, path: string): string {
    ExpandUser(path, host.home, host.homeOf)
  }

  /** The attributes `Config.__init__` leaves behind. */
  datatype Settings = Settings(
    profilePath: string, profileName: Option<string>,
    zoteroPath: string, zoteroLog: Option<string>, db: Option<string>,
    preference: Records.Record<Option<Pref>>)

  /** The dict comprehension of line 47, one assignment per option. */
  function Converted(options: Records.Record<string>, other: string -> bool): Records.Record<Option<Pref>> {
    if |options| == 0 then []
    else
      var last := options[|options| - 1];
      Records.Put(Converted(options[..|options| - 1], other), last.0, PrefValue(last.1, other))
  }

  /** `pref_value` of an option's value, `None` for an absent option. */
  function ConvertedValue(v: Option<string>, other: string -> bool): Option<Option<Pref>> {
    match v
    case None => None
    case Some(t) => Some(PrefValue(t, other))
  }

  /** The comprehension keeps the options' names in their order and gives
      each the `pref_value` of its text. */
  lemma {:induction false} ConvertedSpec(options: Records.Record<string>, other: string -> bool)
    requires Records.UniqueKeys(options)
    ensures Records.UniqueKeys(Converted(options, other))
    ensures Records.Keys(Converted(options, other)) == Records.Keys(options)
    ensures forall k :: Records.Lookup(Converted(options, other), k) == ConvertedValue(Records.Lookup(options, k), other)
  {
    if |options| > 0 {
      var front := options[..|options| - 1];
      var last := options[|options| - 1];
      var c := Converted(front, other);
      ConvertedSpec(front, other);
      assert Records.Keys(options) == Records.Keys(front) + [last.0];
      assert last.0 !in Records.Keys(front);
      Records.PutSpec(c, last.0, PrefValue(last.1, other));
      forall k ensures Records.Lookup(Converted(options, other), k) == ConvertedValue(Records.Lookup(options, k), other) {
        if k == last.0 {
          Records.PositionIs(options, k, 0, |options| - 1);
        } else {
          Records.LookupFront(options, k);
        }
      }
    }
  }

  /** The preferences lines 52-58 always set, in their order; `None`
      deletes a preference the profile has. */
  const FIXED: Records.Record<Option<Pref>> := [
    ("extensions.autoDisableScopes", Some(Int(0))),
    ("extensions.enableScopes", Some(Int(15))),
    ("extensions.startupScanScopes", Some(Int(15))),
    ("extensions.zotero.debug.log", Some(Bool(true))),
    ("extensions.lastAppBuildId", None),
    ("extensions.lastAppVersion", None)]

  /** `self.preference` after line 58. */
  function Preferences(ini: Ini, form: KeyForm, other: string -> bool): Records.Record<Option<Pref>> {
    var configured := if "preferences" in ini then Converted(Section(ini["preferences"], form), other) else [];
    Records.PutAll(configured, FIXED)
  }

  /** The value the ini gives a key: `pref_value` of the option that key
      names, through `configparser`'s keying. */
  function Configured(ini: Ini, form: KeyForm, other: string -> bool, k: string): Option<Option<Pref>> {
    if "preferences" in ini then ConvertedValue(Records.Lookup(Section(ini["preferences"], form), k), other) else None
  }

  /** The six fixed preferences win over the ini; every other key reads
      as the ini gives it; the ini's keys come first, in their order. */
  lemma PreferencesSpec(ini: Ini, form: KeyForm, other: string -> bool)
    ensures var r := Preferences(ini, form, other);
      && Records.UniqueKeys(r)
      && (forall i :: 0 <= i < |FIXED| ==> Records.Lookup(r, FIXED[i].0) == Some(FIXED[i].1))
      && (forall k :: k !in Records.Keys(FIXED) ==> Records.Lookup(r, k) == Configured(ini, form, other, k))
      && ("preferences" in ini ==>
            |Section(ini["preferences"], form)| <= |r|
            && Records.Keys(r)[..|Section(ini["preferences"], form)|] == Records.Keys(Section(ini["preferences"], form)))
  {
    var configured := if "preferences" in ini then Converted(Section(ini["preferences"], form), other) else [];
    if "preferences" in ini {
      SectionUnique(ini["preferences"], form);
      ConvertedSpec(Section(ini["preferences"], form), other);
    }
    assert Records.UniqueKeys(FIXED);
    Records.PutAllSpec(configured, FIXED);
    forall i | 0 <= i < |FIXED| ensures Records.Lookup(Preferences(ini, form, other), FIXED[i].0) == Some(FIXED[i].1) {
      assert FIXED[i].0 in Records.Keys(FIXED);
      Records.PositionIs(FIXED, FIXED[i].0, 0, i);
    }
  }

  /** Line 47 as written: `configparser` lower-cases option names, so an
      ini preference whose name has a capital never reaches the profile
      under that name. */
  lemma LoweredLosesCapitals(ini: Ini, other: string -> bool, k: string)
    requires Lower(k) != k && k !in Records.Keys(FIXED)
    ensures Records.Lookup(Preferences(ini, Lowered, other), k) == None
  {
    PreferencesSpec(ini, Lowered, other);
    if "preferences" in ini {
      SectionLowered(ini["preferences"]);
    }
  }

  /** Line 47 with the names preserved: every configured preference other
      than the fixed six reads as `pref_value` of its own option. */
  lemma PreservedKeepsNames(ini: Ini, other: string -> bool, k: string)
    requires "preferences" in ini && Records.UniqueKeys(ini["preferences"])
    requires k !in Records.Keys(FIXED)
    ensures Records.Lookup(Preferences(ini, Preserved, other), k) == ConvertedValue(Records.Lookup(ini["preferences"], k), other)
  {
    PreferencesSpec(ini, Preserved, other);
    SectionPreserved(ini["preferences"]);
  }

  /** `Config.__init__` (lines 16-58). `ini` is `None` when the file is
      missing; `form` is how option names are keyed. */
  function Load(ini: Option<Ini>, host: Host, form: KeyForm, other: string -> bool): Result<Settings, string> {
    match ini
    case None => Err("cannot find zotero-plugin.ini")
    case Some(ini) =>
      if "profile" !in ini then Err("No section: 'profile'")
      else match Get(ini, "profile", "path", form)
        case None => Err("No option 'path' in section: 'profile'")
        case Some(path) =>
          var zpath := Get(ini, "zotero", "path", form);
          var log := Get(ini, "zotero", "log", form);
          var binary: Result<string, string> :=
            if Truthy(zpath) then Ok(Expand(host, zpath.value))
            else if host.system == "Darwin" then Ok("/Applications/Zotero.app/Contents/MacOS/zotero")
            else if host.system == "Linux" then Ok("/usr/lib/zotero/zotero")
            else Err(host.system + " not supported");
          match binary
          case Err(e) => Err(e)
          case Ok(zoteroPath) =>
            Ok(Settings(Expand(host, path), Get(ini, "profile", "name", form),
                        zoteroPath, if Truthy(log) then Some(Expand(host, log.value)) else log,
                        Get(ini, "profile", "db", form), Preferences(ini, form, other)))
  }

  /** The failures come in the order the script meets them, and a
      configured binary always wins over the platform default. */
  lemma LoadSpec(ini: Option<Ini>, host: Host, form: KeyForm, other: string -> bool)
    ensures ini.None? ==> Load(ini, host, form, other) == Err("cannot find zotero-plugin.ini")
    ensures ini.Some? && "profile" !in ini.value ==> Load(ini, host, form, other) == Err("No section: 'profile'")
    ensures Load(ini, host, form, other).Ok? <==>
      && ini.Some? && Get(ini.value, "profile", "path", form).Some?
      && (Truthy(Get(ini.value, "zotero", "path", form)) || host.system in {"Darwin", "Linux"})
    ensures Load(ini, host, form, other).Ok? ==>
      var s := Load(ini, host, form, other).value;
      && s.profilePath == Expand(host, Get(ini.value, "profile", "path", form).value)
      && s.preference == Preferences(ini.value, form, other)
      && (Truthy(Get(ini.value, "zotero", "path", form)) ==> s.zoteroPath == Expand(host, Get(ini.value, "zotero", "path", form).value))
      && (Truthy(s.zoteroLog) <==> Truthy(Get(ini.value, "zotero", "log", form)))
  {
    if ini.Some? {
      var i := ini.value;
      var log := Get(i, "zotero", "log", form);
      if Truthy(log) {
        assert !StartsWith(log.value, "~") ==> Expand(host, log.value) == log.value;
        ExpandNonEmpty(host, log.value);
      }
    }
  }

  lemma ExpandNonEmpty(host: Host, path: string)
    requires path != ""
    ensures Expand(host, path) != ""
  {
  }

  /** The configuration object. */
  class Config {
    var profilePath: string
    var profileName: Option<string>
    var zoteroPath: string
    var zoteroLog: Option<string>
    var db: Option<string>
    var preference: Records.Record<Option<Pref>>

    function State(): Settings
      reads this
    {
      Settings(profilePath, profileName, zoteroPath, zoteroLog, db, preference)
    }

    /** Lines 23-58 once the checks have passed. */
    constructor (profilePath: string, profileName: Option<string>, zoteroPath: string, zoteroLog: Option<string>,
                 db: Option<string>, options: Option<Records.Record<string>>, other: string -> bool)
      ensures State() == Settings(profilePath, profileName, zoteroPath, zoteroLog, db,
        Records.PutAll(if options.Some? then Converted(options.value, other) else [], FIXED))
    {
      this.profilePath := profilePath;
      this.profileName := profileName;
      this.zoteroPath := zoteroPath;
      this.zoteroLog := zoteroLog;
      this.db := db;
      var preference: Records.Record<Option<Pref>> := [];
      if options.Some? {
        var o := options.value;
        for i := 0 to |o|
          invariant preference == Converted(o[..i], other)
        {
          assert o[..i + 1][..i] == o[..i];
          preference := Records.Put(preference, o[i].0, PrefValue(o[i].1, other));
        }
        assert o[..|o|] == o;
      }
      ghost var configured := preference;
      for i := 0 to |FIXED|
        invariant preference == Records.PutAll(configured, FIXED[..i])
      {
        assert FIXED[..i + 1][..i] == FIXED[..i];
        preference := Records.Put(preference, FIXED[i].0, FIXED[i].1);
      }
      assert FIXED[..|FIXED|] == FIXED;
      this.preference := preference;
    }

    /** `Config()`: the checks of lines 18, 24 and 41, then the fields. */
    static method Create(ini: Option<Ini>, host: Host, form: KeyForm, other: string -> bool) returns (r: Result<Config, string>)
      ensures r.Ok? <==> Load(ini, host, form, other).Ok?
      ensures r.Err? ==> Load(ini, host, form, other) == Err(r.error)
      ensures r.Ok? ==> fresh(r.value) && r.value.State() == Load(ini, host, form, other).value
    {
      if ini.None? {
        return Err("cannot find zotero-plugin.ini");
      }
      var i := ini.value;
      if "profile" !in i {
        return Err("No section: 'profile'");
      }
      var path := Get(i, "profile", "path", form);
      if path.None? {
        return Err("No option 'path' in section: 'profile'");
      }
      var zoteroPath := Get(i, "zotero", "path", form);
      var log := Get(i, "zotero", "log", form);
      if Truthy(zoteroPath) {
        zoteroPath := Some(Expand(host, zoteroPath.value));
      } else if host.system == "Darwin" {
        zoteroPath := Some("/Applications/Zotero.app/Contents/MacOS/zotero");
      } else if host.system == "Linux" {
        zoteroPath := Some("/usr/lib/zotero/zotero");
      } else {
        return Err(host.system + " not supported");
      }
      if Truthy(log) {
        log := Some(Expand(host, log.value));
      }
      var options := if "preferences" in i then Some(Section(i["preferences"], form)) else None;
      var c := new Config(Expand(host, path.value), Get(i, "profile", "name", form), zoteroPath.value, log,
                          Get(i, "profile", "db", form), options, other);
      return Ok(c);
    }
  }

  // ---------------------------------------------------------------------
  // The `name()` scanner (lines 79-92)

  const PREFIX := "user_pref("
  const QUOTED := "user_pref(\""

  function Unexpected(line: string): string {
    "unexpected user pref: " + line
  }

  /** The first quote from `from` on that closes a span, from the opening
      quote at position 10, that `json.loads` accepts; the decoded span. */
  function FirstName(line: string, from: nat): Option<string>
    requires 10 <= from
    decreases |line| - from
  {
    if from >= |line| then None
    else if line[from] == '"' && Json.Decode(line[10..from + 1]).Some? then Json.Decode(line[10..from + 1])
    else FirstName(line, from + 1)
  }

  /** `name(line)`: `Ok(None)` for a line that is not a preference, the
      `ValueError` as `Err`. */
  function NameOf(line: string): Result<Option<string>, string> {
    if !StartsWith(line, PREFIX) then Ok(None)
    else if !StartsWith(line, QUOTED) then Err(Unexpected(line))
    else match FirstName(line, 11)
      case None => Err(Unexpected(line))
      case Some(n) => Ok(Some(n))
  }

  /** The character loop of lines 82-92. */
  method Name(line: string) returns (r: Result<Option<string>, string>)
    ensures r == NameOf(line)
  {
    if !StartsWith(line, PREFIX) {
      return Ok(None);
    }
    if !StartsWith(line, QUOTED) {
      return Err(Unexpected(line));
    }
    assert line[..11] == QUOTED;
    var open: Option<nat> := None;
    for i := 0 to |line|
      invariant open == (if i <= 10 then None else Some(10))
      invariant i > 10 ==> FirstName(line, 11) == FirstName(line, i)
    {
      if i < 10 {
        assert line[i] == QUOTED[i];
      }
      if line[i] == '"' {
        if open.None? {
          open := Some(i);
        } else {
          var d := Json.Decode(line[open.value..i + 1]);
          if d.Some? {
            return Ok(Some(d.value));
          }
        }
      }
    }
    return Err(Unexpected(line));
  }

  lemma {:induction false} FirstNameIs(line: string, from: nat, j: nat)
    requires 10 <= from <= j < |line| && line[j] == '"' && Json.Decode(line[10..j + 1]).Some?
    requires forall k :: from <= k < j ==> line[k] != '"' || Json.Decode(line[10..k + 1]).None?
    ensures FirstName(line, from) == Json.Decode(line[10..j + 1])
    decreases j - from
  {
    if from < j {
      FirstNameIs(line, from + 1, j);
    }
  }

  /** The line line 105 writes for a configured preference. */
  function PrefLine(key: string, p: Pref): string {
    PREFIX + Json.Dumps(key) + ", " + DumpsPref(p) + ");\n"
  }

  /** `name()` reads the key back from a line the script wrote: no quote
      inside the written key closes a literal that parses. */
  lemma NameOfWritten(key: string, p: Pref)
    ensures NameOf(PrefLine(key, p)) == Ok(Some(key))
  {
    var rest := ", " + DumpsPref(p) + ");\n";
    assert PrefLine(key, p) == PREFIX + Json.Dumps(key) + rest;
    NameOfDumped(key, rest);
  }

  /** Whatever follows the dumped key, `name()` stops at its closing quote. */
  lemma NameOfDumped(key: string, rest: string)
    ensures NameOf(PREFIX + Json.Dumps(key) + rest) == Ok(Some(key))
  {
    var d := Json.Dumps(key);
    var line := PREFIX + d + rest;
    assert line[..10] == PREFIX;
    assert d[0] == '"';
    assert line[..11] == QUOTED;
    var j := 9 + |d|;
    forall k | 11 <= k < j ensures line[k] != '"' || Json.Decode(line[10..k + 1]).None? {
      assert line[10..k + 1] == d[..k - 9];
      Json.DumpsShortest(key, k - 9);
    }
    assert line[10..j + 1] == d;
    Json.DecodeDumps(key);
    FirstNameIs(line, 11, j);
  }

  /** Lines that are not preferences have no name; a preference line whose
      key is not quoted, or whose quotes never close a literal, fails. */
  lemma NameOfSpec(line: string)
    ensures !StartsWith(line, PREFIX) ==> NameOf(line) == Ok(None)
    ensures StartsWith(line, PREFIX) && !StartsWith(line, QUOTED) ==> NameOf(line) == Err(Unexpected(line))
    ensures NameOf(line).Ok? && NameOf(line).value.Some? ==>
      exists j :: 10 < j < |line| && line[j] == '"' && Json.Decode(line[10..j + 1]) == NameOf(line).value
  {
    if StartsWith(line, QUOTED) && FirstName(line, 11).Some? {
      var j := FirstNameAt(line, 11);
    }
  }

  lemma {:induction false} FirstNameAt(line: string, from: nat) returns (j: nat)
    requires 10 <= from && FirstName(line, from).Some?
    ensures from <= j < |line| && line[j] == '"' && Json.Decode(line[10..j + 1]) == FirstName(line, from)
    decreases |line| - from
  {
    if line[from] == '"' && Json.Decode(line[10..from + 1]).Some? {
      j := from;
    } else {
      j := FirstNameAt(line, from + 1);
    }
  }

  // ---------------------------------------------------------------------
  // Reading and writing a prefs file (lines 94-108)

  /** Text-mode reading: `\r\n` and a lone `\r` both read as `\n`. */
  function Universal(t: string): (r: string)
    ensures '\r' !in r
    decreases |t|
  {
    if |t| == 0 then ""
    else if t[0] == '\r' then "\n" + Universal(if |t| > 1 && t[1] == '\n' then t[2..] else t[1..])
    else [t[0]] + Universal(t[1..])
  }

  lemma {:induction false} UniversalPlain(t: string)
    requires '\r' !in t
    ensures Universal(t) == t
  {
    if |t| > 0 {
      UniversalPlain(t[1..]);
    }
  }

  /** A text ends in a line break exactly when what text mode reads does. */
  lemma {:induction false} UniversalEnd(t: string)
    ensures |t| > 0 <==> |Universal(t)| > 0
    ensures |t| > 0 && (t[|t| - 1] == '\n' || t[|t| - 1] == '\r') <==> |Universal(t)| > 0 && Universal(t)[|Universal(t)| - 1] == '\n'
    decreases |t|
  {
    if |t| > 0 {
      var rest := if t[0] == '\r' && |t| > 1 && t[1] == '\n' then t[2..] else t[1..];
      UniversalEnd(rest);
      if |rest| > 0 {
        assert t[|t| - 1] == rest[|rest| - 1];
      }
    }
  }

  /** `f.readlines()`: each line keeps its `\n`; a last line without one
      is kept too. */
  function ReadLines(t: string): seq<string>
    decreases |t|
  {
    if |t| == 0 then []
    else match IndexOfChar(t, '\n')
      case None => [t]
      case Some(i) => [t[..i + 1]] + ReadLines(t[i + 1..])
  }

  /** `''.join(lines)`. */
  function Concat(lines: seq<string>): string {
    if |lines| == 0 then "" else Concat(lines[..|lines| - 1]) + lines[|lines| - 1]
  }

  lemma {:induction false} ConcatAppend(a: seq<string>, b: seq<string>)
    ensures Concat(a + b) == Concat(a) + Concat(b)
    decreases |b|
  {
    if |b| > 0 {
      assert (a + b)[..|a + b| - 1] == a + b[..|b| - 1];
      ConcatAppend(a, b[..|b| - 1]);
    } else {
      assert a + b == a;
    }
  }

  /** A line as `readlines` yields it: not empty, and its only line break,
      if any, at its end. */
  predicate LineShaped(l: string) {
    l != "" && '\n' !in l[..|l| - 1]
  }

  predicate Terminated(l: string) {
    l != "" && l[|l| - 1] == '\n'
  }

  /** Lines as `readlines` yields them: all but the last terminated. */
  predicate LinesShaped(ls: seq<string>) {
    forall i :: 0 <= i < |ls| ==> LineShaped(ls[i]) && (i < |ls| - 1 ==> Terminated(ls[i]))
  }

  /** Reading the lines and joining them gives the text back. */
  lemma {:induction false} ReadLinesJoin(t: string)
    ensures Concat(ReadLines(t)) == t
    decreases |t|
  {
    if |t| > 0 {
      match IndexOfChar(t, '\n')
      case None =>
        ConcatOne(t);
      case Some(i) =>
        var l, r := t[..i + 1], t[i + 1..];
        assert ReadLines(t) == [l] + ReadLines(r);
        ReadLinesJoin(r);
        ConcatAppend([l], ReadLines(r));
        ConcatOne(l);
        assert t == l + r;
    }
  }

  lemma ConcatOne(l: string)
    ensures Concat([l]) == l
  {
    assert [l][..0] == [];
  }

  /** The lines are shaped as `readlines` yields them. */
  lemma {:induction false} ReadLinesShaped(t: string)
    ensures LinesShaped(ReadLines(t))
    decreases |t|
  {
    if |t| > 0 {
      match IndexOfChar(t, '\n')
      case None =>
      case Some(i) =>
        var l := t[..i + 1];
        var rest := ReadLines(t[i + 1..]);
        ReadLinesShaped(t[i + 1..]);
        assert l[..i] == t[..i];
        ShapedCons(l, rest);
    }
  }

  lemma ShapedCons(l: string, rest: seq<string>)
    requires LineShaped(l) && Terminated(l) && LinesShaped(rest)
    ensures LinesShaped([l] + rest)
  {
    var ls := [l] + rest;
    forall k | 1 <= k < |ls| ensures ls[k] == rest[k - 1] {
    }
  }

  /** All lines are terminated when the text ends with a line break. */
  lemma {:induction false} ReadLinesTerminated(t: string)
    requires t == "" || t[|t| - 1] == '\n'
    ensures forall i :: 0 <= i < |ReadLines(t)| ==> Terminated(ReadLines(t)[i])
    decreases |t|
  {
    if |t| > 0 {
      match IndexOfChar(t, '\n')
      case None =>
      case Some(i) =>
        var rest := ReadLines(t[i + 1..]);
        if t[i + 1..] != "" {
          assert t[|t| - 1] == t[i + 1..][|t[i + 1..]| - 1];
        }
        ReadLinesTerminated(t[i + 1..]);
        var ls := ReadLines(t);
        assert ls == [t[..i + 1]] + rest;
        forall k | 1 <= k < |ls| ensures ls[k] == rest[k - 1] {
        }
    }
  }

  /** The lines hold no character the text does not. */
  lemma {:induction false} ReadLinesChars(t: string, c: char)
    requires c !in t
    ensures forall i :: 0 <= i < |ReadLines(t)| ==> c !in ReadLines(t)[i]
    decreases |t|
  {
    if |t| > 0 {
      match IndexOfChar(t, '\n')
      case None =>
      case Some(i) =>
        var rest := ReadLines(t[i + 1..]);
        assert c !in t[i + 1..] && c !in t[..i + 1];
        ReadLinesChars(t[i + 1..], c);
        var ls := ReadLines(t);
        assert ls == [t[..i + 1]] + rest;
        forall k | 1 <= k < |ls| ensures ls[k] == rest[k - 1] {
        }
    }
  }

  /** A terminated line is read off the front of a text. */
  lemma ReadLinesFront(l: string, rest: string)
    requires LineShaped(l) && Terminated(l)
    ensures ReadLines(l + rest) == [l] + ReadLines(rest)
  {
    var t := l + rest;
    assert t[..|l| - 1] == l[..|l| - 1];
    IndexOfCharAt(t, '\n', |l| - 1);
    assert t[..|l|] == l && t[|l|..] == rest;
  }

  /** A lone line is read whole. */
  lemma ReadLinesOne(l: string)
    requires LineShaped(l)
    ensures ReadLines(l) == [l]
  {
    if Terminated(l) {
      ReadLinesFront(l, "");
      assert l + "" == l;
    } else {
      assert '\n' !in l by {
        assert l == l[..|l| - 1] + [l[|l| - 1]];
      }
    }
  }

  /** Lines shaped as `readlines` yields them are what it reads from their
      join. */
  lemma {:induction false} ReadLinesConcat(ls: seq<string>)
    requires LinesShaped(ls)
    ensures ReadLines(Concat(ls)) == ls
    decreases |ls|
  {
    if |ls| == 1 {
      assert ls[..0] == [];
      assert Concat(ls) == Concat([]) + ls[0] == ls[0];
      assert LineShaped(ls[0]);
      ReadLinesOne(ls[0]);
      assert ls == [ls[0]];
    } else if |ls| > 1 {
      var rest := ls[1..];
      assert LinesShaped(rest) by {
        forall i | 0 <= i < |rest| ensures LineShaped(rest[i]) && (i < |rest| - 1 ==> Terminated(rest[i])) {
          assert rest[i] == ls[i + 1];
        }
      }
      ReadLinesConcat(rest);
      assert ls == [ls[0]] + rest;
      ConcatAppend([ls[0]], rest);
      assert Concat([ls[0]]) == Concat([]) + ls[0];
      assert Concat(ls) == ls[0] + Concat(rest);
      assert LineShaped(ls[0]) && Terminated(ls[0]);
      ReadLinesFront(ls[0], Concat(rest));
      assert ReadLines(Concat(ls)) == [ls[0]] + rest;
    }
  }

  /** The configured keys of the preference dict. */
  predicate Keeps(preference: Records.Record<Option<Pref>>, name: Option<string>) {
    name.None? || name.value !in Records.Keys(preference)
  }

  /** The loop of lines 99-101: the lines whose name is not configured, in
      their order; the first line `name()` refuses stops the patch. */
  function Kept(lines: seq<string>, preference: Records.Record<Option<Pref>>): Result<seq<string>, string> {
    if |lines| == 0 then Ok([])
    else
      var last := lines[|lines| - 1];
      match Kept(lines[..|lines| - 1], preference)
      case Err(e) => Err(e)
      case Ok(kept) =>
        match NameOf(last)
        case Err(e) => Err(e)
        case Ok(n) => Ok(kept + (if Keeps(preference, n) then [last] else []))
  }

  lemma KeptStep(lines: seq<string>, i: nat, preference: Records.Record<Option<Pref>>)
    requires i < |lines|
    ensures Kept(lines[..i], preference).Err? ==> Kept(lines[..i + 1], preference) == Kept(lines[..i], preference)
    ensures Kept(lines[..i], preference).Ok? && NameOf(lines[i]).Err? ==>
      Kept(lines[..i + 1], preference) == Err(NameOf(lines[i]).error)
    ensures Kept(lines[..i], preference).Ok? && NameOf(lines[i]).Ok? ==>
      Kept(lines[..i + 1], preference) ==
        Ok(Kept(lines[..i], preference).value + (if Keeps(preference, NameOf(lines[i]).value) then [lines[i]] else []))
  {
    assert lines[..i + 1][..i] == lines[..i] && lines[..i + 1][i] == lines[i];
  }

  /** Once a line is refused, so is every longer run of lines. */
  lemma {:induction false} KeptRefused(lines: seq<string>, i: nat, preference: Records.Record<Option<Pref>>)
    requires i <= |lines| && Kept(lines[..i], preference).Err?
    ensures Kept(lines, preference) == Kept(lines[..i], preference)
    decreases |lines| - i
  {
    if i < |lines| {
      assert lines[..i + 1][..i] == lines[..i];
      KeptRefused(lines, i + 1, preference);
    } else {
      assert lines[..i] == lines;
    }
  }

  /** The loop of lines 103-105: one line per preference that is not
      `None`, in dict order. */
  function Appended(preference: Records.Record<Option<Pref>>): seq<string> {
    if |preference| == 0 then []
    else
      var last := preference[|preference| - 1];
      Appended(preference[..|preference| - 1]) + (if last.1.Some? then [PrefLine(last.0, last.1.value)] else [])
  }

  /** The new text of a prefs file. */
  function Patch(preference: Records.Record<Option<Pref>>, text: string, addConfig: bool): Result<string, string> {
    match Kept(ReadLines(Universal(text)), preference)
    case Err(e) => Err(e)
    case Ok(kept) => Ok(Concat(kept + (if addConfig then Appended(preference) else [])))
  }

  /** `patch_prefs` on a file with the given contents, `None` when it does
      not exist: `Ok(None)` leaves the file alone. */
  function PatchFile(preference: Records.Record<Option<Pref>>, contents: Option<string>, addConfig: bool): Result<Option<string>, string> {
    match contents
    case None => Ok(None)
    case Some(text) =>
      match Patch(preference, text, addConfig)
      case Err(e) => Err(e)
      case Ok(t) => Ok(Some(t))
  }

  /** `patch_prefs(prefs, add_config)` (lines 78-108): the file's path and
      what is written to it. */
  method PatchPrefs(config: Config, prefs: string, addConfig: bool, contents: Option<string>)
    returns (path: string, written: Result<Option<string>, string>)
    ensures path == Paths.JoinPath(config.profilePath, prefs + ".js")
    ensures written == PatchFile(config.preference, contents, addConfig)
  {
    path := Paths.JoinPath(config.profilePath, prefs + ".js");
    if contents.None? {
      return path, Ok(None);
    }
    var preference := config.preference;
    var kept := KeepLines(ReadLines(Universal(contents.value)), preference);
    if kept.Err? {
      return path, Err(kept.error);
    }
    var userPrefs := kept.value;
    if addConfig {
      userPrefs := AppendConfig(userPrefs, preference);
    } else {
      assert userPrefs + [] == userPrefs;
    }
    written := Ok(Some(Concat(userPrefs)));
  }

  /** The loop of lines 97-101: every line whose name is not configured is
      kept, in order, until `name()` refuses a line. */
  method KeepLines(lines: seq<string>, preference: Records.Record<Option<Pref>>) returns (r: Result<seq<string>, string>)
    ensures r == Kept(lines, preference)
  {
    var userPrefs: seq<string> := [];
    for i := 0 to |lines|
      invariant Kept(lines[..i], preference) == Ok(userPrefs)
    {
      var key := Name(lines[i]);
      KeptStep(lines, i, preference);
      if key.Err? {
        KeptRefused(lines, i + 1, preference);
        return Err(key.error);
      }
      if key.value.None? || key.value.value !in Records.Keys(preference) {
        userPrefs := userPrefs + [lines[i]];
      } else {
        assert userPrefs + [] == userPrefs;
      }
    }
    assert lines[..|lines|] == lines;
    r := Ok(userPrefs);
  }

  /** The loop of lines 102-105: the configured preferences that are not
      `None`, appended in dict order. */
  method AppendConfig(kept: seq<string>, preference: Records.Record<Option<Pref>>) returns (userPrefs: seq<string>)
    ensures userPrefs == kept + Appended(preference)
  {
    userPrefs := kept;
    for i := 0 to |preference|
      invariant userPrefs == kept + Appended(preference[..i])
    {
      assert preference[..i + 1][..i] == preference[..i];
      if preference[i].1.Some? {
        userPrefs := userPrefs + [PrefLine(preference[i].0, preference[i].1.value)];
      }
    }
    assert preference[..|preference|] == preference;
  }

  /** The lines the patch keeps: it succeeds exactly when `name()` reads
      every line, and then it keeps every line whose name is not a
      configured preference and only those; otherwise it stops at the
      first line `name()` refuses, with that line's error. The kept lines
      stay in their original order, as `Kept` and `KeepLines` build them. */
  lemma {:induction false} KeptSpec(lines: seq<string>, preference: Records.Record<Option<Pref>>)
    ensures Kept(lines, preference).Ok? <==> forall i :: 0 <= i < |lines| ==> NameOf(lines[i]).Ok?
    ensures Kept(lines, preference).Ok? ==>
      && (forall l :: l in Kept(lines, preference).value ==> l in lines && NameOf(l).Ok? && Keeps(preference, NameOf(l).value))
      && (forall i :: 0 <= i < |lines| && NameOf(lines[i]).Ok? && Keeps(preference, NameOf(lines[i]).value) ==>
            lines[i] in Kept(lines, preference).value)
    ensures Kept(lines, preference).Err? ==>
      exists i :: 0 <= i < |lines| && NameOf(lines[i]) == Err(Kept(lines, preference).error)
        && forall j :: 0 <= j < i ==> NameOf(lines[j]).Ok?
  {
    if |lines| > 0 {
      var n := |lines| - 1;
      var front := lines[..n];
      var last := lines[n];
      KeptSpec(front, preference);
      assert lines == front + [last];
      assert forall i :: 0 <= i < n ==> lines[i] == front[i];
      match Kept(front, preference)
      case Err(e) =>
        var i :| 0 <= i < |front| && NameOf(front[i]) == Err(e) && forall j :: 0 <= j < i ==> NameOf(front[j]).Ok?;
        assert NameOf(lines[i]) == Err(e);
      case Ok(kept) =>
        if NameOf(last).Err? {
          assert NameOf(lines[n]) == Err(Kept(lines, preference).error);
        } else {
          var r := Kept(lines, preference).value;
          forall l | l in r ensures l in lines && NameOf(l).Ok? && Keeps(preference, NameOf(l).value) {
            if l in kept {
              var k :| 0 <= k < |front| && front[k] == l;
              assert lines[k] == l;
            }
          }
        }
    }
  }

  /** The lines the patch adds: one for each preference that is not
      `None` and no other. */
  lemma {:induction false} AppendedSpec(preference: Records.Record<Option<Pref>>)
    ensures |Appended(preference)| <= |preference|
    ensures forall l :: l in Appended(preference) <==>
      exists i :: 0 <= i < |preference| && preference[i].1.Some? && l == PrefLine(preference[i].0, preference[i].1.value)
  {
    if |preference| > 0 {
      var n := |preference| - 1;
      var front := preference[..n];
      AppendedSpec(front);
      assert forall i :: 0 <= i < n ==> preference[i] == front[i];
      forall l | l in Appended(preference)
        ensures exists i :: 0 <= i < |preference| && preference[i].1.Some? && l == PrefLine(preference[i].0, preference[i].1.value)
      {
        if l in Appended(front) {
          var i :| 0 <= i < |front| && front[i].1.Some? && l == PrefLine(front[i].0, front[i].1.value);
          assert preference[i] == front[i];
        } else {
          assert preference[n].1.Some? && l == PrefLine(preference[n].0, preference[n].1.value);
        }
      }
      forall i | 0 <= i < |preference| && preference[i].1.Some?
        ensures PrefLine(preference[i].0, preference[i].1.value) in Appended(preference)
      {
        if i < n {
          assert preference[i] == front[i];
        }
      }
    }
  }

  /** Every added line names a configured preference. */
  lemma AppendedNamed(preference: Records.Record<Option<Pref>>)
    ensures forall l :: l in Appended(preference) ==> NameOf(l).Ok? && !Keeps(preference, NameOf(l).value)
  {
    AppendedSpec(preference);
    forall l | l in Appended(preference) ensures NameOf(l).Ok? && !Keeps(preference, NameOf(l).value) {
      var i :| 0 <= i < |preference| && preference[i].1.Some? && l == PrefLine(preference[i].0, preference[i].1.value);
      NameOfWritten(preference[i].0, preference[i].1.value);
      assert preference[i].0 in Records.Keys(preference);
    }
  }

  /** Lines that are all kept followed by lines that are all dropped leave
      the first ones. */
  lemma {:induction false} KeptThenDropped(xs: seq<string>, ys: seq<string>, preference: Records.Record<Option<Pref>>)
    requires forall l :: l in xs ==> NameOf(l).Ok? && Keeps(preference, NameOf(l).value)
    requires forall l :: l in ys ==> NameOf(l).Ok? && !Keeps(preference, NameOf(l).value)
    ensures Kept(xs + ys, preference) == Ok(xs)
    decreases |xs| + |ys|
  {
    if |ys| > 0 {
      var front := ys[..|ys| - 1];
      assert (xs + ys)[..|xs + ys| - 1] == xs + front;
      assert ys[|ys| - 1] in ys;
      KeptThenDropped(xs, front, preference);
      assert xs + [] == xs;
    } else if |xs| > 0 {
      var front := xs[..|xs| - 1];
      assert xs + ys == xs;
      assert xs[|xs| - 1] in xs;
      KeptThenDropped(front, [], preference);
      assert front + [] == front;
      assert front + [xs[|xs| - 1]] == xs;
    }
  }

  /** The kept lines are shaped as `readlines` yields them when the lines
      were, and all terminated when those were. */
  lemma {:induction false} KeptShaped(lines: seq<string>, preference: Records.Record<Option<Pref>>)
    requires Kept(lines, preference).Ok? && LinesShaped(lines)
    ensures LinesShaped(Kept(lines, preference).value)
    ensures (forall i :: 0 <= i < |lines| ==> Terminated(lines[i])) ==>
      forall i :: 0 <= i < |Kept(lines, preference).value| ==> Terminated(Kept(lines, preference).value[i])
  {
    if |lines| > 0 {
      var n := |lines| - 1;
      var front := lines[..n];
      assert forall i :: 0 <= i < n ==> lines[i] == front[i];
      assert LinesShaped(front);
      KeptShaped(front, preference);
      forall i | 0 <= i < |front| ensures Terminated(front[i]) {
        assert front[i] == lines[i];
      }
      var kept := Kept(front, preference).value;
      var r := Kept(lines, preference).value;
      assert r == kept || r == kept + [lines[n]];
      forall i | 0 <= i < |r| ensures LineShaped(r[i]) && (i < |r| - 1 ==> Terminated(r[i])) {
        if i < |kept| {
          assert r[i] == kept[i];
        }
      }
    }
  }

  /** No line break or carriage return but the final one in a written
      line. */
  lemma PrefLineShaped(key: string, p: Pref)
    requires p.Other? ==> '\n' !in p.text && '\r' !in p.text
    ensures LineShaped(PrefLine(key, p)) && Terminated(PrefLine(key, p)) && '\r' !in PrefLine(key, p)
  {
    var d := Json.Dumps(key);
    var v := DumpsPref(p);
    Json.DumpsPrintable(key);
    PrintableUnbroken(d);
    ValueUnbroken(p);
    var body := PREFIX + d + ", " + v + ");";
    assert '\n' !in body && '\r' !in body;
    assert PrefLine(key, p) == body + "\n";
    assert PrefLine(key, p)[..|PrefLine(key, p)| - 1] == body;
  }

  /** Printable text holds no line break or carriage return. */
  lemma PrintableUnbroken(s: string)
    requires Json.Printable(s)
    ensures '\n' !in s && '\r' !in s
  {
    forall i | 0 <= i < |s| ensures s[i] != '\n' && s[i] != '\r' {
      assert ' ' <= s[i];
    }
  }

  /** A written value holds no line break or carriage return. */
  lemma ValueUnbroken(p: Pref)
    requires p.Other? ==> '\n' !in p.text && '\r' !in p.text
    ensures '\n' !in DumpsPref(p) && '\r' !in DumpsPref(p)
  {
    match p
    case Bool(b) =>
    case Str(s) =>
      Json.DumpsPrintable(s);
      PrintableUnbroken(Json.Dumps(s));
    case Int(i) =>
      var t := IntToString(i);
      var m := NatToString(if i < 0 then -i else i);
      assert t == m || t == "-" + m;
      assert Json.Printable(t);
      PrintableUnbroken(t);
    case Other(t) =>
  }

  lemma {:induction false} ConcatFree(ls: seq<string>, c: char)
    requires forall i :: 0 <= i < |ls| ==> c !in ls[i]
    ensures c !in Concat(ls)
  {
    if |ls| > 0 {
      ConcatFree(ls[..|ls| - 1], c);
    }
  }

  /** Written values that an `Other` text with a line break would break. */
  predicate OneLineValues(preference: Records.Record<Option<Pref>>) {
    forall i :: 0 <= i < |preference| && preference[i].1.Some? && preference[i].1.value.Other? ==>
      '\n' !in preference[i].1.value.text && '\r' !in preference[i].1.value.text
  }

  /** The added lines are single, terminated lines that name their
      preference. */
  lemma AppendedShaped(preference: Records.Record<Option<Pref>>)
    requires OneLineValues(preference)
    ensures forall l :: l in Appended(preference) ==>
      LineShaped(l) && Terminated(l) && '\r' !in l && NameOf(l).Ok? && !Keeps(preference, NameOf(l).value)
  {
    AppendedSpec(preference);
    AppendedNamed(preference);
    forall l | l in Appended(preference) ensures LineShaped(l) && Terminated(l) && '\r' !in l {
      var i :| 0 <= i < |preference| && preference[i].1.Some? && l == PrefLine(preference[i].0, preference[i].1.value);
      PrefLineShaped(preference[i].0, preference[i].1.value);
    }
  }

  lemma ShapedJoin(ks: seq<string>, ap: seq<string>)
    requires LinesShaped(ks)
    requires |ap| > 0 ==> forall i :: 0 <= i < |ks| ==> Terminated(ks[i])
    requires forall l :: l in ap ==> LineShaped(l) && Terminated(l)
    ensures LinesShaped(ks + ap)
  {
    var all := ks + ap;
    forall i | 0 <= i < |all| ensures LineShaped(all[i]) && (i < |all| - 1 ==> Terminated(all[i])) {
      if i >= |ks| {
        assert all[i] == ap[i - |ks|] && all[i] in ap;
      } else {
        assert all[i] == ks[i];
      }
    }
  }

  /** Patching a patched file changes nothing: the kept lines are kept
      again, the added lines are dropped as configured and added back. With
      additions this needs the file to end with a line break (or be empty),
      since the first added line is otherwise glued to its last line. */
  lemma PatchIdempotent(preference: Records.Record<Option<Pref>>, text: string, addConfig: bool)
    requires Patch(preference, text, addConfig).Ok?
    requires addConfig ==> text == "" || text[|text| - 1] == '\n' || text[|text| - 1] == '\r'
    requires OneLineValues(preference)
    ensures Patch(preference, Patch(preference, text, addConfig).value, addConfig) == Patch(preference, text, addConfig)
  {
    var u := Universal(text);
    var ls := ReadLines(u);
    ReadLinesShaped(u);
    KeptSpec(ls, preference);
    KeptShaped(ls, preference);
    var ks := Kept(ls, preference).value;
    var ap := if addConfig then Appended(preference) else [];
    var all := ks + ap;
    var out := Concat(all);
    assert Patch(preference, text, addConfig) == Ok(out);
    AppendedShaped(preference);
    if addConfig {
      UniversalEnd(text);
      ReadLinesTerminated(u);
    }
    ShapedJoin(ks, ap);
    assert '\r' !in out by {
      ReadLinesChars(u, '\r');
      forall i | 0 <= i < |all| ensures '\r' !in all[i] {
        assert all[i] in ks || all[i] in ap;
      }
      ConcatFree(all, '\r');
    }
    UniversalPlain(out);
    ReadLinesConcat(all);
    KeptThenDropped(ks, ap, preference);
  }

  /** A missing file is left alone, and a file `name()` cannot read is not
      rewritten. */
  lemma PatchFileSpec(preference: Records.Record<Option<Pref>>, contents: Option<string>, addConfig: bool)
    ensures contents.None? ==> PatchFile(preference, contents, addConfig) == Ok(None)
    ensures contents.Some? ==>
      (PatchFile(preference, contents, addConfig).Err? <==>
        exists l :: l in ReadLines(Universal(contents.value)) && NameOf(l).Err?)
  {
    if contents.Some? {
      var ls := ReadLines(Universal(contents.value));
      KeptSpec(ls, preference);
      if exists l :: l in ls && NameOf(l).Err? {
        var l :| l in ls && NameOf(l).Err?;
        var i :| 0 <= i < |ls| && ls[i] == l;
      }
    }
  }

  // ---------------------------------------------------------------------
  // The launch command (lines 129-133)

  /** The characters `shlex.quote` leaves unquoted. */
  predicate ShellSafe(c: char) {
    IsAsciiAlnum(c) || c in "_@%+=:,./-"
  }

  predicate AllSafe(s: string) {
    forall i :: 0 <= i < |s| ==> ShellSafe(s[i])
  }

  /** Each `'` of a single-quoted text closed, written in double quotes,
      and reopened. */
  function Escape(s: string): string {
    if |s| == 0 then ""
    else (if s[0] == '\'' then "'\"'\"'" else [s[0]]) + Escape(s[1..])
  }

  /** `shlex.quote(s)`. */
  function Quote(s: string): string {
    if s == "" then "''"
    else if AllSafe(s) then s
    else "'" + Escape(s) + "'"
  }

  function PrependText(a: string, r: Option<string>): Option<string> {
    match r
    case None => None
    case Some(t) => Some(a + t)
  }

  /** How a POSIX shell reads one word made of unquoted safe characters,
      single-quoted runs, and double-quoted runs free of `\`, `$` and a
      backquote; `None` for anything else. */
  function Word(w: string): Option<string>
    decreases |w|
  {
    if |w| == 0 then Some("")
    else if w[0] == '\'' then
      match IndexOfChar(w[1..], '\'')
      case None => None
      case Some(j) => PrependText(w[1..j + 1], Word(w[j + 2..]))
    else if w[0] == '"' then
      match IndexOfChar(w[1..], '"')
      case None => None
      case Some(j) =>
        if '\\' in w[1..j + 1] || '$' in w[1..j + 1] || '`' in w[1..j + 1] then None
        else PrependText(w[1..j + 1], Word(w[j + 2..]))
    else if ShellSafe(w[0]) then PrependText([w[0]], Word(w[1..]))
    else None
  }

  lemma {:induction false} WordSafe(s: string)
    requires AllSafe(s)
    ensures Word(s) == Some(s)
  {
    if |s| > 0 {
      assert ShellSafe(s[0]) && s[0] != '\'' && s[0] != '"';
      assert AllSafe(s[1..]) by {
        forall i | 0 <= i < |s[1..]| ensures ShellSafe(s[1..][i]) {
          assert s[1..][i] == s[i + 1];
        }
      }
      WordSafe(s[1..]);
      assert [s[0]] + s[1..] == s;
    }
  }

  lemma {:induction false} EscapeAppend(a: string, b: string)
    ensures Escape(a + b) == Escape(a) + Escape(b)
  {
    if |a| > 0 {
      assert (a + b)[1..] == a[1..] + b;
      EscapeAppend(a[1..], b);
    } else {
      assert a + b == b;
    }
  }

  lemma {:induction false} EscapePlain(s: string)
    requires '\'' !in s
    ensures Escape(s) == s
  {
    if |s| > 0 {
      EscapePlain(s[1..]);
    }
  }

  /** A single-quoted run is read up to its closing quote. */
  lemma WordSingle(a: string, rest: string)
    requires '\'' !in a
    ensures Word("'" + a + "'" + rest) == PrependText(a, Word(rest))
  {
    var w := "'" + a + "'" + rest;
    assert w[1..] == a + "'" + rest;
    assert (a + "'" + rest)[..|a|] == a;
    IndexOfCharAt(w[1..], '\'', |a|);
    assert w[1..|a| + 1] == a && w[|a| + 2..] == rest;
  }

  /** A quote in double quotes reads as itself. */
  lemma WordDoubleQuote(rest: string)
    ensures Word("\"'\"" + rest) == PrependText("'", Word(rest))
  {
    var w := "\"'\"" + rest;
    assert w[1..] == "'\"" + rest;
    IndexOfCharAt(w[1..], '"', 1);
    assert w[1..2] == "'" && w[3..] == rest;
  }

  /** The escape of a text whose first quote is at `i`: the plain run, the
      closed quote, a double-quoted quote, and the escape of the rest. */
  lemma EscapeAtQuote(s: string, i: nat)
    requires IndexOfChar(s, '\'') == Some(i)
    ensures "'" + Escape(s) + "'"
      == "'" + s[..i] + "'" + ("\"'\"" + ("'" + Escape(s[i + 1..]) + "'"))
  {
    var a, b := s[..i], s[i + 1..];
    assert s == a + ("'" + b);
    EscapeAppend(a, "'" + b);
    assert ("'" + b)[0] == '\'' && ("'" + b)[1..] == b;
    assert Escape("'" + b) == "'\"'\"'" + Escape(b);
    EscapePlain(a);
    assert "'\"'\"'" == "'" + "\"'\"" + "'";
    Regroup("'", a, "\"'\"", Escape(b));
  }

  lemma Regroup(q: string, a: string, d: string, e: string)
    ensures q + (a + ((q + d + q) + e)) + q == q + a + q + (d + (q + e + q))
  {
  }

  /** A single-quoted escaped text reads back as the text. */
  lemma {:induction false} WordEscaped(s: string)
    ensures Word("'" + Escape(s) + "'") == Some(s)
    decreases |s|
  {
    match IndexOfChar(s, '\'')
    case None =>
      EscapePlain(s);
      WordSingle(s, "");
      assert "'" + Escape(s) + "'" == "'" + s + "'" + "";
      assert Word("") == Some("");
      assert s + "" == s;
    case Some(i) =>
      var a, b := s[..i], s[i + 1..];
      assert s == a + ("'" + b);
      EscapeAtQuote(s, i);
      var w3 := "'" + Escape(b) + "'";
      WordSingle(a, "\"'\"" + w3);
      WordDoubleQuote(w3);
      WordEscaped(b);
      assert a + ("'" + b) == s;
  }

  /** The shell reads the quoted text as one word, the text itself. */
  lemma QuoteRead(s: string)
    ensures Word(Quote(s)) == Some(s)
  {
    if s == "" {
      WordSingle("", "");
      assert Quote(s) == "'" + "" + "'" + "";
      assert Word("") == Some("");
      assert "" + "" == "";
    } else if AllSafe(s) {
      WordSafe(s);
    } else {
      WordEscaped(s);
    }
  }

  /** The text after `-P`, and the redirection. */
  function NameArg(name: Option<string>): string {
    if Truthy(name) then " " + Quote(name.value) else ""
  }

  function LogArg(log: Option<string>): string {
    if Truthy(log) then " > " + Quote(log.value) else ""
  }

  const PURGE := " -purgecaches -P"
  const FLAGS := " -jsconsole -ZoteroDebugText"
  const DATADIR := " -datadir profile"

  /** `cmd` of lines 129-133. */
  function Command(s: Settings): string {
    s.zoteroPath + PURGE + NameArg(s.profileName) + FLAGS + DATADIR + LogArg(s.zoteroLog) + " &"
  }

  /** The command starts the configured binary, names the profile with a
      word the shell reads back as its name, redirects output only when a
      log is configured, to a word that reads back as the log path, and
      always runs in the background. */
  lemma CommandSpec(s: Settings)
    ensures StartsWith(Command(s), s.zoteroPath + PURGE)
    ensures EndsWith(Command(s), " &")
    ensures Truthy(s.profileName) ==>
      var k := |s.zoteroPath + PURGE| + 1;
      var q := Quote(s.profileName.value);
      k + |q| <= |Command(s)| && Command(s)[k - 1] == ' ' && Command(s)[k..k + |q|] == q && Word(q) == s.profileName
    ensures !Truthy(s.zoteroLog) ==> EndsWith(Command(s), DATADIR + " &")
    ensures Truthy(s.zoteroLog) ==>
      EndsWith(Command(s), " > " + Quote(s.zoteroLog.value) + " &") && Word(Quote(s.zoteroLog.value)) == s.zoteroLog
  {
    CommandHead(s);
    CommandName(s);
    CommandTail(s);
  }

  lemma CommandHead(s: Settings)
    ensures StartsWith(Command(s), s.zoteroPath + PURGE)
  {
    var head := s.zoteroPath + PURGE;
    var x1 := head + NameArg(s.profileName);
    var x2 := x1 + FLAGS;
    var x3 := x2 + DATADIR;
    var x4 := x3 + LogArg(s.zoteroLog);
    PrefixExtend(head, head, NameArg(s.profileName));
    PrefixExtend(x1, head, FLAGS);
    PrefixExtend(x2, head, DATADIR);
    PrefixExtend(x3, head, LogArg(s.zoteroLog));
    PrefixExtend(x4, head, " &");
  }

  lemma PrefixExtend(a: string, p: string, b: string)
    requires StartsWith(a, p) || a == p
    ensures StartsWith(a + b, p)
  {
    assert (a + b)[..|p|] == a[..|p|];
  }

  lemma PrefixOfAppend(a: string, b: string)
    ensures StartsWith(a + b, a)
  {
    assert (a + b)[..|a|] == a;
  }

  lemma SuffixOfAppend(a: string, b: string)
    ensures EndsWith(a + b, b)
  {
    assert (a + b)[|a|..] == b;
  }

  lemma CommandName(s: Settings)
    ensures Truthy(s.profileName) ==>
      var k := |s.zoteroPath + PURGE| + 1;
      var q := Quote(s.profileName.value);
      k + |q| <= |Command(s)| && Command(s)[k - 1] == ' ' && Command(s)[k..k + |q|] == q && Word(q) == s.profileName
  {
    if Truthy(s.profileName) {
      var pre := s.zoteroPath + PURGE;
      var q := Quote(s.profileName.value);
      var x := pre + NameArg(s.profileName);
      var c := Command(s);
      var k := |pre| + 1;
      QuoteRead(s.profileName.value);
      assert NameArg(s.profileName) == " " + q;
      assert |c| >= |x| && forall i :: 0 <= i < |x| ==> c[i] == x[i];
      assert c[k - 1] == x[k - 1] == ' ';
      forall j | 0 <= j < |q| ensures c[k..k + |q|][j] == q[j] {
        assert c[k + j] == x[k + j];
      }
    }
  }

  lemma CommandTail(s: Settings)
    ensures EndsWith(Command(s), " &")
    ensures !Truthy(s.zoteroLog) ==> EndsWith(Command(s), DATADIR + " &")
    ensures Truthy(s.zoteroLog) ==>
      EndsWith(Command(s), " > " + Quote(s.zoteroLog.value) + " &") && Word(Quote(s.zoteroLog.value)) == s.zoteroLog
  {
    var x3 := s.zoteroPath + PURGE + NameArg(s.profileName) + FLAGS + DATADIR;
    SuffixOfAppend(x3 + LogArg(s.zoteroLog), " &");
    if Truthy(s.zoteroLog) {
      QuoteRead(s.zoteroLog.value);
      var tail := " > " + Quote(s.zoteroLog.value) + " &";
      assert Command(s) == x3 + tail;
      SuffixOfAppend(x3, tail);
    } else {
      assert Command(s) == x3 + "" + " &";
      assert x3 + "" + " &" == (s.zoteroPath + PURGE + NameArg(s.profileName) + FLAGS) + (DATADIR + " &");
      SuffixOfAppend(s.zoteroPath + PURGE + NameArg(s.profileName) + FLAGS, DATADIR + " &");
    }
  }

  // ---------------------------------------------------------------------
  // The proxy file and the script (lines 110-135)

  /** `sources` of lines 125-126: the build directory with a trailing
      separator. */
  function Sources(cwd: string): (r: string)
    ensures EndsWith(r, "/")
  {
    var s := Paths.JoinPath(cwd, "build");
    if s[|s| - 1] != '/' then s + "/" else s
  }

  /** The proxy file always names the build directory of the working
      directory, with a trailing separator. */
  lemma SourcesSpec(cwd: string)
    ensures cwd != "" && !EndsWith(cwd, "/") ==> Sources(cwd) == cwd + "/build/"
    ensures EndsWith(cwd, "/") ==> Sources(cwd) == cwd + "build/"
    ensures cwd == "" ==> Sources(cwd) == "build/"
  {
  }

  /** What the script does to the world, in order. */
  datatype Step = Write(path: string, text: string) | CopyFile(from: string, to: string) | Shell(cmd: string)

  /** How the script ends: it runs to its last line, or raises with the
      exception's message. */
  datatype End = Finished | Raised(message: string)

  /** The steps the script took, in order, and how it ended. */
  datatype Outcome = Outcome(steps: seq<Step>, end: End)

  const BUILD := "npm run build"

  /** Line 124 reads `plugin_path`, which only the loop of lines 122-123
      binds. */
  const NO_PLUGIN_PATH := "name 'plugin_path' is not defined"

  /** `system(cmd)` of lines 113-115 passes `check=True`, so a command that
      exits with a status other than 0 raises; which status it was is not
      part of the model. */
  function Failed(cmd: string): string {
    "Command '" + cmd + "' returned non-zero exit status"
  }

  /** A patch that found its file becomes a write. */
  function PatchStep(path: string, r: Option<string>): seq<Step> {
    match r
    case None => []
    case Some(t) => [Write(path, t)]
  }

  /** Lines 117-120: the build, then the database copy when one is
      configured. */
  function Prelude(s: Settings): seq<Step> {
    [Shell(BUILD)] + if Truthy(s.db) then [CopyFile(s.db.value, Paths.JoinPath(Paths.JoinPath(s.profilePath, "zotero"), "zotero.sqlite"))] else []
  }

  /** Lines 124-126: the proxy file for `id` names the build directory. */
  function Proxy(s: Settings, cwd: string, id: string): Step {
    Write(Paths.JoinPath(Paths.JoinPath(s.profilePath, "extensions"), id), Sources(cwd) + "\n")
  }

  /** Lines 117-135: build, copy the database, write the proxy file for the
      last id `install.rdf` lists, launch. `succeeds(cmd)` says whether the
      shell command `cmd` exits with status 0. */
  function Launch(s: Settings, cwd: string, ids: seq<string>, succeeds: string -> bool): Outcome {
    if !succeeds(BUILD) then Outcome([Shell(BUILD)], Raised(Failed(BUILD)))
    else if |ids| == 0 then Outcome(Prelude(s), Raised(NO_PLUGIN_PATH))
    else
      var cmd := Command(s);
      Outcome(Prelude(s) + [Proxy(s, cwd, ids[|ids| - 1]), Shell(cmd)], if succeeds(cmd) then Finished else Raised(Failed(cmd)))
  }

  /** Lines 110-135 after the configuration. `prefsJs` and `userJs` are the
      prefs files' contents (`None` when missing), `ids` the ids
      `install.rdf` lists once the build has run. */
  function Script(s: Settings, prefsJs: Option<string>, userJs: Option<string>, cwd: string, ids: seq<string>, succeeds: string -> bool): Outcome {
    match PatchFile(s.preference, prefsJs, false)
    case Err(e) => Outcome([], Raised(e))
    case Ok(prefs) =>
      var a := PatchStep(Paths.JoinPath(s.profilePath, "prefs.js"), prefs);
      match PatchFile(s.preference, userJs, true)
      case Err(e) => Outcome(a, Raised(e))
      case Ok(user) =>
        var l := Launch(s, cwd, ids, succeeds);
        Outcome(a + PatchStep(Paths.JoinPath(s.profilePath, "user.js"), user) + l.steps, l.end)
  }

  /** The build always comes first and nothing follows a failed build; after
      a good one the database is copied exactly when one is configured;
      without an id the run stops there, before the proxy file is written;
      otherwise it writes the proxy file for the last id and ends by
      starting Zotero. It finishes exactly when both commands succeed and
      there is an id. */
  lemma LaunchSpec(s: Settings, cwd: string, ids: seq<string>, succeeds: string -> bool)
    ensures var l := Launch(s, cwd, ids, succeeds);
      && |l.steps| >= 1 && l.steps[0] == Shell(BUILD)
      && (l.end == Finished <==> succeeds(BUILD) && |ids| > 0 && succeeds(Command(s)))
      && (!succeeds(BUILD) ==> l.steps == [Shell(BUILD)] && l.end == Raised(Failed(BUILD)))
      && (succeeds(BUILD) ==> ((exists f, t :: CopyFile(f, t) in l.steps) <==> Truthy(s.db)))
      && (succeeds(BUILD) && |ids| == 0 ==>
            l.end == Raised(NO_PLUGIN_PATH) && forall i :: 0 <= i < |l.steps| ==> !l.steps[i].Write?)
      && (succeeds(BUILD) && |ids| > 0 ==>
            && |l.steps| >= 3
            && l.steps[|l.steps| - 1] == Shell(Command(s))
            && l.steps[|l.steps| - 2] == Proxy(s, cwd, ids[|ids| - 1])
            && (succeeds(Command(s)) || l.end == Raised(Failed(Command(s)))))
  {
    var l := Launch(s, cwd, ids, succeeds);
    if succeeds(BUILD) {
      var p := Prelude(s);
      var rest := if |ids| == 0 then [] else [Proxy(s, cwd, ids[|ids| - 1]), Shell(Command(s))];
      PreludeSpec(s);
      assert l.steps == p + rest;
      forall f, t ensures CopyFile(f, t) in l.steps <==> CopyFile(f, t) in p {
        assert CopyFile(f, t) !in rest;
      }
    }
  }

  /** The prelude is the build, then a copy exactly when a database is
      configured, and writes nothing. */
  lemma PreludeSpec(s: Settings)
    ensures |Prelude(s)| >= 1 && Prelude(s)[0] == Shell(BUILD)
    ensures (exists f, t :: CopyFile(f, t) in Prelude(s)) <==> Truthy(s.db)
    ensures forall i :: 0 <= i < |Prelude(s)| ==> !Prelude(s)[i].Write?
  {
    var p := Prelude(s);
    if Truthy(s.db) {
      assert p[1] == CopyFile(s.db.value, Paths.JoinPath(Paths.JoinPath(s.profilePath, "zotero"), "zotero.sqlite"));
    } else {
      assert p == [Shell(BUILD)];
    }
  }

  /** A run patches `prefs.js` without additions and `user.js` with them,
      first and in that order, each only when it exists, then launches. A
      `prefs.js` that cannot be patched stops the run before any step; a
      `user.js` that cannot be patched stops it after the `prefs.js` write.
      The run finishes exactly when both patches, both commands and the
      id lookup succeed. */
  lemma ScriptSpec(s: Settings, prefsJs: Option<string>, userJs: Option<string>, cwd: string, ids: seq<string>, succeeds: string -> bool)
    ensures var o := Script(s, prefsJs, userJs, cwd, ids, succeeds);
      o.end == Finished <==>
        PatchFile(s.preference, prefsJs, false).Ok? && PatchFile(s.preference, userJs, true).Ok?
        && Launch(s, cwd, ids, succeeds).end == Finished
    ensures var o := Script(s, prefsJs, userJs, cwd, ids, succeeds);
      PatchFile(s.preference, prefsJs, false).Err? ==>
        o.steps == [] && o.end == Raised(PatchFile(s.preference, prefsJs, false).error)
    ensures var o := Script(s, prefsJs, userJs, cwd, ids, succeeds);
      PatchFile(s.preference, prefsJs, false).Ok? && PatchFile(s.preference, userJs, true).Err? ==>
        && o.end == Raised(PatchFile(s.preference, userJs, true).error)
        && o.steps == (if prefsJs.Some? then [Write(Paths.JoinPath(s.profilePath, "prefs.js"), Patch(s.preference, prefsJs.value, false).value)] else [])
    ensures var o := Script(s, prefsJs, userJs, cwd, ids, succeeds);
      PatchFile(s.preference, prefsJs, false).Ok? && PatchFile(s.preference, userJs, true).Ok? ==>
        var n := (if prefsJs.Some? then 1 else 0) + (if userJs.Some? then 1 else 0);
        && n <= |o.steps| && o.steps[n..] == Launch(s, cwd, ids, succeeds).steps
        && o.end == Launch(s, cwd, ids, succeeds).end
        && (prefsJs.Some? ==> o.steps[0] == Write(Paths.JoinPath(s.profilePath, "prefs.js"), Patch(s.preference, prefsJs.value, false).value))
        && (userJs.Some? ==> o.steps[n - 1] == Write(Paths.JoinPath(s.profilePath, "user.js"), Patch(s.preference, userJs.value, true).value))
  {
    var o := Script(s, prefsJs, userJs, cwd, ids, succeeds);
    var pf := PatchFile(s.preference, prefsJs, false);
    var uf := PatchFile(s.preference, userJs, true);
    if pf.Ok? {
      var a := PatchStep(Paths.JoinPath(s.profilePath, "prefs.js"), pf.value);
      if uf.Ok? {
        var b := PatchStep(Paths.JoinPath(s.profilePath, "user.js"), uf.value);
        var l := Launch(s, cwd, ids, succeeds);
        assert o.steps == a + b + l.steps;
        assert |a| + |b| == (if prefsJs.Some? then 1 else 0) + (if userJs.Some? then 1 else 0);
        assert o.steps[|a| + |b|..] == l.steps;
      } else {
        assert o.steps == a;
      }
    }
  }
}
