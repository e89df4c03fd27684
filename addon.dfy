/** What `bin/make-manifest.ts` and its older variant `rdf.ts` share: the
    package object they complete (id, version, update URL, descriptions),
    the options the package is rendered with, the icon candidates and the
    files they write. */
module Addon {
  import opened Base
  import opened Strings
  import opened Records
  import opened JsValues
  import JsRegex

  /** The error thrown by a property read on `undefined`, or by calling
      `replace`/`match` on something that is not a string. */
  const TYPE_ERROR := "TypeError"

  // ---------------------------------------------------------------------
  // The package

  /** The id derived when the package has none: the text before the `@`,
      then `@`, then the author's mail with everything through its last
      `@` on the first line removed; all lower-cased. */
  function DefaultId(stem: string, email: string): string {
    Lower(stem + "@" + JsRegex.ReplaceThroughAt(email, ""))
  }

  /** For a mail `local@domain` the id is `stem@domain`, lower-cased,
      however many `@` the local part holds. */
  lemma DefaultIdSpec(stem: string, local: string, domain: string)
    requires NoLineTerminator(local) && '@' !in domain
    ensures DefaultId(stem, local + "@" + domain) == Lower(stem) + "@" + Lower(domain)
  {
    JsRegex.ReplaceThroughAtSpec(local, domain, "");
    assert JsRegex.ReplaceThroughAt(local + "@" + domain, "") == domain;
    LowerAppend(stem + "@", domain);
    LowerAppend(stem, "@");
    assert Lower("@") == "@";
  }

  /** A truthy id is kept; otherwise the derived one is stored, which needs
      the author's mail to be a string (`stem` is `None` when computing the
      text before the `@` throws). */
  function Identify(pkg: Record<JsValue>, stem: Option<string>): Result<Record<JsValue>, string> {
    if Truthy(Field(pkg, "id")) then Ok(pkg)
    else
      match (stem, Prop(Field(pkg, "author"), "email"))
      case (Some(n), Str(e)) => Ok(Put(pkg, "id", Str(DefaultId(n, e))))
      case _ => Err(TYPE_ERROR)
  }

  /** A package with an id keeps it and changes nothing; one without gets
      the derived id and nothing else changes, or fails for want of a mail. */
  lemma IdentifySpec(pkg: Record<JsValue>, stem: Option<string>, k: string)
    ensures Truthy(Field(pkg, "id")) ==> Identify(pkg, stem) == Ok(pkg)
    ensures !Truthy(Field(pkg, "id")) ==>
      (Identify(pkg, stem).Ok? <==> stem.Some? && Prop(Field(pkg, "author"), "email").Str?)
    ensures Identify(pkg, stem).Ok? && !Truthy(Field(pkg, "id")) ==>
      Field(Identify(pkg, stem).value, "id") == Str(DefaultId(stem.value, Prop(Field(pkg, "author"), "email").s))
      && (k != "id" ==> Lookup(Identify(pkg, stem).value, k) == Lookup(pkg, k))
    ensures Identify(pkg, stem).Ok? && UniqueKeys(pkg) ==> UniqueKeys(Identify(pkg, stem).value)
  {
    if !Truthy(Field(pkg, "id")) && stem.Some? && Prop(Field(pkg, "author"), "email").Str? {
      var v := Str(DefaultId(stem.value, Prop(Field(pkg, "author"), "email").s));
      assert Identify(pkg, stem) == Ok(Put(pkg, "id", v));
      PutReads(pkg, "id", v, k);
      FieldPut(pkg, "id", v, "id");
      if UniqueKeys(pkg) {
        PutSpec(pkg, "id", v);
      }
    }
  }

  /** `if (pkg.xpi) Object.assign(pkg, pkg.xpi)`. Only an object source
      has entries to copy. */
  function Overlay(pkg: Record<JsValue>): Record<JsValue> {
    var x := Field(pkg, "xpi");
    if Truthy(x) && x.Obj? then PutAll(pkg, x.fields) else pkg
  }

  /** After the overlay a key of `xpi` reads as in `xpi`, any other as in
      the package. */
  lemma OverlaySpec(pkg: Record<JsValue>, k: string)
    requires XpiUnique(pkg)
    ensures Lookup(Overlay(pkg), k) ==
      if k in XpiKeys(pkg) then Lookup(Field(pkg, "xpi").fields, k) else Lookup(pkg, k)
    ensures Field(Overlay(pkg), k) == if k in XpiKeys(pkg) then Prop(Field(pkg, "xpi"), k) else Field(pkg, k)
    ensures UniqueKeys(pkg) ==> UniqueKeys(Overlay(pkg))
  {
    if Field(pkg, "xpi").Obj? {
      PutAllReads(pkg, Field(pkg, "xpi").fields, k);
      if UniqueKeys(pkg) {
        PutAllSpec(pkg, Field(pkg, "xpi").fields);
      }
    }
  }

  /** The keys `xpi` brings, if it is an object. */
  function XpiKeys(pkg: Record<JsValue>): seq<string> {
    if Field(pkg, "xpi").Obj? then Keys(Field(pkg, "xpi").fields) else []
  }

  /** `xpi`, when an object, has distinct keys, as every object has. */
  predicate XpiUnique(pkg: Record<JsValue>) {
    Field(pkg, "xpi").Obj? ==> UniqueKeys(Field(pkg, "xpi").fields)
  }

  /** `pkg.version = version` and, when there is one, the update link
      expanded with it (`expand` is the URI-template library). */
  function Versioned(pkg: Record<JsValue>, version: string, expand: (string, string) -> string): Record<JsValue> {
    var p := Put(pkg, "version", Str(version));
    var link := Field(p, "updateLink");
    if Truthy(link) then Put(p, "updateLink", Str(expand(ToString(link), version))) else p
  }

  /** The version is the computed one, a truthy link is replaced by its
      expansion for that version, and no other key changes. */
  lemma VersionedSpec(pkg: Record<JsValue>, version: string, expand: (string, string) -> string, k: string)
    ensures Field(Versioned(pkg, version, expand), "version") == Str(version)
    ensures Field(Versioned(pkg, version, expand), "updateLink") ==
      if Truthy(Field(pkg, "updateLink")) then Str(expand(ToString(Field(pkg, "updateLink")), version))
      else Field(pkg, "updateLink")
    ensures k != "version" && k != "updateLink" ==> Lookup(Versioned(pkg, version, expand), k) == Lookup(pkg, k)
    ensures UniqueKeys(pkg) ==> UniqueKeys(Versioned(pkg, version, expand))
  {
    var p := Put(pkg, "version", Str(version));
    FieldPut(pkg, "version", Str(version), "updateLink");
    PutReads(pkg, "version", Str(version), k);
    FieldPut(pkg, "version", Str(version), "version");
    var link := Field(p, "updateLink");
    if Truthy(link) {
      var q := Put(p, "updateLink", Str(expand(ToString(link), version)));
      PutReads(p, "updateLink", Str(expand(ToString(link), version)), k);
      FieldPut(p, "updateLink", Str(expand(ToString(link), version)), "version");
      FieldPut(p, "updateLink", Str(expand(ToString(link), version)), "updateLink");
      if UniqueKeys(pkg) {
        PutSpec(pkg, "version", Str(version));
        PutSpec(p, "updateLink", Str(expand(ToString(link), version)));
      }
    } else if UniqueKeys(pkg) {
      PutSpec(pkg, "version", Str(version));
    }
  }

  /** `pkg.updateURL = `${pkg.xpi.releaseURL}update.rdf``: reading
      `releaseURL` of a missing `xpi` throws. */
  function WithUpdateUrl(pkg: Record<JsValue>): Result<Record<JsValue>, string> {
    var x := Field(pkg, "xpi");
    if x.Undefined? || x.Null? then Err(TYPE_ERROR)
    else Ok(Put(pkg, "updateURL", Str(ToString(Prop(x, "releaseURL")) + "update.rdf")))
  }

  /** With an `xpi` the update URL is its release URL (`undefined` when it
      has none) followed by `update.rdf`; nothing else changes. */
  lemma WithUpdateUrlSpec(pkg: Record<JsValue>, k: string)
    ensures WithUpdateUrl(pkg).Ok? <==> !Field(pkg, "xpi").Undefined? && !Field(pkg, "xpi").Null?
    ensures WithUpdateUrl(pkg).Ok? ==>
      Field(WithUpdateUrl(pkg).value, "updateURL") == Str(ToString(Prop(Field(pkg, "xpi"), "releaseURL")) + "update.rdf")
      && (k != "updateURL" ==> Lookup(WithUpdateUrl(pkg).value, k) == Lookup(pkg, k))
    ensures WithUpdateUrl(pkg).Ok? && UniqueKeys(pkg) ==> UniqueKeys(WithUpdateUrl(pkg).value)
  {
    var x := Field(pkg, "xpi");
    if !x.Undefined? && !x.Null? {
      var u := Str(ToString(Prop(x, "releaseURL")) + "update.rdf");
      PutReads(pkg, "updateURL", u, k);
      FieldPut(pkg, "updateURL", u, "updateURL");
      if UniqueKeys(pkg) {
        PutSpec(pkg, "updateURL", u);
      }
    }
  }

  /** The package once identified, overlaid, versioned and given its
      update URL (make-manifest.ts lines 12-18, rdf.ts lines 16-22); the
      scripts differ only in the text before the `@` of a derived id. */
  function Completed(pkg: Record<JsValue>, stem: Option<string>, version: string, expand: (string, string) -> string): Result<Record<JsValue>, string> {
    match Identify(pkg, stem)
    case Err(e) => Err(e)
    case Ok(p) => WithUpdateUrl(Versioned(Overlay(p), version, expand))
  }

  /** The completion goes on exactly when an id can be had and there is an
      `xpi` to read the release URL from. */
  lemma CompletedOk(pkg: Record<JsValue>, stem: Option<string>, version: string, expand: (string, string) -> string)
    requires XpiUnique(pkg)
    ensures var x := Field(Overlay(pkg), "xpi");
      Completed(pkg, stem, version, expand).Ok? <==>
        (Truthy(Field(pkg, "id")) || (stem.Some? && Prop(Field(pkg, "author"), "email").Str?)) && !x.Undefined? && !x.Null?
  {
    IdentifySpec(pkg, stem, "xpi");
    if Identify(pkg, stem).Ok? {
      var p1 := Identify(pkg, stem).value;
      IdentifiedOverlay(pkg, p1, "xpi");
      VersionedSpec(Overlay(p1), version, expand, "xpi");
      WithUpdateUrlSpec(Versioned(Overlay(p1), version, expand), "xpi");
    }
  }

  /** `Identify` changes only the id, so the overlay agrees on every other
      key whether it starts from the package or from the identified one. */
  lemma IdentifiedOverlay(pkg: Record<JsValue>, p1: Record<JsValue>, k: string)
    requires XpiUnique(pkg) && k != "id"
    requires Lookup(p1, "xpi") == Lookup(pkg, "xpi") && Lookup(p1, k) == Lookup(pkg, k)
    ensures Lookup(Overlay(p1), k) == Lookup(Overlay(pkg), k)
    ensures Field(Overlay(p1), k) == Field(Overlay(pkg), k)
  {
    assert Field(p1, "xpi") == Field(pkg, "xpi");
    OverlaySpec(p1, k);
    OverlaySpec(pkg, k);
  }

  /** After the completion the keys are still distinct, and the id is the
      overlay's, else the package's own, else the derived one. */
  lemma CompletedId(pkg: Record<JsValue>, stem: Option<string>, version: string, expand: (string, string) -> string)
    requires UniqueKeys(pkg) && XpiUnique(pkg)
    ensures Completed(pkg, stem, version, expand).Ok? ==>
      var p := Completed(pkg, stem, version, expand).value;
      UniqueKeys(p)
      && Field(p, "id") ==
        (if "id" in XpiKeys(pkg) then Prop(Field(pkg, "xpi"), "id")
         else if Truthy(Field(pkg, "id")) then Field(pkg, "id")
         else Str(DefaultId(stem.value, Prop(Field(pkg, "author"), "email").s)))
  {
    IdentifySpec(pkg, stem, "xpi");
    if Identify(pkg, stem).Ok? {
      var p1 := Identify(pkg, stem).value;
      assert Field(p1, "xpi") == Field(pkg, "xpi");
      OverlaySpec(p1, "id");
      var p2 := Overlay(p1);
      VersionedSpec(p2, version, expand, "id");
      WithUpdateUrlSpec(Versioned(p2, version, expand), "id");
    }
  }

  /** After the completion the version is the computed one. */
  lemma CompletedVersion(pkg: Record<JsValue>, stem: Option<string>, version: string, expand: (string, string) -> string)
    ensures Completed(pkg, stem, version, expand).Ok? ==>
      Field(Completed(pkg, stem, version, expand).value, "version") == Str(version)
  {
    if Identify(pkg, stem).Ok? {
      var p2 := Overlay(Identify(pkg, stem).value);
      VersionedSpec(p2, version, expand, "xpi");
      WithUpdateUrlSpec(Versioned(p2, version, expand), "version");
    }
  }

  /** After the completion a truthy update link is expanded for the
      version; a falsy one stays as the overlay left it. */
  lemma CompletedLink(pkg: Record<JsValue>, stem: Option<string>, version: string, expand: (string, string) -> string)
    requires XpiUnique(pkg)
    ensures Completed(pkg, stem, version, expand).Ok? ==>
      Field(Completed(pkg, stem, version, expand).value, "updateLink") ==
        (var l := Field(Overlay(pkg), "updateLink"); if Truthy(l) then Str(expand(ToString(l), version)) else l)
  {
    if Identify(pkg, stem).Ok? {
      var p1 := Identify(pkg, stem).value;
      IdentifySpec(pkg, stem, "xpi");
      IdentifySpec(pkg, stem, "updateLink");
      IdentifiedOverlay(pkg, p1, "updateLink");
      var p2 := Overlay(p1);
      VersionedSpec(p2, version, expand, "xpi");
      WithUpdateUrlSpec(Versioned(p2, version, expand), "updateLink");
    }
  }

  /** After the completion the update URL is the release URL of the
      overlaid `xpi` followed by `update.rdf`. */
  lemma CompletedUpdateUrl(pkg: Record<JsValue>, stem: Option<string>, version: string, expand: (string, string) -> string)
    requires XpiUnique(pkg)
    ensures Completed(pkg, stem, version, expand).Ok? ==>
      Field(Completed(pkg, stem, version, expand).value, "updateURL")
        == Str(ToString(Prop(Field(Overlay(pkg), "xpi"), "releaseURL")) + "update.rdf")
  {
    if Identify(pkg, stem).Ok? {
      var p1 := Identify(pkg, stem).value;
      IdentifySpec(pkg, stem, "xpi");
      IdentifiedOverlay(pkg, p1, "xpi");
      var p2 := Overlay(p1);
      VersionedSpec(p2, version, expand, "xpi");
      WithUpdateUrlSpec(Versioned(p2, version, expand), "version");
    }
  }

  /** Every key the completion does not set reads as after the overlay. */
  lemma CompletedOthers(pkg: Record<JsValue>, stem: Option<string>, version: string, expand: (string, string) -> string, k: string)
    requires XpiUnique(pkg) && k !in {"id", "version", "updateLink", "updateURL"}
    ensures Completed(pkg, stem, version, expand).Ok? ==>
      Lookup(Completed(pkg, stem, version, expand).value, k) == Lookup(Overlay(pkg), k)
  {
    if Identify(pkg, stem).Ok? {
      var p1 := Identify(pkg, stem).value;
      IdentifySpec(pkg, stem, "xpi");
      IdentifySpec(pkg, stem, k);
      IdentifiedOverlay(pkg, p1, k);
      var p2 := Overlay(p1);
      VersionedSpec(p2, version, expand, k);
      WithUpdateUrlSpec(Versioned(p2, version, expand), k);
    }
  }

  /** `updateURL.replace('/update.rdf', '/updates.json')`. */
  function UpdateUrl(u: string): string {
    ReplaceFirst(u, "/update.rdf", "/updates.json")
  }

  /** A release URL that ends in `/` (and does not already hold
      `/update.rdf`) points the manifest at `updates.json` beside the old
      `update.rdf`; without the `/` nothing is replaced. */
  lemma UpdateUrlSpec(u: string)
    requires !Contains(u, "/update.rdf")
    ensures UpdateUrl(u + "update.rdf") == if EndsWith(u, "/") then u + "updates.json" else u + "update.rdf"
  {
    var s := u + "update.rdf";
    var pat := "/update.rdf";
    assert forall i :: 0 <= i < 10 ==> s[|u| + i] == "update.rdf"[i];
    forall j: nat | j < |u| - 1 || (j < |s| && !EndsWith(u, "/"))
      ensures !OccursAt(s, pat, j)
    {
      OccursAtPrefix(u, "update.rdf", pat, j);
      UpdateRdfStraddle(u, j);
    }
    if EndsWith(u, "/") {
      assert u[|u| - 1] == '/';
      assert s[|u| - 1..] == pat;
      assert OccursAt(s, pat, |u| - 1);
      assert IndexOf(s, pat, 0) == Some(|u| - 1);
      assert s[..|u| - 1] + "/updates.json" == u + "updates.json";
    } else {
      assert IndexOf(s, pat, 0).None?;
    }
  }

  /** An occurrence of `/update.rdf` in `u + "update.rdf"` that does not lie
      inside `u` starts at the last character of `u`, which is then `/`. */
  lemma UpdateRdfStraddle(u: string, j: nat)
    ensures OccursAt(u + "update.rdf", "/update.rdf", j) && j + 11 > |u| ==> j == |u| - 1 && EndsWith(u, "/")
  {
    if OccursAt(u + "update.rdf", "/update.rdf", j) && j + 11 > |u| {
      var s := u + "update.rdf";
      var pat := "/update.rdf";
      assert s[j..j + 11] == pat;
      assert s[j] == '/';
      assert forall i :: |u| <= i < |s| ==> s[i] == "update.rdf"[i - |u|];
      assert forall i :: 0 <= i < 10 ==> "update.rdf"[i] != '/';
      assert j < |u|;
      var t := |u| - j;
      assert s[|u|] == 'u' && s[|u|] == pat[t];
      assert pat[1] == 'u';
      assert forall i :: 2 <= i < 11 ==> pat[i] != 'u';
      assert t == 1;
      assert u[|u| - 1] == s[j];
    }
  }

  // ---------------------------------------------------------------------
  // Descriptions (make-manifest.ts lines 33-39, rdf.ts lines 32-38)

  const EN_US := "en-US"
  const DESCRIPTION := "description"
  const LOCALIZED := "localizedDescriptions"

  /** `pkg.localizedDescriptions = pkg.localizedDescriptions || {}` and
      then `[locale] = d`: an object takes the new entry; an array takes it
      as a named property, which no file the scripts write shows, so it is
      kept as it was. */
  function Localized(v: JsValue, locale: string, d: JsValue): JsValue {
    var base := if Truthy(v) then v else Obj([]);
    if base.Obj? then Obj(Put(base.fields, locale, d)) else base
  }

  /** A truthy primitive: the scripts are modules, so strict, and creating
      a property on a string, number or boolean throws a `TypeError`. */
  predicate Unassignable(v: JsValue) {
    Truthy(v) && !v.Obj? && !v.Arr?
  }

  /** One locale's description: en-US sets `description`, any other locale
      its entry of `localizedDescriptions`, which throws on a primitive. */
  function Describe(pkg: Record<JsValue>, locale: string, d: JsValue): Result<Record<JsValue>, string> {
    if locale == EN_US then Ok(Put(pkg, DESCRIPTION, d))
    else if Unassignable(Field(pkg, LOCALIZED)) then Err(TYPE_ERROR)
    else Ok(Put(pkg, LOCALIZED, Localized(Field(pkg, LOCALIZED), locale, d)))
  }

  /** The loop over the translations, each a locale and its description;
      a falsy description is skipped, and a throw ends the loop. */
  function Described(pkg: Record<JsValue>, ts: seq<(string, JsValue)>): Result<Record<JsValue>, string>
    decreases |ts|
  {
    if |ts| == 0 then Ok(pkg)
    else
      match Described(pkg, ts[..|ts| - 1])
      case Err(e) => Err(e)
      case Ok(p) =>
        var t := ts[|ts| - 1];
        if Truthy(t.1) then Describe(p, t.0, t.1) else Ok(p)
  }

  /** `k` is the last translation for `locale` with a truthy description. */
  predicate LastFor(ts: seq<(string, JsValue)>, locale: string, k: int) {
    0 <= k < |ts| && ts[k].0 == locale && Truthy(ts[k].1)
    && forall j :: k < j < |ts| && ts[j].0 == locale ==> !Truthy(ts[j].1)
  }

  /** No translation for `locale` has a truthy description. */
  predicate NoneFor(ts: seq<(string, JsValue)>, locale: string) {
    forall j :: 0 <= j < |ts| && ts[j].0 == locale ==> !Truthy(ts[j].1)
  }

  /** Some translation other than en-US has a truthy description. */
  predicate SomeLocalized(ts: seq<(string, JsValue)>) {
    exists j :: 0 <= j < |ts| && ts[j].0 != EN_US && Truthy(ts[j].1)
  }

  /** `localizedDescriptions` is an object, or absent. */
  predicate Localizable(v: JsValue) {
    v.Obj? || !Truthy(v)
  }

  /** One truthy description throws exactly for another locale than en-US
      on a primitive `localizedDescriptions`. Otherwise en-US replaces
      `description`, any other locale its own entry of
      `localizedDescriptions`, which stays an object or absent, and a value
      that cannot take entries is left as it was. */
  lemma DescribeStep(p: Record<JsValue>, locale: string, d: JsValue, l: string)
    ensures Describe(p, locale, d).Err? <==> locale != EN_US && Unassignable(Field(p, LOCALIZED))
    ensures Describe(p, locale, d).Err? ==> Describe(p, locale, d).error == TYPE_ERROR
    ensures Describe(p, locale, d).Ok? ==>
      var q := Describe(p, locale, d).value;
      && (Localizable(Field(p, LOCALIZED)) ==> Localizable(Field(q, LOCALIZED)))
      && (!Localizable(Field(p, LOCALIZED)) ==> Field(q, LOCALIZED) == Field(p, LOCALIZED))
      && Field(q, DESCRIPTION) == (if locale == EN_US then d else Field(p, DESCRIPTION))
      && (l != EN_US && Localizable(Field(p, LOCALIZED)) ==>
            Prop(Field(q, LOCALIZED), l) == if l == locale then d else Prop(Field(p, LOCALIZED), l))
  {
    if locale == EN_US {
      FieldPut(p, DESCRIPTION, d, DESCRIPTION);
      FieldPut(p, DESCRIPTION, d, LOCALIZED);
    } else if !Unassignable(Field(p, LOCALIZED)) {
      var v := Field(p, LOCALIZED);
      var nv := Localized(v, locale, d);
      FieldPut(p, LOCALIZED, nv, DESCRIPTION);
      FieldPut(p, LOCALIZED, nv, LOCALIZED);
      var base := if Truthy(v) then v else Obj([]);
      if base.Obj? {
        FieldPut(base.fields, locale, d, l);
      }
      if !Truthy(v) {
        assert Keys(base.fields) == [];
      }
    }
  }

  /** The loop throws exactly when `localizedDescriptions` starts as a
      primitive and some other locale than en-US brings a description,
      and then with a `TypeError`. */
  lemma {:induction false} DescribedThrows(pkg: Record<JsValue>, ts: seq<(string, JsValue)>)
    ensures Described(pkg, ts).Err? <==> Unassignable(Field(pkg, LOCALIZED)) && SomeLocalized(ts)
    ensures Described(pkg, ts).Err? ==> Described(pkg, ts).error == TYPE_ERROR
    decreases |ts|
  {
    if |ts| > 0 {
      var front := ts[..|ts| - 1];
      var t := ts[|ts| - 1];
      DescribedThrows(pkg, front);
      DescribedSpec(pkg, front);
      assert SomeLocalized(ts) <==> SomeLocalized(front) || (t.0 != EN_US && Truthy(t.1)) by {
        if SomeLocalized(ts) && !(t.0 != EN_US && Truthy(t.1)) {
          var j :| 0 <= j < |ts| && ts[j].0 != EN_US && Truthy(ts[j].1);
          assert front[j] == ts[j];
        }
        if SomeLocalized(front) {
          var j :| 0 <= j < |front| && front[j].0 != EN_US && Truthy(front[j].1);
          assert ts[j] == front[j];
        }
      }
      match Described(pkg, front)
      case Err(_) =>
      case Ok(p) =>
        if Truthy(t.1) {
          DescribeStep(p, t.0, t.1, EN_US);
        }
    }
  }

  /** After a loop that does not throw, `description` is the last truthy
      en-US description, or the package's own when there is none, and
      `localizedDescriptions` is still an object or absent, or else as it
      was. */
  lemma {:induction false} DescribedSpec(pkg: Record<JsValue>, ts: seq<(string, JsValue)>)
    ensures Described(pkg, ts).Ok? ==>
      var q := Described(pkg, ts).value;
      && (Localizable(Field(pkg, LOCALIZED)) ==> Localizable(Field(q, LOCALIZED)))
      && (!Localizable(Field(pkg, LOCALIZED)) ==> Field(q, LOCALIZED) == Field(pkg, LOCALIZED))
      && (forall k :: LastFor(ts, EN_US, k) ==> Field(q, DESCRIPTION) == ts[k].1)
      && (NoneFor(ts, EN_US) ==> Field(q, DESCRIPTION) == Field(pkg, DESCRIPTION))
    decreases |ts|
  {
    if |ts| > 0 {
      var front := ts[..|ts| - 1];
      var t := ts[|ts| - 1];
      DescribedSpec(pkg, front);
      match Described(pkg, front)
      case Err(_) =>
      case Ok(p) =>
        assert Described(pkg, ts) == if Truthy(t.1) then Describe(p, t.0, t.1) else Ok(p);
        if Described(pkg, ts).Ok? {
          var q := Described(pkg, ts).value;
          if Truthy(t.1) {
            DescribeStep(p, t.0, t.1, EN_US);
          }
          LastForStep(ts, EN_US);
          forall k | LastFor(ts, EN_US, k) ensures Field(q, DESCRIPTION) == ts[k].1 {
            if !(t.0 == EN_US && Truthy(t.1)) {
              assert LastFor(front, EN_US, k);
            }
          }
        }
    }
  }

  /** With `localizedDescriptions` an object or absent the loop does not
      throw, and another locale's entry is the last truthy description for
      it. */
  lemma {:induction false} DescribedLocaleLast(pkg: Record<JsValue>, ts: seq<(string, JsValue)>, l: string, k: int)
    requires Localizable(Field(pkg, LOCALIZED)) && l != EN_US && LastFor(ts, l, k)
    ensures Described(pkg, ts).Ok?
    ensures Prop(Field(Described(pkg, ts).value, LOCALIZED), l) == ts[k].1
    decreases |ts|
  {
    var front := ts[..|ts| - 1];
    var t := ts[|ts| - 1];
    DescribedThrows(pkg, ts);
    DescribedThrows(pkg, front);
    DescribedSpec(pkg, front);
    var p := Described(pkg, front).value;
    if k == |ts| - 1 {
      DescribeStep(p, t.0, t.1, l);
    } else {
      assert LastFor(front, l, k) && front[k] == ts[k];
      DescribedLocaleLast(pkg, front, l, k);
      if Truthy(t.1) {
        DescribeStep(p, t.0, t.1, l);
      }
    }
  }

  /** With `localizedDescriptions` an object or absent, a locale without a
      truthy description keeps what the package had. */
  lemma {:induction false} DescribedLocaleNone(pkg: Record<JsValue>, ts: seq<(string, JsValue)>, l: string)
    requires Localizable(Field(pkg, LOCALIZED)) && l != EN_US && NoneFor(ts, l)
    ensures Described(pkg, ts).Ok?
    ensures Prop(Field(Described(pkg, ts).value, LOCALIZED), l) == Prop(Field(pkg, LOCALIZED), l)
    decreases |ts|
  {
    DescribedThrows(pkg, ts);
    if |ts| > 0 {
      var front := ts[..|ts| - 1];
      var t := ts[|ts| - 1];
      assert NoneFor(front, l);
      DescribedLocaleNone(pkg, front, l);
      if Truthy(t.1) {
        DescribedSpec(pkg, front);
        DescribeStep(Described(pkg, front).value, t.0, t.1, l);
      }
    }
  }

  /** A throw partway through the translations is the loop's outcome. */
  lemma DescribedPrefixThrows(pkg: Record<JsValue>, ts: seq<(string, JsValue)>, n: nat)
    requires n <= |ts| && Described(pkg, ts[..n]).Err?
    ensures Described(pkg, ts) == Err(TYPE_ERROR)
  {
    DescribedThrows(pkg, ts[..n]);
    DescribedThrows(pkg, ts);
    var j :| 0 <= j < n && ts[..n][j].0 != EN_US && Truthy(ts[..n][j].1);
    assert ts[j] == ts[..n][j];
  }

  /** The loop touches no key but the two descriptions, and keeps the
      keys distinct. */
  lemma {:induction false} DescribedOthers(pkg: Record<JsValue>, ts: seq<(string, JsValue)>, key: string)
    ensures Described(pkg, ts).Ok? && key != DESCRIPTION && key != LOCALIZED ==>
      Lookup(Described(pkg, ts).value, key) == Lookup(pkg, key)
    ensures Described(pkg, ts).Ok? && UniqueKeys(pkg) ==> UniqueKeys(Described(pkg, ts).value)
    decreases |ts|
  {
    if |ts| > 0 {
      var front := ts[..|ts| - 1];
      var t := ts[|ts| - 1];
      DescribedOthers(pkg, front, key);
      match Described(pkg, front)
      case Err(_) =>
      case Ok(p) =>
        if Truthy(t.1) && Describe(p, t.0, t.1).Ok? {
          var k := if t.0 == EN_US then DESCRIPTION else LOCALIZED;
          var v := if t.0 == EN_US then t.1 else Localized(Field(p, LOCALIZED), t.0, t.1);
          assert Describe(p, t.0, t.1).value == Put(p, k, v);
          PutReads(p, k, v, key);
          if UniqueKeys(pkg) {
            PutSpec(p, k, v);
          }
        }
    }
  }

  /** How the last translation decides `LastFor` and `NoneFor`. */
  lemma LastForStep(ts: seq<(string, JsValue)>, l: string)
    requires |ts| > 0
    ensures var front, t := ts[..|ts| - 1], ts[|ts| - 1];
      && (forall k :: LastFor(ts, l, k) ==>
            if t.0 == l && Truthy(t.1) then k == |ts| - 1 else LastFor(front, l, k))
      && (NoneFor(ts, l) ==> NoneFor(front, l) && (t.0 == l ==> !Truthy(t.1)))
  {
    var front, t := ts[..|ts| - 1], ts[|ts| - 1];
    forall k | LastFor(ts, l, k)
      ensures if t.0 == l && Truthy(t.1) then k == |ts| - 1 else LastFor(front, l, k)
    {
      assert k == |ts| - 1 ==> t.0 == l && Truthy(t.1);
    }
  }

  // ---------------------------------------------------------------------
  // Options (make-manifest.ts lines 42-48, rdf.ts lines 41-47)

  /** `{ ...defaults, ...pkg, pretty: true }`, overlaid with the object of
      `schema/supported.json` (`None` when it is missing, does not parse or
      is not an object: the `catch` ignores it). */
  function Options(defaults: Record<JsValue>, pkg: Record<JsValue>, supported: Option<Record<JsValue>>): Record<JsValue> {
    var o := Put(PutAll(defaults, pkg), "pretty", Bool(true));
    if supported.Some? then PutAll(o, supported.value) else o
  }

  /** A key reads from `supported.json` first, then `pretty`, then the
      package, then the defaults. */
  lemma OptionsSpec(defaults: Record<JsValue>, pkg: Record<JsValue>, supported: Option<Record<JsValue>>, k: string)
    requires UniqueKeys(pkg) && (supported.Some? ==> UniqueKeys(supported.value))
    ensures Field(Options(defaults, pkg, supported), k) ==
      if supported.Some? && k in Keys(supported.value) then Field(supported.value, k)
      else if k == "pretty" then Bool(true)
      else if k in Keys(pkg) then Field(pkg, k)
      else Field(defaults, k)
  {
    var o1 := PutAll(defaults, pkg);
    var o := Put(o1, "pretty", Bool(true));
    FieldPutAll(defaults, pkg, k);
    FieldPut(o1, "pretty", Bool(true), k);
    if supported.Some? {
      FieldPutAll(o, supported.value, k);
    }
  }

  // ---------------------------------------------------------------------
  // Icons (make-manifest.ts lines 78-94, rdf.ts lines 89-114)

  /** The four places an icon is looked for, `b` being the id before `@`. */
  function Bases(b: string): (r: seq<string>)
    ensures |r| == 4
  {
    ["content/skin/" + b + ".png", "skin/" + b + ".png", b + ".png", "icon.png"]
  }

  /** `icon.replace('/zotero-', '/')`. */
  function Unprefixed(p: string): string {
    ReplaceFirst(p, "/zotero-", "/")
  }

  /** Each path followed by its unprefixed variant. */
  function Variants(paths: seq<string>): (r: seq<string>)
    ensures |r| == 2 * |paths|
    ensures forall j :: 0 <= j < |paths| ==> r[2 * j] == paths[j] && r[2 * j + 1] == Unprefixed(paths[j])
  {
    if |paths| == 0 then []
    else
      var front := Variants(paths[..|paths| - 1]);
      assert forall j :: 0 <= j < |paths| - 1 ==> paths[..|paths| - 1][j] == paths[j];
      front + [paths[|paths| - 1], Unprefixed(paths[|paths| - 1])]
  }

  /** One more path adds it and its variant at the end. */
  lemma VariantsSnoc(paths: seq<string>, i: nat)
    requires i < |paths|
    ensures Variants(paths[..i + 1]) == Variants(paths[..i]) + [paths[i], Unprefixed(paths[i])]
  {
    assert paths[..i + 1][..i] == paths[..i];
  }

  /** `icons.push(...icons.map(swap))`. */
  function WithSwapped(c: seq<string>): (r: seq<string>)
    ensures |r| == 2 * |c| && r[..|c|] == c
    ensures forall k :: 0 <= k < |c| ==> r[|c| + k] == JsRegex.SwapExt(c[k])
  {
    c + seq(|c|, k requires 0 <= k < |c| => JsRegex.SwapExt(c[k]))
  }

  /** The candidate list: the icons before the four bases, the bases with
      their variants, then the swapped copy of each. */
  function Candidates(first: seq<string>, b: string): seq<string> {
    WithSwapped(first + Variants(Bases(b)))
  }

  /** The candidates in order: the given first ones, each base followed by
      its unprefixed variant, then the svg/png swap of every one of those,
      in the same order. */
  lemma CandidatesSpec(first: seq<string>, b: string)
    ensures var c, n := Candidates(first, b), |first| + 8;
      && |c| == 2 * n
      && c[..|first|] == first
      && (forall j :: 0 <= j < 4 ==>
            c[|first| + 2 * j] == Bases(b)[j] && c[|first| + 2 * j + 1] == Unprefixed(Bases(b)[j]))
      && (forall k :: 0 <= k < n ==> c[n + k] == JsRegex.SwapExt(c[k]))
  {
    var f := first + Variants(Bases(b));
    var c := WithSwapped(f);
    assert c[..|f|] == f;
    forall j | 0 <= j < 4
      ensures c[|first| + 2 * j] == Bases(b)[j] && c[|first| + 2 * j + 1] == Unprefixed(Bases(b)[j])
    {
      assert c[|first| + 2 * j] == f[|first| + 2 * j];
      assert c[|first| + 2 * j + 1] == f[|first| + 2 * j + 1];
    }
    assert c[..|first|] == f[..|first|];
  }

  /** The variants strip `zotero-` from the file name in the two skin
      directories; the other two places have no `/zotero-` to strip. */
  lemma VariantsStripPrefix(rest: string)
    requires '/' !in rest
    ensures var b := Bases("zotero-" + rest);
      && Unprefixed(b[0]) == "content/skin/" + rest + ".png"
      && Unprefixed(b[1]) == "skin/" + rest + ".png"
      && Unprefixed(b[2]) == b[2]
      && Unprefixed(b[3]) == b[3]
  {
    var b := Bases("zotero-" + rest);
    SkinDirs();
    UnprefixedAt("content/skin/", rest);
    UnprefixedAt("skin/", rest);
    assert '/' !in b[2] by {
      assert b[2] == "zotero-" + rest + ".png";
      assert forall i :: 0 <= i < |b[2]| ==> b[2][i] != '/';
    }
    NoSlashUnprefixed(b[2]);
    NoSlashUnprefixed(b[3]);
  }

  lemma SkinDirs()
    ensures '-' !in "content/skin/" && '-' !in "skin/"
  {
  }

  /** Before the dash of `zotero-` there is no dash. */
  lemma DashFree(dir: string, rest: string, i: nat)
    requires '-' !in dir && i < |dir| + 6
    ensures (dir + ("zotero-" + rest) + ".png")[i] != '-'
  {
    var s := dir + ("zotero-" + rest) + ".png";
    if i < |dir| {
      assert s[i] == dir[i];
    } else {
      assert s[i] == ("zotero-" + rest)[i - |dir|] == "zotero-"[i - |dir|];
    }
  }

  lemma UnprefixedAt(dir: string, rest: string)
    requires |dir| > 0 && dir[|dir| - 1] == '/' && '-' !in dir
    ensures Unprefixed(dir + ("zotero-" + rest) + ".png") == dir + rest + ".png"
  {
    var s := dir + ("zotero-" + rest) + ".png";
    var pat := "/zotero-";
    var at := |dir| - 1;
    assert s[at..at + 8] == pat;
    assert OccursAt(s, pat, at);
    forall j: nat | j < at ensures !OccursAt(s, pat, j) {
      DashFree(dir, rest, j + 7);
      OccursAtChar(s, pat, j, 7);
    }
    assert IndexOf(s, pat, 0) == Some(at);
    assert s[..at] + "/" == dir && s[at + 8..] == rest + ".png";
  }

  lemma NoSlashUnprefixed(s: string)
    requires '/' !in s
    ensures Unprefixed(s) == s
  {
    assert forall i :: 0 <= i < |s| ==> s[i] != '/';
    forall j: nat ensures !OccursAt(s, "/zotero-", j) {
      OccursAtChar(s, "/zotero-", j, 0);
    }
  }

  /** The big icon: an svg scales, anything else has an `@2x` sibling. */
  function Big(small: string): string {
    if EndsWith(small, ".svg") then small else JsRegex.Retina(small)
  }

  /** An svg is its own big icon; `stem.ext` otherwise has `stem@2x.ext`. */
  lemma BigSpec(stem: string, ext: string)
    requires ext != "" && '.' !in ext && ext != "svg"
    ensures Big(stem + ".svg") == stem + ".svg"
    ensures Big(stem + "." + ext) == stem + "@2x." + ext
  {
    var s := stem + ".svg";
    assert s[|s| - 4..] == ".svg";
    var u := stem + "." + ext;
    assert u[|stem|] == '.' && u[|stem| + 1..] == ext;
    forall i | |stem| < i < |u| ensures u[i] != '.' {
      assert u[i] == ext[i - |stem| - 1];
    }
    EndsWithChar(u, ".svg", 0);
    EndsWithChar(u, ".svg", 1);
    EndsWithChar(u, ".svg", 2);
    EndsWithChar(u, ".svg", 3);
    if |ext| == 3 {
      assert ext == [ext[0], ext[1], ext[2]];
      assert forall m :: 0 <= m < 3 ==> u[|stem| + 1 + m] == ext[m];
    }
    assert !EndsWith(u, ".svg");
    JsRegex.RetinaSpec(stem, ext, "");
  }

  /** `find`: the first candidate that exists. */
  function FirstPresent(c: seq<string>, present: string -> bool): (r: Option<nat>)
    ensures r.Some? ==> r.value < |c| && present(c[r.value]) && forall j :: 0 <= j < r.value ==> !present(c[j])
    ensures r.None? ==> forall j :: 0 <= j < |c| ==> !present(c[j])
  {
    if |c| == 0 then None
    else if present(c[0]) then Some(0)
    else match FirstPresent(c[1..], present)
      case None => None
      case Some(j) => Some(j + 1)
  }

  /** `{ 48: small, 96: big if it exists, else small }`. */
  function IconsValue(small: string, present: string -> bool): JsValue {
    var big := Big(small);
    Obj([("48", Str(small)), ("96", Str(if present(big) then big else small))])
  }

  // ---------------------------------------------------------------------
  // The files written

  datatype File =
    | UpdatesJson(key: string, version: JsValue, updateLink: JsValue, strictMin: JsValue, strictMax: JsValue)
    | ManifestJson(name: JsValue, version: JsValue, description: JsValue, icons: JsValue, id: JsValue,
                   updateUrl: string, strictMin: JsValue, strictMax: JsValue)
    | Rendered(template: string, options: Record<JsValue>, target: string)

  /** The files written, in order, and the error that stopped the script. */
  datatype Outcome = Outcome(written: seq<File>, thrown: Option<string>)

  /** `gen/updates.json`: keyed by the package id, with the options'
      version, link and version bounds. */
  function UpdatesFile(pkg: Record<JsValue>, options: Record<JsValue>, strictMin: JsValue, strictMax: JsValue): File {
    UpdatesJson(ToString(Field(pkg, "id")), Field(options, "version"), Field(options, "updateLink"), strictMin, strictMax)
  }

  /** `build/manifest.json`: its update URL needs `updateURL` to be a
      string. */
  function ManifestFile(options: Record<JsValue>, strictMin: JsValue, strictMax: JsValue): Result<File, string> {
    match Field(options, "updateURL")
    case Str(u) =>
      Ok(ManifestJson(Field(options, "name"), Field(options, "version"), Field(options, "description"),
        Field(options, "icons"), Field(options, "id"), UpdateUrl(u), strictMin, strictMax))
    case _ => Err(TYPE_ERROR)
  }
}
