# zotero-plugin: a Dafny model of the debug-log bundle protocol and the build-script rules

The zotero-plugin repository ships shared tooling for Zotero plugins. Its one
real protocol is the **debug-log bundle**:

- **Bundler (producer).** Inside Zotero, the `Bundler` of `debug-log.ts`
  collects named text files into a container. Each entry name sits under a
  random object key.
- **Public-key mode.** With a public key, every file is sealed with AES-GCM
  under one content key. That content key is created on the first `add` and
  stored once, wrapped with RSA-OAEP.
- **Upload.** The container is uploaded to 0x0.st. The user is shown a log ID
  of the form `key-0x0-R[.refs][.enc]`.
- **Consumers.** `bin/fetch-log.ts` parses that ID, downloads the archive,
  classifies its entries into per-file groups, unwraps the key, and writes
  the files back. `bin/fetch-zotero-log.py` is an older consumer with a
  simpler three-part ID.

Around the protocol, the repository has build scripts with small decision rules
of their own, and the model covers those too:

- manifest and icon resolution (`bin/make-manifest.ts`, `rdf.ts`);
- patching of the Firefox prefs files of a test profile (`bin/start.py`, `bin/start.ts`);
- release gating and issue derivation (`bin/release.ts`);
- CI detection (`continuous-integration.ts`);
- version composition (`version.ts`, `bin/version.ts`);
- the asset filter (`copy-assets.ts`);
- the module wrapper loader (`loader/wrap.ts`);
- project-root search (`bin/find-root.ts`);
- the webpack bail plugin (`plugin/bail.ts`).

How the model is built:

- **Container.** A `map<string, seq<byte>>`.
- **Cryptography and encoders.** AES-GCM, RSA-OAEP and the ZIP encoder are
  uninterpreted functions passed as parameters. Random keys and IVs are
  parameters too.
- **Log ID.** One definition (`LogId.Format`/`LogId.Parse`) is shared by
  producer and consumer, so their agreement is proved as a round trip.
- **Stateful code.** Code that updates objects in place is modelled as a
  `class` whose methods are proved against specification functions:
  - `DebugLog.Bundler`;
  - `ContinuousIntegration.Singleton`;
  - `StartPy.Config`;
  - `Bail.Compilation`;
  - the `Rdf.IconEntry` objects.
- **Loops.** Loops in the scripts are methods whose `ensures` ties the result
  to a recursive specification, for example:
  - the entry and group loops of `bin/fetch-log.ts`;
  - the `exec` loop of `bin/release.ts`;
  - the `name()` scanner of `bin/start.py`.
- **External facts.** The file system, environment variables, subprocess
  output and the clock are inputs or oracle functions.

Where the code and its documentation disagree, the model follows the code:

- `bin/find-root.ts:6` keeps the segments `0..rootIndex` inclusive
  (`slice(0, rootIndex + 1)`).
- `bin/fetch-log.ts` leaves the downloaded zip behind on some failures. Its
  `oops` helper exits the process inside the `try`, so the `finally` that
  removes the zip does not run for the failures of lines 76, 102, 119, 122
  and 123 (`FetchLog.ZipLeftOnlyAfterOops`).
- `copy-assets.ts:38` compares the root-joined directory with the bare names
  `resource` and `chrome.manifest`. So the filter is bypassed only when the
  root is empty (`CopyAssets.FilterBypass`). The root itself comes from a
  module that is not part of this model and is a parameter here.

## Model

| member | source | states |
|---|---|---|
| DebugLog.AddedConsistent | debug-log.ts:35-63 | one `add` keeps every entry under `<key>/`, the wrapped key present exactly when the content key exists and holding it, and every other encrypted-mode entry an `.iv` or `.enc` |
| DebugLog.AddedEncrypted | debug-log.ts:40-58 | with a public key, `add` sets exactly `<key>/<path>.iv` (the 12-byte IV) and `<key>/<path>.enc` (the sealed UTF-8 bytes), creates `<key>/<key>.key` only when no content key exists and never rewrites it, ORs `refs`, and leaves every other entry unchanged |
| DebugLog.AddedPlain | debug-log.ts:38-62 | without a public key, `add` sets exactly `<key>/<path>` to bytes that decode back to `data`, creates no content key and leaves every other entry unchanged |
| DebugLog.ReplaySpec | debug-log.ts:16-36 | after any sequence of `add` calls the state is consistent and `refs` is the OR of every `refs` argument so far |
| DebugLog.ReplayPlain | debug-log.ts:40-62 | a bundler without a public key never has a content key and its entries are exactly `<key>/<path>` for the paths added |
| DebugLog.ReplayPlainData | debug-log.ts:38-61 | without a public key each entry holds the UTF-8 bytes of the last text added under its path |
| DebugLog.ReplayEncrypted | debug-log.ts:41-58 | with a public key and at least one `add`, the entries are exactly the one wrapped key of the first generated content key plus one `.iv` and one `.enc` per path |
| DebugLog.ReplayEncryptedData | debug-log.ts:55-58 | with a public key each `.iv` entry holds the IV of the last `add` of its path and each `.enc` entry that text sealed under the first content key |
| DebugLog.PayloadIsNotKey | debug-log.ts:52-58 | the `.iv` and `.enc` entries never collide with the `.key` entry |
| DebugLog.PayloadNamesDiffer | debug-log.ts:57-58 | the payload entries of two different paths are four distinct names |
| DebugLog.Bundler.constructor | debug-log.ts:28-33 | a new bundler holds the drawn object key and the public key, `refs` false, no content key and no entries |
| DebugLog.Bundler.Add | debug-log.ts:35-63 | the in-place update of `refs`, the content key and the entry dictionary equals `Added` of the old state, keeping the bundler consistent |
| DebugLog.Bundler.Name | debug-log.ts:69-71 | the upload name ends in `.zip` and the key reads back from it |
| DebugLog.IdRoundTrip | debug-log.ts:73-75 | for an alphanumeric key and remote `R`, the ID built around `0x0-R` parses back to the key, host `0x0`, remote `R` and the bundler's tags, and is encrypted exactly when the bundler has a public key |
| DebugLogSender.LastN | debug-log.ts:204 | `slice(-n)` keeps the last `min(n, length)` elements, as a suffix |
| DebugLogSender.NonEmpty | debug-log.ts:205 | the filter keeps no empty string and never adds elements |
| DebugLogSender.AssembleLogSections | debug-log.ts:201-205 | the log is the trimmed join by blank lines of the non-empty info, errors and console tail |
| DebugLogSender.SectionsJoined | debug-log.ts:205 | empty sections vanish from the join without leaving extra blank lines |
| DebugLogSender.ConsoleTail | debug-log.ts:204 | only the last 250000 console lines reach the log, in their order |
| DebugLogSender.MatchFrom | debug-log.ts:220 | the match found is the leftmost one, and none is found only when no position matches |
| DebugLogSender.ExtractRemote | debug-log.ts:220 | a captured upload name is a non-empty alphanumeric run |
| DebugLogSender.ExtractUploadUrl | debug-log.ts:220 | the answer `https://0x0.st/<R>.zip…` yields exactly `R` |
| DebugLogSender.ReplySpec | debug-log.ts:219-226 | a matching answer shows an ID that parses back to the key, host `0x0`, the upload name and the bundle's tags; an answer without a match, or a failed request, shows the failure message with the body or the error |
| DebugLogSender.ReplayAdditions | debug-log.ts:206-209 | the calls `sendAsync` makes are an `add` of `debug.txt`, then an `add` of `items.rdf` with `refs` only for a non-empty export |
| DebugLogSender.AdditionsRefs | debug-log.ts:208-209 | the bundle's `refs` flag is set exactly when the export is non-empty |
| DebugLogSender.SendAsync | debug-log.ts:196-227 | builds a fresh bundler under the drawn key, whose state is the replay of those calls, and shows the reply for the upload's outcome |
| DebugLogSender.NormalizeSpec | debug-log.ts:234-239 | a name without the leading `:` ends up under `extensions.zotero.`, still ends with the requested text and is stable under renormalising; a leading `:` is dropped and nothing added |
| DebugLogSender.RequestedSpec | debug-log.ts:233-249 | a name is collected exactly when it is a normalised non-branch request or a normalised branch followed by one of its child keys |
| DebugLogSender.CollectNames | debug-log.ts:232-249 | the loop collects exactly the requested names, in request order |
| DebugLogSender.ChildNames | debug-log.ts:241-244 | each child key is pushed prefixed by its branch, in order |
| DebugLogSender.ReadSorted | debug-log.ts:251-253 | the record holds every collected name once, in strictly increasing order, each with the value read for it |
| DebugLogSender.Preferences | debug-log.ts:229-256 | the result holds exactly the requested names, each once, in sorted order, with the value read for each |
| LogId.ParseSound | bin/fetch-log.ts:46 | whatever the parser accepts splits the ID into a non-empty alphanumeric key, a host without `-`, a non-empty remote without `.` and tags that are empty or start with `.`, with no line terminator |
| LogId.ParseComplete | bin/fetch-log.ts:46-47 | every split of the ID the regex admits makes the parser succeed with the same key and host, and a remote the admitted one extends |
| LogId.ParseExact | bin/fetch-log.ts:46 | a split with greedy remote is exactly what the parser returns |
| LogId.RoundTrip | bin/fetch-log.ts:46-51 | `key-0x0-R[.refs][.enc]` with alphanumeric key and `R` parses to key, host `0x0`, remote `R` and the written tags, and is encrypted exactly when `.enc` was written |
| LogId.TagsSplit | bin/fetch-log.ts:51 | `enc` is among the `.`-separated tag segments exactly when the encryption tag was written, whether or not `.refs` precedes it |
| LogId.ExampleId | bin/fetch-log.ts:46-51 | `abc123-0x0-XYZ.enc` parses to key `abc123`, host `0x0`, remote `XYZ`, tags `.enc`, and is encrypted |
| FetchLog.SetupSpec | bin/fetch-log.ts:44-59 | the command line is accepted exactly for a parsable ID on host `0x0` whose encrypted form has the private key and `package.json` present; the options are then `encrypted` from the tags, zip `logs/<key>.zip` and URL `https://0x0.st/<remote>.zip` |
| FetchLog.SetupFailsEarly | bin/fetch-log.ts:44-59 | a rejected command line or a foreign host ends the run with its message before any download, whatever the download would have been |
| FetchLog.SuffixLength | bin/fetch-log.ts:98 | the recognised suffix is empty or a 2- or 3-letter word preceded by a `.` inside the name |
| FetchLog.EntryMatch | bin/fetch-log.ts:98 | a match gives a non-empty one-line filename and a type word `key`/`enc`/`iv` in any case, which together end the name; names without such a suffix do not match |
| FetchLog.EntryMatchOf | bin/fetch-log.ts:98 | a one-line filename followed by `.` and a type word matches with exactly those groups |
| FetchLog.TypeOf | bin/fetch-log.ts:100 | the type is empty, `key`, `enc` or `iv`; as written (reading `groups.ext`) it is always empty |
| FetchLog.ScanEntries | bin/fetch-log.ts:93-117 | the entry loop, updating the group dictionary and the unwrapped key, equals the `Scan` specification, stopping at the first fatal entry |
| FetchLog.ScanStops | bin/fetch-log.ts:102 | once an entry ends the run the later entries are never looked at |
| FetchLog.ScanOk | bin/fetch-log.ts:95-117 | the entry loop gets through exactly when every entry is admissible (no suffix in a plain log, and every key entry unwraps) |
| FetchLog.ScanFirstFailure | bin/fetch-log.ts:102-110 | the first inadmissible entry decides the exit: "unexpected … file in non-encrypted log" for a typed entry in a plain log, else the unwrap exception |
| FetchLog.Kinds | bin/fetch-log.ts:96-116 | one classification per entry, in entry order |
| FetchLog.ScanDescribed | bin/fetch-log.ts:95-117 | after admissible entries each group is described order-independently: keyed by lower-cased filename, its `iv` and `contents` slots filled by the last entry of that slot, marked encrypted exactly when some entry carried a type, with the key the last unwrapped key entry |
| FetchLog.TagSplit | bin/fetch-log.ts:130-131 | the tag is the last 16 bytes (all of them for shorter data), the ciphertext the bytes before, and together they give the data back |
| FetchLog.GroupChecks | bin/fetch-log.ts:122-126 | a group without contents ends the run with "no contents for", an encrypted group without IV with "no iv for", and a written group goes to `logs/<filename>` |
| FetchLog.ExtractGroups | bin/fetch-log.ts:121-140 | the group loop equals the `Extract` specification, writing files in insertion order until the first fatal group |
| FetchLog.ExtractStops | bin/fetch-log.ts:121-123 | once a group ends the run the later groups are never looked at |
| FetchLog.ExtractAll | bin/fetch-log.ts:121-140 | when every group passes, one file per group is written, in insertion order, and the run ends normally |
| FetchLog.ExtractFirstFailure | bin/fetch-log.ts:121-123 | the first failing group ends the run with its exit after exactly the earlier groups were written |
| FetchLog.Fetch | bin/fetch-log.ts:44-149 | the script as it runs equals the `Run` specification |
| FetchLog.AsWrittenScan | bin/fetch-log.ts:98-116 | as written, the entry loop always gets through, never unwraps a key, and no group gets an IV or is marked encrypted |
| FetchLog.AsWrittenEncryptedFails | bin/fetch-log.ts:100-119 | as written, every downloaded encrypted log ends with "no key file found", nothing written and the zip left behind |
| FetchLog.ZipLeftOnlyAfterOops | bin/fetch-log.ts:76-143 | the downloaded zip remains exactly when the run ends in an `oops` after the download, which exits inside the `try` |
| BundleRoundTrip.EncryptedRoundTrip | bin/fetch-log.ts:95-143 | with the suffix taken from the regex, an encrypted container of distinct single-line paths without `/`, the matching private key and AES-GCM that opens what it sealed, the run ends normally, removes the zip and writes exactly the data of every `add` under its own path |
| BundleRoundTrip.PlainRoundTrip | bin/fetch-log.ts:95-143 | a plain container of distinct single-line untyped paths without `/` is written back exactly, under either reading of line 100 |
| BundleRoundTrip.SetupOfBundleId | bin/fetch-log.ts:46-53 | the ID a bundler reports for `0x0-R` gives `encrypted` exactly for a public key, zip `logs/<key>.zip` and URL `https://0x0.st/R.zip` |
| BundleRoundTrip.FetchEncryptedLog | bin/fetch-log.ts:44-149 | from the bundler's reported ID to the files: the corrected consumer recovers every encrypted file |
| BundleRoundTrip.FetchEncryptedLogAsWritten | bin/fetch-log.ts:100-119 | as written, the bundler's encrypted ID always ends with "no key file found", nothing written, the zip left |
| BundleRoundTrip.FetchPlainLog | bin/fetch-log.ts:44-149 | from the bundler's reported plain ID to the files, under either reading |
| FetchZoteroLog.Parse | bin/fetch-zotero-log.py:11-14 | an accepted argument splits on `-` into exactly three parts |
| FetchZoteroLog.ParseSpec | bin/fetch-zotero-log.py:11-14 | the ID is accepted exactly when it has three `-`-separated parts with `0x0` in the middle; the URL is then `https://0x0.com/<remote>.zip` and the save path `logs/<local>.zip` |
| FetchZoteroLog.ParseBundleId | bin/fetch-zotero-log.py:11-13 | the modern ID of a bundler splits into key, `0x0` and the remote with its tags still attached, which end up in the URL |
| FetchZoteroLog.BundleIdParts | bin/fetch-zotero-log.py:11 | an ID with alphanumeric key and remote splits into exactly those three parts |
| FetchZoteroLog.FirstBad | bin/fetch-zotero-log.py:22-23 | the reported member has no `/`, and none is reported exactly when every member has one |
| FetchZoteroLog.CheckMembers | bin/fetch-zotero-log.py:22-24 | the check loop stops at the first member without `/` |
| FetchZoteroLog.Fetch | bin/fetch-zotero-log.py:11-26 | the script as it runs equals the `Run` specification |
| FetchZoteroLog.RunSpec | bin/fetch-zotero-log.py:11-26 | the script ends without an exception exactly when the ID is good, the download works and every member is in a directory; then every member is extracted and the zip removed, otherwise nothing is extracted and the zip stays |
| FetchZoteroLog.BadMemberStops | bin/fetch-zotero-log.py:21-25 | one member outside a directory stops the run at the first such member, before anything is extracted |
| FetchZoteroLog.FirstBadAt | bin/fetch-zotero-log.py:22-23 | the first bad name comes no later than any bad name, after names that all contain `/` |
| Addon.DefaultIdSpec | bin/make-manifest.ts:12 | for an author mail `local@domain` the derived id is `<stem>@<domain>`, lower-cased |
| Addon.IdentifySpec | bin/make-manifest.ts:12 | a truthy id is kept and nothing changes; otherwise the derived id is stored, with reading the name or mail of a missing object a `TypeError` |
| Addon.OverlaySpec | bin/make-manifest.ts:13 | after `Object.assign(pkg, pkg.xpi)` a key of `xpi` reads as in `xpi` and any other key as before |
| Addon.VersionedSpec | bin/make-manifest.ts:15-17 | the version is the computed one, a truthy update link is replaced by its expansion for that version, every other key is unchanged |
| Addon.WithUpdateUrlSpec | bin/make-manifest.ts:18 | `updateURL` is the string of `xpi.releaseURL` followed by `update.rdf`, and reading it throws exactly when `xpi` is `undefined` or `null` |
| Addon.CompletedOk | bin/make-manifest.ts:12-18 | completing the package goes on exactly when an id can be had and the overlaid package has an `xpi` |
| Addon.CompletedId | bin/make-manifest.ts:12-13 | after completion the keys are distinct and the id is the `xpi` id, else the package's truthy id, else the derived one |
| Addon.CompletedVersion | bin/make-manifest.ts:15 | after completion the version is the computed one |
| Addon.CompletedLink | bin/make-manifest.ts:17 | after completion a truthy update link is expanded for the version |
| Addon.CompletedUpdateUrl | bin/make-manifest.ts:18 | after completion `updateURL` is the release URL of the overlaid `xpi` followed by `update.rdf` |
| Addon.CompletedOthers | bin/make-manifest.ts:12-18 | every key the completion does not set reads as after the overlay |
| Addon.UpdateUrlSpec | bin/make-manifest.ts:109 | the first `/update.rdf` of `<release>update.rdf` becomes `/updates.json` exactly when the release URL ends in `/`; otherwise the URL is unchanged |
| Addon.DescribeStep | bin/make-manifest.ts:33-39 | one description throws a `TypeError` exactly when it is for a locale other than en-US and `localizedDescriptions` is a string, number or boolean; otherwise an en-US description replaces `description`, another locale's is stored under `localizedDescriptions[locale]`, creating that object when absent, and nothing else changes |
| Addon.DescribedThrows | bin/make-manifest.ts:20-40 | the locale loop throws a `TypeError` exactly when `localizedDescriptions` starts as a string, number or boolean and some locale other than en-US has a description |
| Addon.DescribedSpec | bin/make-manifest.ts:20-40 | after a loop that does not throw, `description` is the last truthy en-US description, or unchanged when there is none |
| Addon.DescribedLocaleLast | bin/make-manifest.ts:36-38 | with `localizedDescriptions` an object or absent the loop does not throw, and another locale's entry is its last truthy description |
| Addon.DescribedLocaleNone | bin/make-manifest.ts:27-31 | with `localizedDescriptions` an object or absent, a locale without a truthy description keeps what the package had |
| Addon.DescribedOthers | bin/make-manifest.ts:20-40 | the loop touches no key but the two description keys and keeps the keys distinct |
| Addon.OptionsSpec | bin/make-manifest.ts:42-48 | an option reads from `supported.json` first, then `pretty: true`, then the package, then the version defaults |
| Addon.Variants | bin/make-manifest.ts:81-84 | each path is followed by its first-`/zotero-`→`/` variant, in order |
| Addon.WithSwapped | bin/make-manifest.ts:85 | the list keeps its candidates and then repeats each with `.svg`/`.png` swapped, in order |
| Addon.CandidatesSpec | bin/make-manifest.ts:78-85 | the candidates are the given first icons, then each of the four bases followed by its variant, then the swapped copy of every candidate so far |
| Addon.VariantsStripPrefix | bin/make-manifest.ts:83 | for an id stem `zotero-<rest>` the variants of the two skin paths drop `zotero-` from the file name and the other two are unchanged |
| Addon.BigSpec | bin/make-manifest.ts:87 | an svg is its own big icon; `stem.ext` otherwise has the big icon `stem@2x.ext` |
| Addon.FirstPresent | bin/make-manifest.ts:86-89 | the index found is the first candidate that exists; none is found only when no candidate exists |
| JsRegex.ReplaceThroughAtSpec | bin/make-manifest.ts:12 | `replace(/.*@/, r)` on `local@domain` with a one-line local part gives `r + domain`, and leaves a text without `@` alone |
| JsRegex.DropFromAtSpec | bin/make-manifest.ts:80 | `replace(/@.*/, '')` on `name@rest` gives `name`, and leaves a name without `@` alone |
| JsRegex.StripChromeSpec | bin/make-manifest.ts:78 | `chrome://host/rest` becomes `rest`; text not starting with `chrome://`, or with an empty host, is unchanged |
| JsRegex.SwapExtSpec | bin/make-manifest.ts:85 | `.svg` and `.png` endings are exchanged, anything else kept; the swap keeps the length and is its own inverse |
| JsRegex.RetinaSpec | bin/make-manifest.ts:87 | `@2x` goes right before the last extension; a name without an extension is unchanged |
| MakeManifest.FindMessage | bin/make-manifest.ts:26 | the index found is the first `Message` with that id; none exactly when there is no such message |
| MakeManifest.FindAttribute | bin/make-manifest.ts:28 | the index found is the first attribute with that id; none exactly when there is none |
| MakeManifest.TextSpec | bin/make-manifest.ts:30 | the text of a pattern is the concatenation of its text elements, in order; placeables contribute nothing |
| MakeManifest.DescriptionSpec | bin/make-manifest.ts:26-30 | a file without an `xpi` message describes nothing; otherwise the first `xpi` message's first `description` attribute gives the text of its text elements |
| MakeManifest.Texts | bin/make-manifest.ts:21-30 | each translation gives its locale and its description, in order |
| MakeManifest.DescribeLocales | bin/make-manifest.ts:20-40 | the locale loop, updating the package in place, equals the `Described` specification, including its `TypeError` |
| MakeManifest.IconCandidates | bin/make-manifest.ts:77-85 | the pushes build exactly the candidate list |
| MakeManifest.PushVariants | bin/make-manifest.ts:81-84 | the inner loop appends each base path and its variant |
| MakeManifest.Existing | bin/make-manifest.ts:86 | only candidates that exist survive |
| MakeManifest.ExistingFirst | bin/make-manifest.ts:86-94 | filtering and taking the first is finding the first existing candidate; with none, no icons are set |
| MakeManifest.GenerateSpec | bin/make-manifest.ts:12-48 | nothing is written when the package completion throws, nor when line 38 throws, which happens exactly for a string, number or boolean `localizedDescriptions` with a description for a locale other than en-US; otherwise the descriptions go in and the keys stay distinct |
| MakeManifest.OptionsRead | bin/make-manifest.ts:42-48 | each option reads as `supported.json`, `pretty`, the package or the defaults say, in that priority |
| MakeManifest.DefaultsRead | bin/make-manifest.ts:42 | the defaults are `minVersion` `7.0.32` and `maxVersion` `9.*` and nothing else |
| MakeManifest.EmitShape | bin/make-manifest.ts:50-118 | `updates.json` comes first, keyed by the id with the options' version, link and bounds; the manifest follows exactly when the id and the update URL are strings, else a `TypeError` stops the script |
| MakeManifest.EmitManifest | bin/make-manifest.ts:86-113 | the manifest carries the options' name, version, description, id and bounds, the `updates.json` URL, and the icons of the first existing candidate (96 = the big icon if it exists, else the small one), else the options' own |
| MakeManifest.WithIconsSpec | bin/make-manifest.ts:88-94 | setting the icons changes no other option |
| MakeManifest.SettingSource | bin/make-manifest.ts:42-48 | an option the script does not set reads from `supported.json`, then the overlaid package, then the defaults |
| MakeManifest.VersionBounds | bin/make-manifest.ts:63-111 | both files carry the option bounds, `supported.json` overriding the package overriding the defaults |
| MakeManifest.DerivedId | bin/make-manifest.ts:12-13 | a package without an id gets `name@domain` lower-cased, which the descriptions leave alone and which keys `updates.json` |
| MakeManifest.ReleaseUpdateUrl | bin/make-manifest.ts:18-109 | unless `supported.json` sets its own, the manifest's update URL is the release URL plus `update.rdf` with `/update.rdf` replaced by `/updates.json`; with a string id the manifest is always written |
| MakeManifest.Run | bin/make-manifest.ts:12-118 | the script, with its loops, equals the `Generate` specification |
| Rdf.StripZoteroSpec | rdf.ts:16 | `replace(/^zotero-/, '')` removes one leading `zotero-` and leaves other names alone |
| Rdf.ComparePrepared | rdf.ts:14-22 | the legacy script completes a package exactly as the newer one when it has its own id or a string name without the prefix; without an id, a non-string name throws |
| Rdf.DerivedId | rdf.ts:16 | a package without an id named `zotero-<rest>` by `local@domain` gets the id `<rest>@<domain>`, lower-cased |
| Rdf.DescribeLocales | rdf.ts:24-39 | the `.properties` loop, updating the package in place, equals the shared `Described` specification: en-US sets `description`, other locales `localizedDescriptions`, falsy descriptions skipped, and a `TypeError` on a primitive `localizedDescriptions` |
| Rdf.GenerateDescribes | rdf.ts:24-39 | nothing is written when line 37 throws, which happens exactly for a string, number or boolean `localizedDescriptions` with a description for a locale other than en-US; otherwise the files follow from the described package |
| Rdf.IconEntry.constructor | rdf.ts:94-95 | a pushed icon object holds its 48 path and no 96 path yet |
| Rdf.Smalls | rdf.ts:89-99 | the 48 paths of the list, in order |
| Rdf.IconList | rdf.ts:89-107 | the three push loops and the in-place 96 loop leave the list with exactly the shared candidate order (stripped `iconURL` kept only when non-empty) and each entry's 96 path the big icon of its 48 path |
| Rdf.Push | rdf.ts:94-95 | a push adds one fresh entry at the end and keeps the earlier ones |
| Rdf.PushBases | rdf.ts:93-96 | the loop appends fresh entries for each base path and its unprefixed variant |
| Rdf.PushSwapped | rdf.ts:97-99 | the loop over a copy appends the swapped copy of every entry so far |
| Rdf.SetBig | rdf.ts:100-107 | each entry's 96 path becomes its 48 path for an svg, else the 48 path with `@2x` before the extension; the 48 paths are unchanged |
| Rdf.DefaultsRead | rdf.ts:41 | the defaults are `minVersion` `6.0.9` and `maxVersion` `7.*` and nothing else |
| Rdf.BoundsRead | rdf.ts:41-47 | the gated bounds read from `supported.json` first, then the package, then the defaults |
| Rdf.WithIconsSpec | rdf.ts:108-114 | setting the icons changes no other option |
| Rdf.EmitGates | rdf.ts:49-62 | a non-string minimum stops the script before any file; one starting with `6` writes `install.rdf` and `update.rdf` first; a non-string maximum then stops it; one not starting with `7` ends it; otherwise the Zotero 7 files follow |
| Rdf.ModernShape | rdf.ts:62-137 | after the RDF files comes `updates.json`, keyed by the id with the version, link and minimum `6.999`; the manifest follows exactly when the icon URL can be stripped and the id and update URL are strings |
| Rdf.ModernManifest | rdf.ts:108-131 | the manifest carries name, version, description, id, the `updates.json` URL, bounds `6.999`/`7.*`, and the icons of the first existing 48 path (its 96 path if that exists, else the 48 path) |
| Rdf.DefaultBounds | rdf.ts:41-62 | with no bound named anywhere, both gates open: the RDF files and then `updates.json` are written |
| Rdf.IconsAgree | rdf.ts:89-99 | the two scripts' candidate lists agree, except for an `iconURL` that strips to nothing (kept only by the newer script) and a non-string, non-null one (ignored by the newer, a `TypeError` here) |
| Rdf.Run | rdf.ts:14-138 | the script with its loops and icon objects equals the `Generate` specification |
| Rdf.WriteFiles | rdf.ts:49-138 | the two gates on the assembled options equal the `Emit` specification |
| Rdf.WriteModern | rdf.ts:63-137 | `updates.json`, the icons and `manifest.json` equal the `Modern` specification |
| Rdf.ChooseIcons | rdf.ts:89-114 | building the icon objects and choosing the first existing one equals `WithIcons` over the value list |
| StartPy.PyIntOfIntToString | bin/start.py:63-64 | `int()` reads back the decimal text Python prints for every integer, negative ones included |
| StartPy.PyIntExamples | bin/start.py:63-66 | `int()` accepts a sign, leading zeros and single underscore groups, and refuses a doubled or trailing underscore or a bare sign |
| StartPy.PrefValueSpec | bin/start.py:60-75 | the tries come in the source's order: `null` gives None, `true`/`false` give booleans (both directions), an int text gives the int, and a text nothing reads stays a string |
| StartPy.PrefValueDumps | bin/start.py:60-75 | a boolean, int or string written with `json.dumps` reads back through `pref_value` as the same value |
| StartPy.ExpandUserSpec | bin/start.py:24 | `~` and `~/rest` expand to the home directory without trailing slashes; an unknown home leaves the path alone; an absolute path is unchanged |
| StartPy.ExpandOtherUser | bin/start.py:24 | `~name/rest` expands through that user's home directory, or stays as written when the user is unknown |
| StartPy.SectionUnique | bin/start.py:20-21 | a section read with `strict = False` has each option name once |
| StartPy.SectionPreserved | bin/start.py:20-21 | options with distinct names are kept as written, in order, when names are not folded |
| StartPy.SectionLowered | bin/start.py:20-21 | with configparser's folding, no option name of a section has a capital |
| StartPy.ConvertedSpec | bin/start.py:47 | the comprehension keeps the option names in order and gives each the `pref_value` of its text |
| StartPy.PreferencesSpec | bin/start.py:46-58 | the six fixed preferences override the ini; every other key has its configured value; the ini's keys come first in their order |
| StartPy.LoweredLosesCapitals | bin/start.py:47 | an ini preference whose name has a capital is never in the preference dict under that name |
| StartPy.PreservedKeepsNames | bin/start.py:47 | when names are kept, every non-fixed preference reads as `pref_value` of its own option |
| StartPy.LoadSpec | bin/start.py:16-58 | a missing file fails first, then a missing `profile` section; loading succeeds exactly when the profile path is there and a Zotero binary is configured or the platform is Darwin or Linux; a configured binary wins and paths are expanded |
| StartPy.Config.constructor | bin/start.py:23-58 | the fields are the checked settings, and the preference dict is the converted ini options overridden by the fixed six |
| StartPy.Config.Create | bin/start.py:16-58 | builds a Config exactly when the configuration loads, and fails with the same message the loader gives |
| StartPy.Name | bin/start.py:79-92 | the character loop returns the same answer as the recursive reading of a preference line's name |
| StartPy.FirstNameIs | bin/start.py:83-91 | the name is the decoded text up to the first quote after the opening one that closes a JSON string literal |
| StartPy.NameOfWritten | bin/start.py:79-105 | `name()` reads back the key from every line the script itself writes |
| StartPy.NameOfSpec | bin/start.py:79-92 | a non-preference line has no name; an unquoted key raises; a name found is the JSON decoding of a quoted span starting at the opening quote |
| StartPy.UniversalEnd | bin/start.py:98-99 | text-mode reading keeps the text non-empty and keeps whether it ends with a line break |
| StartPy.ReadLinesJoin | bin/start.py:99 | joining the lines `readlines` yields gives the text back |
| StartPy.ReadLinesShaped | bin/start.py:99 | every line `readlines` yields is non-empty, and all but the last end with their only line break |
| StartPy.ReadLinesConcat | bin/start.py:99-108 | lines shaped as `readlines` yields them are read back from their join unchanged |
| StartPy.KeptStep | bin/start.py:99-101 | one more line either keeps the earlier error, raises that line's error, or appends the line exactly when its name is not configured |
| StartPy.KeptRefused | bin/start.py:99-101 | once a line is refused, no later line changes the outcome |
| StartPy.KeptSpec | bin/start.py:99-101 | the loop succeeds exactly when every line has a readable name; it then keeps exactly the lines whose name is not configured; otherwise it fails with the first bad line's error |
| StartPy.PatchPrefs | bin/start.py:78-108 | the file is the profile's `<prefs>.js`; a missing file is untouched; otherwise the text written is the kept lines followed, when asked, by one line per preference that is not None |
| StartPy.KeepLines | bin/start.py:97-101 | the line loop yields the lines whose name is not a configured preference, in order, or the first error `name()` raises, as `Kept` specifies |
| StartPy.AppendConfig | bin/start.py:102-105 | the kept lines are followed by one `user_pref` line per configured preference that is not None, in dict order, as `Appended` specifies |
| StartPy.AppendedSpec | bin/start.py:102-105 | the added lines are the preferences that are not None, in dict order, each written with its key and value |
| StartPy.AppendedNamed | bin/start.py:100-105 | every added line names a configured preference, so a later patch drops it |
| StartPy.AppendedShaped | bin/start.py:105 | every added line is a single terminated line without a carriage return |
| StartPy.KeptThenDropped | bin/start.py:99-101 | lines that are all kept followed by lines that are all dropped leave exactly the first ones |
| StartPy.PatchIdempotent | bin/start.py:78-108 | patching a file the patch wrote gives the same text again, when the original text ended with a line break |
| StartPy.PatchFileSpec | bin/start.py:94-108 | a missing file is left alone, and a file whose lines cannot be read is not rewritten |
| StartPy.WordSafe | bin/start.py:130 | a word made only of characters `shlex.quote` leaves alone reads as itself in the shell |
| StartPy.WordEscaped | bin/start.py:130 | a single-quoted escaped text reads back as the text |
| StartPy.QuoteRead | bin/start.py:130-132 | the shell reads `shlex.quote(s)` as the single word `s`, for every `s` |
| StartPy.CommandSpec | bin/start.py:129-133 | the command starts the configured binary with `-purgecaches -P`, names a configured profile quoted, redirects to a configured log quoted, and always ends with ` &` |
| StartPy.SourcesSpec | bin/start.py:125-126 | the proxy file's text is the working directory's `build` with exactly one trailing slash |
| StartPy.PreludeSpec | bin/start.py:117-120 | the build runs first, the database is copied exactly when one is configured, and nothing is written before the proxy file |
| StartPy.LaunchSpec | bin/start.py:113-135 | the build comes first and a failed build (`check=True`) raises with nothing after it; without an `install.rdf` id the run raises `NameError` after the build and copy, before the proxy file; otherwise it writes the proxy file for the last id and ends by starting Zotero, raising when that command fails; it finishes exactly when both commands succeed and there is an id |
| StartPy.ScriptSpec | bin/start.py:110-135 | an unpatchable `prefs.js` raises before any step; an unpatchable `user.js` raises after the `prefs.js` write only; otherwise `prefs.js` is patched without and `user.js` with the configured preferences, each only when present, and the launch follows; the run finishes exactly when both patches and the launch do |
| StartTs.AlternativesEscaped | bin/start.ts:28 | an escaped name is read back by the pattern as the literal text of that name |
| StartTs.AlternationRead | bin/start.ts:28 | the escaped names joined with `\|` read back as exactly the list of names |
| StartTs.DroppedIff | bin/start.ts:28-32 | a line matches the reset pattern exactly when one of the five setting names occurs in it |
| StartTs.Keep | bin/start.ts:30-33 | the loop keeps exactly the lines the filter keeps |
| StartTs.Append | bin/start.ts:34-36 | the loop appends one line per setting whose value is not null, in order |
| StartTs.Rewrite | bin/start.ts:29-38 | the text written is the rewritten text of the file |
| StartTs.SameTest | bin/start.ts:32 | any test that agrees with the reset pattern keeps the same lines |
| StartTs.KeptSpec | bin/start.ts:30-33 | the kept lines are exactly the lines the pattern does not match, in their order |
| StartTs.KeptAppend | bin/start.ts:30-33 | filtering two runs of lines is filtering each and joining |
| StartTs.KeptKept | bin/start.ts:30-33 | filtering twice is filtering once |
| StartTs.KeptNone | bin/start.ts:30-33 | lines that all match leave nothing |
| StartTs.KeptNoNewline | bin/start.ts:31 | the kept lines of a split text hold no line break |
| StartTs.AddedLines | bin/start.ts:21-36 | the added lines are the three non-null settings, `autoDisableScopes` 0 and the two `15`s, in order |
| StartTs.AddedAllDropped | bin/start.ts:28-36 | every added line is one the reset pattern drops, and none holds a line break |
| StartTs.PrefLineDropped | bin/start.ts:35 | the line written for a setting is matched by the pattern |
| StartTs.PrefLineSingle | bin/start.ts:35 | the line written for a setting is a single line |
| StartTs.RewrittenLines | bin/start.ts:29-38 | splitting the written text gives the kept lines followed by the added lines |
| StartTs.RewrittenIdempotent | bin/start.ts:29-38 | resetting a reset file writes the same text again |
| StartTs.Code | bin/start.ts:47-48 | the build path ends with exactly the separator it had or one added |
| StartTs.AsWrittenInsertsUndefined | bin/start.ts:49 | as written, `replace('zotero-')` turns `zotero-` into `undefined`, so the proxy file is named `undefined<rest>@<domain>` |
| StartTs.IntendedStripsPrefix | bin/start.ts:49 | with the prefix stripped, the proxy file is named `<rest>@<domain>` |
| StartTs.Binary | bin/start.ts:51-65 | Darwin gets the application bundle's binary, Windows none, every other platform `/usr/local/bin/zotero/zotero` |
| StartTs.ResetFiles | bin/start.ts:29-39 | the loop's writes and outcome are those of the reset of each file in turn |
| StartTs.ResetsMissing | bin/start.ts:31 | a missing prefs file throws at that file, after the writes before it |
| StartTs.ResetsAdvance | bin/start.ts:29-39 | a present file adds its rewrite to the writes and the loop goes on |
| StartTs.ResetsDone | bin/start.ts:29-39 | when every file was present the loop finishes with the writes so far |
| StartTs.ResetsOne | bin/start.ts:29-39 | one file is rewritten when present, and the loop throws when it is missing |
| StartTs.ResetsTwo | bin/start.ts:29-39 | two files are rewritten in order, and a missing one stops the loop before anything more is written |
| StartTs.Script | bin/start.ts:20-67 | the script does exactly what the run describes |
| StartTs.RunReset | bin/start.ts:20-40 | with `--reset`, `user.js` then `prefs.js` are rewritten before anything else runs, and a missing one stops the script there |
| StartTs.RunNoReset | bin/start.ts:20-67 | without `--reset` no prefs file is touched and the only file written is the proxy file |
| StartTs.LaunchWritesProxy | bin/start.ts:42-67 | the launch writes one file, the proxy file, as its fourth step |
| StartTs.LaunchSteps | bin/start.ts:42-49 | the launch builds, removes the registered extensions, then writes the proxy file holding the build path with its separator |
| StartTs.LaunchEnd | bin/start.ts:51-67 | on Windows the launch exits with status 1 after the proxy file; elsewhere it starts the platform's Zotero with the profile and the log |
| Release.GateSpec | bin/release.ts:45-51 | a pull request stops with status 0; otherwise the run passes exactly when there is no tag, or the tag is `v` plus the package version on no branch, `master` or `main`; every other stop has status 1 |
| Release.AddAllSpec | bin/release.ts:53-60 | adding to an insertion-ordered set keeps what was there in front, holds exactly the old and new members, and never repeats one |
| Release.AddSpec | bin/release.ts:62 | adding one value to the set holds exactly the old members and the value, each once |
| Release.SkipAlnum | bin/release.ts:54 | the search for the next tag passes over letters and digits without finding a tag inside them |
| Release.ExecFinds | bin/release.ts:54 | one `exec` step finds the first hashtag from its position on, or there is none left |
| Release.Hashtags | bin/release.ts:53-56 | the `exec` loop collects exactly the message's hashtags, each once, in order of first appearance |
| Release.TagsFromMember | bin/release.ts:54-55 | a text is collected from a position exactly when a hashtag starting at or after it reads that text |
| Release.TagsSpec | bin/release.ts:53-56 | a text is a tag exactly when a `#` at the start of a line or after white space is followed by that run of letters and digits; no tag repeats |
| Release.TagsExample | bin/release.ts:54 | hashtags at the start of the message and of a line are tags, and one glued to a word is not |
| Release.TagIssuesSpec | bin/release.ts:60 | a number is an issue of the tags exactly when some tag parses to it at the radix its reading gives |
| Release.AsWrittenDropsSecondTag | bin/release.ts:60 | as written, `map(parseInt)` parses `#34` at radix 1, so tags `12` and `34` give only issue 12 |
| Release.IntendedKeepsBothTags | bin/release.ts:60 | parsed in base ten, tags `12` and `34` give issues 12 and 34 |
| Release.IntendedDecimalTags | bin/release.ts:60 | parsed in base ten, every decimal tag yields its number as an issue |
| Release.KeepDigitsOfBranch | bin/release.ts:61-62 | removing the non-digits of an issue branch name leaves exactly its digits |
| Release.BranchIssueOf | bin/release.ts:61-62 | a branch named `N`, `gh-N` or `issue-N`, with an optional `-word`, names issue N |
| Release.OtherBranches | bin/release.ts:61 | `main`, `gh-` and an unset branch name no issue |
| Release.IssuesSpec | bin/release.ts:60-63 | the issues are exactly the numbers the tags parse to and the branch's number, each once |
| Release.WithoutSpec | bin/release.ts:156-206 | exactly the assets the deletion does not select survive |
| Release.Prune | bin/release.ts:156-206 | the deletion loop leaves the assets the deletion does not select, in order |
| Release.FindAsset | bin/release.ts:107 | `find` gives the first asset with the name, or none exactly when no asset has it |
| Release.UploadAssetSpec | bin/release.ts:102-134 | the upload fails exactly when the name is taken on a release other than `builds`, with the message naming the asset and the release's page; otherwise the new asset comes last, and every asset of another name stays |
| Release.PointerReleaseOf | bin/release.ts:195 | the release for the update pointers is the last non-empty path segment of the release URL, with or without a trailing slash |
| Release.LastNonEmptySpec | bin/release.ts:195 | the segment chosen is non-empty with only empty segments after it, and none is chosen only when all are empty |
| Release.Script | bin/release.ts:45-215 | the script, with its loops, ends exactly as the run describes |
| Release.RunGated | bin/release.ts:45-51 | pull requests are never released, nor tags that do not match the package version |
| Release.RunHashtags | bin/release.ts:58-66 | `#norelease` stops the run with status 0, and `#noannounce` silences every announcement |
| Release.RunAnnounces | bin/release.ts:65-214 | otherwise every derived issue, translation issues on `l10n_master` included, is announced once |
| Release.RunUntaggedWithoutIssues | bin/release.ts:197 | an untagged build tied to no issue changes no release |
| Release.RunTestBuild | bin/release.ts:197-208 | an untagged build tied to an issue lands on `builds`: expired XPIs go, the new XPI comes last, and every other asset and release stays |
| Release.RunTagExists | bin/release.ts:180-186 | a tag that is already released stops the run with status 1 |
| Release.RunTagged | bin/release.ts:151-196 | a new tag is released holding its XPI, and the release named by the last segment of the release URL ends with one fresh `update.rdf` and one fresh `updates.json` after its other assets |
| ContinuousIntegration.ServiceAfterSpec | continuous-integration.ts:12-14 | after the first probes, the service is the name of the last probe whose variable is `'true'`, or `''` when none is |
| ContinuousIntegration.ServiceSpec | continuous-integration.ts:12-14 | the service is named by the last of CIRCLECI, TRAVIS, SEMAPHORE and GITHUB_ACTIONS that is `'true'`, and is `''` exactly when none is |
| ContinuousIntegration.ParseNumber | continuous-integration.ts:56-61 | a number passes through, and an unset variable fails as `undefined is not an integer` |
| ContinuousIntegration.ParseNumberSpec | continuous-integration.ts:56-61 | a text succeeds exactly when `parseInt` reads a number from it, gives that number, fails naming the text otherwise, and reads every decimal numeral as its value |
| ContinuousIntegration.GitHubRefs | continuous-integration.ts:35-45 | the branch and tag hold no `/`, and at most one of them is set |
| ContinuousIntegration.GitHubRefsSpec | continuous-integration.ts:35-45 | a head ref names the branch; otherwise a `refs/tags/` ref names the tag and a `refs/heads/` ref the branch, each by its last segment; an unset `GITHUB_REF` throws; any other ref leaves both empty |
| ContinuousIntegration.GitHubRun | continuous-integration.ts:30-47 | a GitHub run that goes through has an event name |
| ContinuousIntegration.UnhandledServices | continuous-integration.ts:49-51 | any service other than Circle and GitHub throws when `CI` is `'true'`, and otherwise leaves every field at its initial value |
| ContinuousIntegration.CircleSpec | continuous-integration.ts:17-28 | on Circle the build number is parsed, the tag is null exactly when `git describe` fails and is its trimmed output otherwise, and the build is a pull request exactly when `CIRCLE_PULL_REQUEST` is non-empty |
| ContinuousIntegration.PullRequestEvents | continuous-integration.ts:33 | as written, `pull_request` and `pull_request_target` are not pull-request events; as intended, both are |
| ContinuousIntegration.GitHubPullRequest | continuous-integration.ts:33 | as written, a GitHub pull-request build is never reported as one; as intended, it always is |
| ContinuousIntegration.ReadingsAgree | continuous-integration.ts:11-54 | the two readings of line 33 differ only in the pull-request flag |
| ContinuousIntegration.GitHubPullRequestEvent | continuous-integration.ts:30-47 | on GitHub the pull-request flag is the event-name test, and the branch and tag are those the refs give |
| ContinuousIntegration.Singleton.constructor | continuous-integration.ts:3-54 | the singleton holds what the detection finds, or records the error the constructor throws |
| ContinuousIntegration.Singleton.ReadCircle | continuous-integration.ts:17-28 | from the initial fields, the Circle branch sets exactly what the Circle reading gives, or records its error |
| ContinuousIntegration.Singleton.ReadGitHub | continuous-integration.ts:30-47 | from the initial fields, the GitHub branch sets exactly what the GitHub reading gives, or records its error |
| VersionString.ComposeSpec | version.ts:20-28 | an untagged CI build appends the issue part and the build number, a local build the user name and host name, a tagged CI build keeps exactly the package version; every version extends the package version (with bin/version.ts:13-21) |
| VersionString.BuildNumberLast | bin/version.ts:15-18 | in an untagged CI build the text after the last dot reads back as the build number |
| VersionString.NoIssueFromSingleton | bin/version.ts:16 | the CI singleton has no `issue`, so the issue part is always empty whatever `VERSION_WITH_ISSUE` says (with continuous-integration.ts:3-9) |
| BinVersion.WrittenIsReturned | bin/version.ts:12-27 | the module written to `gen/version.cjs` holds exactly the version returned, and `gen` is created exactly when it is missing |
| Version.VersionSpec | version.ts:10-32 | an existing `gen/version.js` is used as it is, with nothing written; otherwise the composed version is written so that it loads back, creating `gen` when it is missing |
| Version.LoadModuleText | version.ts:14-31 | the module text written loads back as the version it holds |
| Version.SecondRunCached | version.ts:12-15 | a second build reads the version the first one wrote, whatever the CI, user or host are by then, and writes nothing |
| CopyAssets.Basename | copy-assets.ts:10 | the base name holds no separator |
| CopyAssets.Extname | copy-assets.ts:15 | the extension is empty or a single dot followed by no other dot |
| CopyAssets.BasenameBelow | copy-assets.ts:10 | the base name of a file below a directory is the file's own name |
| CopyAssets.ExtnameOfName | copy-assets.ts:15 | a name with a non-empty stem has the text from its last dot as extension |
| CopyAssets.AllowByName | copy-assets.ts:9-24 | `allow` judges a path below a directory by the file's own name only, not by the directory part |
| CopyAssets.CopiesAbove | copy-assets.ts:37-43 | every directory above a copied entry, up to the source directory, is copied too |
| CopyAssets.RefusedPrunes | copy-assets.ts:37-43 | a directory the filter refuses, such as `locale/x.json/`, takes its whole subtree out of the copy |
| CopyAssets.CopiesByName | copy-assets.ts:37-43 | below directories that are copied, a file is copied exactly when the job is unfiltered or `allow` accepts its name |
| CopyAssets.BlockedLeftOut | copy-assets.ts:9-24 | `.DS_Store` and every file with a `.json`, `.ts`, `.peggy` or `.pug` extension in any letter case are left out |
| CopyAssets.DotFileAllowed | copy-assets.ts:15-21 | a dot file named `.json` has no extension and is copied |
| CopyAssets.NoDotAllowed | copy-assets.ts:9-24 | a file name without a dot is always copied |
| CopyAssets.Copy | copy-assets.ts:32-53 | the copy loop issues the directory jobs followed by the client job, as the job lists describe |
| CopyAssets.DirJobsSpec | copy-assets.ts:33-43 | there is exactly one job per directory that exists and has no `.nomedia`, in the directories' order, each from the joined directory into `build` |
| CopyAssets.FilterBypass | copy-assets.ts:36-52 | with any non-empty root every directory job is filtered; only with an empty root are `resource` and `chrome.manifest` copied whole; the client job copies everything |
| Loader.SrcUnderCwd | loader/wrap.ts:11 | a resource below the working directory is named by its path relative to it |
| Loader.Id | loader/wrap.ts:20 | the id has one character per character of the path, each letter and digit kept and every other character made `_` |
| Loader.IdSpec | loader/wrap.ts:20-22 | the id is made of identifier characters only, keeps exactly the letters and digits, is unchanged by a second pass, and equals the path exactly when the path already is one |
| Loader.VarsDistinct | loader/wrap.ts:21-22 | the catch variable and the message variable never clash, and each determines the module's id |
| Loader.ExtensionTs | loader/wrap.ts:32 | the last dot-separated part is `ts` exactly when the path ends with `.ts` or is `ts` itself |
| Loader.WrapSpec | loader/wrap.ts:8-39 | a `.ts` module is wrapped and anything else throws `Unexpected extension on <src>`; the wrapped text starts by logging the load, holds the source verbatim after `try {`, and closes the `catch` |
| Loader.Framed | loader/wrap.ts:34 | a text framed by the prefix and the closing text holds the source exactly between them |
| Loader.WrapInjective | loader/wrap.ts:34 | the wrapped text determines the source: two modules at one path wrap alike only when they are equal |
| FindRoot.FindIndexFrom | bin/find-root.ts:5 | `findIndex` gives -1 exactly when no ancestor from the start on holds a `package.json`, and otherwise the first that does |
| FindRoot.AncestorPrefix | bin/find-root.ts:5-6 | every ancestor built from the first segments is a prefix of the working directory |
| FindRoot.RootSpec | bin/find-root.ts:4-9 | the index names the shortest ancestor holding a `package.json`, or is -1 when none does; the root is a prefix of the working directory; past the first segment it is that ancestor, whose `package.json` is the one read; otherwise it is the working directory |
| Bail.Reverse | plugin/bail.ts:3-5 | the reversal has the same length and each element at the mirrored position |
| Bail.ReverseMultiset | plugin/bail.ts:3-5 | reversing loses and duplicates nothing |
| Bail.ReverseReverse | plugin/bail.ts:3-5 | reversing twice gives the sequence back |
| Bail.Compilation.constructor | plugin/bail.ts:2 | a compilation holds the warnings and errors it is given |
| Bail.Compilation.Bail | plugin/bail.ts:3-5 | the loop leaves no warning and appends the old warnings to the errors, last one first |
| Bail.Transferred | plugin/bail.ts:2-6 | after the hook the old errors are an unchanged prefix, followed by exactly the old warnings in reverse, with nothing lost or duplicated |
| Bail.Done | plugin/bail.ts:2-6 | a `done` hook without the plugin's tap leaves the errors and warnings as they are, and no tap loses or adds a diagnostic |
| Bail.AsWrittenBailPlugin | plugin/bail.ts:1-2 | registration throws a ReferenceError exactly when nothing binds `compiler`, and otherwise adds the plugin's tap to the `done` hook |
| Bail.AsWrittenNeverTaps | plugin/bail.ts:1-2 | in a build binding no `compiler`, installing the plugin throws, and a build's warning stays a warning |
| Bail.Apply | plugin/bail.ts:2 | the intended registration keeps the existing taps and adds the plugin's tap last |
| Bail.AppliedBails | plugin/bail.ts:2-6 | once the plugin is applied the `done` hook leaves no warning; applied once, it appends exactly the old warnings, last one first, to the old errors |
| Json.DecodeStringify | version.ts:31 | every string `JSON.stringify` writes decodes back to the same string (with bin/version.ts:25) |
| Json.DecodeDumps | bin/start.py:105 | every string `json.dumps` writes decodes back to the same string |
| Utf8.DecodeEncode | debug-log.ts:26-38 | the UTF-8 bytes `TextEncoder` produces decode back to the text |
| Utf8.EncodeInjective | debug-log.ts:38 | two texts with the same UTF-8 bytes are equal |
| Order.Sort | debug-log.ts:251 | the sorted names are in order and a permutation of the input |
| JsText.ParseIntNaN | bin/release.ts:60 | for every radix `parseInt` is `NaN` exactly when the radix is 1, negative or above 36, or when no digit of the effective radix follows the white space, the sign and, for radix 0 or 16, a `0x`/`0X` prefix; this covers `tags.map(parseInt)`, which passes each index as the radix |
| JsText.ParseIntOmittedRadix | continuous-integration.ts:58-59 | `parseInt(n)` without a radix is `NaN` when no decimal digit follows the sign, is a number when one does, and after `0x` is a number exactly when a hexadecimal digit follows |

## Left out

- Cryptography. AES-256-GCM (NIST SP 800-38D), RSA-OAEP (section 7.1 of RFC 8017), random keys and IVs, and SPKI import are not modelled, and neither are their failures: a public key that `importKey` rejects (which `sendAsync` reports as a submission error) has no counterpart, because the arrows are total. They enter as the uninterpreted arrows of `DebugLog.Crypto` and the `FetchLog.Unwrap`/`FetchLog.Decipher` parameters. The round trips assume unwrapping undoes wrapping and that GCM opens what it sealed; both are premises, not proved. `bin/crypto.ts` and `crypto.ts` are not part of this model.
- Key storage and prompting. `getPassphrase` in `bin/fetch-log.ts`, the keyring and KeePass are not modelled; the private key enters already unlocked, as the `unwrap` parameter. `bin/keypair.ts` and `bin/keypair.py` are not part of this model.
- ZIP and base64. The ZIP encoder and reader are left out: `DebugLog.Bundler.Zip` applies an encoder parameter, and the consumers read an archive given as a list of entries. The base64 helpers of `debug-log.ts` are left out too.
- Network. Uploads to 0x0.st, downloads, HTTP status handling and the Octokit calls of `bin/release.ts` are left out. What they return is an input: the upload's answer, the download's bytes or failure, and the repository's releases, their assets and their pages. An upload to a release is assumed to succeed.
- User interface. Menus, prompts and alerts of `debug-log.ts` are left out, and so is all of `zotero-debug-log.ts`.
- Subprocesses and machine facts. `git describe` and `git log` output, `os.userInfo`, `hostname`, `platform.system` and the environment are inputs. The scripts' shell commands, file copies and file writes are modelled as the steps they issue. In `bin/start.py` whether each command exits with status 0 is an input (`succeeds`); elsewhere commands, copies and writes are assumed to succeed.
- Concurrency. Two `add` calls racing to create the content key are left out; the only caller awaits each call in turn.
- Templating and parsers. Pug rendering, URI-template expansion, the Fluent parser and `PropertiesReader` are left out; their results are parameters of `MakeManifest` and `Rdf`. Other build scripts and configuration files are not part of this model.
- Release reporting. The dry-run mode of `bin/release.ts`, the announcement texts and comment posting, issue locking, the `VERBOSE` dump and the `GITHUB_ENV` line are left out. The model follows a CI run and records which issues are announced to.
- Release.TaggedRelease: `getRelease` with an undefined tag is taken to fail with "Could not get release undefined". That is the API refusing the call, which the model does not see.
- StartPy.PrefValue: the float branch and the JSON branch for numbers, lists and objects are not computed. An oracle `other` says which texts they accept, and such a value is kept as its text. Only JSON string literals are decoded.
- StartPy.Load: `configparser`'s file syntax, interpolation and `DEFAULT` section are not modelled. The ini enters already parsed into sections, with each section's options in file order.
- StartPy.Patch: the file is modelled as text read in text mode. Encodings and read or write errors are left out.
- CopyAssets.Allow: `toLowerCase` is taken on ASCII letters only. Outside ASCII, no character lower-cases into one of the four blocked extensions anyway.
- Strings.Lower: only ASCII letters are folded. This affects case-insensitive name comparison in `bin/fetch-log.ts`, `configparser`'s key folding, and the lower-cased default extension id of bin/make-manifest.ts:12 and rdf.ts:16 when the package name or e-mail domain has non-ASCII letters.
- Paths.JoinPath: `path.join` is modelled without normalising `.`, `..` or repeated separators.
- Utf8.Encode: strings are sequences of Unicode scalar values. Lone UTF-16 surrogates, which `TextEncoder` replaces with U+FFFD, do not occur in the model. For the same reason `Json.Decode` refuses a `\uD800`-style escape of a lone surrogate, which Python's `json.loads` accepts, so `StartPy.PrefValue` keeps such a value as raw text where Python would decode it.
- JsText.ParseInt: results are exact integers. JavaScript rounds values past 2^53 to the nearest double, which the model does not do.
- Release.UploadAsset: a failed `uploadReleaseAsset` call, which bails with the release's page and the error (bin/release.ts:131-133), is not modelled; the upload is taken to succeed.
- StartTs.Launch: `npm run build`, the two `rm -rf` commands and the launch are assumed to exit with status 0. In the source `execSync` throws on any other status and the rest of the script does not run.
- StartTs.ProxyName: the author's e-mail is a string. When `package.json` gives `author` in npm's string form, `pkg.author.email` is undefined and line 49 throws a TypeError; that case is not modelled.
- Addon.Localized: an array `localizedDescriptions` takes the new entry as a named property, which `JSON.stringify` drops; the model keeps the array as it was, and the per-locale lemmas (`DescribedLocaleLast`, `DescribedLocaleNone`) assume an object or nothing there.
- Records.Keys: dictionaries keep insertion order. JavaScript objects enumerate keys that look like array indices (such as a log file named `7`) first, in numeric order; the model leaves such keys out, so the "insertion order" of the `FetchLog.ExtractGroups` and `FetchLog.ExtractAll` rows assumes no such file name.
- BundleRoundTrip.EncryptedRoundTrip: the paths added contain no `/`. `fetch-log` writes each file to `logs/<key>/<path>` (bin/fetch-log.ts:126) and creates only `logs/<key>` (bin/fetch-log.ts:61-64), so a path with a `/` needs a directory that is never created, and the write fails unless it already exists.
- Loader.Id: strings are sequences of Unicode scalar values. JavaScript's regex without the `u` flag sees a character outside the Basic Multilingual Plane as two UTF-16 code units and writes `__` for it; the model writes one `_`.
- Order.Sort: names are ordered by code point. `Array.prototype.sort` compares UTF-16 code units, which orders a character above U+FFFF differently against one in U+E000-U+FFFF; preference names with such characters are not modelled.
- FetchZoteroLog.Fetch: `zipfile`'s own checks of the archive, such as CRC failures, are left out; the archive enters as its list of member names.
- StartTs.Script: `shell-quote` is a parameter `quote`, and only the commands it is given are stated.

## Findings

| source | as written | input that shows it | evidently intended | confidence | as-written member | corrected member |
|---|---|---|---|---|---|---|
| bin/fetch-log.ts:100 | the type is read from `groups.ext`, a group the regex of line 98 does not have, so it is always empty | any encrypted log from a Bundler with a public key, e.g. ID `abc123-0x0-XYZ.enc` with entries `abc123/abc123.key`, `abc123/debug.txt.iv`, `abc123/debug.txt.enc` | read `groups.type`, so that `.key`, `.iv` and `.enc` entries are classified and the log is decrypted | not executed | FetchLog.AsWrittenEncryptedFails | BundleRoundTrip.EncryptedRoundTrip |
| continuous-integration.ts:33 | a pull request is detected by the prefix `pull-request` | `GITHUB_EVENT_NAME=pull_request` on GitHub Actions | test for the prefix `pull_request`, which admits GitHub's `pull_request` and `pull_request_target` (and also `pull_request_review` and `pull_request_review_comment`) | not executed | ContinuousIntegration.PullRequestEvents | ContinuousIntegration.GitHubPullRequest |
| bin/start.ts:49 | `replace('zotero-')` without a replacement turns the prefix into `undefined` | package name `zotero-foo` with author e-mail `me@example.com` gives the proxy file `undefinedfoo@example.com` | strip the prefix, giving `foo@example.com` | not executed | StartTs.AsWrittenInsertsUndefined | StartTs.IntendedStripsPrefix |
| bin/release.ts:60 | `Array.from(tags).map(parseInt)` passes each tag's index as the radix | commit message `#12 #34`: the second tag is parsed at radix 1, which gives NaN, so only issue 12 is found | parse every tag in base ten | not executed | Release.AsWrittenDropsSecondTag | Release.IntendedDecimalTags |
| plugin/bail.ts:2 | `BailPlugin()` uses a `compiler` it neither takes nor binds, so calling it throws a ReferenceError and the `done` hook is never tapped | a webpack configuration that installs the plugin with warning `w` in the build: the configuration throws instead of `w` becoming an error | a plugin `apply(compiler)` that taps the `done` hook of the compiler it is given | not executed | Bail.AsWrittenNeverTaps | Bail.AppliedBails |
