/** `bin/release.ts`: the decisions of the release script. It refuses to
    release pull requests and mismatched tags, reads hashtags from the commit
    message, derives the issues a build is for, and publishes the XPI either
    as a tagged release with its update pointers or as a test build on the
    `builds` release. */
module Release {
  import opened Base
  import opened Strings
  import JsText

  /** `bail(msg, status)`: the process ends with this status and message. */
  datatype Exit = Exit(status: int, message: string)

  /** A truthy `CI.tag` or `CI.branch`. */
  predicate Truthy(s: Option<string>) {
    s.Some? && s.value != ""
  }

  /** Lines 45-51: the gate before anything else happens. */
  function Gate(pullRequest: bool, tag: Option<string>, branch: Option<string>, pkgVersion: string): Option<Exit> {
    if pullRequest then Some(Exit(0, "Not releasing pull requests"))
    else if Truthy(tag) && "v" + pkgVersion != tag.value then
      Some(Exit(1, "Building tag " + tag.value + ", but package version is " + pkgVersion))
    else if Truthy(tag) && Truthy(branch) && branch.value != "master" && branch.value != "main" then
      Some(Exit(1, "Building tag " + tag.value + ", but branch is " + branch.value))
    else None
  }

  /** A pull request stops with status 0; a tag stops with status 1 unless it
      is `v` and the package version and the branch is unset, `master` or
      `main`; nothing else stops here. */
  lemma GateSpec(pullRequest: bool, tag: Option<string>, branch: Option<string>, pkgVersion: string)
    ensures pullRequest ==> Gate(pullRequest, tag, branch, pkgVersion) == Some(Exit(0, "Not releasing pull requests"))
    ensures !pullRequest ==>
      (Gate(pullRequest, tag, branch, pkgVersion).None? <==>
         !Truthy(tag) || (tag.value == "v" + pkgVersion && (!Truthy(branch) || branch.value in ["master", "main"])))
    ensures !pullRequest && Gate(pullRequest, tag, branch, pkgVersion).Some? ==>
      Gate(pullRequest, tag, branch, pkgVersion).value.status == 1
  {
  }

  // ---------------------------------------------------------------------
  // Hashtags (lines 53-56)

  /** Under the `m` flag, `^` holds at the start and after a line terminator. */
  predicate LineStart(s: string, p: nat)
    requires p <= |s|
  {
    p == 0 || IsLineTerminator(s[p - 1])
  }

  /** A `#` at `q` followed by a letter or digit. */
  predicate HashRun(s: string, q: nat) {
    q + 1 < |s| && s[q] == '#' && IsAsciiAlnum(s[q + 1])
  }

  /** A hash sign that starts a hashtag: at the start of a line or right
      after white space (`\s` includes the line terminators). */
  predicate TagStart(s: string, q: nat) {
    HashRun(s, q) && (q == 0 || JsText.IsJsSpace(s[q - 1]))
  }

  /** The letters and digits after the hash sign at `q`. */
  function TagAt(s: string, q: nat): (t: string)
    requires TagStart(s, q)
    ensures |t| >= 1 && AllAlnum(t)
  {
    s[q + 1..AlnumEnd(s, q + 1)]
  }

  /** The hashtags at or after `from`, in the order of the text. */
  function TagsFrom(s: string, from: nat): seq<string>
    decreases |s| - from
  {
    if from >= |s| then []
    else (if TagStart(s, from) then [TagAt(s, from)] else []) + TagsFrom(s, from + 1)
  }

  /** One `regex.exec` with `lastIndex` at `from`: the position of the `#` of
      the first match, trying `^#` and then `\s#` at each position. */
  function Exec(s: string, from: nat): Option<nat>
    decreases |s| - from
  {
    if from >= |s| then None
    else if LineStart(s, from) && HashRun(s, from) then Some(from)
    else if JsText.IsJsSpace(s[from]) && HashRun(s, from + 1) then Some(from + 1)
    else Exec(s, from + 1)
  }

  /** `Set.add`: a value already present keeps its place. */
  function Add<T(==)>(acc: seq<T>, x: T): seq<T> {
    if x in acc then acc else acc + [x]
  }

  /** Adding the values in order, as `new Set(values)` does. */
  function AddAll<T(==)>(acc: seq<T>, xs: seq<T>): seq<T>
    decreases |xs|
  {
    if |xs| == 0 then acc else AddAll(Add(acc, xs[0]), xs[1..])
  }

  predicate Distinct<T(==)>(xs: seq<T>) {
    forall i, j :: 0 <= i < j < |xs| ==> xs[i] != xs[j]
  }

  /** The insertion-ordered set keeps what it had in front, adds every
      value, and never holds one twice. */
  lemma {:induction false} AddAllSpec<T>(acc: seq<T>, xs: seq<T>)
    ensures |acc| <= |AddAll(acc, xs)| && AddAll(acc, xs)[..|acc|] == acc
    ensures forall x :: x in AddAll(acc, xs) <==> x in acc || x in xs
    ensures Distinct(acc) ==> Distinct(AddAll(acc, xs))
    decreases |xs|
  {
    if |xs| > 0 {
      var acc' := Add(acc, xs[0]);
      AddAllSpec(acc', xs[1..]);
      assert AddAll(acc', xs[1..])[..|acc|] == acc'[..|acc|];
      forall x ensures x in xs <==> x == xs[0] || x in xs[1..] {
        assert xs == [xs[0]] + xs[1..];
      }
    }
  }

  /** The tags of a commit message: every hashtag once, in order of first
      appearance. */
  function Tags(message: string): seq<string> {
    AddAll([], TagsFrom(message, 0))
  }

  /** The scan skips letters and digits: none of them starts a tag. */
  lemma {:induction false} SkipAlnum(s: string, a: nat, b: nat)
    requires a <= b <= |s|
    requires forall j :: a <= j < b ==> IsAsciiAlnum(s[j])
    ensures TagsFrom(s, a) == TagsFrom(s, b)
    decreases b - a
  {
    if a < b {
      SkipAlnum(s, a + 1, b);
    }
  }

  /** `exec` finds the first hashtag at or after `from`, provided a tag
      right at `from` would need no white space before it. */
  lemma {:induction false} ExecFinds(s: string, from: nat)
    requires from <= |s|
    requires TagStart(s, from) ==> LineStart(s, from)
    ensures match Exec(s, from)
      case None => TagsFrom(s, from) == []
      case Some(q) => from <= q && TagStart(s, q) && TagsFrom(s, from) == TagsFrom(s, q)
    decreases |s| - from
  {
    if from < |s| && !(LineStart(s, from) && HashRun(s, from)) {
      if JsText.IsJsSpace(s[from]) && HashRun(s, from + 1) {
      } else {
        ExecFinds(s, from + 1);
      }
    }
  }

  /** The `exec` loop of lines 53-56: `tags` ends up holding exactly the
      hashtags of the message, each once, in order of first appearance. */
  method Hashtags(message: string) returns (tags: seq<string>)
    ensures tags == Tags(message)
  {
    tags := [];
    var last := 0;
    while true
      invariant last <= |message|
      invariant last == 0 || IsAsciiAlnum(message[last - 1])
      invariant AddAll(tags, TagsFrom(message, last)) == Tags(message)
      decreases |message| - last
    {
      ExecFinds(message, last);
      match Exec(message, last)
      case None =>
        return;
      case Some(q) =>
        var end := AlnumEnd(message, q + 1);
        var tag := message[q + 1..end];
        SkipAlnum(message, q + 1, end);
        assert TagsFrom(message, q) == [tag] + TagsFrom(message, end);
        assert ([tag] + TagsFrom(message, end))[1..] == TagsFrom(message, end);
        tags := Add(tags, tag);
        last := end;
    }
  }

  /** A word is a tag exactly when it follows a hash sign at a line start or
      after white space, and its run of letters and digits ends there. */
  lemma {:induction false} TagsFromMember(s: string, from: nat, t: string)
    ensures t in TagsFrom(s, from) <==> exists q :: from <= q < |s| && TagStart(s, q) && TagAt(s, q) == t
    decreases |s| - from
  {
    if from < |s| {
      TagsFromMember(s, from + 1, t);
      if TagStart(s, from) && TagAt(s, from) == t {
        assert t in TagsFrom(s, from);
      }
    }
  }

  lemma TagsSpec(message: string, t: string)
    ensures t in Tags(message) <==> exists q :: 0 <= q < |message| && TagStart(message, q) && TagAt(message, q) == t
    ensures Distinct(Tags(message))
  {
    AddAllSpec([], TagsFrom(message, 0));
    TagsFromMember(message, 0, t);
  }

  /** A commit message with a hashtag at the start, one on a new line and
      one glued to a word. */
  const EXAMPLE := "#1\n#ab x#7"

  lemma ExampleEnd()
    ensures TagsFrom(EXAMPLE, 3) == ["ab"]
  {
    var s := EXAMPLE;
    assert s[6] == ' ' && s[7] == 'x' && s[8] == '#' && s[9] == '7';
    assert TagsFrom(s, 6) == [];
    AlnumEndIs(s, 4, 6);
    SkipAlnum(s, 4, 6);
    assert s[2] == '\n' && s[3] == '#' && s[4] == 'a';
    assert TagAt(s, 3) == "ab";
  }

  /** The one glued to a word is not a tag. */
  lemma TagsExample()
    ensures Tags(EXAMPLE) == ["1", "ab"]
  {
    var s := EXAMPLE;
    ExampleEnd();
    assert s[0] == '#' && s[1] == '1' && s[2] == '\n';
    AlnumEndIs(s, 1, 2);
    assert TagAt(s, 0) == "1";
    assert TagsFrom(s, 0) == ["1", "ab"];
    assert ["1", "ab"][1..] == ["ab"];
    assert ["ab"][1..] == [];
  }

  // ---------------------------------------------------------------------
  // Issues (lines 60-63)

  /** Line 60 calls `Array.map(parseInt)`, which passes each tag's index as
      the radix: `AsWritten`. `Intended` parses every tag in base ten. */
  datatype Reading = AsWritten | Intended

  function Radix(index: nat, reading: Reading): int {
    if reading.AsWritten? then index else 10
  }

  /** `tags.map(parseInt).filter(tag => !isNaN(tag))`. */
  function TagIssues(tags: seq<string>, reading: Reading): seq<int> {
    if |tags| == 0 then []
    else TagIssues(tags[..|tags| - 1], reading) + Issue(tags[|tags| - 1], |tags| - 1, reading)
  }

  /** The number of the tag at `index`, if it parses. */
  function Issue(tag: string, index: nat, reading: Reading): seq<int> {
    match JsText.ParseInt(tag, Radix(index, reading))
    case None => []
    case Some(n) => [n]
  }

  /** Each tag contributes its number when it has one, in the tags' order. */
  lemma {:induction false} TagIssuesSpec(tags: seq<string>, reading: Reading, n: int)
    ensures n in TagIssues(tags, reading) <==> exists i :: 0 <= i < |tags| && Issue(tags[i], i, reading) == [n]
  {
    if |tags| > 0 {
      var front := tags[..|tags| - 1];
      var last := Issue(tags[|tags| - 1], |tags| - 1, reading);
      TagIssuesSpec(front, reading, n);
      IssueShape(tags[|tags| - 1], |tags| - 1, reading);
      assert n in last <==> last == [n];
      assert n in TagIssues(tags, reading) <==> n in TagIssues(front, reading) || n in last;
      IssueAtSnoc(tags, reading, n);
    }
  }

  /** A tag with number `n` is among the front or is the last one. */
  lemma IssueAtSnoc(tags: seq<string>, reading: Reading, n: int)
    requires |tags| > 0
    ensures var front := tags[..|tags| - 1];
      (exists i :: 0 <= i < |tags| && Issue(tags[i], i, reading) == [n]) <==>
        (exists i :: 0 <= i < |front| && Issue(front[i], i, reading) == [n])
        || Issue(tags[|tags| - 1], |tags| - 1, reading) == [n]
  {
    var front := tags[..|tags| - 1];
    if exists i :: 0 <= i < |tags| && Issue(tags[i], i, reading) == [n] {
      var i :| 0 <= i < |tags| && Issue(tags[i], i, reading) == [n];
      if i < |tags| - 1 {
        assert front[i] == tags[i];
      }
    }
    if exists i :: 0 <= i < |front| && Issue(front[i], i, reading) == [n] {
      var i :| 0 <= i < |front| && Issue(front[i], i, reading) == [n];
      assert tags[i] == front[i];
    }
  }

  /** A tag gives one number or none, the one `parseInt` reads. */
  lemma IssueShape(tag: string, index: nat, reading: Reading)
    ensures var p := JsText.ParseInt(tag, Radix(index, reading));
      Issue(tag, index, reading) == if p.Some? then [p.value] else []
  {
  }

  /** As written, the second tag is parsed in base 1 and is always lost:
      `#12 #34` releases for issue 12 only. */
  lemma AsWrittenDropsSecondTag()
    ensures TagIssues(["12", "34"], AsWritten) == [12]
  {
    TagIssuesPair("12", "34", AsWritten);
    DigitsIssue("12", 0, AsWritten, 12);
    assert JsText.ParseInt("34", Radix(1, AsWritten)).None?;
  }

  /** Read as intended, both tags count. */
  lemma IntendedKeepsBothTags()
    ensures TagIssues(["12", "34"], Intended) == [12, 34]
  {
    TagIssuesPair("12", "34", Intended);
    DigitsIssue("12", 0, Intended, 12);
    DigitsIssue("34", 1, Intended, 34);
  }

  /** A two-digit tag read in base ten gives its number. */
  lemma DigitsIssue(tag: string, index: nat, reading: Reading, n: nat)
    requires Radix(index, reading) == 0 || Radix(index, reading) == 10
    requires |tag| == 2 && IsDigit(tag[0]) && IsDigit(tag[1])
    requires n == 10 * ((tag[0] as int) - ('0' as int)) + ((tag[1] as int) - ('0' as int))
    ensures Issue(tag, index, reading) == [n]
  {
    JsText.ParseIntDigits(tag, Radix(index, reading));
    assert tag[..2 - 1] == [tag[0]];
    assert DigitsValue([tag[0]]) == (tag[0] as int) - ('0' as int) by {
      assert [tag[0]][..0] == [];
    }
    assert DigitsValue(tag) == n;
  }

  /** Two tags: the first read in base `Radix(0)`, the second in base
      `Radix(1)`. */
  lemma TagIssuesPair(a: string, b: string, reading: Reading)
    ensures TagIssues([a, b], reading) == Issue(a, 0, reading) + Issue(b, 1, reading)
  {
    assert [a, b][..1] == [a];
    assert [a][..0] == [];
    assert TagIssues([a], reading) == [] + Issue(a, 0, reading);
  }

  /** Read as intended, every tag made of digits names its issue. */
  lemma IntendedDecimalTags(tags: seq<string>, i: nat, n: nat)
    requires i < |tags| && tags[i] == NatToString(n)
    ensures n in TagIssues(tags, Intended)
  {
    JsText.ParseIntOfNatToString(n, 10);
    TagIssuesSpec(tags, Intended, n);
  }

  /** ASCII case-insensitive prefix. */
  predicate StartsWithNoCase(s: string, p: string) {
    |p| <= |s| && Lower(s[..|p|]) == p
  }

  /** After the optional `issue-` or `gh-` of the branch pattern. */
  function AfterPrefix(b: string): string {
    if StartsWithNoCase(b, "issue-") then b[6..]
    else if StartsWithNoCase(b, "gh-") then b[3..]
    else b
  }

  /** `^((issue|gh)-)?[0-9]+(-[a-z]+)?$` under the `i` flag. */
  predicate IssueBranch(b: string) {
    var rest := AfterPrefix(b);
    var d := JsText.DigitRunEnd(rest, 0, 10);
    var tail := rest[d..];
    d > 0 && (tail == "" || (|tail| >= 2 && tail[0] == '-' && forall i :: 1 <= i < |tail| ==> IsAsciiLetter(tail[i])))
  }

  /** `replace(/[^0-9]/g, '')`. */
  function KeepDigits(s: string): (r: string)
    ensures forall i :: 0 <= i < |r| ==> IsDigit(r[i])
  {
    if |s| == 0 then []
    else KeepDigits(s[..|s| - 1]) + if IsDigit(s[|s| - 1]) then [s[|s| - 1]] else []
  }

  /** Lines 61-63; an unset branch never matches. */
  function BranchIssue(branch: Option<string>): Option<int> {
    if branch.Some? && IssueBranch(branch.value) then JsText.ParseInt(KeepDigits(branch.value), 0) else None
  }

  lemma {:induction false} KeepDigitsAppend(a: string, b: string)
    ensures KeepDigits(a + b) == KeepDigits(a) + KeepDigits(b)
    decreases |b|
  {
    if |b| > 0 {
      assert (a + b)[..|a + b| - 1] == a + b[..|b| - 1];
      KeepDigitsAppend(a, b[..|b| - 1]);
    } else {
      assert a + b == a;
    }
  }

  lemma {:induction false} KeepDigitsOfDigits(s: string)
    requires forall i :: 0 <= i < |s| ==> IsDigit(s[i])
    ensures KeepDigits(s) == s
  {
    if |s| > 0 {
      KeepDigitsOfDigits(s[..|s| - 1]);
    }
  }

  lemma {:induction false} KeepDigitsOfLetters(s: string)
    requires forall i :: 0 <= i < |s| ==> IsAsciiLetter(s[i])
    ensures KeepDigits(s) == ""
  {
    if |s| > 0 {
      KeepDigitsOfLetters(s[..|s| - 1]);
    }
  }

  /** The optional prefix is matched without regard to case and dropped. */
  lemma AfterPrefixOf(prefix: string, rest: string)
    requires prefix in ["", "gh-", "issue-"]
    requires |rest| > 0 && IsDigit(rest[0])
    ensures AfterPrefix(prefix + rest) == rest
  {
    var b := prefix + rest;
    if prefix == "" {
      assert b == rest;
      assert !StartsWithNoCase(b, "issue-") by { if |b| >= 6 { assert Lower(b[..6])[0] == LowerChar(b[0]); } }
      assert !StartsWithNoCase(b, "gh-") by { if |b| >= 3 { assert Lower(b[..3])[0] == LowerChar(b[0]); } }
    } else if prefix == "gh-" {
      assert b[..3] == "gh-";
      assert !StartsWithNoCase(b, "issue-") by { if |b| >= 6 { assert Lower(b[..6])[0] == 'g'; } }
      assert b[3..] == rest;
    } else {
      assert b[..6] == "issue-";
      assert b[6..] == rest;
    }
  }

  /** The digits of a matching branch are those of its number. */
  lemma KeepDigitsOfBranch(prefix: string, digits: string, word: string)
    requires prefix in ["", "gh-", "issue-"]
    requires forall i :: 0 <= i < |digits| ==> IsDigit(digits[i])
    requires forall i :: 0 <= i < |word| ==> IsAsciiLetter(word[i])
    ensures KeepDigits(prefix + digits + (if word == "" then "" else "-" + word)) == digits
  {
    var tail := if word == "" then "" else "-" + word;
    KeepDigitsAppend(prefix + digits, tail);
    KeepDigitsAppend(prefix, digits);
    KeepDigitsOfDigits(digits);
    NoDigitsKept(prefix);
    if word != "" {
      KeepDigitsAppend("-", word);
      KeepDigitsOfLetters(word);
      NoDigitsKept("-");
    } else {
      assert KeepDigits(tail) == "";
    }
  }

  /** The number is the one the branch names: `gh-12-fix`, `issue-12` and
      `12` all give issue 12. */
  lemma BranchIssueOf(prefix: string, n: nat, word: string)
    requires prefix in ["", "gh-", "issue-"]
    requires forall i :: 0 <= i < |word| ==> IsAsciiLetter(word[i])
    ensures BranchIssue(Some(prefix + NatToString(n) + (if word == "" then "" else "-" + word))) == Some(n)
  {
    var digits := NatToString(n);
    var tail := if word == "" then "" else "-" + word;
    var rest := digits + tail;
    assert prefix + digits + tail == prefix + rest;
    assert rest[0] == digits[0];
    AfterPrefixOf(prefix, rest);
    JsText.DigitRunEndIs(rest, 0, 10, |digits|);
    assert rest[|digits|..] == tail;
    assert IssueBranch(prefix + rest);
    KeepDigitsOfBranch(prefix, digits, word);
    JsText.ParseIntOfNatToString(n, 0);
  }

  lemma {:induction false} NoDigitsKept(s: string)
    requires forall i :: 0 <= i < |s| ==> !IsDigit(s[i])
    ensures KeepDigits(s) == ""
  {
    if |s| > 0 {
      NoDigitsKept(s[..|s| - 1]);
    }
  }

  /** A branch outside the pattern names no issue. */
  lemma OtherBranches()
    ensures BranchIssue(Some("main")) == None
    ensures BranchIssue(Some("gh-")) == None
    ensures BranchIssue(None) == None
  {
    assert !StartsWithNoCase("main", "issue-");
    assert Lower("main"[..3])[0] != 'g';
    assert JsText.DigitRunEnd("main", 0, 10) == 0;
    assert Lower("gh-"[..3]) == "gh-";
    assert "gh-"[3..] == "";
  }

  /** Line 60 and 62: the issue numbers as an insertion-ordered set. */
  function Issues(tags: seq<string>, branch: Option<string>, reading: Reading): seq<int> {
    var fromTags := AddAll([], TagIssues(tags, reading));
    match BranchIssue(branch)
    case None => fromTags
    case Some(n) => Add(fromTags, n)
  }

  /** The issues are the numbered tags and the branch's number, each once. */
  lemma IssuesSpec(tags: seq<string>, branch: Option<string>, reading: Reading, n: int)
    ensures n in Issues(tags, branch, reading) <==>
      (exists i :: 0 <= i < |tags| && Issue(tags[i], i, reading) == [n]) || BranchIssue(branch) == Some(n)
    ensures Distinct(Issues(tags, branch, reading))
  {
    var fromTags := AddAll([], TagIssues(tags, reading));
    AddAllSpec([], TagIssues(tags, reading));
    TagIssuesSpec(tags, reading, n);
    var b := BranchIssue(branch);
    if b.Some? {
      AddSpec(fromTags, b.value);
    }
  }

  /** Adding keeps what was there, adds the value, and never repeats. */
  lemma AddSpec<T>(acc: seq<T>, x: T)
    ensures forall y :: y in Add(acc, x) <==> y in acc || y == x
    ensures Distinct(acc) ==> Distinct(Add(acc, x))
  {
  }

  // ---------------------------------------------------------------------
  // Publishing (lines 102-215)

  /** A release asset: its name and its ISO creation time. */
  datatype Asset = Asset(name: string, createdAt: string)

  /** The repository's releases by tag, each with its assets in order. */
  type Releases = map<string, seq<Asset>>

  /** JavaScript `<` on strings, character by character. */
  predicate Less(a: string, b: string)
    decreases |a|
  {
    if |b| == 0 then false
    else if |a| == 0 then true
    else if a[0] != b[0] then a[0] < b[0]
    else Less(a[1..], b[1..])
  }

  /** Line 201: an XPI created before the cut-off `expire` of line 28. */
  predicate Expired(a: Asset, expire: string) {
    EndsWith(a.name, ".xpi") && Less(a.createdAt, expire)
  }

  /** Line 157: an update pointer. */
  predicate IsPointer(a: Asset) {
    a.name == "update.rdf" || a.name == "updates.json"
  }

  /** The assets left after deleting those `drop` selects. */
  function Without(assets: seq<Asset>, drop: Asset -> bool): seq<Asset> {
    if |assets| == 0 then []
    else Without(assets[..|assets| - 1], drop) + if drop(assets[|assets| - 1]) then [] else [assets[|assets| - 1]]
  }

  /** Exactly the assets `drop` does not select survive. */
  lemma {:induction false} WithoutSpec(assets: seq<Asset>, drop: Asset -> bool)
    ensures forall a :: a in Without(assets, drop) <==> a in assets && !drop(a)
  {
    if |assets| > 0 {
      var front := assets[..|assets| - 1];
      WithoutSpec(front, drop);
      assert assets == front + [assets[|assets| - 1]];
    }
  }

  /** The deletion loops of lines 156-162 and 200-206: the assets that remain
      once every selected one is deleted. */
  method Prune(assets: seq<Asset>, drop: Asset -> bool) returns (kept: seq<Asset>)
    ensures kept == Without(assets, drop)
  {
    kept := [];
    for i := 0 to |assets|
      invariant kept == Without(assets[..i], drop)
    {
      assert assets[..i + 1][..i] == assets[..i];
      if !drop(assets[i]) {
        kept := kept + [assets[i]];
      }
    }
    assert assets[..|assets|] == assets;
  }

  /** `find(a => a.name === name)`: the first asset with that name. */
  function FindAsset(assets: seq<Asset>, name: string): (r: Option<nat>)
    ensures r.Some? ==> r.value < |assets| && assets[r.value].name == name
    ensures r.None? <==> forall a :: a in assets ==> a.name != name
    ensures r.Some? ==> forall j :: 0 <= j < r.value ==> assets[j].name != name
  {
    if |assets| == 0 then None
    else if assets[0].name == name then Some(0)
    else match FindAsset(assets[1..], name)
      case None => None
      case Some(i) => Some(i + 1)
  }

  /** `uploadAsset` (lines 102-134) into the release `tag` holding `assets`,
      whose page is `page` (its `html_url`): an asset of the same name is
      replaced on `builds` and fatal elsewhere. */
  function UploadAsset(tag: string, page: string, assets: seq<Asset>, name: string, now: string): Result<seq<Asset>, Exit> {
    match FindAsset(assets, name)
    case None => Ok(assets + [Asset(name, now)])
    case Some(i) =>
      if tag == "builds" then Ok(assets[..i] + assets[i + 1..] + [Asset(name, now)])
      else Err(Exit(1, "failed to upload " + name + " to " + page + ": asset exists"))
  }

  /** The upload fails exactly when the name is taken on a release other
      than `builds`; otherwise the new asset comes last, one earlier asset of
      that name is gone and every asset of another name stays. */
  lemma UploadAssetSpec(tag: string, page: string, assets: seq<Asset>, name: string, now: string)
    ensures UploadAsset(tag, page, assets, name, now).Err? <==> tag != "builds" && exists a :: a in assets && a.name == name
    ensures UploadAsset(tag, page, assets, name, now).Err? ==>
      UploadAsset(tag, page, assets, name, now).error == Exit(1, "failed to upload " + name + " to " + page + ": asset exists")
    ensures UploadAsset(tag, page, assets, name, now).Ok? ==>
      var r := UploadAsset(tag, page, assets, name, now).value;
      && |r| >= 1 && r[|r| - 1] == Asset(name, now)
      && (forall a: Asset :: a.name != name ==> (a in r <==> a in assets))
      && |r| == |assets| + (if FindAsset(assets, name).Some? then 0 else 1)
  {
    match FindAsset(assets, name)
    case None =>
    case Some(i) =>
      if tag == "builds" {
        forall a: Asset | a.name != name
          ensures a in assets[..i] + assets[i + 1..] + [Asset(name, now)] <==> a in assets
        {
          ReplacedKeeps(assets, i, Asset(name, now), a);
        }
      }
  }

  /** Taking out position `i` and appending `x` keeps every other asset. */
  lemma ReplacedKeeps(assets: seq<Asset>, i: nat, x: Asset, a: Asset)
    requires i < |assets| && a != assets[i] && a != x
    ensures a in assets[..i] + assets[i + 1..] + [x] <==> a in assets
  {
    var r := assets[..i] + assets[i + 1..] + [x];
    if a in assets {
      var j :| 0 <= j < |assets| && assets[j] == a;
      if j < i { assert r[j] == a; } else { assert r[j - 1] == a; }
    }
    if a in r {
      var j :| 0 <= j < |r| && r[j] == a;
      if j < i { assert assets[j] == a; } else if j < |r| - 1 { assert assets[j + 1] == a; }
    }
  }

  /** The release `pointer` names: the last non-empty `/`-segment. */
  function LastNonEmpty(parts: seq<string>): Option<string> {
    if |parts| == 0 then None
    else if parts[|parts| - 1] != "" then Some(parts[|parts| - 1])
    else LastNonEmpty(parts[..|parts| - 1])
  }

  /** Line 195: `split('/').filter(name => name).reverse()[0]`. */
  function PointerRelease(releaseURL: string): Option<string> {
    LastNonEmpty(Split(releaseURL, '/'))
  }

  /** A release URL names its release by its last segment, with or without
      a trailing `/`. */
  lemma PointerReleaseOf(prefix: string, name: string)
    requires name != "" && '/' !in name
    ensures PointerRelease(prefix + "/" + name + "/") == Some(name)
    ensures PointerRelease(prefix + "/" + name) == Some(name)
  {
    SplitName(name);
    var front := Split(prefix, '/');
    SplitAppend(prefix, '/', name + "/");
    assert prefix + ['/'] + (name + "/") == prefix + "/" + name + "/";
    assert Split(prefix + "/" + name + "/", '/') == front + [name, ""];
    assert (front + [name, ""])[..|front| + 1] == front + [name];
    assert LastNonEmpty(front + [name]) == Some(name);
    SplitAppend(prefix, '/', name);
    assert prefix + ['/'] + name == prefix + "/" + name;
  }

  /** A name without `/` is one segment, and with a `/` after it two. */
  lemma SplitName(name: string)
    requires '/' !in name
    ensures Split(name, '/') == [name]
    ensures Split(name + "/", '/') == [name, ""]
  {
    assert Split(name, '/') == [name];
    assert Split("", '/') == [""];
    SplitAppend(name, '/', "");
    assert name + ['/'] + "" == name + "/";
  }

  /** The segment found is a non-empty one with nothing but empty segments
      after it; none is found only when every segment is empty. */
  lemma {:induction false} LastNonEmptySpec(parts: seq<string>) returns (i: nat)
    ensures LastNonEmpty(parts).None? <==> forall j :: 0 <= j < |parts| ==> parts[j] == ""
    ensures LastNonEmpty(parts).Some? ==>
      i < |parts| && LastNonEmpty(parts).value == parts[i] && parts[i] != ""
      && forall j :: i < j < |parts| ==> parts[j] == ""
  {
    if |parts| == 0 {
      i := 0;
    } else if parts[|parts| - 1] != "" {
      i := |parts| - 1;
    } else {
      var front := parts[..|parts| - 1];
      i := LastNonEmptySpec(front);
      if LastNonEmpty(parts).None? {
        forall j | 0 <= j < |parts| ensures parts[j] == "" {
          if j < |front| { assert parts[j] == front[j]; }
        }
      }
    }
  }

  /** The assets of a release `getRelease` returns: an existing one's, or
      none for the one it creates. */
  function AssetsOf(releases: Releases, tag: string): seq<Asset> {
    if tag in releases then releases[tag] else []
  }

  /** `update_rdf` (lines 151-165): the old pointers are deleted from the
      release `pointer` and the new ones uploaded. */
  function UpdatePointers(releases: Releases, pointer: string, page: string, now: string): Result<Releases, Exit> {
    var kept := Without(AssetsOf(releases, pointer), IsPointer);
    match UploadAsset(pointer, page, kept, "update.rdf", now)
    case Err(e) => Err(e)
    case Ok(withRdf) =>
      match UploadAsset(pointer, page, withRdf, "updates.json", now)
      case Err(e) => Err(e)
      case Ok(withJson) => Ok(releases[pointer := withJson])
  }

  /** Lines 177-196: a new release for the tag holding the XPI, then the
      update pointers. A URL without a segment gives `getRelease(undefined)`,
      which the API refuses. */
  function TaggedRelease(releases: Releases, tag: string, xpi: string, releaseURL: string, pages: string -> string, now: string): Result<Releases, Exit> {
    if tag in releases then Err(Exit(1, "release " + tag + " exists, bailing"))
    else
      var withXpi := releases[tag := [Asset(xpi, now)]];
      match PointerRelease(releaseURL)
      case None => Err(Exit(1, "Could not get release undefined"))
      case Some(pointer) => UpdatePointers(withXpi, pointer, pages(pointer), now)
  }

  /** Lines 197-208: expired XPIs leave the `builds` release, then the new
      XPI is uploaded there. */
  function TestBuild(releases: Releases, xpi: string, expire: string, pages: string -> string, now: string): Result<Releases, Exit> {
    var kept := Without(AssetsOf(releases, "builds"), a => Expired(a, expire));
    match UploadAsset("builds", pages("builds"), kept, xpi, now)
    case Err(e) => Err(e)
    case Ok(assets) => Ok(releases["builds" := assets])
  }

  /** What the script is given: the CI facts, the package, the composed
      version, and for `main` whether `NIGHTLY` is `'true'`, the open
      translation issues, the clock, line 28's cut-off, and the page
      (`html_url`) GitHub gives the release of each tag. */
  datatype Build = Build(pullRequest: bool, tag: Option<string>, branch: Option<string>, commitMessage: string,
                         pkgName: string, pkgVersion: string, version: string, releaseURL: string,
                         nightly: bool, translationIssues: seq<int>, now: string, expire: string,
                         pages: string -> string)

  /** The run ends by `bail`, or with the releases it leaves and the issues
      it announces to, in order. */
  datatype Outcome = Exited(exit: Exit) | Published(releases: Releases, announced: seq<int>)

  /** Line 24. */
  function Xpi(b: Build): string {
    b.pkgName + "-" + b.version + ".xpi"
  }

  /** Line 58. */
  function NoRelease(branch: Option<string>): Exit {
    Exit(0, "Not releasing on " + (if Truthy(branch) then branch.value else "default branch") + " because of 'norelease' tag")
  }

  /** Lines 170-174: on `l10n_master` the open translation issues join in. */
  function AllIssues(b: Build, issues: seq<int>): seq<int> {
    if b.branch == Some("l10n_master") then AddAll(issues, b.translationIssues) else issues
  }

  /** Lines 167-215 after the module-level checks: publish, then announce
      unless `noannounce` is among the tags (line 66). */
  function Publish(b: Build, releases: Releases, tags: seq<string>, issues: seq<int>): Outcome {
    if b.nightly then Published(releases, [])
    else
      var all := AllIssues(b, issues);
      var published :=
        if Truthy(b.tag) then TaggedRelease(releases, b.tag.value, Xpi(b), b.releaseURL, b.pages, b.now)
        else if |all| > 0 then TestBuild(releases, Xpi(b), b.expire, b.pages, b.now)
        else Ok(releases);
      match published
      case Err(e) => Exited(e)
      case Ok(r) => Published(r, if "noannounce" in tags then [] else all)
  }

  /** The whole script. */
  function Run(b: Build, releases: Releases, reading: Reading): Outcome {
    match Gate(b.pullRequest, b.tag, b.branch, b.pkgVersion)
    case Some(e) => Exited(e)
    case None =>
      var tags := Tags(b.commitMessage);
      if "norelease" in tags then Exited(NoRelease(b.branch))
      else Publish(b, releases, tags, Issues(tags, b.branch, reading))
  }

  /** The script in its order, with the `exec` loop and the deletion loops. */
  method Script(b: Build, releases: Releases, reading: Reading) returns (outcome: Outcome)
    ensures outcome == Run(b, releases, reading)
  {
    var gate := Gate(b.pullRequest, b.tag, b.branch, b.pkgVersion);
    if gate.Some? {
      return Exited(gate.value);
    }
    var tags := Hashtags(b.commitMessage);
    if "norelease" in tags {
      return Exited(NoRelease(b.branch));
    }
    var issues := Issues(tags, b.branch, reading);
    if b.nightly {
      return Published(releases, []);
    }
    issues := AllIssues(b, issues);
    var current := releases;
    if Truthy(b.tag) {
      var tag := b.tag.value;
      if tag in current {
        return Exited(Exit(1, "release " + tag + " exists, bailing"));
      }
      current := current[tag := [Asset(Xpi(b), b.now)]];
      var pointer := PointerRelease(b.releaseURL);
      if pointer.None? {
        return Exited(Exit(1, "Could not get release undefined"));
      }
      var kept := Prune(AssetsOf(current, pointer.value), IsPointer);
      var withRdf := UploadAsset(pointer.value, b.pages(pointer.value), kept, "update.rdf", b.now);
      if withRdf.Err? {
        return Exited(withRdf.error);
      }
      var withJson := UploadAsset(pointer.value, b.pages(pointer.value), withRdf.value, "updates.json", b.now);
      if withJson.Err? {
        return Exited(withJson.error);
      }
      current := current[pointer.value := withJson.value];
    } else if |issues| > 0 {
      var kept := Prune(AssetsOf(current, "builds"), a => Expired(a, b.expire));
      var uploaded := UploadAsset("builds", b.pages("builds"), kept, Xpi(b), b.now);
      if uploaded.Err? {
        return Exited(uploaded.error);
      }
      current := current["builds" := uploaded.value];
    }
    outcome := Published(current, if "noannounce" in tags then [] else issues);
  }

  // ---------------------------------------------------------------------
  // Properties of the whole run

  /** Pull requests are never released, and neither are tags that do not
      match the package version or sit on another branch. */
  lemma RunGated(b: Build, releases: Releases, reading: Reading)
    ensures b.pullRequest ==> Run(b, releases, reading) == Exited(Exit(0, "Not releasing pull requests"))
    ensures Gate(b.pullRequest, b.tag, b.branch, b.pkgVersion).Some? ==> Run(b, releases, reading).Exited?
    ensures Run(b, releases, reading).Published? ==>
      !b.pullRequest && (Truthy(b.tag) ==> b.tag.value == "v" + b.pkgVersion)
  {
    GateSpec(b.pullRequest, b.tag, b.branch, b.pkgVersion);
  }

  /** `#norelease` stops the run with status 0; `#noannounce` silences it. */
  lemma RunHashtags(b: Build, releases: Releases, reading: Reading)
    requires Gate(b.pullRequest, b.tag, b.branch, b.pkgVersion).None?
    ensures "norelease" in Tags(b.commitMessage) ==> Run(b, releases, reading) == Exited(NoRelease(b.branch))
    ensures "noannounce" in Tags(b.commitMessage) && Run(b, releases, reading).Published? ==>
      Run(b, releases, reading).announced == []
  {
  }

  /** Announcements go to every issue derived, each once, when nothing
      silences them. */
  lemma RunAnnounces(b: Build, releases: Releases, reading: Reading)
    requires Run(b, releases, reading).Published? && !b.nightly
    requires "noannounce" !in Tags(b.commitMessage)
    ensures var tags := Tags(b.commitMessage);
      Run(b, releases, reading).announced == AllIssues(b, Issues(tags, b.branch, reading))
    ensures Distinct(Run(b, releases, reading).announced)
  {
    var tags := Tags(b.commitMessage);
    var issues := Issues(tags, b.branch, reading);
    assert Gate(b.pullRequest, b.tag, b.branch, b.pkgVersion).None? && "norelease" !in tags;
    assert Run(b, releases, reading) == Publish(b, releases, tags, issues);
    assert Publish(b, releases, tags, issues).announced == AllIssues(b, issues);
    IssuesSpec(tags, b.branch, reading, 0);
    AddAllSpec(issues, b.translationIssues);
  }

  /** An untagged build tied to no issue changes nothing. */
  lemma RunUntaggedWithoutIssues(b: Build, releases: Releases, reading: Reading)
    requires Run(b, releases, reading).Published? && !Truthy(b.tag)
    requires AllIssues(b, Issues(Tags(b.commitMessage), b.branch, reading)) == []
    ensures Run(b, releases, reading) == Published(releases, [])
  {
  }

  /** An untagged build tied to an issue always lands on `builds`: the
      expired XPIs go, the new XPI comes last, every other asset and every
      other release stays. */
  lemma RunTestBuild(b: Build, releases: Releases, reading: Reading)
    requires Gate(b.pullRequest, b.tag, b.branch, b.pkgVersion).None? && !Truthy(b.tag) && !b.nightly
    requires "norelease" !in Tags(b.commitMessage)
    requires AllIssues(b, Issues(Tags(b.commitMessage), b.branch, reading)) != []
    ensures Run(b, releases, reading).Published?
    ensures var r := Run(b, releases, reading).releases;
      && "builds" in r && r["builds"][|r["builds"]| - 1] == Asset(Xpi(b), b.now)
      && (forall a :: a in r["builds"][..|r["builds"]| - 1] ==> a in AssetsOf(releases, "builds") && !Expired(a, b.expire))
      && (forall a :: a in AssetsOf(releases, "builds") && !Expired(a, b.expire) && a.name != Xpi(b) ==> a in r["builds"])
      && (forall t :: t != "builds" ==> (t in r <==> t in releases) && (t in r ==> r[t] == releases[t]))
  {
    var kept := Without(AssetsOf(releases, "builds"), a => Expired(a, b.expire));
    WithoutSpec(AssetsOf(releases, "builds"), a => Expired(a, b.expire));
    UploadAssetSpec("builds", b.pages("builds"), kept, Xpi(b), b.now);
    var assets := UploadAsset("builds", b.pages("builds"), kept, Xpi(b), b.now).value;
    forall a | a in assets[..|assets| - 1]
      ensures a in AssetsOf(releases, "builds") && !Expired(a, b.expire)
    {
      if a.name != Xpi(b) {
        assert a in assets;
      } else {
        assert FindAsset(kept, Xpi(b)).Some?;
        var i := FindAsset(kept, Xpi(b)).value;
        assert assets[..|assets| - 1] == kept[..i] + kept[i + 1..];
        assert a in kept;
      }
    }
  }

  /** A tag already released stops the run. */
  lemma RunTagExists(b: Build, releases: Releases, reading: Reading)
    requires Gate(b.pullRequest, b.tag, b.branch, b.pkgVersion).None? && Truthy(b.tag) && !b.nightly
    requires "norelease" !in Tags(b.commitMessage)
    requires b.tag.value in releases
    ensures Run(b, releases, reading) == Exited(Exit(1, "release " + b.tag.value + " exists, bailing"))
  {
  }

  /** A new tag is released with its XPI, and the release the URL names
      ends with exactly one fresh `update.rdf` and one fresh `updates.json`
      after its other assets; no upload on this path ever finds its name
      taken. */
  lemma RunTagged(b: Build, releases: Releases, reading: Reading, pointer: string)
    requires Gate(b.pullRequest, b.tag, b.branch, b.pkgVersion).None? && Truthy(b.tag) && !b.nightly
    requires "norelease" !in Tags(b.commitMessage)
    requires b.tag.value !in releases && PointerRelease(b.releaseURL) == Some(pointer)
    ensures Run(b, releases, reading).Published?
    ensures var r := Run(b, releases, reading).releases;
      var withXpi := releases[b.tag.value := [Asset(Xpi(b), b.now)]];
      && r == withXpi[pointer := Without(AssetsOf(withXpi, pointer), IsPointer)
                                 + [Asset("update.rdf", b.now), Asset("updates.json", b.now)]]
      && (pointer != b.tag.value ==> r[b.tag.value] == [Asset(Xpi(b), b.now)])
  {
    var withXpi := releases[b.tag.value := [Asset(Xpi(b), b.now)]];
    var kept := Without(AssetsOf(withXpi, pointer), IsPointer);
    WithoutSpec(AssetsOf(withXpi, pointer), IsPointer);
    assert forall a :: a in kept ==> a.name != "update.rdf";
    var withRdf := kept + [Asset("update.rdf", b.now)];
    assert forall a :: a in withRdf ==> a.name != "updates.json";
    assert withRdf + [Asset("updates.json", b.now)] == kept + [Asset("update.rdf", b.now), Asset("updates.json", b.now)];
  }
}
