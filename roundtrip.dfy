/** The bundle protocol end to end: what `bin/fetch-log.ts` makes of the
    container a `Bundler` filled (debug-log.ts:13-84), once the ZIP encoder and
    decoder have carried it across. The ZIP codec is left out; an archive
    whose entries are exactly the container's, in any order, stands for the
    download. */
module BundleRoundTrip {
  import opened Base
  import opened Strings
  import opened Records
  import Utf8
  import LogId
  import DebugLog
  import FetchLog

  /** The entries list the container: one file entry per name, holding that
      name's bytes, and no other entry. */
  predicate Lists(entries: FetchLog.Archive, files: DebugLog.Container) {
    && UniqueKeys(entries)
    && (forall i :: 0 <= i < |entries| ==> entries[i].0 in files && entries[i].1 == FetchLog.ZipItem(false, files[entries[i].0]))
    && (forall n :: n in files ==> n in Keys(entries))
  }

  /** Paths as `sendAsync` uses them: plain file names on one line, and
      different even when compared without case, as `fetch-log` groups
      them. `fetch-log` writes each file to `logs/<key>/<path>` and creates
      only `logs/<key>`, so a name with a `/` needs a directory it never
      creates. */
  predicate PathsOk(calls: seq<DebugLog.AddCall>) {
    && (forall i :: 0 <= i < |calls| ==> NoLineTerminator(calls[i].path) && '/' !in calls[i].path)
    && (forall i, j :: 0 <= i < j < |calls| ==> Lower(calls[i].path) != Lower(calls[j].path))
  }

  lemma ListedData(entries: FetchLog.Archive, files: DebugLog.Container, n: string)
    requires Lists(entries, files) && n in files
    ensures FetchLog.EntryData(entries, n) == Ok(files[n])
  {
    match Position(entries, n, 0) {
      case Some(i) =>
      case None =>
        assert n in Keys(entries);
    }
  }

  lemma LowerUnderKey(key: string, p: string, q: string)
    ensures Lower(key + "/" + p) == Lower(key + "/" + q) ==> Lower(p) == Lower(q)
  {
    LowerAppend(key + "/", p);
    LowerAppend(key + "/", q);
    var a, b := Lower(key + "/") + Lower(p), Lower(key + "/") + Lower(q);
    assert a[|key| + 1..] == Lower(p) && b[|key| + 1..] == Lower(q);
  }

  lemma OneLineUnderKey(key: string, p: string)
    requires AllAlnum(key) && NoLineTerminator(p)
    ensures NoLineTerminator(key + "/" + p)
  {
    var s := key + "/" + p;
    forall j | 0 <= j < |s| ensures !IsLineTerminator(s[j]) {
      if j < |key| {
        assert s[j] == key[j] && IsAsciiAlnum(key[j]);
      } else if j > |key| {
        assert s[j] == p[j - |key| - 1];
      }
    }
  }

  /** `<key>/<key>.key` is read as the key entry. */
  lemma KeyEntryKind(key: string)
    requires |key| > 0 && AllAlnum(key)
    ensures FetchLog.TypeOf(FetchLog.Intended, DebugLog.KeyEntry(key)) == "key"
  {
    assert DebugLog.KeyEntry(key) == (key + "/" + key) + "." + "key";
    OneLineUnderKey(key, key);
    FetchLog.EntryMatchOf(key + "/" + key, "key");
  }

  /** `<key>/<path>.iv` and `<key>/<path>.enc` are read as the two halves of
      the group of `<key>/<path>`. */
  lemma PayloadKind(key: string, p: string, iv: bool)
    requires |key| > 0 && AllAlnum(key) && NoLineTerminator(p)
    ensures var n := DebugLog.Entry(key, p + (if iv then ".iv" else ".enc"));
      && FetchLog.TypeOf(FetchLog.Intended, n) == (if iv then "iv" else "enc")
      && FetchLog.FilenameOf(n) == DebugLog.Entry(key, p)
  {
    var t := if iv then "iv" else "enc";
    assert DebugLog.Entry(key, p + (if iv then ".iv" else ".enc")) == (key + "/" + p) + "." + t;
    OneLineUnderKey(key, p);
    FetchLog.EntryMatchOf(key + "/" + p, t);
  }

  /** The group of the `c`-th call's path, complete. */
  function GroupOf(key: string, calls: seq<DebugLog.AddCall>, c: nat): FetchLog.Group
    requires c < |calls|
  {
    var p := calls[c].path;
    FetchLog.Group(DebugLog.Entry(key, p), Some(DebugLog.Entry(key, p + ".enc")), Some(DebugLog.Entry(key, p + ".iv")), true)
  }

  /** Every entry of an encrypted container is the key entry or a payload
      entry of one of the calls. */
  lemma EncryptedName(key: string, pubkey: string, crypto: DebugLog.Crypto, freshKey: seq<byte>,
                      calls: seq<DebugLog.AddCall>, n: string)
    returns (c: nat, iv: bool)
    requires pubkey != "" && |calls| > 0
    requires n in DebugLog.Replay(key, pubkey, crypto, freshKey, calls).files && n != DebugLog.KeyEntry(key)
    ensures c < |calls| && n == DebugLog.Entry(key, calls[c].path + (if iv then ".iv" else ".enc"))
  {
    DebugLog.ReplayEncrypted(key, pubkey, crypto, freshKey, calls);
    if n in DebugLog.Names(key, calls, ".iv") {
      var i :| 0 <= i < |calls| && n == DebugLog.Entry(key, calls[i].path + ".iv");
      c, iv := i, true;
    } else {
      assert n in DebugLog.Names(key, calls, ".enc");
      var i :| 0 <= i < |calls| && n == DebugLog.Entry(key, calls[i].path + ".enc");
      c, iv := i, false;
    }
  }

  /** The classification of the entries of an encrypted container. */
  lemma EncryptedKinds(key: string, pubkey: string, crypto: DebugLog.Crypto, freshKey: seq<byte>,
                       calls: seq<DebugLog.AddCall>, entries: FetchLog.Archive, unwrap: FetchLog.Unwrap, i: nat)
    returns (c: nat, iv: bool)
    requires |key| > 0 && AllAlnum(key) && pubkey != "" && |calls| > 0 && PathsOk(calls)
    requires Lists(entries, DebugLog.Replay(key, pubkey, crypto, freshKey, calls).files)
    requires i < |entries|
    ensures c < |calls|
    ensures var kind := FetchLog.KindOf(FetchLog.Intended, unwrap, entries[i].0, entries[i].1);
      && FetchLog.EntryAdmissible(FetchLog.Intended, true, unwrap, entries[i].0, entries[i].1)
      && (entries[i].0 == DebugLog.KeyEntry(key) ==>
            kind == FetchLog.KeyFile(unwrap(crypto.wrap(pubkey, freshKey))))
      && (entries[i].0 != DebugLog.KeyEntry(key) ==>
            && c < |calls|
            && entries[i].0 == DebugLog.Entry(key, calls[c].path + (if iv then ".iv" else ".enc"))
            && kind == FetchLog.Part(Lower(DebugLog.Entry(key, calls[c].path)), DebugLog.Entry(key, calls[c].path),
                                     entries[i].0, iv, true))
    requires unwrap(crypto.wrap(pubkey, freshKey)).Ok?
  {
    var files := DebugLog.Replay(key, pubkey, crypto, freshKey, calls).files;
    var n := entries[i].0;
    DebugLog.ReplayEncrypted(key, pubkey, crypto, freshKey, calls);
    if n == DebugLog.KeyEntry(key) {
      KeyEntryKind(key);
      c, iv := 0, false;
    } else {
      c, iv := EncryptedName(key, pubkey, crypto, freshKey, calls, n);
      PayloadKind(key, calls[c].path, iv);
    }
  }

  /** A payload name gives back its path and its half. */
  lemma PayloadNameParts(key: string, p: string, q: string, ivp: bool, ivq: bool)
    ensures DebugLog.Entry(key, p + (if ivp then ".iv" else ".enc")) == DebugLog.Entry(key, q + (if ivq then ".iv" else ".enc"))
            ==> p == q && ivp == ivq
  {
    var x, y := p + (if ivp then ".iv" else ".enc"), q + (if ivq then ".iv" else ".enc");
    assert DebugLog.Entry(key, x)[|key| + 1..] == x && DebugLog.Entry(key, y)[|key| + 1..] == y;
    assert x[|x| - 1] == (if ivp then 'v' else 'c') && y[|y| - 1] == (if ivq then 'v' else 'c');
    assert x[..|p|] == p && y[..|q|] == q;
  }

  /** Entry `i` of the archive is the `iv` (or `enc`) half of call `c`. */
  lemma HalfIndex(key: string, pubkey: string, crypto: DebugLog.Crypto, freshKey: seq<byte>,
                  calls: seq<DebugLog.AddCall>, entries: FetchLog.Archive, c: nat, iv: bool)
    returns (i: nat)
    requires pubkey != "" && c < |calls| && PathsOk(calls)
    requires Lists(entries, DebugLog.Replay(key, pubkey, crypto, freshKey, calls).files)
    ensures i < |entries| && entries[i].0 == DebugLog.Entry(key, calls[c].path + (if iv then ".iv" else ".enc"))
  {
    var n := DebugLog.Entry(key, calls[c].path + (if iv then ".iv" else ".enc"));
    forall j | c < j < |calls| ensures calls[j].path != calls[c].path {
      assert Lower(calls[c].path) != Lower(calls[j].path);
    }
    DebugLog.ReplayEncryptedData(key, pubkey, crypto, freshKey, calls, c);
    assert n in Keys(entries);
    var k :| 0 <= k < |entries| && entries[k].0 == n;
    i := k;
  }

  /** The kind of one half of call `c`. */
  lemma HalfKind(key: string, pubkey: string, crypto: DebugLog.Crypto, freshKey: seq<byte>,
                 calls: seq<DebugLog.AddCall>, entries: FetchLog.Archive, unwrap: FetchLog.Unwrap, c: nat, iv: bool)
    returns (i: nat)
    requires |key| > 0 && AllAlnum(key) && pubkey != "" && c < |calls| && PathsOk(calls)
    requires Lists(entries, DebugLog.Replay(key, pubkey, crypto, freshKey, calls).files)
    requires unwrap(crypto.wrap(pubkey, freshKey)).Ok?
    ensures i < |entries|
    ensures FetchLog.Kinds(FetchLog.Intended, unwrap, entries)[i] == HalfOf(key, calls, c, iv)
  {
    i := HalfIndex(key, pubkey, crypto, freshKey, calls, entries, c, iv);
    DebugLog.PayloadIsNotKey(key, calls[c].path);
    var c', iv' := EncryptedKinds(key, pubkey, crypto, freshKey, calls, entries, unwrap, i);
    PayloadNameParts(key, calls[c].path, calls[c'].path, iv, iv');
  }

  /** A part of the group of call `c` comes from call `c` itself. */
  lemma PartOfGroup(key: string, pubkey: string, crypto: DebugLog.Crypto, freshKey: seq<byte>,
                    calls: seq<DebugLog.AddCall>, entries: FetchLog.Archive, unwrap: FetchLog.Unwrap, c: nat, i: nat)
    requires |key| > 0 && AllAlnum(key) && pubkey != "" && |calls| > 0 && c < |calls| && PathsOk(calls)
    requires Lists(entries, DebugLog.Replay(key, pubkey, crypto, freshKey, calls).files)
    requires unwrap(crypto.wrap(pubkey, freshKey)).Ok?
    requires FetchLog.Member(FetchLog.Kinds(FetchLog.Intended, unwrap, entries), i, Lower(DebugLog.Entry(key, calls[c].path)))
    ensures var kind := FetchLog.Kinds(FetchLog.Intended, unwrap, entries)[i];
      entries[i].0 == DebugLog.Entry(key, calls[c].path + (if kind.slotIv then ".iv" else ".enc"))
  {
    var c', iv' := EncryptedKinds(key, pubkey, crypto, freshKey, calls, entries, unwrap, i);
    LowerUnderKey(key, calls[c].path, calls[c'].path);
  }

  /** The name of one half of the payload of `p`. */
  function HalfName(key: string, p: string, iv: bool): string {
    DebugLog.Entry(key, p + (if iv then ".iv" else ".enc"))
  }

  /** How `fetch-log` classifies one half of the payload of call `c`. */
  function HalfOf(key: string, calls: seq<DebugLog.AddCall>, c: nat, iv: bool): FetchLog.Kind
    requires c < |calls|
  {
    var p := calls[c].path;
    FetchLog.Part(Lower(DebugLog.Entry(key, p)), DebugLog.Entry(key, p), HalfName(key, p, iv), iv, true)
  }

  /** The classification of an encrypted container, apart from the archive.
      The witnesses are explicit: `keyIdx` is a key entry, and every key
      entry unwraps to `freshKey`; entry `i`, when a part, is a half of the
      payload of call `owner[i]`; `enc[c]` and `ivs[c]` are the two halves of
      the payload of call `c`. */
  ghost predicate CallKinds(kinds: seq<FetchLog.Kind>, key: string, calls: seq<DebugLog.AddCall>, freshKey: seq<byte>,
                            owner: seq<nat>, enc: seq<nat>, ivs: seq<nat>, keyIdx: nat) {
    && keyIdx < |kinds| && kinds[keyIdx].KeyFile?
    && (forall i :: 0 <= i < |kinds| && kinds[i].KeyFile? ==> kinds[i].unwrapped == Ok(freshKey))
    && |owner| == |kinds|
    && (forall i :: 0 <= i < |kinds| && kinds[i].Part? ==>
          owner[i] < |calls| && kinds[i] == HalfOf(key, calls, owner[i], kinds[i].slotIv))
    && |enc| == |calls| && |ivs| == |calls|
    && (forall c :: 0 <= c < |calls| ==> enc[c] < |kinds| && kinds[enc[c]] == HalfOf(key, calls, c, false))
    && (forall c :: 0 <= c < |calls| ==> ivs[c] < |kinds| && kinds[ivs[c]] == HalfOf(key, calls, c, true))
  }

  lemma EncryptedCallKinds(key: string, pubkey: string, crypto: DebugLog.Crypto, freshKey: seq<byte>,
                           calls: seq<DebugLog.AddCall>, entries: FetchLog.Archive, unwrap: FetchLog.Unwrap)
    returns (owner: seq<nat>, enc: seq<nat>, ivs: seq<nat>, keyIdx: nat)
    requires |key| > 0 && AllAlnum(key) && pubkey != "" && |calls| > 0 && PathsOk(calls)
    requires Lists(entries, DebugLog.Replay(key, pubkey, crypto, freshKey, calls).files)
    requires unwrap(crypto.wrap(pubkey, freshKey)) == Ok(freshKey)
    ensures FetchLog.Admissible(FetchLog.Intended, true, unwrap, entries)
    ensures CallKinds(FetchLog.Kinds(FetchLog.Intended, unwrap, entries), key, calls, freshKey, owner, enc, ivs, keyIdx)
  {
    owner := Owners(key, pubkey, crypto, freshKey, calls, entries, unwrap);
    keyIdx := KeyIndex(key, pubkey, crypto, freshKey, calls, entries, unwrap);
    enc, ivs := Halves(key, pubkey, crypto, freshKey, calls, entries, unwrap);
  }

  /** Entry `i` is admissible; as a key entry it unwraps to the content
      key, and as a part it is a half of the payload of call `c`. */
  lemma OwnerAt(key: string, pubkey: string, crypto: DebugLog.Crypto, freshKey: seq<byte>,
                calls: seq<DebugLog.AddCall>, entries: FetchLog.Archive, unwrap: FetchLog.Unwrap, i: nat)
    returns (c: nat)
    requires |key| > 0 && AllAlnum(key) && pubkey != "" && |calls| > 0 && PathsOk(calls)
    requires Lists(entries, DebugLog.Replay(key, pubkey, crypto, freshKey, calls).files)
    requires unwrap(crypto.wrap(pubkey, freshKey)) == Ok(freshKey)
    requires i < |entries|
    ensures FetchLog.EntryAdmissible(FetchLog.Intended, true, unwrap, entries[i].0, entries[i].1)
    ensures var kind := FetchLog.Kinds(FetchLog.Intended, unwrap, entries)[i];
      && (kind.KeyFile? ==> kind.unwrapped == Ok(freshKey))
      && (kind.Part? ==> c < |calls| && kind == HalfOf(key, calls, c, kind.slotIv))
  {
    var iv;
    c, iv := EncryptedKinds(key, pubkey, crypto, freshKey, calls, entries, unwrap, i);
    DebugLog.PayloadIsNotKey(key, calls[c].path);
  }

  /** Every entry is admissible, a key entry unwraps to the content key, and
      a part has a call it comes from. */
  lemma Owners(key: string, pubkey: string, crypto: DebugLog.Crypto, freshKey: seq<byte>,
               calls: seq<DebugLog.AddCall>, entries: FetchLog.Archive, unwrap: FetchLog.Unwrap)
    returns (owner: seq<nat>)
    requires |key| > 0 && AllAlnum(key) && pubkey != "" && |calls| > 0 && PathsOk(calls)
    requires Lists(entries, DebugLog.Replay(key, pubkey, crypto, freshKey, calls).files)
    requires unwrap(crypto.wrap(pubkey, freshKey)) == Ok(freshKey)
    ensures FetchLog.Admissible(FetchLog.Intended, true, unwrap, entries)
    ensures var kinds := FetchLog.Kinds(FetchLog.Intended, unwrap, entries);
      && |owner| == |kinds|
      && (forall i :: 0 <= i < |kinds| && kinds[i].KeyFile? ==> kinds[i].unwrapped == Ok(freshKey))
      && (forall i :: 0 <= i < |kinds| && kinds[i].Part? ==>
            owner[i] < |calls| && kinds[i] == HalfOf(key, calls, owner[i], kinds[i].slotIv))
  {
    var kinds := FetchLog.Kinds(FetchLog.Intended, unwrap, entries);
    forall i | 0 <= i < |entries|
      ensures FetchLog.EntryAdmissible(FetchLog.Intended, true, unwrap, entries[i].0, entries[i].1)
      ensures kinds[i].KeyFile? ==> kinds[i].unwrapped == Ok(freshKey)
      ensures kinds[i].Part? ==> exists c :: 0 <= c < |calls| && kinds[i] == HalfOf(key, calls, c, kinds[i].slotIv)
    {
      var c := OwnerAt(key, pubkey, crypto, freshKey, calls, entries, unwrap, i);
    }
    owner := ChooseOwners(kinds, key, calls);
  }

  /** The witnesses of the parts, one per entry. */
  lemma ChooseOwners(kinds: seq<FetchLog.Kind>, key: string, calls: seq<DebugLog.AddCall>)
    returns (owner: seq<nat>)
    requires forall i :: 0 <= i < |kinds| && kinds[i].Part? ==>
               exists c :: 0 <= c < |calls| && kinds[i] == HalfOf(key, calls, c, kinds[i].slotIv)
    ensures |owner| == |kinds|
    ensures forall i :: 0 <= i < |kinds| && kinds[i].Part? ==>
              owner[i] < |calls| && kinds[i] == HalfOf(key, calls, owner[i], kinds[i].slotIv)
  {
    owner := [];
    for i := 0 to |kinds|
      invariant |owner| == i
      invariant forall i' :: 0 <= i' < i && kinds[i'].Part? ==>
                  owner[i'] < |calls| && kinds[i'] == HalfOf(key, calls, owner[i'], kinds[i'].slotIv)
    {
      if kinds[i].Part? {
        var c :| 0 <= c < |calls| && kinds[i] == HalfOf(key, calls, c, kinds[i].slotIv);
        owner := owner + [c];
      } else {
        owner := owner + [0];
      }
    }
  }

  /** The container has its key entry. */
  lemma KeyIndex(key: string, pubkey: string, crypto: DebugLog.Crypto, freshKey: seq<byte>,
                 calls: seq<DebugLog.AddCall>, entries: FetchLog.Archive, unwrap: FetchLog.Unwrap)
    returns (keyIdx: nat)
    requires |key| > 0 && AllAlnum(key) && pubkey != "" && |calls| > 0 && PathsOk(calls)
    requires Lists(entries, DebugLog.Replay(key, pubkey, crypto, freshKey, calls).files)
    requires unwrap(crypto.wrap(pubkey, freshKey)).Ok?
    ensures keyIdx < |entries| && FetchLog.Kinds(FetchLog.Intended, unwrap, entries)[keyIdx].KeyFile?
  {
    DebugLog.ReplayEncrypted(key, pubkey, crypto, freshKey, calls);
    assert DebugLog.KeyEntry(key) in Keys(entries);
    var ik :| 0 <= ik < |entries| && entries[ik].0 == DebugLog.KeyEntry(key);
    var c0, iv0 := EncryptedKinds(key, pubkey, crypto, freshKey, calls, entries, unwrap, ik);
    keyIdx := ik;
  }

  /** The two halves of every call's payload are in the archive. */
  lemma Halves(key: string, pubkey: string, crypto: DebugLog.Crypto, freshKey: seq<byte>,
               calls: seq<DebugLog.AddCall>, entries: FetchLog.Archive, unwrap: FetchLog.Unwrap)
    returns (enc: seq<nat>, ivs: seq<nat>)
    requires |key| > 0 && AllAlnum(key) && pubkey != "" && |calls| > 0 && PathsOk(calls)
    requires Lists(entries, DebugLog.Replay(key, pubkey, crypto, freshKey, calls).files)
    requires unwrap(crypto.wrap(pubkey, freshKey)).Ok?
    ensures var kinds := FetchLog.Kinds(FetchLog.Intended, unwrap, entries);
      && |enc| == |calls| && |ivs| == |calls|
      && (forall c :: 0 <= c < |calls| ==> enc[c] < |kinds| && kinds[enc[c]] == HalfOf(key, calls, c, false))
      && (forall c :: 0 <= c < |calls| ==> ivs[c] < |kinds| && kinds[ivs[c]] == HalfOf(key, calls, c, true))
  {
    var kinds := FetchLog.Kinds(FetchLog.Intended, unwrap, entries);
    forall c | 0 <= c < |calls| ensures HasHalf(kinds, key, calls, c, false) && HasHalf(kinds, key, calls, c, true) {
      var e := HalfKind(key, pubkey, crypto, freshKey, calls, entries, unwrap, c, false);
      var v := HalfKind(key, pubkey, crypto, freshKey, calls, entries, unwrap, c, true);
      assert e < |kinds| && kinds[e] == HalfOf(key, calls, c, false);
      assert v < |kinds| && kinds[v] == HalfOf(key, calls, c, true);
    }
    enc := ChooseHalves(kinds, key, calls, false);
    ivs := ChooseHalves(kinds, key, calls, true);
  }

  /** One half of the payload of call `c` is among the entries. */
  ghost predicate HasHalf(kinds: seq<FetchLog.Kind>, key: string, calls: seq<DebugLog.AddCall>, c: nat, iv: bool)
    requires c < |calls|
  {
    exists i :: 0 <= i < |kinds| && kinds[i] == HalfOf(key, calls, c, iv)
  }

  /** The witnesses of one half, one per call. */
  lemma ChooseHalves(kinds: seq<FetchLog.Kind>, key: string, calls: seq<DebugLog.AddCall>, iv: bool)
    returns (at: seq<nat>)
    requires forall c :: 0 <= c < |calls| ==> HasHalf(kinds, key, calls, c, iv)
    ensures |at| == |calls|
    ensures forall c :: 0 <= c < |calls| ==> at[c] < |kinds| && kinds[at[c]] == HalfOf(key, calls, c, iv)
  {
    at := [];
    for c := 0 to |calls|
      invariant |at| == c
      invariant forall c' :: 0 <= c' < c ==> at[c'] < |kinds| && kinds[at[c']] == HalfOf(key, calls, c', iv)
    {
      assert HasHalf(kinds, key, calls, c, iv);
      var i :| 0 <= i < |kinds| && kinds[i] == HalfOf(key, calls, c, iv);
      at := at + [i];
    }
  }

  /** Two halves of one group come from one call. */
  lemma SameGroup(key: string, calls: seq<DebugLog.AddCall>, c: nat, d: nat, ivc: bool, ivd: bool)
    requires c < |calls| && d < |calls| && PathsOk(calls)
    requires HalfOf(key, calls, c, ivc).group == HalfOf(key, calls, d, ivd).group
    ensures c == d
  {
    LowerUnderKey(key, calls[c].path, calls[d].path);
  }

  /** The key the first loop holds is the unwrapped content key. */
  lemma DescribedKey(kinds: seq<FetchLog.Kind>, key: string, calls: seq<DebugLog.AddCall>, freshKey: seq<byte>,
                     owner: seq<nat>, enc: seq<nat>, ivs: seq<nat>, keyIdx: nat, st: FetchLog.Scanned)
    requires CallKinds(kinds, key, calls, freshKey, owner, enc, ivs, keyIdx)
    requires FetchLog.Describes(kinds, |kinds|, st)
    ensures st.key == Some(freshKey)
  {
    assert FetchLog.KeyAt(kinds, keyIdx);
    var i :| 0 <= i < |kinds| && FetchLog.KeyAt(kinds, i) && kinds[i].unwrapped == Ok(st.key.value);
  }

  /** The `j`-th group is the complete group of one call. */
  lemma DescribedGroup(kinds: seq<FetchLog.Kind>, key: string, calls: seq<DebugLog.AddCall>, freshKey: seq<byte>,
                       owner: seq<nat>, enc: seq<nat>, ivs: seq<nat>, keyIdx: nat, st: FetchLog.Scanned, j: nat)
    returns (c: nat)
    requires PathsOk(calls) && CallKinds(kinds, key, calls, freshKey, owner, enc, ivs, keyIdx)
    requires FetchLog.Describes(kinds, |kinds|, st)
    requires j < |st.groups|
    ensures c < |calls| && st.groups[j].1 == GroupOf(key, calls, c)
    ensures st.groups[j].0 == Lower(DebugLog.Entry(key, calls[c].path))
  {
    var g, f := GroupIndexed(kinds, st, j);
    c := EncryptedGroupOwner(kinds, key, calls, freshKey, owner, enc, ivs, keyIdx, g, f);
  }

  /** The `j`-th group as the first loop describes it. */
  lemma GroupIndexed(kinds: seq<FetchLog.Kind>, st: FetchLog.Scanned, j: nat) returns (g: string, f: FetchLog.Group)
    requires FetchLog.Describes(kinds, |kinds|, st)
    requires j < |st.groups|
    ensures st.groups[j].0 == g && st.groups[j].1 == f
    ensures FetchLog.GroupDescribed(kinds, |kinds|, g, f)
  {
    g, f := st.groups[j].0, st.groups[j].1;
    assert g in Keys(st.groups);
    PositionIs(st.groups, g, 0, j);
    assert Lookup(st.groups, g).value == f;
  }

  /** A group some entry joins is among the groups of the first loop. */
  lemma GroupIndexOf(kinds: seq<FetchLog.Kind>, st: FetchLog.Scanned, g: string, i: nat) returns (j: nat)
    requires FetchLog.Describes(kinds, |kinds|, st)
    requires FetchLog.Member(kinds, i, g)
    ensures j < |st.groups| && st.groups[j].0 == g
  {
    assert g in Keys(st.groups);
    var j' :| 0 <= j' < |st.groups| && st.groups[j'].0 == g;
    j := j';
  }

  /** A group of an encrypted container, as the first loop describes it,
      is the complete group of one call. */
  lemma EncryptedGroupOwner(kinds: seq<FetchLog.Kind>, key: string, calls: seq<DebugLog.AddCall>, freshKey: seq<byte>,
                            owner: seq<nat>, enc: seq<nat>, ivs: seq<nat>, keyIdx: nat, g: string, f: FetchLog.Group)
    returns (c: nat)
    requires PathsOk(calls) && CallKinds(kinds, key, calls, freshKey, owner, enc, ivs, keyIdx)
    requires FetchLog.GroupDescribed(kinds, |kinds|, g, f)
    ensures c < |calls| && f == GroupOf(key, calls, c)
    ensures g == Lower(DebugLog.Entry(key, calls[c].path))
  {
    var i := GroupMember(kinds, g, f);
    c := owner[i];
    PartHalf(kinds, key, calls, freshKey, owner, enc, ivs, keyIdx, i);
    HalvesOf(kinds, key, calls, freshKey, owner, enc, ivs, keyIdx, c);
    var i1, i2 := GroupSlots(kinds, g, f, enc[c], ivs[c]);
    PartHalf(kinds, key, calls, freshKey, owner, enc, ivs, keyIdx, i1);
    SameGroup(key, calls, c, owner[i1], false, false);
    PartHalf(kinds, key, calls, freshKey, owner, enc, ivs, keyIdx, i2);
    SameGroup(key, calls, c, owner[i2], false, true);
  }

  /** A group has an entry that joins it and gives it its filename. */
  lemma GroupMember(kinds: seq<FetchLog.Kind>, g: string, f: FetchLog.Group) returns (i: nat)
    requires FetchLog.GroupDescribed(kinds, |kinds|, g, f)
    ensures FetchLog.Member(kinds, i, g) && f.filename == kinds[i].filename
  {
    var i' :| 0 <= i' < |kinds| && FetchLog.Member(kinds, i', g) && f.filename == kinds[i'].filename;
    i := i';
  }

  /** A group with both slots met and a typed entry has both slots set, each
      naming an entry that fills it, and is marked. */
  lemma GroupSlots(kinds: seq<FetchLog.Kind>, g: string, f: FetchLog.Group, e: nat, v: nat) returns (i1: nat, i2: nat)
    requires FetchLog.GroupDescribed(kinds, |kinds|, g, f)
    requires FetchLog.Fills(kinds, e, g, false) && FetchLog.Marks(kinds, e, g) && FetchLog.Fills(kinds, v, g, true)
    ensures FetchLog.Fills(kinds, i1, g, false) && f.contents == Some(kinds[i1].name)
    ensures FetchLog.Fills(kinds, i2, g, true) && f.iv == Some(kinds[i2].name)
    ensures f.encrypted
  {
    assert f.contents.Some? && f.iv.Some?;
    var j1 :| 0 <= j1 < |kinds| && FetchLog.Fills(kinds, j1, g, false) && kinds[j1].name == f.contents.value;
    var j2 :| 0 <= j2 < |kinds| && FetchLog.Fills(kinds, j2, g, true) && kinds[j2].name == f.iv.value;
    i1, i2 := j1, j2;
  }

  /** A part of an encrypted container is a half of its owner's payload. */
  lemma PartHalf(kinds: seq<FetchLog.Kind>, key: string, calls: seq<DebugLog.AddCall>, freshKey: seq<byte>,
                 owner: seq<nat>, enc: seq<nat>, ivs: seq<nat>, keyIdx: nat, i: nat)
    requires CallKinds(kinds, key, calls, freshKey, owner, enc, ivs, keyIdx)
    requires i < |kinds| && kinds[i].Part?
    ensures owner[i] < |calls| && kinds[i] == HalfOf(key, calls, owner[i], kinds[i].slotIv)
  {
  }

  /** The two halves of call `c` fill the two slots of its group, and the
      payload half marks it. */
  lemma HalvesOf(kinds: seq<FetchLog.Kind>, key: string, calls: seq<DebugLog.AddCall>, freshKey: seq<byte>,
                 owner: seq<nat>, enc: seq<nat>, ivs: seq<nat>, keyIdx: nat, c: nat)
    requires CallKinds(kinds, key, calls, freshKey, owner, enc, ivs, keyIdx)
    requires c < |calls|
    ensures var g := Lower(DebugLog.Entry(key, calls[c].path));
      FetchLog.Fills(kinds, enc[c], g, false) && FetchLog.Marks(kinds, enc[c], g) && FetchLog.Fills(kinds, ivs[c], g, true)
  {
  }

  /** Every call has its group. */
  lemma DescribedCall(kinds: seq<FetchLog.Kind>, key: string, calls: seq<DebugLog.AddCall>, freshKey: seq<byte>,
                      owner: seq<nat>, enc: seq<nat>, ivs: seq<nat>, keyIdx: nat, st: FetchLog.Scanned, c: nat)
    returns (j: nat)
    requires CallKinds(kinds, key, calls, freshKey, owner, enc, ivs, keyIdx)
    requires FetchLog.Describes(kinds, |kinds|, st)
    requires c < |calls|
    ensures j < |st.groups| && st.groups[j].0 == Lower(DebugLog.Entry(key, calls[c].path))
  {
    var g := Lower(DebugLog.Entry(key, calls[c].path));
    assert FetchLog.Member(kinds, enc[c], g);
    j := GroupIndexOf(kinds, st, g, enc[c]);
  }

  /** What the first loop makes of an encrypted container: it gets through,
      holds the content key, and has exactly one complete group per call. */
  lemma EncryptedScan(key: string, pubkey: string, crypto: DebugLog.Crypto, freshKey: seq<byte>,
                      calls: seq<DebugLog.AddCall>, entries: FetchLog.Archive, unwrap: FetchLog.Unwrap)
    returns (groupOf: seq<nat>)
    requires |key| > 0 && AllAlnum(key) && pubkey != "" && |calls| > 0 && PathsOk(calls)
    requires Lists(entries, DebugLog.Replay(key, pubkey, crypto, freshKey, calls).files)
    requires unwrap(crypto.wrap(pubkey, freshKey)) == Ok(freshKey)
    ensures FetchLog.Scan(FetchLog.Intended, true, unwrap, entries).Ok?
    ensures var st := FetchLog.Scan(FetchLog.Intended, true, unwrap, entries).value;
      && st.key == Some(freshKey)
      && |groupOf| == |st.groups|
      && (forall j :: 0 <= j < |st.groups| ==> groupOf[j] < |calls| && st.groups[j].1 == GroupOf(key, calls, groupOf[j]))
      && (forall c :: 0 <= c < |calls| ==> c in groupOf)
  {
    var kinds := FetchLog.Kinds(FetchLog.Intended, unwrap, entries);
    var owner, enc, ivs, keyIdx := EncryptedCallKinds(key, pubkey, crypto, freshKey, calls, entries, unwrap);
    FetchLog.ScanDescribed(FetchLog.Intended, true, unwrap, entries, |entries|);
    assert entries[..|entries|] == entries;
    var st := FetchLog.Scan(FetchLog.Intended, true, unwrap, entries).value;
    groupOf := GroupsOf(kinds, key, calls, freshKey, owner, enc, ivs, keyIdx, st);
  }

  /** The call behind each group, and every call behind one. */
  lemma GroupsOf(kinds: seq<FetchLog.Kind>, key: string, calls: seq<DebugLog.AddCall>, freshKey: seq<byte>,
                 owner: seq<nat>, enc: seq<nat>, ivs: seq<nat>, keyIdx: nat, st: FetchLog.Scanned)
    returns (groupOf: seq<nat>)
    requires PathsOk(calls) && CallKinds(kinds, key, calls, freshKey, owner, enc, ivs, keyIdx)
    requires FetchLog.Describes(kinds, |kinds|, st)
    ensures st.key == Some(freshKey)
    ensures |groupOf| == |st.groups|
    ensures forall j :: 0 <= j < |st.groups| ==> groupOf[j] < |calls| && st.groups[j].1 == GroupOf(key, calls, groupOf[j])
    ensures forall c :: 0 <= c < |calls| ==> c in groupOf
  {
    DescribedKey(kinds, key, calls, freshKey, owner, enc, ivs, keyIdx, st);
    groupOf := [];
    for j := 0 to |st.groups|
      invariant |groupOf| == j
      invariant forall j' :: 0 <= j' < j ==> groupOf[j'] < |calls| && st.groups[j'].1 == GroupOf(key, calls, groupOf[j'])
      invariant forall j' :: 0 <= j' < j ==> st.groups[j'].0 == Lower(DebugLog.Entry(key, calls[groupOf[j']].path))
    {
      var c := DescribedGroup(kinds, key, calls, freshKey, owner, enc, ivs, keyIdx, st, j);
      groupOf := groupOf + [c];
    }
    forall c | 0 <= c < |calls| ensures c in groupOf {
      var j := DescribedCall(kinds, key, calls, freshKey, owner, enc, ivs, keyIdx, st, c);
      var c' := groupOf[j];
      LowerUnderKey(key, calls[c].path, calls[c'].path);
    }
  }

  /** AES-GCM opens what it sealed: the decipher given the content key, the
      IV, and the sealed bytes split into ciphertext and tag gives the
      plaintext back. */
  ghost predicate Opens(crypto: DebugLog.Crypto, decipher: FetchLog.Decipher, freshKey: seq<byte>) {
    forall iv: seq<byte>, m: seq<byte> ::
      decipher(Some(freshKey), iv, FetchLog.Ciphertext(crypto.seal(freshKey, iv, m)), FetchLog.Tag(crypto.seal(freshKey, iv, m))) == Ok(m)
  }

  /** What `fetch-log` writes for the `c`-th call: the file under `logs/`
      named after the entry, holding the UTF-8 bytes of the data sent. */
  function Recovered(key: string, calls: seq<DebugLog.AddCall>, c: nat): FetchLog.Written
    requires c < |calls|
  {
    FetchLog.Written("logs/" + DebugLog.Entry(key, calls[c].path), Utf8.Encode(calls[c].data))
  }

  /** The second loop on the group of call `c` writes that call's data. */
  lemma EncryptedGroupStep(key: string, pubkey: string, crypto: DebugLog.Crypto, freshKey: seq<byte>,
                           calls: seq<DebugLog.AddCall>, entries: FetchLog.Archive, decipher: FetchLog.Decipher, c: nat)
    requires pubkey != "" && c < |calls| && PathsOk(calls)
    requires Lists(entries, DebugLog.Replay(key, pubkey, crypto, freshKey, calls).files)
    requires Opens(crypto, decipher, freshKey)
    ensures FetchLog.GroupStep(entries, Some(freshKey), decipher, GroupOf(key, calls, c)) == Ok(Recovered(key, calls, c))
  {
    var files := DebugLog.Replay(key, pubkey, crypto, freshKey, calls).files;
    var p := calls[c].path;
    forall j | c < j < |calls| ensures calls[j].path != p {
      assert Lower(calls[c].path) != Lower(calls[j].path);
    }
    DebugLog.ReplayEncryptedData(key, pubkey, crypto, freshKey, calls, c);
    ListedData(entries, files, DebugLog.Entry(key, p + ".enc"));
    ListedData(entries, files, DebugLog.Entry(key, p + ".iv"));
    var sealed := crypto.seal(freshKey, calls[c].iv, Utf8.Encode(calls[c].data));
    assert decipher(Some(freshKey), calls[c].iv, FetchLog.Ciphertext(sealed), FetchLog.Tag(sealed)) == Ok(Utf8.Encode(calls[c].data));
  }

  /** Both loops on an encrypted container: the first gets through with
      the content key, and the second writes one call's data per group. */
  lemma EncryptedGroups(key: string, pubkey: string, crypto: DebugLog.Crypto, freshKey: seq<byte>,
                        calls: seq<DebugLog.AddCall>, entries: FetchLog.Archive,
                        unwrap: FetchLog.Unwrap, decipher: FetchLog.Decipher)
    returns (groupOf: seq<nat>)
    requires |key| > 0 && AllAlnum(key) && pubkey != "" && |calls| > 0 && PathsOk(calls)
    requires Lists(entries, DebugLog.Replay(key, pubkey, crypto, freshKey, calls).files)
    requires unwrap(crypto.wrap(pubkey, freshKey)) == Ok(freshKey)
    requires Opens(crypto, decipher, freshKey)
    ensures FetchLog.Scan(FetchLog.Intended, true, unwrap, entries).Ok?
    ensures var st := FetchLog.Scan(FetchLog.Intended, true, unwrap, entries).value;
      && st.key == Some(freshKey)
      && |groupOf| == |st.groups|
      && (forall j :: 0 <= j < |st.groups| ==>
            groupOf[j] < |calls| && FetchLog.GroupStep(entries, st.key, decipher, st.groups[j].1) == Ok(Recovered(key, calls, groupOf[j])))
      && (forall c :: 0 <= c < |calls| ==> c in groupOf)
  {
    groupOf := EncryptedScan(key, pubkey, crypto, freshKey, calls, entries, unwrap);
    var st := FetchLog.Scan(FetchLog.Intended, true, unwrap, entries).value;
    forall j | 0 <= j < |st.groups|
      ensures FetchLog.GroupStep(entries, st.key, decipher, st.groups[j].1) == Ok(Recovered(key, calls, groupOf[j]))
    {
      EncryptedGroupStep(key, pubkey, crypto, freshKey, calls, entries, decipher, groupOf[j]);
    }
  }

  /** The encrypted round trip. A bundler that received `calls` (at least
      one, on distinct single-line paths) under a public key fills a
      container; `fetch-log`, reading its entries with the type group of its
      pattern, given the private key that unwraps the content key and AES-GCM
      that opens what it sealed, ends normally, removes the zip, and writes
      exactly the data of every call, each under its own path. */
  lemma EncryptedRoundTrip(key: string, pubkey: string, crypto: DebugLog.Crypto, freshKey: seq<byte>,
                           calls: seq<DebugLog.AddCall>, entries: FetchLog.Archive,
                           unwrap: FetchLog.Unwrap, decipher: FetchLog.Decipher, opts: FetchLog.Options)
    requires |key| > 0 && AllAlnum(key) && pubkey != "" && |calls| > 0 && PathsOk(calls)
    requires Lists(entries, DebugLog.Replay(key, pubkey, crypto, freshKey, calls).files)
    requires unwrap(crypto.wrap(pubkey, freshKey)) == Ok(freshKey)
    requires Opens(crypto, decipher, freshKey)
    requires opts.encrypted
    ensures var o := FetchLog.Program(opts, FetchLog.Intended, FetchLog.Saved(entries), unwrap, decipher);
      && o.exit == FetchLog.Done && !o.zipLeft
      && (forall w :: w in o.writes ==> exists c :: 0 <= c < |calls| && w == Recovered(key, calls, c))
      && (forall c :: 0 <= c < |calls| ==> Recovered(key, calls, c) in o.writes)
  {
    var groupOf := EncryptedGroups(key, pubkey, crypto, freshKey, calls, entries, unwrap, decipher);
    var st := FetchLog.Scan(FetchLog.Intended, true, unwrap, entries).value;
    ExtractCalls(key, calls, entries, st.key, decipher, st.groups, groupOf);
    ProgramAfterScan(opts, FetchLog.Intended, entries, unwrap, decipher, st);
  }

  /** Once the first loop got through with a key where one is needed, the run
      is the second loop, and the zip stays only after a fatal exit. */
  lemma ProgramAfterScan(opts: FetchLog.Options, reading: FetchLog.Reading, entries: FetchLog.Archive,
                      unwrap: FetchLog.Unwrap, decipher: FetchLog.Decipher, st: FetchLog.Scanned)
    requires FetchLog.Scan(reading, opts.encrypted, unwrap, entries) == Ok(st)
    requires opts.encrypted ==> st.key.Some?
    ensures var p := FetchLog.Extract(entries, st.key, decipher, st.groups);
      FetchLog.Program(opts, reading, FetchLog.Saved(entries), unwrap, decipher) == FetchLog.Outcome(p.writes, p.exit, p.exit.Fatal?)
  {
  }

  /** The second loop over groups that each write one call's data, every
      call among them, ends normally and writes exactly those data. */
  lemma ExtractCalls(key: string, calls: seq<DebugLog.AddCall>, entries: FetchLog.Archive, symmetric: Option<seq<byte>>,
                     decipher: FetchLog.Decipher, groups: Record<FetchLog.Group>, groupOf: seq<nat>)
    requires |groupOf| == |groups|
    requires forall j :: 0 <= j < |groups| ==>
      groupOf[j] < |calls| && FetchLog.GroupStep(entries, symmetric, decipher, groups[j].1) == Ok(Recovered(key, calls, groupOf[j]))
    requires forall c :: 0 <= c < |calls| ==> c in groupOf
    ensures var p := FetchLog.Extract(entries, symmetric, decipher, groups);
      && p.exit == FetchLog.Done
      && (forall w :: w in p.writes ==> exists c :: 0 <= c < |calls| && w == Recovered(key, calls, c))
      && (forall c :: 0 <= c < |calls| ==> Recovered(key, calls, c) in p.writes)
  {
    FetchLog.ExtractAll(entries, symmetric, decipher, groups);
    var p := FetchLog.Extract(entries, symmetric, decipher, groups);
    forall w | w in p.writes ensures exists c :: 0 <= c < |calls| && w == Recovered(key, calls, c) {
      var j :| 0 <= j < |p.writes| && p.writes[j] == w;
      assert w == Recovered(key, calls, groupOf[j]);
    }
    forall c | 0 <= c < |calls| ensures Recovered(key, calls, c) in p.writes {
      assert c in groupOf;
      var j :| 0 <= j < |groupOf| && groupOf[j] == c;
      assert p.writes[j] == Recovered(key, calls, c);
    }
  }
  // The plain round trip: a bundler without a public key.

  /** Paths a plain bundle carries whole: on one line, different even when
      compared without case, and not themselves ending in a type word. */
  predicate PlainPathsOk(calls: seq<DebugLog.AddCall>) {
    PathsOk(calls) && forall i :: 0 <= i < |calls| ==> !FetchLog.TypedName(calls[i].path)
  }

  /** How `fetch-log` classifies the entry of the `c`-th call of a plain bundle. */
  function PlainOf(key: string, calls: seq<DebugLog.AddCall>, c: nat): FetchLog.Kind
    requires c < |calls|
  {
    var n := DebugLog.Entry(key, calls[c].path);
    FetchLog.Part(Lower(n), n, n, false, false)
  }

  /** The group of the `c`-th call of a plain bundle: its entry alone. */
  function PlainGroupOf(key: string, calls: seq<DebugLog.AddCall>, c: nat): FetchLog.Group
    requires c < |calls|
  {
    var n := DebugLog.Entry(key, calls[c].path);
    FetchLog.Group(n, Some(n), None, false)
  }

  /** Entry `i` of a plain container is the entry of some call, read as an
      untyped part under either reading. */
  lemma PlainKindAt(key: string, crypto: DebugLog.Crypto, freshKey: seq<byte>, calls: seq<DebugLog.AddCall>,
                    entries: FetchLog.Archive, reading: FetchLog.Reading, unwrap: FetchLog.Unwrap, i: nat)
    returns (c: nat)
    requires |key| > 0 && AllAlnum(key) && PlainPathsOk(calls)
    requires Lists(entries, DebugLog.Replay(key, "", crypto, freshKey, calls).files)
    requires i < |entries|
    ensures c < |calls| && entries[i].0 == DebugLog.Entry(key, calls[c].path)
    ensures FetchLog.EntryAdmissible(reading, false, unwrap, entries[i].0, entries[i].1)
    ensures FetchLog.Kinds(reading, unwrap, entries)[i] == PlainOf(key, calls, c)
  {
    DebugLog.ReplayPlain(key, crypto, freshKey, calls);
    var n := entries[i].0;
    assert n in DebugLog.Names(key, calls, "");
    var c' :| 0 <= c' < |calls| && n == DebugLog.Entry(key, calls[c'].path + "");
    c := c';
    assert calls[c].path + "" == calls[c].path;
    FetchLog.TypedUnderKey(key, calls[c].path);
  }

  /** The classification of a plain container, with explicit witnesses:
      entry `i` is that of call `owner[i]`, and `at[c]` is the entry of call `c`. */
  ghost predicate PlainKinds(kinds: seq<FetchLog.Kind>, key: string, calls: seq<DebugLog.AddCall>, owner: seq<nat>, at: seq<nat>) {
    && |owner| == |kinds|
    && (forall i :: 0 <= i < |kinds| ==> owner[i] < |calls| && kinds[i] == PlainOf(key, calls, owner[i]))
    && |at| == |calls|
    && (forall c :: 0 <= c < |calls| ==> at[c] < |kinds| && kinds[at[c]] == PlainOf(key, calls, c))
  }

  lemma PlainOwners(key: string, crypto: DebugLog.Crypto, freshKey: seq<byte>, calls: seq<DebugLog.AddCall>,
                    entries: FetchLog.Archive, reading: FetchLog.Reading, unwrap: FetchLog.Unwrap)
    returns (owner: seq<nat>)
    requires |key| > 0 && AllAlnum(key) && PlainPathsOk(calls)
    requires Lists(entries, DebugLog.Replay(key, "", crypto, freshKey, calls).files)
    ensures FetchLog.Admissible(reading, false, unwrap, entries)
    ensures var kinds := FetchLog.Kinds(reading, unwrap, entries);
      && |owner| == |kinds|
      && (forall i :: 0 <= i < |kinds| ==> owner[i] < |calls| && kinds[i] == PlainOf(key, calls, owner[i]))
  {
    var kinds := FetchLog.Kinds(reading, unwrap, entries);
    PlainHasOwners(key, crypto, freshKey, calls, entries, reading, unwrap);
    owner := ChoosePlainOwners(kinds, key, calls);
  }

  /** Every entry of a plain container is admissible and is that of a call. */
  lemma PlainHasOwners(key: string, crypto: DebugLog.Crypto, freshKey: seq<byte>, calls: seq<DebugLog.AddCall>,
                       entries: FetchLog.Archive, reading: FetchLog.Reading, unwrap: FetchLog.Unwrap)
    requires |key| > 0 && AllAlnum(key) && PlainPathsOk(calls)
    requires Lists(entries, DebugLog.Replay(key, "", crypto, freshKey, calls).files)
    ensures FetchLog.Admissible(reading, false, unwrap, entries)
    ensures var kinds := FetchLog.Kinds(reading, unwrap, entries);
      forall i :: 0 <= i < |kinds| ==> HasOwner(kinds, key, calls, i)
  {
    var kinds := FetchLog.Kinds(reading, unwrap, entries);
    forall i | 0 <= i < |entries|
      ensures FetchLog.EntryAdmissible(reading, false, unwrap, entries[i].0, entries[i].1)
      ensures HasOwner(kinds, key, calls, i)
    {
      var c := PlainKindAt(key, crypto, freshKey, calls, entries, reading, unwrap, i);
      assert kinds[i] == PlainOf(key, calls, c);
    }
  }

  /** The witnesses of the entries of a plain container, one per entry. */
  lemma ChoosePlainOwners(kinds: seq<FetchLog.Kind>, key: string, calls: seq<DebugLog.AddCall>)
    returns (owner: seq<nat>)
    requires forall i :: 0 <= i < |kinds| ==> HasOwner(kinds, key, calls, i)
    ensures |owner| == |kinds|
    ensures forall i :: 0 <= i < |kinds| ==> owner[i] < |calls| && kinds[i] == PlainOf(key, calls, owner[i])
  {
    owner := [];
    for i := 0 to |kinds|
      invariant |owner| == i
      invariant forall i' :: 0 <= i' < i ==> owner[i'] < |calls| && kinds[i'] == PlainOf(key, calls, owner[i'])
    {
      assert HasOwner(kinds, key, calls, i);
      var c :| 0 <= c < |calls| && kinds[i] == PlainOf(key, calls, c);
      owner := owner + [c];
    }
  }

  /** Entry `i` is that of some call. */
  ghost predicate HasOwner(kinds: seq<FetchLog.Kind>, key: string, calls: seq<DebugLog.AddCall>, i: nat)
    requires i < |kinds|
  {
    exists c :: 0 <= c < |calls| && kinds[i] == PlainOf(key, calls, c)
  }

  /** The entry of call `c` holds the UTF-8 bytes of its data. */
  lemma PlainData(key: string, crypto: DebugLog.Crypto, freshKey: seq<byte>, calls: seq<DebugLog.AddCall>,
                  entries: FetchLog.Archive, c: nat)
    requires PathsOk(calls) && c < |calls|
    requires Lists(entries, DebugLog.Replay(key, "", crypto, freshKey, calls).files)
    ensures DebugLog.Entry(key, calls[c].path) in Keys(entries)
    ensures FetchLog.EntryData(entries, DebugLog.Entry(key, calls[c].path)) == Ok(Utf8.Encode(calls[c].data))
  {
    forall j | c < j < |calls| ensures calls[j].path != calls[c].path {
      assert Lower(calls[c].path) != Lower(calls[j].path);
    }
    DebugLog.ReplayPlainData(key, crypto, freshKey, calls, c);
    ListedData(entries, DebugLog.Replay(key, "", crypto, freshKey, calls).files, DebugLog.Entry(key, calls[c].path));
  }

  lemma PlainAt(key: string, crypto: DebugLog.Crypto, freshKey: seq<byte>, calls: seq<DebugLog.AddCall>,
                entries: FetchLog.Archive, reading: FetchLog.Reading, unwrap: FetchLog.Unwrap)
    returns (at: seq<nat>)
    requires |key| > 0 && AllAlnum(key) && PlainPathsOk(calls)
    requires Lists(entries, DebugLog.Replay(key, "", crypto, freshKey, calls).files)
    ensures var kinds := FetchLog.Kinds(reading, unwrap, entries);
      && |at| == |calls|
      && (forall c :: 0 <= c < |calls| ==> at[c] < |kinds| && kinds[at[c]] == PlainOf(key, calls, c))
  {
    var kinds := FetchLog.Kinds(reading, unwrap, entries);
    at := [];
    for c := 0 to |calls|
      invariant |at| == c
      invariant forall c' :: 0 <= c' < c ==> at[c'] < |kinds| && kinds[at[c']] == PlainOf(key, calls, c')
    {
      var i := PlainIndex(key, crypto, freshKey, calls, entries, reading, unwrap, c);
      at := at + [i];
    }
  }

  lemma PlainIndex(key: string, crypto: DebugLog.Crypto, freshKey: seq<byte>, calls: seq<DebugLog.AddCall>,
                   entries: FetchLog.Archive, reading: FetchLog.Reading, unwrap: FetchLog.Unwrap, c: nat)
    returns (i: nat)
    requires |key| > 0 && AllAlnum(key) && PlainPathsOk(calls) && c < |calls|
    requires Lists(entries, DebugLog.Replay(key, "", crypto, freshKey, calls).files)
    ensures i < |entries| && FetchLog.Kinds(reading, unwrap, entries)[i] == PlainOf(key, calls, c)
  {
    PlainData(key, crypto, freshKey, calls, entries, c);
    var k :| 0 <= k < |entries| && entries[k].0 == DebugLog.Entry(key, calls[c].path);
    var c' := PlainKindAt(key, crypto, freshKey, calls, entries, reading, unwrap, k);
    DebugLog.EntryInjective(key, calls[c].path, calls[c'].path);
    i := k;
  }

  /** The `j`-th group of a plain container is the entry of one call. */
  lemma PlainDescribedGroup(kinds: seq<FetchLog.Kind>, key: string, calls: seq<DebugLog.AddCall>,
                            owner: seq<nat>, at: seq<nat>, st: FetchLog.Scanned, j: nat)
    returns (c: nat)
    requires PathsOk(calls) && PlainKinds(kinds, key, calls, owner, at)
    requires FetchLog.Describes(kinds, |kinds|, st)
    requires j < |st.groups|
    ensures c < |calls| && st.groups[j].1 == PlainGroupOf(key, calls, c)
    ensures st.groups[j].0 == Lower(DebugLog.Entry(key, calls[c].path))
  {
    var g, f := GroupIndexed(kinds, st, j);
    c := PlainGroupOwner(kinds, key, calls, owner, at, g, f);
  }

  /** A group of a plain container is the entry of one call. */
  lemma PlainGroupOwner(kinds: seq<FetchLog.Kind>, key: string, calls: seq<DebugLog.AddCall>,
                        owner: seq<nat>, at: seq<nat>, g: string, f: FetchLog.Group)
    returns (c: nat)
    requires PathsOk(calls) && PlainKinds(kinds, key, calls, owner, at)
    requires FetchLog.GroupDescribed(kinds, |kinds|, g, f)
    ensures c < |calls| && f == PlainGroupOf(key, calls, c)
    ensures g == Lower(DebugLog.Entry(key, calls[c].path))
  {
    var i :| 0 <= i < |kinds| && FetchLog.Member(kinds, i, g) && f.filename == kinds[i].filename;
    c := owner[i];
    assert FetchLog.Fills(kinds, at[c], g, false);
    var i1 :| 0 <= i1 < |kinds| && FetchLog.Fills(kinds, i1, g, false) && kinds[i1].name == f.contents.value;
    SameGroup(key, calls, c, owner[i1], false, false);
    PlainUntyped(kinds, key, calls, owner, at, g);
  }

  /** No entry of a plain container fills an IV slot or marks a group encrypted. */
  lemma PlainUntyped(kinds: seq<FetchLog.Kind>, key: string, calls: seq<DebugLog.AddCall>,
                     owner: seq<nat>, at: seq<nat>, g: string)
    requires PlainKinds(kinds, key, calls, owner, at)
    ensures forall i :: 0 <= i < |kinds| ==> !FetchLog.Fills(kinds, i, g, true) && !FetchLog.Marks(kinds, i, g)
  {
    forall i | 0 <= i < |kinds| ensures !FetchLog.Fills(kinds, i, g, true) && !FetchLog.Marks(kinds, i, g) {
      assert kinds[i] == PlainOf(key, calls, owner[i]);
    }
  }

  /** The key stays unset and every call has its group. */
  lemma PlainGroupsOf(kinds: seq<FetchLog.Kind>, key: string, calls: seq<DebugLog.AddCall>,
                      owner: seq<nat>, at: seq<nat>, st: FetchLog.Scanned)
    returns (groupOf: seq<nat>)
    requires PathsOk(calls) && PlainKinds(kinds, key, calls, owner, at)
    requires FetchLog.Describes(kinds, |kinds|, st)
    ensures st.key.None?
    ensures |groupOf| == |st.groups|
    ensures forall j :: 0 <= j < |st.groups| ==> groupOf[j] < |calls| && st.groups[j].1 == PlainGroupOf(key, calls, groupOf[j])
    ensures forall c :: 0 <= c < |calls| ==> c in groupOf
  {
    forall i | 0 <= i < |kinds| ensures !FetchLog.KeyAt(kinds, i) {
      assert kinds[i] == PlainOf(key, calls, owner[i]);
    }
    groupOf := PlainGroupsIndexed(kinds, key, calls, owner, at, st);
    PlainCallsGrouped(kinds, key, calls, owner, at, st, groupOf);
  }

  /** The call behind each group of a plain container. */
  lemma PlainGroupsIndexed(kinds: seq<FetchLog.Kind>, key: string, calls: seq<DebugLog.AddCall>,
                           owner: seq<nat>, at: seq<nat>, st: FetchLog.Scanned)
    returns (groupOf: seq<nat>)
    requires PathsOk(calls) && PlainKinds(kinds, key, calls, owner, at)
    requires FetchLog.Describes(kinds, |kinds|, st)
    ensures |groupOf| == |st.groups|
    ensures forall j :: 0 <= j < |st.groups| ==> groupOf[j] < |calls| && st.groups[j].1 == PlainGroupOf(key, calls, groupOf[j])
    ensures forall j :: 0 <= j < |st.groups| ==> groupOf[j] < |calls| && st.groups[j].0 == Lower(DebugLog.Entry(key, calls[groupOf[j]].path))
  {
    groupOf := [];
    for j := 0 to |st.groups|
      invariant |groupOf| == j
      invariant forall j' :: 0 <= j' < j ==> groupOf[j'] < |calls| && st.groups[j'].1 == PlainGroupOf(key, calls, groupOf[j'])
      invariant forall j' :: 0 <= j' < j ==> st.groups[j'].0 == Lower(DebugLog.Entry(key, calls[groupOf[j']].path))
    {
      var c := PlainDescribedGroup(kinds, key, calls, owner, at, st, j);
      groupOf := groupOf + [c];
    }
  }

  /** Every call of a plain container is behind a group. */
  lemma PlainCallsGrouped(kinds: seq<FetchLog.Kind>, key: string, calls: seq<DebugLog.AddCall>,
                          owner: seq<nat>, at: seq<nat>, st: FetchLog.Scanned, groupOf: seq<nat>)
    requires PathsOk(calls) && PlainKinds(kinds, key, calls, owner, at)
    requires FetchLog.Describes(kinds, |kinds|, st)
    requires |groupOf| == |st.groups|
    requires forall j :: 0 <= j < |st.groups| ==> groupOf[j] < |calls| && st.groups[j].0 == Lower(DebugLog.Entry(key, calls[groupOf[j]].path))
    ensures forall c :: 0 <= c < |calls| ==> c in groupOf
  {
    forall c | 0 <= c < |calls| ensures c in groupOf {
      var g := Lower(DebugLog.Entry(key, calls[c].path));
      assert FetchLog.Member(kinds, at[c], g);
      var j := GroupIndexOf(kinds, st, g, at[c]);
      SameEntry(key, calls, c, groupOf[j]);
      assert groupOf[j] == c;
    }
  }

  /** Two calls whose entries compare equal without case are one call. */
  lemma SameEntry(key: string, calls: seq<DebugLog.AddCall>, c: nat, d: nat)
    requires c < |calls| && d < |calls| && PathsOk(calls)
    requires Lower(DebugLog.Entry(key, calls[c].path)) == Lower(DebugLog.Entry(key, calls[d].path))
    ensures c == d
  {
    LowerUnderKey(key, calls[c].path, calls[d].path);
  }

  /** Both loops on a plain container. */
  lemma PlainGroups(key: string, crypto: DebugLog.Crypto, freshKey: seq<byte>, calls: seq<DebugLog.AddCall>,
                    entries: FetchLog.Archive, reading: FetchLog.Reading, unwrap: FetchLog.Unwrap, decipher: FetchLog.Decipher)
    returns (groupOf: seq<nat>)
    requires |key| > 0 && AllAlnum(key) && PlainPathsOk(calls)
    requires Lists(entries, DebugLog.Replay(key, "", crypto, freshKey, calls).files)
    ensures FetchLog.Scan(reading, false, unwrap, entries).Ok?
    ensures var st := FetchLog.Scan(reading, false, unwrap, entries).value;
      && |groupOf| == |st.groups|
      && (forall j :: 0 <= j < |st.groups| ==>
            groupOf[j] < |calls| && FetchLog.GroupStep(entries, st.key, decipher, st.groups[j].1) == Ok(Recovered(key, calls, groupOf[j])))
      && (forall c :: 0 <= c < |calls| ==> c in groupOf)
  {
    var kinds := FetchLog.Kinds(reading, unwrap, entries);
    var owner := PlainOwners(key, crypto, freshKey, calls, entries, reading, unwrap);
    var at := PlainAt(key, crypto, freshKey, calls, entries, reading, unwrap);
    FetchLog.ScanDescribed(reading, false, unwrap, entries, |entries|);
    assert entries[..|entries|] == entries;
    var st := FetchLog.Scan(reading, false, unwrap, entries).value;
    groupOf := PlainGroupsOf(kinds, key, calls, owner, at, st);
    forall j | 0 <= j < |st.groups|
      ensures FetchLog.GroupStep(entries, st.key, decipher, st.groups[j].1) == Ok(Recovered(key, calls, groupOf[j]))
    {
      PlainGroupStep(key, crypto, freshKey, calls, entries, decipher, groupOf[j]);
    }
  }

  /** The group of one call of a plain container writes that call's data. */
  lemma PlainGroupStep(key: string, crypto: DebugLog.Crypto, freshKey: seq<byte>, calls: seq<DebugLog.AddCall>,
                       entries: FetchLog.Archive, decipher: FetchLog.Decipher, c: nat)
    requires PathsOk(calls) && c < |calls|
    requires Lists(entries, DebugLog.Replay(key, "", crypto, freshKey, calls).files)
    ensures FetchLog.GroupStep(entries, None, decipher, PlainGroupOf(key, calls, c)) == Ok(Recovered(key, calls, c))
  {
    PlainData(key, crypto, freshKey, calls, entries, c);
  }

  /** The plain round trip: without a public key, `fetch-log` under either
      reading of its pattern ends normally, removes the zip, and writes
      exactly the data of every call, each under its own path. */
  lemma PlainRoundTrip(key: string, crypto: DebugLog.Crypto, freshKey: seq<byte>, calls: seq<DebugLog.AddCall>,
                       entries: FetchLog.Archive, reading: FetchLog.Reading,
                       unwrap: FetchLog.Unwrap, decipher: FetchLog.Decipher, opts: FetchLog.Options)
    requires |key| > 0 && AllAlnum(key) && PlainPathsOk(calls)
    requires Lists(entries, DebugLog.Replay(key, "", crypto, freshKey, calls).files)
    requires !opts.encrypted
    ensures var o := FetchLog.Program(opts, reading, FetchLog.Saved(entries), unwrap, decipher);
      && o.exit == FetchLog.Done && !o.zipLeft
      && (forall w :: w in o.writes ==> exists c :: 0 <= c < |calls| && w == Recovered(key, calls, c))
      && (forall c :: 0 <= c < |calls| ==> Recovered(key, calls, c) in o.writes)
  {
    var groupOf := PlainGroups(key, crypto, freshKey, calls, entries, reading, unwrap, decipher);
    var st := FetchLog.Scan(reading, false, unwrap, entries).value;
    ExtractCalls(key, calls, entries, st.key, decipher, st.groups, groupOf);
    ProgramAfterScan(opts, reading, entries, unwrap, decipher, st);
  }
  // From the ID the bundler reports to the files `fetch-log` writes.

  /** The options `fetch-log` derives from the ID a bundler reports for an
      upload to 0x0.st as `0x0-<remote>`. */
  lemma SetupOfBundleId(key: string, remote: string, refs: bool, enc: bool, privatePath: string, fileExists: string -> bool)
    requires |key| > 0 && AllAlnum(key) && |remote| > 0 && AllAlnum(remote)
    requires enc ==> privatePath != "" && fileExists(privatePath) && fileExists("package.json")
    ensures FetchLog.Setup([LogId.Format(key, "0x0-" + remote, refs, enc)], privatePath, fileExists)
         == Ok(FetchLog.Options(enc, "logs/" + key + ".zip", "https://0x0.st/" + remote + ".zip", "logs/" + key))
  {
    LogId.RoundTrip(key, remote, refs, enc);
    FetchLog.SetupSpec([LogId.Format(key, "0x0-" + remote, refs, enc)], privatePath, fileExists);
  }

  /** The encrypted round trip from the command line: given the bundler's
      ID, `fetch-log` downloads from `https://0x0.st/<remote>.zip`, saves to
      `logs/<key>.zip`, and writes every call's data under `logs/<key>/`. */
  lemma FetchEncryptedLog(key: string, pubkey: string, crypto: DebugLog.Crypto, freshKey: seq<byte>,
                          calls: seq<DebugLog.AddCall>, entries: FetchLog.Archive,
                          unwrap: FetchLog.Unwrap, decipher: FetchLog.Decipher,
                          remote: string, privatePath: string, fileExists: string -> bool)
    requires |key| > 0 && AllAlnum(key) && pubkey != "" && |calls| > 0 && PathsOk(calls)
    requires |remote| > 0 && AllAlnum(remote)
    requires privatePath != "" && fileExists(privatePath) && fileExists("package.json")
    requires Lists(entries, DebugLog.Replay(key, pubkey, crypto, freshKey, calls).files)
    requires unwrap(crypto.wrap(pubkey, freshKey)) == Ok(freshKey)
    requires Opens(crypto, decipher, freshKey)
    ensures var id := LogId.Format(key, "0x0-" + remote, DebugLog.Replay(key, pubkey, crypto, freshKey, calls).refs, pubkey != "");
      var o := FetchLog.Run([id], privatePath, fileExists, FetchLog.Intended, FetchLog.Saved(entries), unwrap, decipher);
      && o.exit == FetchLog.Done && !o.zipLeft
      && (forall w :: w in o.writes ==> exists c :: 0 <= c < |calls| && w == Recovered(key, calls, c))
      && (forall c :: 0 <= c < |calls| ==> Recovered(key, calls, c) in o.writes)
  {
    var refs := DebugLog.Replay(key, pubkey, crypto, freshKey, calls).refs;
    SetupOfBundleId(key, remote, refs, true, privatePath, fileExists);
    var opts := FetchLog.Options(true, "logs/" + key + ".zip", "https://0x0.st/" + remote + ".zip", "logs/" + key);
    EncryptedRoundTrip(key, pubkey, crypto, freshKey, calls, entries, unwrap, decipher, opts);
  }

  /** Line 100 of `bin/fetch-log.ts` as written: whatever the archive holds,
      an encrypted log ID ends the run with "no key file found", leaving the
      downloaded zip behind and writing nothing. */
  lemma FetchEncryptedLogAsWritten(key: string, remote: string, refs: bool, privatePath: string, fileExists: string -> bool,
                                   entries: FetchLog.Archive, unwrap: FetchLog.Unwrap, decipher: FetchLog.Decipher)
    requires |key| > 0 && AllAlnum(key) && |remote| > 0 && AllAlnum(remote)
    requires privatePath != "" && fileExists(privatePath) && fileExists("package.json")
    ensures FetchLog.Run([LogId.Format(key, "0x0-" + remote, refs, true)], privatePath, fileExists,
                         FetchLog.AsWritten, FetchLog.Saved(entries), unwrap, decipher)
         == FetchLog.Outcome([], FetchLog.Fatal("no key file found"), true)
  {
    SetupOfBundleId(key, remote, refs, true, privatePath, fileExists);
    var opts := FetchLog.Options(true, "logs/" + key + ".zip", "https://0x0.st/" + remote + ".zip", "logs/" + key);
    FetchLog.AsWrittenEncryptedFails(opts, entries, unwrap, decipher);
  }

  /** The plain round trip from the command line, under either reading. */
  lemma FetchPlainLog(key: string, crypto: DebugLog.Crypto, freshKey: seq<byte>, calls: seq<DebugLog.AddCall>,
                      entries: FetchLog.Archive, reading: FetchLog.Reading,
                      unwrap: FetchLog.Unwrap, decipher: FetchLog.Decipher,
                      remote: string, privatePath: string, fileExists: string -> bool)
    requires |key| > 0 && AllAlnum(key) && PlainPathsOk(calls)
    requires |remote| > 0 && AllAlnum(remote)
    requires Lists(entries, DebugLog.Replay(key, "", crypto, freshKey, calls).files)
    ensures var id := LogId.Format(key, "0x0-" + remote, DebugLog.Replay(key, "", crypto, freshKey, calls).refs, false);
      var o := FetchLog.Run([id], privatePath, fileExists, reading, FetchLog.Saved(entries), unwrap, decipher);
      && o.exit == FetchLog.Done && !o.zipLeft
      && (forall w :: w in o.writes ==> exists c :: 0 <= c < |calls| && w == Recovered(key, calls, c))
      && (forall c :: 0 <= c < |calls| ==> Recovered(key, calls, c) in o.writes)
  {
    var refs := DebugLog.Replay(key, "", crypto, freshKey, calls).refs;
    SetupOfBundleId(key, remote, refs, false, privatePath, fileExists);
    var opts := FetchLog.Options(false, "logs/" + key + ".zip", "https://0x0.st/" + remote + ".zip", "logs/" + key);
    PlainRoundTrip(key, crypto, freshKey, calls, entries, reading, unwrap, decipher, opts);
  }
}


