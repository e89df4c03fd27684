/** The producer side of the debug-log bundle protocol: `Bundler`
    (debug-log.ts:13-84), which fills a container of `<key>/…` entries, and the
    parts of `DebugLogSender.sendAsync` that assemble the log, add it, and read
    the upload's answer (debug-log.ts:196-227). */
module DebugLog {
  import opened Base
  import opened Strings
  import opened JsText
  import Utf8
  import LogId

  /** Length of every AES-GCM nonce (debug-log.ts:18). */
  const IV_LENGTH: nat := 12

  type Iv = s: seq<byte> | |s| == IV_LENGTH witness [0, 0, 0, 0, 0, 0, 0, 0, 0, 0, 0, 0]

  /** The container: entry name to bytes, as handed to the ZIP encoder. */
  type Container = map<string, seq<byte>>

  /** The WebCrypto operations `add` performs, left uninterpreted: RSA-OAEP
      (section 7.1 of RFC 8017) of the raw content key under the PEM public key,
      and AES-256-GCM (NIST SP 800-38D) of a plaintext under a key and an IV,
      giving the ciphertext followed by the tag. */
  datatype Crypto = Crypto(
    wrap: (string, seq<byte>) -> seq<byte>,
    seal: (seq<byte>, seq<byte>, seq<byte>) -> seq<byte>)

  /** The mutable part of a bundler: the `refs` flag, the content key once it
      exists, and the entries. */
  datatype Contents = Contents(refs: bool, symmetric: Option<seq<byte>>, files: Container)

  function Entry(key: string, path: string): string {
    key + "/" + path
  }

  /** The wrapped-key entry `<key>/<key>.key`. */
  function KeyEntry(key: string): string {
    Entry(key, key + ".key")
  }

  /** The state after `add(path, data, refs)`. `freshKey` is the AES key
      `generateKey` would return and `iv` the output of `getRandomValues`. */
  function Added(key: string, pubkey: string, crypto: Crypto, st: Contents,
                 path: string, data: string, refs: bool, freshKey: seq<byte>, iv: Iv): Contents
  {
    var encoded := Utf8.Encode(data);
    if pubkey != "" then
      var ck := if st.symmetric.Some? then st.symmetric.value else freshKey;
      var withKey := if st.symmetric.None? then st.files[KeyEntry(key) := crypto.wrap(pubkey, ck)] else st.files;
      Contents(st.refs || refs, Some(ck),
        withKey[Entry(key, path + ".iv") := iv][Entry(key, path + ".enc") := crypto.seal(ck, iv, encoded)])
    else
      Contents(st.refs || refs, st.symmetric, st.files[Entry(key, path) := encoded])
  }

  /** What every reachable state satisfies: every entry lies under `<key>/`;
      without a public key there is no content key; with one, the key entry
      exists exactly when the content key does and holds it wrapped, and every
      other entry is an `.iv` or an `.enc`. */
  predicate Consistent(key: string, pubkey: string, crypto: Crypto, st: Contents) {
    && (forall n | n in st.files :: StartsWith(n, key + "/"))
    && (pubkey == "" ==> st.symmetric.None?)
    && (pubkey != "" ==> (KeyEntry(key) in st.files <==> st.symmetric.Some?))
    && (pubkey != "" && st.symmetric.Some? ==> st.files[KeyEntry(key)] == crypto.wrap(pubkey, st.symmetric.value))
    && (pubkey != "" ==> forall n | n in st.files && n != KeyEntry(key) :: EndsWith(n, ".iv") || EndsWith(n, ".enc"))
  }

  lemma EntryUnderKey(key: string, path: string)
    ensures StartsWith(Entry(key, path), key + "/")
  {
    assert Entry(key, path)[..|key + "/"|] == key + "/";
  }

  /** A payload name never collides with the key entry: they end differently. */
  lemma PayloadIsNotKey(key: string, path: string)
    ensures Entry(key, path + ".iv") != KeyEntry(key)
    ensures Entry(key, path + ".enc") != KeyEntry(key)
    ensures EndsWith(Entry(key, path + ".iv"), ".iv")
    ensures EndsWith(Entry(key, path + ".enc"), ".enc")
  {
    var iv, enc, k := Entry(key, path + ".iv"), Entry(key, path + ".enc"), KeyEntry(key);
    assert iv[|iv| - 1] == 'v' && enc[|enc| - 1] == 'c' && k[|k| - 1] == 'y';
    assert iv[|iv| - 3..] == ".iv";
    assert enc[|enc| - 4..] == ".enc";
  }

  lemma ConsistentInitially(key: string, pubkey: string, crypto: Crypto)
    ensures Consistent(key, pubkey, crypto, Contents(false, None, map[]))
  {
  }

  /** `add` keeps the state consistent. */
  lemma AddedConsistent(key: string, pubkey: string, crypto: Crypto, st: Contents,
                        path: string, data: string, refs: bool, freshKey: seq<byte>, iv: Iv)
    requires Consistent(key, pubkey, crypto, st)
    ensures Consistent(key, pubkey, crypto, Added(key, pubkey, crypto, st, path, data, refs, freshKey, iv))
  {
    var t := Added(key, pubkey, crypto, st, path, data, refs, freshKey, iv);
    PayloadIsNotKey(key, path);
    EntryUnderKey(key, path);
    EntryUnderKey(key, path + ".iv");
    EntryUnderKey(key, path + ".enc");
    EntryUnderKey(key, key + ".key");
  }

  /** With a public key, `add(path, …)` writes exactly `<key>/<path>.iv`, holding
      the 12-byte IV, and `<key>/<path>.enc`, holding the sealed UTF-8 bytes
      under the content key; it creates the wrapped key entry only when no
      content key exists yet, and never rewrites it; it changes no other entry
      and ORs `refs` into the flag. */
  lemma AddedEncrypted(key: string, pubkey: string, crypto: Crypto, st: Contents,
                       path: string, data: string, refs: bool, freshKey: seq<byte>, iv: Iv)
    requires pubkey != ""
    requires Consistent(key, pubkey, crypto, st)
    ensures var t := Added(key, pubkey, crypto, st, path, data, refs, freshKey, iv);
      var ivName, encName := Entry(key, path + ".iv"), Entry(key, path + ".enc");
      && t.refs == (st.refs || refs)
      && t.files.Keys == st.files.Keys + {ivName, encName, KeyEntry(key)}
      && |t.files[ivName]| == IV_LENGTH && t.files[ivName] == iv
      && t.symmetric.Some?
      && t.files[encName] == crypto.seal(t.symmetric.value, iv, Utf8.Encode(data))
      && t.files[KeyEntry(key)] == crypto.wrap(pubkey, t.symmetric.value)
      && (st.symmetric.Some? ==> t.symmetric == st.symmetric && t.files[KeyEntry(key)] == st.files[KeyEntry(key)])
      && (st.symmetric.None? ==> t.symmetric == Some(freshKey))
      && forall n | n in st.files && n != ivName && n != encName :: t.files[n] == st.files[n]
  {
    PayloadIsNotKey(key, path);
  }

  /** Without a public key, `add(path, data)` sets exactly `<key>/<path>` to
      the UTF-8 bytes of `data`, which decode back to `data`, and creates no
      content key. */
  lemma AddedPlain(key: string, pubkey: string, crypto: Crypto, st: Contents,
                   path: string, data: string, refs: bool, freshKey: seq<byte>, iv: Iv)
    requires pubkey == ""
    ensures var t := Added(key, pubkey, crypto, st, path, data, refs, freshKey, iv);
      && t.refs == (st.refs || refs)
      && t.symmetric == st.symmetric
      && t.files.Keys == st.files.Keys + {Entry(key, path)}
      && Utf8.Decode(t.files[Entry(key, path)]) == Some(data)
      && forall n | n in st.files && n != Entry(key, path) :: t.files[n] == st.files[n]
  {
    Utf8.DecodeEncode(data);
  }

  /** One call of `add`, with the IV drawn for it. */
  datatype AddCall = AddCall(path: string, data: string, refs: bool, iv: Iv)

  /** The state after a fresh bundler received `calls` in order; `freshKey` is
      the content key the first encrypted `add` generates. */
  function Replay(key: string, pubkey: string, crypto: Crypto, freshKey: seq<byte>, calls: seq<AddCall>): Contents {
    if |calls| == 0 then Contents(false, None, map[])
    else
      var c := calls[|calls| - 1];
      Added(key, pubkey, crypto, Replay(key, pubkey, crypto, freshKey, calls[..|calls| - 1]),
            c.path, c.data, c.refs, freshKey, c.iv)
  }

  /** Every state a bundler reaches is consistent; `refs` is the OR of all
      `refs` arguments so far. */
  lemma {:induction false} ReplaySpec(key: string, pubkey: string, crypto: Crypto, freshKey: seq<byte>, calls: seq<AddCall>)
    ensures Consistent(key, pubkey, crypto, Replay(key, pubkey, crypto, freshKey, calls))
    ensures Replay(key, pubkey, crypto, freshKey, calls).refs <==> exists i :: 0 <= i < |calls| && calls[i].refs
  {
    if |calls| > 0 {
      var init := calls[..|calls| - 1];
      var c := calls[|calls| - 1];
      ReplaySpec(key, pubkey, crypto, freshKey, init);
      AddedConsistent(key, pubkey, crypto, Replay(key, pubkey, crypto, freshKey, init), c.path, c.data, c.refs, freshKey, c.iv);
      if exists i :: 0 <= i < |init| && init[i].refs {
        var i :| 0 <= i < |init| && init[i].refs;
        assert calls[i].refs;
      }
    }
  }

  /** `<key>/<path + suffix>` for every call. */
  function Names(key: string, calls: seq<AddCall>, suffix: string): set<string> {
    set i | 0 <= i < |calls| :: Entry(key, calls[i].path + suffix)
  }

  lemma NamesLast(key: string, calls: seq<AddCall>, suffix: string)
    requires |calls| > 0
    ensures Names(key, calls, suffix)
         == Names(key, calls[..|calls| - 1], suffix) + {Entry(key, calls[|calls| - 1].path + suffix)}
  {
    var init := calls[..|calls| - 1];
    forall x | x in Names(key, calls, suffix)
      ensures x in Names(key, init, suffix) + {Entry(key, calls[|calls| - 1].path + suffix)}
    {
      var i :| 0 <= i < |calls| && x == Entry(key, calls[i].path + suffix);
      if i < |init| {
        assert init[i] == calls[i];
      }
    }
    forall x | x in Names(key, init, suffix) ensures x in Names(key, calls, suffix) {
      var i :| 0 <= i < |init| && x == Entry(key, init[i].path + suffix);
      assert calls[i] == init[i];
    }
  }

  /** Without a public key the entries are exactly `<key>/<path>` for the paths
      added; in particular no `.key` entry appears unless a caller's path names
      one, and there is never a content key. */
  lemma {:induction false} ReplayPlain(key: string, crypto: Crypto, freshKey: seq<byte>, calls: seq<AddCall>)
    ensures Replay(key, "", crypto, freshKey, calls).symmetric.None?
    ensures Replay(key, "", crypto, freshKey, calls).files.Keys == Names(key, calls, "")
  {
    if |calls| > 0 {
      ReplayPlain(key, crypto, freshKey, calls[..|calls| - 1]);
      NamesLast(key, calls, "");
      assert calls[|calls| - 1].path + "" == calls[|calls| - 1].path;
    }
  }

  lemma EntryInjective(key: string, p: string, q: string)
    requires Entry(key, p) == Entry(key, q)
    ensures p == q
  {
    assert p == Entry(key, p)[|key| + 1..];
    assert q == Entry(key, q)[|key| + 1..];
  }

  /** Without a public key each entry holds the UTF-8 bytes of the last text
      added under its path. */
  lemma {:induction false} ReplayPlainData(key: string, crypto: Crypto, freshKey: seq<byte>, calls: seq<AddCall>, i: nat)
    requires i < |calls|
    requires forall j | i < j < |calls| :: calls[j].path != calls[i].path
    ensures Entry(key, calls[i].path) in Replay(key, "", crypto, freshKey, calls).files
    ensures Replay(key, "", crypto, freshKey, calls).files[Entry(key, calls[i].path)] == Utf8.Encode(calls[i].data)
  {
    var init := calls[..|calls| - 1];
    var last := calls[|calls| - 1];
    if i < |calls| - 1 {
      assert init[i] == calls[i];
      assert last.path != calls[i].path;
      if Entry(key, calls[i].path) == Entry(key, last.path) {
        EntryInjective(key, calls[i].path, last.path);
      }
      ReplayPlainData(key, crypto, freshKey, init, i);
    }
  }

  /** With a public key, once anything was added the entries are exactly the
      wrapped key and one `.iv` and one `.enc` per path added; the key entry
      holds the content key generated by the first `add`. */
  lemma {:induction false} ReplayEncrypted(key: string, pubkey: string, crypto: Crypto, freshKey: seq<byte>, calls: seq<AddCall>)
    requires pubkey != "" && |calls| > 0
    ensures Replay(key, pubkey, crypto, freshKey, calls).symmetric == Some(freshKey)
    ensures KeyEntry(key) in Replay(key, pubkey, crypto, freshKey, calls).files
    ensures Replay(key, pubkey, crypto, freshKey, calls).files[KeyEntry(key)] == crypto.wrap(pubkey, freshKey)
    ensures Replay(key, pubkey, crypto, freshKey, calls).files.Keys
         == {KeyEntry(key)} + Names(key, calls, ".iv") + Names(key, calls, ".enc")
  {
    var init := calls[..|calls| - 1];
    var c := calls[|calls| - 1];
    var st := Replay(key, pubkey, crypto, freshKey, init);
    ReplaySpec(key, pubkey, crypto, freshKey, init);
    AddedEncrypted(key, pubkey, crypto, st, c.path, c.data, c.refs, freshKey, c.iv);
    NamesLast(key, calls, ".iv");
    NamesLast(key, calls, ".enc");
    if |init| > 0 {
      ReplayEncrypted(key, pubkey, crypto, freshKey, init);
    } else {
      assert st.files == map[];
    }
  }

  /** With a public key each `.iv` entry holds the IV of the last `add` of
      its path and each `.enc` entry that text sealed under the content key
      of the first `add`. */
  lemma {:induction false} ReplayEncryptedData(key: string, pubkey: string, crypto: Crypto, freshKey: seq<byte>, calls: seq<AddCall>, i: nat)
    requires pubkey != "" && i < |calls|
    requires forall j | i < j < |calls| :: calls[j].path != calls[i].path
    ensures Entry(key, calls[i].path + ".iv") in Replay(key, pubkey, crypto, freshKey, calls).files
    ensures Entry(key, calls[i].path + ".enc") in Replay(key, pubkey, crypto, freshKey, calls).files
    ensures Replay(key, pubkey, crypto, freshKey, calls).files[Entry(key, calls[i].path + ".iv")] == calls[i].iv
    ensures Replay(key, pubkey, crypto, freshKey, calls).files[Entry(key, calls[i].path + ".enc")]
         == crypto.seal(freshKey, calls[i].iv, Utf8.Encode(calls[i].data))
  {
    var init := calls[..|calls| - 1];
    var c := calls[|calls| - 1];
    var st := Replay(key, pubkey, crypto, freshKey, init);
    ReplaySpec(key, pubkey, crypto, freshKey, init);
    AddedEncrypted(key, pubkey, crypto, st, c.path, c.data, c.refs, freshKey, c.iv);
    if |init| > 0 {
      ReplayEncrypted(key, pubkey, crypto, freshKey, init);
    }
    if i < |calls| - 1 {
      var p := calls[i].path;
      assert init[i] == calls[i];
      ReplayEncryptedData(key, pubkey, crypto, freshKey, init, i);
      PayloadNamesDiffer(key, p, c.path);
    }
  }

  lemma EntryDistinct(key: string, x: string, y: string)
    requires x != y
    ensures Entry(key, x) != Entry(key, y)
  {
    assert Entry(key, x)[|key| + 1..] == x;
    assert Entry(key, y)[|key| + 1..] == y;
  }

  /** The payload entries of two different paths are four different names. */
  lemma PayloadNamesDiffer(key: string, p: string, q: string)
    requires p != q
    ensures Entry(key, p + ".iv") != Entry(key, q + ".iv") && Entry(key, p + ".iv") != Entry(key, q + ".enc")
    ensures Entry(key, p + ".enc") != Entry(key, q + ".iv") && Entry(key, p + ".enc") != Entry(key, q + ".enc")
  {
    assert (p + ".iv")[..|p|] == p && (q + ".iv")[..|q|] == q;
    assert (p + ".enc")[..|p|] == p && (q + ".enc")[..|q|] == q;
    EntryDistinct(key, p + ".iv", q + ".iv");
    EntryDistinct(key, p + ".enc", q + ".enc");
    var a, b := Entry(key, p + ".iv"), Entry(key, q + ".enc");
    assert a[|a| - 1] == 'v' && b[|b| - 1] == 'c';
    var c, d := Entry(key, p + ".enc"), Entry(key, q + ".iv");
    assert c[|c| - 1] == 'c' && d[|d| - 1] == 'v';
  }

  /** `Bundler`: a random object key, the public key (empty for a plain log),
      and the entries it has been given. */
  class Bundler {
    const key: string
    const pubkey: string
    const crypto: Crypto
    var refs: bool
    var symmetric: Option<seq<byte>>
    var files: Container

    function State(): Contents
      reads this
    {
      Contents(refs, symmetric, files)
    }

    ghost predicate Valid()
      reads this
    {
      Consistent(key, pubkey, crypto, State())
    }

    /** `new Bundler(pubkey)`; `objectKey` is what `generateObjectKey` returned. */
    constructor(objectKey: string, pubkey: string, crypto: Crypto)
      ensures key == objectKey && this.pubkey == pubkey && this.crypto == crypto
      ensures State() == Contents(false, None, map[])
      ensures Valid()
    {
      key := objectKey;
      this.pubkey := pubkey;
      this.crypto := crypto;
      refs := false;
      symmetric := None;
      files := map[];
    }

    /** `add(path, data, refs)`. */
    method Add(path: string, data: string, refs: bool, freshKey: seq<byte>, iv: Iv)
      requires Valid()
      modifies this
      ensures Valid()
      ensures State() == Added(key, pubkey, crypto, old(State()), path, data, refs, freshKey, iv)
    {
      AddedConsistent(key, pubkey, crypto, State(), path, data, refs, freshKey, iv);
      this.refs := this.refs || refs;
      var encoded := Utf8.Encode(data);
      if pubkey != "" {
        if symmetric.None? {
          symmetric := Some(freshKey);
          files := files[KeyEntry(key) := crypto.wrap(pubkey, freshKey)];
        }
        var sealed := crypto.seal(symmetric.value, iv, encoded);
        files := files[Entry(key, path + ".iv") := iv];
        files := files[Entry(key, path + ".enc") := sealed];
      } else {
        files := files[Entry(key, path) := encoded];
      }
    }

    /** The `name` getter: the upload's file name, from which the key reads back. */
    function Name(): (r: string)
      reads this
      ensures EndsWith(r, ".zip") && r[..|r| - 4] == key
    {
      key + ".zip"
    }

    /** `id(remote)`. */
    function Id(remote: string): string
      reads this
    {
      LogId.Format(key, remote, refs, pubkey != "")
    }

    /** The `zip` getter, with the ZIP encoder as a parameter. */
    function Zip(encode: Container -> seq<byte>): seq<byte>
      reads this
    {
      encode(files)
    }
  }

  /** For an alphanumeric key, the ID a bundler builds around `0x0-R` parses
      back to its key, host `0x0`, remote `R`, and is encrypted exactly when the
      bundler has a public key. */
  lemma IdRoundTrip(b: Bundler, r: string)
    requires |b.key| > 0 && AllAlnum(b.key)
    requires |r| > 0 && AllAlnum(r)
    ensures LogId.Parse(b.Id("0x0-" + r)) == Some(LogId.Parts(b.key, "0x0", r, LogId.Tags(b.refs, b.pubkey != "")))
    ensures LogId.Encrypted(LogId.Parse(b.Id("0x0-" + r)).value.tags) == (b.pubkey != "")
  {
    LogId.RoundTrip(b.key, r, b.refs, b.pubkey != "");
  }
}
