/** The debug-log ID: written by `Bundler.id` (debug-log.ts:73-75) and read back
    by the regex of bin/fetch-log.ts:46. One definition serves both sides. */
module LogId {
  import opened Base
  import opened Strings

  /** The tag suffix: `.refs` before `.enc`, each only when its flag is set. */
  function Tags(refs: bool, enc: bool): string {
    (if refs then ".refs" else "") + (if enc then ".enc" else "")
  }

  /** `key-remote[.refs][.enc]`. */
  function Format(key: string, remote: string, refs: bool, enc: bool): string {
    key + "-" + remote + Tags(refs, enc)
  }

  /** The named groups of `^(?<key>[a-z0-9]+)-(?<host>[^-]+)-(?<remote>[^.]+)(?<tags>.*)$`. */
  datatype Parts = Parts(key: string, host: string, remote: string, tags: string)

  /** The regex match of bin/fetch-log.ts:46, with JavaScript's backtracking
      resolved: `key` and `host` are maximal runs and so is `remote`; `.*`
      cannot cross a line terminator because `$` is not multi-line. */
  function Parse(id: string): Option<Parts> {
    var k := AlnumEnd(id, 0);
    if k == 0 || k == |id| || id[k] != '-' then None
    else
      var h := FindFrom(id, k + 1, '-');
      if h == k + 1 || h == |id| then None
      else
        var r := FindFrom(id, h + 1, '.');
        if r == h + 1 || exists j :: r <= j < |id| && IsLineTerminator(id[j]) then None
        else Some(Parts(id[..k], id[k + 1..h], id[h + 1..r], id[r..]))
  }

  /** A split of `id` that the regex accepts, groups not necessarily maximal. */
  predicate Decomposes(id: string, p: Parts) {
    && id == p.key + "-" + p.host + "-" + p.remote + p.tags
    && |p.key| > 0 && AllAlnum(p.key)
    && |p.host| > 0 && '-' !in p.host
    && |p.remote| > 0 && '.' !in p.remote
    && NoLineTerminator(p.tags)
  }

  /** What `Parse` returns: a decomposition whose `remote` is greedy. */
  predicate Grammar(id: string, p: Parts) {
    Decomposes(id, p) && (p.tags == "" || p.tags[0] == '.')
  }

  lemma Pieces(id: string, k: nat, h: nat, r: nat)
    requires k < h < r <= |id| && id[k] == '-' && id[h] == '-'
    ensures id == id[..k] + "-" + id[k + 1..h] + "-" + id[h + 1..r] + id[r..]
  {
    assert id == id[..k] + [id[k]] + id[k + 1..h] + [id[h]] + id[h + 1..r] + id[r..];
  }

  lemma ParseSound(id: string)
    ensures Parse(id).Some? ==> Grammar(id, Parse(id).value)
  {
    if Parse(id).Some? {
      var k, h, r := ParsedAt(id);
      GrammarAt(id, k, h, r);
    }
  }

  /** Cuts at a maximal alphanumeric key, a host up to the next `-` and a
      remote up to the next `.` give the groups the grammar asks for. */
  lemma GrammarAt(id: string, k: nat, h: nat, r: nat)
    requires 0 < k && k + 1 < h && h + 1 < r <= |id| && id[k] == '-' && id[h] == '-'
    requires forall j :: 0 <= j < k ==> IsAsciiAlnum(id[j])
    requires forall j :: k < j < h ==> id[j] != '-'
    requires forall j :: h < j < r ==> id[j] != '.'
    requires r < |id| ==> id[r] == '.'
    requires forall j :: r <= j < |id| ==> !IsLineTerminator(id[j])
    ensures Grammar(id, Parts(id[..k], id[k + 1..h], id[h + 1..r], id[r..]))
  {
    var p := Parts(id[..k], id[k + 1..h], id[h + 1..r], id[r..]);
    Pieces(id, k, h, r);
    assert '-' !in p.host by {
      forall j | 0 <= j < |p.host| ensures p.host[j] != '-' { assert p.host[j] == id[k + 1 + j]; }
    }
    assert '.' !in p.remote by {
      forall j | 0 <= j < |p.remote| ensures p.remote[j] != '.' { assert p.remote[j] == id[h + 1 + j]; }
    }
    forall j | 0 <= j < |p.tags| ensures !IsLineTerminator(p.tags[j]) { assert p.tags[j] == id[r + j]; }
  }

  /** The cut positions of a match. */
  lemma ParsedAt(id: string) returns (k: nat, h: nat, r: nat)
    requires Parse(id).Some?
    ensures k == AlnumEnd(id, 0) && 0 < k < h < r <= |id| && id[k] == '-' && id[h] == '-'
    ensures h == FindFrom(id, k + 1, '-') && r == FindFrom(id, h + 1, '.') && h > k + 1 && r > h + 1
    ensures forall j :: r <= j < |id| ==> !IsLineTerminator(id[j])
    ensures Parse(id) == Some(Parts(id[..k], id[k + 1..h], id[h + 1..r], id[r..]))
  {
    k := AlnumEnd(id, 0);
    h := FindFrom(id, k + 1, '-');
    r := FindFrom(id, h + 1, '.');
  }

  /** The positions at which a decomposition cuts `id`. */
  lemma DecomposesCuts(id: string, q: Parts)
    requires Decomposes(id, q)
    ensures AlnumEnd(id, 0) == |q.key|
    ensures id[|q.key|] == '-' && id[|q.key| + 1 + |q.host|] == '-'
    ensures FindFrom(id, |q.key| + 1, '-') == |q.key| + 1 + |q.host|
    ensures FindFrom(id, |q.key| + 2 + |q.host|, '.') >= |q.key| + 2 + |q.host| + |q.remote|
    ensures id[..|q.key|] == q.key && id[|q.key| + 1..|q.key| + 1 + |q.host|] == q.host
    ensures id[|q.key| + 2 + |q.host|..] == q.remote + q.tags
  {
    var k := |q.key|;
    var h := k + 1 + |q.host|;
    var r0 := h + 1 + |q.remote|;
    DecomposesSlices(id, q);
    forall j | 0 <= j < k ensures IsAsciiAlnum(id[j]) { assert id[j] == id[..k][j]; }
    AlnumEndIs(id, 0, k);
    forall j | k + 1 <= j < h ensures id[j] != '-' { assert id[j] == id[k + 1..h][j - k - 1]; }
    FindFromIs(id, k + 1, '-', h);
    forall j | h + 1 <= j < r0 ensures id[j] != '.' { assert id[j] == id[h + 1..r0][j - h - 1]; }
    FindFromAtLeast(id, h + 1, '.', r0);
  }

  /** The slices of a decomposed identifier are its parts. */
  lemma DecomposesSlices(id: string, q: Parts)
    requires id == q.key + "-" + q.host + "-" + q.remote + q.tags
    ensures var k := |q.key|; var h := k + 1 + |q.host|;
      && id[..k] == q.key && id[k] == '-' && id[k + 1..h] == q.host && id[h] == '-'
      && id[h + 1..h + 1 + |q.remote|] == q.remote && id[h + 1..] == q.remote + q.tags
  {
  }

  /** `Parse` from the cut positions alone. */
  lemma ParseAt(id: string, k: nat, h: nat, r: nat)
    requires k < h < r <= |id|
    requires AlnumEnd(id, 0) == k && k > 0 && id[k] == '-'
    requires FindFrom(id, k + 1, '-') == h && h > k + 1
    requires FindFrom(id, h + 1, '.') == r && r > h + 1
    requires forall j :: r <= j < |id| ==> !IsLineTerminator(id[j])
    ensures Parse(id) == Some(Parts(id[..k], id[k + 1..h], id[h + 1..r], id[r..]))
    ensures id[h + 1..r] + id[r..] == id[h + 1..]
  {
    SliceSplit(id, h + 1, r);
  }

  /** Any split the regex accepts yields a match with the same key and host,
      the greedy remote extending the given one. */
  lemma ParseComplete(id: string, q: Parts)
    requires Decomposes(id, q)
    ensures Parse(id).Some?
    ensures Parse(id).value.key == q.key && Parse(id).value.host == q.host
    ensures StartsWith(Parse(id).value.remote, q.remote)
    ensures Parse(id).value.remote + Parse(id).value.tags == q.remote + q.tags
  {
    DecomposesCuts(id, q);
    var k := |q.key|;
    var h := k + 1 + |q.host|;
    var r := FindFrom(id, h + 1, '.');
    TailAfter(id, q, h, r);
    ParseAt(id, k, h, r);
  }

  /** A tail free of line terminators leaves the positions it covers free of
      them. */
  lemma TailClean(id: string, tail: string, r: nat)
    requires r <= |id| && id[r..] == tail && NoLineTerminator(tail)
    ensures forall j :: r <= j < |id| ==> !IsLineTerminator(id[j])
  {
    forall j | r <= j < |id| ensures !IsLineTerminator(id[j]) {
      assert id[j] == tail[j - r];
    }
  }

  /** A split in the grammar is the one the regex finds. */
  lemma ParseExact(id: string, q: Parts)
    requires Grammar(id, q)
    ensures Parse(id) == Some(q)
  {
    DecomposesCuts(id, q);
    var k := |q.key|;
    var h := k + 1 + |q.host|;
    var r := h + 1 + |q.remote|;
    GreedyRemote(id, q, h);
    TailClean(id, q.tags, r);
    ParseAt(id, k, h, r);
    assert Parts(id[..k], id[k + 1..h], id[h + 1..r], id[r..]) == q;
  }

  /** Past a remote at least as long as the given one the rest holds no
      line terminator, and the remote found starts with the given one. */
  lemma TailAfter(id: string, q: Parts, h: nat, r: nat)
    requires h < |id| && id[h + 1..] == q.remote + q.tags && h + 1 + |q.remote| <= r <= |id|
    requires NoLineTerminator(q.tags)
    ensures forall j :: r <= j < |id| ==> !IsLineTerminator(id[j])
    ensures StartsWith(id[h + 1..r], q.remote) && id[h + 1..r] + id[r..] == q.remote + q.tags
  {
    var tail := id[h + 1..];
    var r0 := h + 1 + |q.remote|;
    forall j | r <= j < |id| ensures !IsLineTerminator(id[j]) {
      assert id[j] == tail[j - h - 1] == q.tags[j - r0];
    }
    var remote := id[h + 1..r];
    assert remote + id[r..] == tail;
    assert remote[..|q.remote|] == q.remote by {
      assert remote[..|q.remote|] == tail[..|q.remote|];
    }
  }

  /** When the given tags are empty or start with `.`, the remote ends
      where the given one does. */
  lemma GreedyRemote(id: string, q: Parts, h: nat)
    requires h < |id| && id[h + 1..] == q.remote + q.tags && '.' !in q.remote
    requires q.tags == "" || q.tags[0] == '.'
    ensures FindFrom(id, h + 1, '.') == h + 1 + |q.remote|
    ensures id[h + 1 + |q.remote|..] == q.tags && id[h + 1..h + 1 + |q.remote|] == q.remote
  {
    var tail := id[h + 1..];
    var r0 := h + 1 + |q.remote|;
    forall j | h + 1 <= j < r0 ensures id[j] != '.' {
      assert id[j] == tail[j - h - 1] == q.remote[j - h - 1];
    }
    if q.tags != "" {
      assert id[r0] == tail[r0 - h - 1] == q.tags[0];
    }
    FindFromIs(id, h + 1, '.', r0);
    assert id[r0..] == tail[|q.remote|..];
    assert id[h + 1..r0] == tail[..|q.remote|];
  }

  /** `m.groups.tags.split('.').includes('enc')` (bin/fetch-log.ts:51). */
  predicate Encrypted(tags: string) {
    "enc" in Split(tags, '.')
  }

  /** The producer's ID reads back as it was written: the key, the host `0x0`,
      the remote reference, and the `enc` tag exactly when a public key was used. */
  lemma RoundTrip(key: string, remote: string, refs: bool, enc: bool)
    requires |key| > 0 && AllAlnum(key)
    requires |remote| > 0 && AllAlnum(remote)
    ensures Parse(Format(key, "0x0-" + remote, refs, enc)) == Some(Parts(key, "0x0", remote, Tags(refs, enc)))
    ensures Encrypted(Tags(refs, enc)) == enc
  {
    var id := Format(key, "0x0-" + remote, refs, enc);
    var p := Parts(key, "0x0", remote, Tags(refs, enc));
    assert id == p.key + "-" + p.host + "-" + p.remote + p.tags;
    forall i | 0 <= i < |remote| ensures remote[i] != '.' {
      assert IsAsciiAlnum(remote[i]);
    }
    ParseExact(id, p);
    TagsSplit(refs, enc);
  }

  lemma TagsSplit(refs: bool, enc: bool)
    ensures Encrypted(Tags(refs, enc)) == enc
  {
    var t := Tags(refs, enc);
    var parts: seq<string>;
    if refs && enc {
      parts := ["", "refs", "enc"];
      JoinTwo("", ["refs", "enc"]);
      JoinTwo("refs", ["enc"]);
    } else if refs {
      parts := ["", "refs"];
      JoinTwo("", ["refs"]);
    } else if enc {
      parts := ["", "enc"];
      JoinTwo("", ["enc"]);
    } else {
      parts := [""];
    }
    assert Join(parts, ".") == t;
    SplitJoin(parts, '.');
  }

  /** Joining a head onto a non-empty rest puts one `.` between them. */
  lemma JoinTwo(head: string, rest: seq<string>)
    requires |rest| > 0
    ensures Join([head] + rest, ".") == head + "." + Join(rest, ".")
  {
    assert ([head] + rest)[1..] == rest;
  }

  /** The example identifier of the protocol's description. */
  lemma ExampleId()
    ensures Parse("abc123-0x0-XYZ.enc") == Some(Parts("abc123", "0x0", "XYZ", ".enc"))
    ensures Encrypted(".enc")
  {
    assert "abc123-0x0-XYZ.enc" == Format("abc123", "0x0-" + "XYZ", false, true);
    RoundTrip("abc123", "XYZ", false, true);
  }
}
