/** Insertion-ordered dictionaries with string keys: a JavaScript object
    (`Record<string, T>`, no key that looks like an array index) or a Python
    `dict`. Assigning to a present key keeps its position. */
module Records {
  import opened Base

  type Record<V> = seq<(string, V)>

  function Keys<V>(r: Record<V>): (ks: seq<string>)
    ensures |ks| == |r|
    ensures forall i :: 0 <= i < |r| ==> ks[i] == r[i].0
  {
    seq(|r|, i requires 0 <= i < |r| => r[i].0)
  }

  predicate UniqueKeys<V>(r: Record<V>) {
    forall i, j :: 0 <= i < j < |r| ==> r[i].0 != r[j].0
  }

  /** The position of `k`, searching from `from`. */
  function Position<V>(r: Record<V>, k: string, from: nat): (o: Option<nat>)
    requires from <= |r|
    ensures o.Some? ==> from <= o.value < |r| && r[o.value].0 == k
    ensures o.Some? ==> forall i :: from <= i < o.value ==> r[i].0 != k
    ensures o.None? ==> forall i :: from <= i < |r| ==> r[i].0 != k
    decreases |r| - from
  {
    if from == |r| then None
    else if r[from].0 == k then Some(from)
    else Position(r, k, from + 1)
  }

  /** `obj[k]` / `d.get(k)`. */
  function Lookup<V>(r: Record<V>, k: string): (o: Option<V>)
    ensures o.Some? <==> k in Keys(r)
  {
    match Position(r, k, 0)
    case None => None
    case Some(i) => Some(r[i].1)
  }

  /** `obj[k] = v` / `d[k] = v`. */
  function Put<V>(r: Record<V>, k: string, v: V): (t: Record<V>)
    ensures |t| == |r| + (if k in Keys(r) then 0 else 1)
  {
    match Position(r, k, 0)
    case None => r + [(k, v)]
    case Some(i) => r[i := (k, v)]
  }

  /** Assignment keeps keys unique, makes `k` read back as `v`, leaves every
      other key's value alone and keeps the order of the keys already there. */
  lemma PutSpec<V>(r: Record<V>, k: string, v: V)
    requires UniqueKeys(r)
    ensures UniqueKeys(Put(r, k, v))
    ensures Lookup(Put(r, k, v), k) == Some(v)
    ensures forall k' :: k' != k ==> Lookup(Put(r, k, v), k') == Lookup(r, k')
    ensures Keys(r) == Keys(Put(r, k, v))[..|r|]
    ensures k !in Keys(r) ==> Keys(Put(r, k, v)) == Keys(r) + [k]
  {
    var t := Put(r, k, v);
    forall k' | k' != k ensures Lookup(t, k') == Lookup(r, k') {
      LookupAgrees(r, k, v, k');
    }
    match Position(r, k, 0)
    case None =>
      PositionIs(t, k, 0, |r|);
    case Some(i) =>
      PositionIs(t, k, 0, i);
  }

  lemma {:induction false} PositionIs<V>(r: Record<V>, k: string, from: nat, i: nat)
    requires from <= i < |r| && r[i].0 == k
    requires forall j :: from <= j < i ==> r[j].0 != k
    ensures Position(r, k, from) == Some(i)
    decreases i - from
  {
    if from < i {
      PositionIs(r, k, from + 1, i);
    }
  }

  lemma {:induction false} PositionAbsent<V>(r: Record<V>, k: string, from: nat)
    requires from <= |r|
    requires forall j :: from <= j < |r| ==> r[j].0 != k
    ensures Position(r, k, from) == None
    decreases |r| - from
  {
    if from < |r| {
      PositionAbsent(r, k, from + 1);
    }
  }

  /** Assigning to `k` does not change what another key reads. */
  lemma LookupAgrees<V>(r: Record<V>, k: string, v: V, k': string)
    requires k != k'
    ensures Lookup(Put(r, k, v), k') == Lookup(r, k')
  {
    var t := Put(r, k, v);
    match Position(r, k', 0) {
      case None =>
        forall j | 0 <= j < |t| ensures t[j].0 != k' {
          if j < |r| { assert t[j].0 == r[j].0 || t[j].0 == k; }
        }
        PositionAbsent(t, k', 0);
      case Some(i) =>
        assert t[i] == r[i];
        PositionIs(t, k', 0, i);
    }
  }

  /** Lookup in the front of a record whose last key is another. */
  lemma LookupFront<V>(r: Record<V>, k: string)
    requires |r| > 0 && r[|r| - 1].0 != k
    ensures Lookup(r, k) == Lookup(r[..|r| - 1], k)
  {
    var f := r[..|r| - 1];
    match Position(f, k, 0) {
      case None =>
        PositionAbsent(r, k, 0);
      case Some(i) =>
        PositionIs(r, k, 0, i);
    }
  }

  /** Assign each entry in turn: `Object.assign(r, entries)`, a spread
      `{...r, ...entries}` or `d.update(entries)`. */
  function PutAll<V>(r: Record<V>, entries: Record<V>): Record<V> {
    if |entries| == 0 then r
    else
      var last := entries[|entries| - 1];
      Put(PutAll(r, entries[..|entries| - 1]), last.0, last.1)
  }

  /** Assigning distinct keys in turn: they read back as assigned, every
      other key as before, and the keys already there keep their places. */
  lemma {:induction false} PutAllSpec<V>(r: Record<V>, entries: Record<V>)
    requires UniqueKeys(r) && UniqueKeys(entries)
    ensures UniqueKeys(PutAll(r, entries))
    ensures forall k :: k in Keys(entries) ==> Lookup(PutAll(r, entries), k) == Lookup(entries, k)
    ensures forall k :: k !in Keys(entries) ==> Lookup(PutAll(r, entries), k) == Lookup(r, k)
    ensures |r| <= |PutAll(r, entries)| && Keys(PutAll(r, entries))[..|r|] == Keys(r)
  {
    if |entries| > 0 {
      var front := entries[..|entries| - 1];
      var last := entries[|entries| - 1];
      var p := PutAll(r, front);
      PutAllSpec(r, front);
      PutSpec(p, last.0, last.1);
      assert Keys(entries) == Keys(front) + [last.0];
      forall k | k in Keys(entries)
        ensures Lookup(PutAll(r, entries), k) == Lookup(entries, k)
      {
        if k == last.0 {
          PositionIs(entries, k, 0, |entries| - 1);
        } else {
          LookupFront(entries, k);
        }
      }
      forall k | k !in Keys(entries)
        ensures Lookup(PutAll(r, entries), k) == Lookup(r, k)
      {
      }
      assert Keys(PutAll(r, entries))[..|p|] == Keys(p);
      assert Keys(PutAll(r, entries))[..|r|] == Keys(p)[..|r|];
    }
  }

  /** An assigned key reads back as assigned and no other key changes,
      whatever the record: the first entry for a key is the one read. */
  lemma PutReads<V>(r: Record<V>, k: string, v: V, k': string)
    ensures Lookup(Put(r, k, v), k') == if k' == k then Some(v) else Lookup(r, k')
  {
    if k' == k {
      match Position(r, k, 0)
      case None =>
        PositionIs(r + [(k, v)], k, 0, |r|);
      case Some(i) =>
        PositionIs(r[i := (k, v)], k, 0, i);
    } else {
      LookupAgrees(r, k, v, k');
    }
  }

  /** Assigning entries with distinct keys in turn: each of their keys reads
      as in the entries, every other key as before. */
  lemma {:induction false} PutAllReads<V>(r: Record<V>, entries: Record<V>, k: string)
    requires UniqueKeys(entries)
    ensures Lookup(PutAll(r, entries), k) == if k in Keys(entries) then Lookup(entries, k) else Lookup(r, k)
  {
    if |entries| > 0 {
      var front := entries[..|entries| - 1];
      var last := entries[|entries| - 1];
      PutAllReads(r, front, k);
      PutReads(PutAll(r, front), last.0, last.1, k);
      assert Keys(entries) == Keys(front) + [last.0];
      if k == last.0 {
        PositionIs(entries, k, 0, |entries| - 1);
      } else {
        LookupFront(entries, k);
      }
    }
  }

  /** A second assignment to the same key overrides the first in place. */
  lemma PutTwice<V>(r: Record<V>, k: string, v: V, w: V)
    ensures Put(Put(r, k, v), k, w) == Put(r, k, w)
  {
    match Position(r, k, 0)
    case None =>
      PositionIs(r + [(k, v)], k, 0, |r|);
    case Some(i) =>
      PositionIs(r[i := (k, v)], k, 0, i);
  }
}
