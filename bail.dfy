/** `plugin/bail.ts`: once a build is done, every warning becomes an error. */
module Bail {
  import opened Base

  /** `s` back to front. */
  function Reverse<T>(s: seq<T>): (r: seq<T>)
    ensures |r| == |s|
    ensures forall i :: 0 <= i < |s| ==> r[i] == s[|s| - 1 - i]
  {
    if |s| == 0 then [] else Reverse(s[1..]) + [s[0]]
  }

  lemma {:induction false} ReverseMultiset<T>(s: seq<T>)
    ensures multiset(Reverse(s)) == multiset(s)
  {
    if |s| > 0 {
      ReverseMultiset(s[1..]);
      assert s == [s[0]] + s[1..];
    }
  }

  lemma {:induction false} ReverseReverse<T>(s: seq<T>)
    ensures Reverse(Reverse(s)) == s
  {
    var r := Reverse(Reverse(s));
    assert |r| == |s|;
    forall i | 0 <= i < |s| ensures r[i] == s[i] {
      assert Reverse(s)[|s| - 1 - i] == s[i];
    }
  }

  /** The diagnostics of one compilation, as the hook sees them. */
  class Compilation<T> {
    var warnings: seq<T>
    var errors: seq<T>

    constructor (warnings: seq<T>, errors: seq<T>)
      ensures this.warnings == warnings && this.errors == errors
    {
      this.warnings := warnings;
      this.errors := errors;
    }

    /** The `done` hook: pop the last warning and push it onto the errors
        until no warning is left. */
    method Bail()
      modifies this
      ensures warnings == []
      ensures errors == old(errors) + Reverse(old(warnings))
    {
      while |warnings| > 0
        invariant warnings == old(warnings)[..|warnings|]
        invariant errors == old(errors) + Reverse(old(warnings)[|warnings|..])
        decreases |warnings|
      {
        var n := |warnings|;
        var w := warnings[n - 1];
        assert old(warnings)[n - 1..][1..] == old(warnings)[n..];
        warnings := warnings[..n - 1];
        errors := errors + [w];
      }
      assert old(warnings)[0..] == old(warnings);
    }
  }

  /** What the hook's result promises: the errors hold the old errors as an
      unchanged prefix, then exactly the warnings, last one first; nothing is
      lost or duplicated. */
  lemma Transferred<T>(errors: seq<T>, warnings: seq<T>)
    ensures var after := errors + Reverse(warnings);
      && |after| == |errors| + |warnings|
      && after[..|errors|] == errors
      && Reverse(after[|errors|..]) == warnings
      && multiset(after) == multiset(errors) + multiset(warnings)
  {
    var after := errors + Reverse(warnings);
    assert after[|errors|..] == Reverse(warnings);
    ReverseReverse(warnings);
    ReverseMultiset(warnings);
  }

  /** The name the plugin taps the compiler's `done` hook under. */
  const PLUGIN := "BailPlugin"
  /** The parameter the plugin needs and, as written, never receives. */
  const COMPILER := "compiler"
  const REFERENCE_ERROR := "ReferenceError"

  /** A build's `done` hook run over its taps, in order, on the errors and
      warnings: a `BailPlugin` tap moves the warnings onto the errors, last
      one first, as `Compilation.Bail` does; other taps are not part of this
      model and change nothing here. */
  function Done<T>(taps: seq<string>, errors: seq<T>, warnings: seq<T>): (r: (seq<T>, seq<T>))
    ensures PLUGIN !in taps ==> r == (errors, warnings)
    ensures |r.0| + |r.1| == |errors| + |warnings|
  {
    if taps == [] then (errors, warnings)
    else if taps[0] == PLUGIN then Done(taps[1..], errors + Reverse(warnings), [])
    else Done(taps[1..], errors, warnings)
  }

  /** `BailPlugin()` as written: it names `compiler`, which it neither takes
      as a parameter nor finds among the names `globals` bound around it, so
      the call throws a ReferenceError before tapping anything. Only where
      something else binds `compiler` does it tap. */
  function AsWrittenBailPlugin(globals: set<string>, taps: seq<string>): (r: Result<seq<string>, string>)
    ensures r.Err? <==> COMPILER !in globals
    ensures r.Err? ==> r.error == REFERENCE_ERROR
    ensures r.Ok? ==> r.value == taps + [PLUGIN]
  {
    if COMPILER !in globals then Err(REFERENCE_ERROR) else Ok(taps + [PLUGIN])
  }

  /** In a build that binds no `compiler` of its own, installing the plugin
      fails: for a build with one warning `w`, the configuration throws
      instead of turning `w` into an error. */
  lemma AsWrittenNeverTaps(w: string)
    ensures AsWrittenBailPlugin({}, []) == Err(REFERENCE_ERROR)
    ensures Done([], [], [w]) == ([], [w])
  {
  }

  /** The plugin as evidently intended, a webpack `apply(compiler)` that
      taps the `done` hook of the compiler it is given. */
  function Apply(taps: seq<string>): (r: seq<string>)
    ensures |r| == |taps| + 1 && r[..|taps|] == taps && r[|taps|] == PLUGIN
  {
    taps + [PLUGIN]
  }

  /** Once applied, the build's `done` hook leaves no warning; applied to a
      build without the plugin, it appends exactly the old warnings, last
      one first, to the old errors. */
  lemma {:induction false} AppliedBails<T>(taps: seq<string>, errors: seq<T>, warnings: seq<T>)
    ensures Done(Apply(taps), errors, warnings).1 == []
    ensures PLUGIN !in taps ==> Done(Apply(taps), errors, warnings) == (errors + Reverse(warnings), [])
  {
    if taps == [] {
      assert Apply(taps) == [PLUGIN];
      assert Apply(taps)[1..] == [];
    } else {
      assert Apply(taps)[1..] == Apply(taps[1..]);
      if taps[0] == PLUGIN {
        AppliedBails(taps[1..], errors + Reverse(warnings), []);
      } else {
        AppliedBails(taps[1..], errors, warnings);
      }
    }
  }
}
