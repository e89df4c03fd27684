/** `bin/find-root.ts`: the project directory is the shortest ancestor of the
    working directory, its own segments included, that holds a
    `package.json`. */
module FindRoot {
  import opened Strings

  /** `path.join(dir, 'package.json')` for a directory built from segments
      of the working directory: an empty directory joins to the bare name.
      The other normalisations of `path.join` are not part of this model. */
  function PackageJson(dir: string, sep: char): string {
    if dir == "" then "package.json" else dir + [sep] + "package.json"
  }

  /** The directory made of the first `n` segments. */
  function Ancestor(folders: seq<string>, sep: char, n: nat): string
    requires n <= |folders|
  {
    Join(folders[..n], [sep])
  }

  /** Whether the ancestor ending with segment `i` holds a `package.json`. */
  predicate HasPackage(folders: seq<string>, sep: char, fileExists: string -> bool, i: nat)
    requires i < |folders|
  {
    fileExists(PackageJson(Ancestor(folders, sep, i + 1), sep))
  }

  /** `folders.findIndex(...)` from index `from` on. */
  function FindIndexFrom(folders: seq<string>, sep: char, fileExists: string -> bool, from: nat): (r: int)
    requires from <= |folders|
    ensures r == -1 <==> forall i :: from <= i < |folders| ==> !HasPackage(folders, sep, fileExists, i)
    ensures r != -1 ==> from <= r < |folders| && HasPackage(folders, sep, fileExists, r)
    ensures r != -1 ==> forall i :: from <= i < r ==> !HasPackage(folders, sep, fileExists, i)
    decreases |folders| - from
  {
    if from == |folders| then -1
    else if HasPackage(folders, sep, fileExists, from) then from
    else FindIndexFrom(folders, sep, fileExists, from + 1)
  }

  /** `rootIndex`, line 5. */
  function RootIndex(cwd: string, sep: char, fileExists: string -> bool): int {
    FindIndexFrom(Split(cwd, sep), sep, fileExists, 0)
  }

  /** `root`, line 6. */
  function Root(cwd: string, sep: char, fileExists: string -> bool): string {
    var folders := Split(cwd, sep);
    var i := RootIndex(cwd, sep, fileExists);
    if i > 0 then Ancestor(folders, sep, i + 1) else Join(folders, [sep])
  }

  /** The file `pkg` is read from, line 9. */
  function PkgFile(cwd: string, sep: char, fileExists: string -> bool): string {
    PackageJson(Root(cwd, sep, fileExists), sep)
  }

  /** The first `n` segments joined are a prefix of all of them joined. */
  lemma {:induction false} AncestorPrefix(folders: seq<string>, sep: char, n: nat)
    requires 0 < n <= |folders|
    ensures StartsWith(Join(folders, [sep]), Ancestor(folders, sep, n))
  {
    if n < |folders| {
      if n == 1 {
        assert Ancestor(folders, sep, 1) == folders[0];
      } else {
        AncestorPrefix(folders[1..], sep, n - 1);
        assert folders[..n][1..] == folders[1..][..n - 1];
        assert Ancestor(folders, sep, n) == folders[0] + [sep] + Ancestor(folders[1..], sep, n - 1);
      }
    } else {
      assert folders[..n] == folders;
    }
  }

  /** What the two lines promise. The index is -1 exactly when no ancestor
      holds a `package.json`, and otherwise names the shortest one that
      does. The root is always a prefix of the working directory; past the
      first segment it is that shortest ancestor, whose `package.json` is
      then the one read, and otherwise it is the working directory itself. */
  lemma RootSpec(cwd: string, sep: char, fileExists: string -> bool)
    ensures var folders := Split(cwd, sep);
      var i := RootIndex(cwd, sep, fileExists);
      && (i == -1 <==> forall j :: 0 <= j < |folders| ==> !HasPackage(folders, sep, fileExists, j))
      && (i != -1 ==> 0 <= i < |folders| && HasPackage(folders, sep, fileExists, i)
                      && forall j :: 0 <= j < i ==> !HasPackage(folders, sep, fileExists, j))
    ensures StartsWith(cwd, Root(cwd, sep, fileExists))
    ensures RootIndex(cwd, sep, fileExists) > 0 ==>
      fileExists(PkgFile(cwd, sep, fileExists))
    ensures RootIndex(cwd, sep, fileExists) <= 0 ==> Root(cwd, sep, fileExists) == cwd
  {
    var folders := Split(cwd, sep);
    JoinSplit(cwd, sep);
    var i := RootIndex(cwd, sep, fileExists);
    if i > 0 {
      AncestorPrefix(folders, sep, i + 1);
    }
  }
}
