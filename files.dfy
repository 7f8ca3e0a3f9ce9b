/**
 * The directory tree the commands read and write, as a map from absolute,
 * cleaned paths (sequences of names below the root) to entries; the root
 * itself is never an entry. `Walk` gives `filepath.Walk`'s visiting order.
 */
module Files {
  import opened Wrappers
  import Text
  import opened Model

  type Path = seq<string>

  datatype Entry = Dir | File(content: Content)

  datatype FsError = NotADirectory(path: Path) | IsADirectory(path: Path) | NotExist(path: Path)

  /** The parent directory of a path; the root is its own parent, as with
      `filepath.Join(dir, "..")` on "/". */
  function Parent(p: Path): (r: Path)
    ensures |p| > 0 ==> r == p[..|p| - 1]
    ensures |p| == 0 ==> r == []
  {
    if |p| == 0 then [] else p[..|p| - 1]
  }

  function PathString(p: Path): string {
    "/" + Text.Join(p, "/")
  }

  /** `p` lies inside directory `dir`, or is `dir` itself. */
  predicate Under(dir: Path, p: Path) {
    dir <= p
  }

  /** The order `filepath.Walk` visits paths in: names are read sorted and
      each directory is visited before its contents, which is the
      lexicographic order on name sequences with a prefix first. */
  predicate PathLess(a: Path, b: Path)
    decreases |a|
  {
    |b| > 0 && (|a| == 0 || Text.Less(a[0], b[0]) || (a[0] == b[0] && PathLess(a[1..], b[1..])))
  }

  lemma {:induction false} PathLessIrreflexive(a: Path)
    ensures !PathLess(a, a)
  {
    if |a| > 0 {
      Text.LessIrreflexive(a[0]);
      PathLessIrreflexive(a[1..]);
    }
  }

  lemma {:induction false} PathLessTransitive(a: Path, b: Path, c: Path)
    requires PathLess(a, b) && PathLess(b, c)
    ensures PathLess(a, c)
  {
    if |a| > 0 {
      if a[0] == b[0] && b[0] == c[0] {
        Text.LessIrreflexive(a[0]);
        PathLessTransitive(a[1..], b[1..], c[1..]);
      } else if a[0] != b[0] && b[0] != c[0] {
        Text.LessTransitive(a[0], b[0], c[0]);
      }
    }
  }

  lemma {:induction false} PathLessTotal(a: Path, b: Path)
    ensures a == b || PathLess(a, b) || PathLess(b, a)
  {
    if |a| > 0 && |b| > 0 {
      Text.LessTotal(a[0], b[0]);
      if a[0] == b[0] {
        PathLessTotal(a[1..], b[1..]);
        if a[1..] == b[1..] {
          assert a == [a[0]] + a[1..] && b == [b[0]] + b[1..];
        }
      }
    }
  }

  /** A directory precedes everything inside it. */
  lemma {:induction false} PrefixFirst(a: Path, b: Path)
    requires a < b
    ensures PathLess(a, b)
  {
    if |a| > 0 {
      PrefixFirst(a[1..], b[1..]);
    }
  }

  ghost predicate StrictlySorted(s: seq<Path>) {
    forall i, j :: 0 <= i < j < |s| ==> PathLess(s[i], s[j])
  }

  /** `listing` visits each path of `paths` exactly once, in walk order. */
  ghost predicate IsListing(listing: seq<Path>, paths: set<Path>) {
    StrictlySorted(listing) && |listing| == |paths| && (forall p :: p in listing <==> p in paths)
  }

  predicate IsMinimum(m: Path, s: set<Path>) {
    m in s && forall y :: y in s && y != m ==> PathLess(m, y)
  }

  lemma {:induction false} MinimumExists(s: set<Path>)
    requires s != {}
    ensures exists m :: IsMinimum(m, s)
  {
    var x :| x in s;
    if s == {x} {
      assert IsMinimum(x, s);
    } else {
      MinimumExists(s - {x});
      var m :| IsMinimum(m, s - {x});
      PathLessTotal(x, m);
      if PathLess(x, m) {
        forall y | y in s && y != x
          ensures PathLess(x, y)
        {
          if y != m {
            PathLessTransitive(x, m, y);
          }
        }
        assert IsMinimum(x, s);
      } else {
        assert IsMinimum(m, s);
      }
    }
  }

  /** A walk order is determined by the set of paths it visits. */
  lemma {:induction false} ListingUnique(a: seq<Path>, b: seq<Path>, paths: set<Path>)
    requires IsListing(a, paths) && IsListing(b, paths)
    ensures a == b
    decreases |a|
  {
    if a != [] && b != [] {
      assert a[0] in paths && b[0] in paths;
      if a[0] != b[0] {
        var i :| 0 <= i < |a| && a[i] == b[0];
        var j :| 0 <= j < |b| && b[j] == a[0];
        assert PathLess(a[0], b[0]);
        assert PathLess(b[0], a[0]);
        PathLessTransitive(a[0], b[0], a[0]);
        PathLessIrreflexive(a[0]);
      }
      forall p
        ensures p in a[1..] <==> p in paths - {a[0]}
      {
        if p in a[1..] {
          PathLessIrreflexive(a[0]);
        }
      }
      assert |paths - {a[0]}| == |paths| - 1;
      forall p
        ensures p in b[1..] <==> p in paths - {a[0]}
      {
        if p in b[1..] {
          PathLessIrreflexive(b[0]);
        }
      }
      ListingUnique(a[1..], b[1..], paths - {a[0]});
    }
  }

  class FileSystem {
    var entries: map<Path, Entry>

    constructor (entries: map<Path, Entry>)
      ensures this.entries == entries
    {
      this.entries := entries;
    }

    /** `os.RemoveAll(dir)`: the directory and everything in it go; a
        missing directory is not an error. */
    method RemoveAll(dir: Path)
      modifies this
      ensures entries == Removed(old(entries), dir)
    {
      entries := map p | p in entries && !Under(dir, p) :: entries[p];
    }

    /** `os.MkdirAll(dir)`: every missing directory on the way is created;
        fails, changing nothing, when a file stands on the way. */
    method MkdirAll(dir: Path) returns (err: Option<FsError>)
      modifies this
      ensures err.Some? <==> Blocked(old(entries), dir)
      ensures err.Some? ==> entries == old(entries)
      ensures err.None? ==> entries == WithDirs(old(entries), dir)
    {
      var k := 1;
      while k <= |dir|
        invariant 1 <= k <= |dir| + 1
        invariant forall i :: 0 < i < k ==> !(dir[..i] in entries && entries[dir[..i]].File?)
      {
        if dir[..k] in entries && entries[dir[..k]].File? {
          return Some(NotADirectory(dir[..k]));
        }
        k := k + 1;
      }
      entries := entries + map k | 0 < k <= |dir| :: dir[..k] := Dir;
      err := None;
    }

    /** `os.Create(path)`: an empty file, truncating one that exists; fails
        when the parent is not a directory or the path is one. */
    method Create(path: Path) returns (err: Option<FsError>)
      requires |path| > 0
      modifies this
      ensures err == CreateError(old(entries), path)
      ensures err.Some? ==> entries == old(entries)
      ensures err.None? ==> entries == old(entries)[path := File(Rows([]))]
    {
      err := CreateError(entries, path);
      if err.None? {
        entries := entries[path := File(Rows([]))];
      }
    }

    /** Writing a created file's content. */
    method Write(path: Path, content: Content)
      requires path in entries && entries[path].File?
      modifies this
      ensures entries == old(entries)[path := File(content)]
    {
      entries := entries[path := File(content)];
    }

    /** The paths `filepath.Walk(root, fn)` hands to `fn`, in order: the
        root, then (for a directory) everything below it; a missing root is
        the error `fn` receives and returns. */
    method Walk(root: Path) returns (r: Result<seq<Path>, FsError>)
      ensures root !in entries <==> r.Err?
      ensures r.Err? ==> r.error == NotExist(root)
      ensures r.Ok? ==> IsListing(r.value, WalkedPaths(entries, root))
    {
      if root !in entries {
        return Err(NotExist(root));
      }
      if entries[root].File? {
        return Ok([root]);
      }
      var rest := set p | p in entries && Under(root, p);
      ghost var all := rest;
      var listing: seq<Path> := [];
      while rest != {}
        invariant rest <= all
        invariant StrictlySorted(listing)
        invariant forall p :: p in all <==> p in listing || p in rest
        invariant forall p :: p in listing ==> p !in rest
        invariant |listing| + |rest| == |all|
        invariant forall i, y :: 0 <= i < |listing| && y in rest ==> PathLess(listing[i], y)
        decreases rest
      {
        MinimumExists(rest);
        var m :| IsMinimum(m, rest);
        listing := listing + [m];
        rest := rest - {m};
      }
      r := Ok(listing);
    }
  }

  /** A file stands on the way to `dir`, so `os.MkdirAll(dir)` fails. */
  ghost predicate Blocked(entries: map<Path, Entry>, dir: Path) {
    exists k :: 0 < k <= |dir| && dir[..k] in entries && entries[dir[..k]].File?
  }

  /** The entries left once `dir` and everything in it are gone. */
  function Removed(entries: map<Path, Entry>, dir: Path): (r: map<Path, Entry>)
    ensures forall p :: p in r <==> p in entries && !Under(dir, p)
    ensures forall p :: p in r ==> r[p] == entries[p]
  {
    map p | p in entries && !Under(dir, p) :: entries[p]
  }

  /** The entries with `dir` and each directory above it present. */
  function WithDirs(entries: map<Path, Entry>, dir: Path): (r: map<Path, Entry>)
    ensures forall p :: p in r <==> p in entries || (0 < |p| && p <= dir)
    ensures forall p :: p in r && !(0 < |p| && p <= dir) ==> r[p] == entries[p]
    ensures forall p :: p in r && 0 < |p| && p <= dir ==> r[p] == Dir
  {
    var made := map k | 0 < k <= |dir| :: dir[..k] := Dir;
    assert forall p :: p in made <==> 0 < |p| && p <= dir by {
      forall p
        ensures p in made <==> 0 < |p| && p <= dir
      {
        if 0 < |p| && p <= dir {
          assert p == dir[..|p|];
        }
      }
    }
    entries + made
  }

  /** The name `<name>.<ext>` a collection's file gets. */
  function FileName(name: string, ext: string): string {
    name + "." + ext
  }

  /** Collections with different names get different files. */
  lemma FileNameInjective(a: string, b: string, ext: string)
    requires FileName(a, ext) == FileName(b, ext)
    ensures a == b
  {
    assert |a| == |b|;
    assert a == FileName(a, ext)[..|a|];
  }

  /** Nothing outside `dir` and the directories above it differs. */
  ghost predicate OutsideUnchanged(before: map<Path, Entry>, after: map<Path, Entry>, dir: Path) {
    forall p :: !Under(dir, p) && !(p < dir) ==> (p in before <==> p in after) && (p in before ==> before[p] == after[p])
  }

  /** Why `os.Create(path)` fails, if it does. */
  function CreateError(entries: map<Path, Entry>, path: Path): Option<FsError>
    requires |path| > 0
  {
    var parent := Parent(path);
    if parent != [] && parent !in entries then Some(NotExist(parent))
    else if parent != [] && entries[parent].File? then Some(NotADirectory(parent))
    else if path in entries && entries[path].Dir? then Some(IsADirectory(path))
    else None
  }

  /** The paths a walk from `root` visits. */
  ghost function WalkedPaths(entries: map<Path, Entry>, root: Path): set<Path> {
    if root in entries && entries[root].File? then {root}
    else set p | p in entries && Under(root, p)
  }
}
