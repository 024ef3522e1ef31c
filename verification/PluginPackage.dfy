/**
 Plugin packages (`package.rs`): the traversal that lists a package's files,
 and the byte stream whose SHA-256 identifies the package.

 A directory is a map, so it has no order; the traversal picks its entries in
 whatever order the file system lists them. Names are byte strings as on Unix.
 */
module PluginPackage {
  import opened Wrappers
  import opened TextBasics

  const MAX_FILES := 2000
  const MAX_BYTES := 10 * 1024 * 1024
  const MAX_FILE_BYTES := 2 * 1024 * 1024

  type Byte = n: nat | n < 256
  type Bytes = seq<Byte>
  type Name = Bytes
  type Path = seq<Name>

  datatype Entry =
    | File(content: Bytes)
    | Directory(entries: map<Name, Entry>)
    | Symlink
    | Other

  datatype PackageError = SymlinkFound | UnsupportedFile | FileTooLarge | PackageTooLarge | PathEncoding

  function Lookup(e: Entry, path: Path): Option<Entry>
  {
    if path == [] then Some(e)
    else if e.Directory? && path[0] in e.entries then Lookup(e.entries[path[0]], path[1..])
    else None
  }

  /** The content of the regular file at a path. */
  function ContentAt(e: Entry, path: Path): Option<Bytes>
  {
    var found := Lookup(e, path);
    if found.Some? && found.value.File? then Some(found.value.content) else None
  }

  // ----- what a tree amounts to -----

  /** Files, total size, number of entries, and whether every entry is acceptable by itself. */
  datatype Summary = Summary(files: multiset<Path>, bytes: nat, entries: nat, fine: bool)

  const NOTHING := Summary(multiset{}, 0, 0, true)

  function Plus(a: Summary, b: Summary): Summary
  {
    Summary(a.files + b.files, a.bytes + b.bytes, a.entries + b.entries, a.fine && b.fine)
  }

  ghost function Below(path: Path, e: Entry): Summary
    decreases e, 1, 0
  {
    match e
    case File(content) => Summary(multiset{path}, |content|, 1, |content| <= MAX_FILE_BYTES)
    case Directory(entries) => Plus(Summary(multiset{}, 0, 1, true), Inside(path, e, entries.Keys))
    case _ => Summary(multiset{}, 0, 1, false)
  }

  /** The summary of some of a directory's entries. */
  ghost function Inside(path: Path, e: Entry, names: set<Name>): Summary
    requires e.Directory? && names <= e.entries.Keys
    decreases e, 0, |names|
  {
    if names == {} then NOTHING
    else
      var name :| name in names;
      Plus(Below(path + [name], e.entries[name]), Inside(path, e, names - {name}))
  }

  lemma {:induction false} PlusRegroups(a: Summary, b: Summary, c: Summary)
    ensures Plus(a, Plus(b, c)) == Plus(b, Plus(a, c))
    ensures Plus(a, Plus(b, c)) == Plus(Plus(a, b), c)
  {
    assert a.files + (b.files + c.files) == b.files + (a.files + c.files);
    assert a.files + (b.files + c.files) == a.files + b.files + c.files;
  }

  /** The order in which the entries are taken does not matter. */
  lemma {:induction false} TakeAny(path: Path, e: Entry, names: set<Name>, name: Name)
    requires e.Directory? && names <= e.entries.Keys && name in names
    ensures Inside(path, e, names)
         == Plus(Below(path + [name], e.entries[name]), Inside(path, e, names - {name}))
    decreases |names|
  {
    hide Below, Plus;
    var first :| first in names
      && Inside(path, e, names) == Plus(Below(path + [first], e.entries[first]), Inside(path, e, names - {first}));
    if first != name {
      TakeAny(path, e, names - {first}, name);
      TakeAny(path, e, names - {name}, first);
      assert names - {first} - {name} == names - {name} - {first};
      PlusRegroups(Below(path + [first], e.entries[first]), Below(path + [name], e.entries[name]), Inside(path, e, names - {first} - {name}));
    }
  }

  predicate IsPrefix(a: Path, b: Path)
  {
    |a| <= |b| && b[..|a|] == a
  }

  lemma {:induction false} BelowCounts(path: Path, e: Entry, p: Path)
    ensures Below(path, e).files[p]
         == match e
            case File(_) => if p == path then 1 else 0
            case Directory(entries) => Inside(path, e, entries.Keys).files[p]
            case _ => 0
  {
    hide Inside;
  }

  lemma {:induction false} ContentCases(e: Entry, q: Path)
    ensures ContentAt(e, q)
         == match e
            case File(content) => if q == [] then Some(content) else None
            case Directory(entries) =>
              if q != [] && q[0] in entries then ContentAt(entries[q[0]], q[1..]) else None
            case _ => None
  {
  }

  lemma {:induction false} PrefixRest(path: Path, p: Path)
    requires IsPrefix(path, p)
    ensures p[|path|..] == [] <==> p == path
    ensures |p| > |path| ==> p[|path|..][0] == p[|path|] && p[|path|..][1..] == p[|path| + 1..]
  {
    assert p == path + p[|path|..];
  }

  /** The files counted are the regular files of the tree, each once. */
  lemma {:induction false} CountsEachFile(path: Path, e: Entry, p: Path)
    ensures Below(path, e).files[p] == if IsPrefix(path, p) && ContentAt(e, p[|path|..]).Some? then 1 else 0
    decreases e, 1, 0
  {
    hide Below, Inside, ContentAt, Lookup;
    BelowCounts(path, e, p);
    if IsPrefix(path, p) {
      PrefixRest(path, p);
      ContentCases(e, p[|path|..]);
    }
    if e.Directory? {
      CountsInside(path, e, e.entries.Keys, p);
    }
  }

  lemma {:induction false} CountsInside(path: Path, e: Entry, names: set<Name>, p: Path)
    requires e.Directory? && names <= e.entries.Keys
    ensures Inside(path, e, names).files[p]
         == if IsPrefix(path, p) && |p| > |path| && p[|path|] in names
               && ContentAt(e.entries[p[|path|]], p[|path| + 1..]).Some? then 1 else 0
    decreases e, 0, |names|
  {
    if names != {} {
      var name :| name in names;
      CountsInside(path, e, names - {name}, p);
      CountsEachFile(path + [name], e.entries[name], p);
      hide Below, Inside, ContentAt, IsPrefix;
      TakeAny(path, e, names, name);
      PrefixOfOneMore(path, name, p);
    }
  }

  lemma {:induction false} PrefixOfOneMore(path: Path, name: Name, p: Path)
    ensures IsPrefix(path + [name], p) <==> IsPrefix(path, p) && |p| > |path| && p[|path|] == name
  {
    if IsPrefix(path + [name], p) {
      assert p[..|path|] == p[..|path| + 1][..|path|] == path;
      assert p[|path|] == p[..|path| + 1][|path|];
    }
    if IsPrefix(path, p) && |p| > |path| && p[|path|] == name {
      assert p[..|path| + 1] == path + [name];
    }
  }

  // ----- the order of paths -----

  predicate NameBefore(a: Name, b: Name)
  {
    b != [] && (a == [] || a[0] < b[0] || (a[0] == b[0] && NameBefore(a[1..], b[1..])))
  }

  /** `Path::cmp`: component by component. */
  predicate PathBefore(a: Path, b: Path)
  {
    b != [] && (a == [] || NameBefore(a[0], b[0]) || (a[0] == b[0] && PathBefore(a[1..], b[1..])))
  }

  lemma NameTransitive(a: Name, b: Name, c: Name)
    requires NameBefore(a, b) && NameBefore(b, c)
    ensures NameBefore(a, c)
  {
  }

  lemma NameIrreflexive(a: Name)
    ensures !NameBefore(a, a)
  {
  }

  lemma {:induction false} NameTotal(a: Name, b: Name)
    ensures a == b || NameBefore(a, b) || NameBefore(b, a)
  {
    if a != [] && b != [] && a[0] == b[0] {
      NameTotal(a[1..], b[1..]);
      assert a == [a[0]] + a[1..] && b == [b[0]] + b[1..];
    }
  }

  lemma {:induction false} PathTransitive(a: Path, b: Path, c: Path)
    requires PathBefore(a, b) && PathBefore(b, c)
    ensures PathBefore(a, c)
  {
    hide NameBefore;
    if a != [] {
      if a[0] == b[0] && b[0] == c[0] {
        NameIrreflexive(a[0]);
        PathTransitive(a[1..], b[1..], c[1..]);
      } else if NameBefore(a[0], b[0]) && NameBefore(b[0], c[0]) {
        NameTransitive(a[0], b[0], c[0]);
      }
    }
  }

  lemma {:induction false} PathIrreflexive(a: Path)
    ensures !PathBefore(a, a)
  {
    if a != [] {
      NameIrreflexive(a[0]);
      PathIrreflexive(a[1..]);
    }
  }

  lemma {:induction false} PathTotal(a: Path, b: Path)
    ensures a == b || PathBefore(a, b) || PathBefore(b, a)
  {
    hide NameBefore;
    if a != [] && b != [] {
      NameTotal(a[0], b[0]);
      if a[0] == b[0] {
        PathTotal(a[1..], b[1..]);
        assert a == [a[0]] + a[1..] && b == [b[0]] + b[1..];
      }
    }
  }

  lemma {:induction false} NameInBytes(a: Name, b: Name)
    requires NameBefore(a, b)
    ensures LexBefore(a, b)
  {
    if a == [] || a[0] < b[0] {
      assert SmallerAt(a, b, 0);
    } else {
      NameInBytes(a[1..], b[1..]);
      LexBehind([a[0]], a[1..], b[1..]);
      assert a == [a[0]] + a[1..] && b == [b[0]] + b[1..];
    }
  }

  /** Names are ordered by their bytes. */
  lemma {:induction false} NameIsByteOrder(a: Name, b: Name)
    ensures NameBefore(a, b) <==> LexBefore(a, b)
  {
    if NameBefore(a, b) {
      NameInBytes(a, b);
    } else if LexBefore(a, b) {
      LexAsymmetric(a, b);
      NameTotal(a, b);
      if NameBefore(b, a) { NameInBytes(b, a); }
    }
  }

  /** The paths agree up to component `n`, and there `p` ends or has the smaller name. */
  ghost predicate DecidedAt(p: Path, q: Path, n: nat)
  {
    n < |q| && n <= |p| && p[..n] == q[..n] && (n == |p| || LexBefore(p[n], q[n]))
  }

  lemma {:induction false} DecidedMeansBefore(p: Path, q: Path, n: nat)
    requires DecidedAt(p, q, n)
    ensures PathBefore(p, q)
    decreases n
  {
    if n == 0 {
      if p != [] { NameIsByteOrder(p[0], q[0]); }
    } else {
      assert p[0] == p[..n][0] == q[..n][0] == q[0];
      assert p[1..][..n - 1] == p[..n][1..] && q[1..][..n - 1] == q[..n][1..];
      DecidedMeansBefore(p[1..], q[1..], n - 1);
    }
  }

  lemma {:induction false} BeforeIsDecided(p: Path, q: Path) returns (n: nat)
    requires PathBefore(p, q)
    ensures DecidedAt(p, q, n)
  {
    hide NameBefore, LexBefore;
    if p == [] {
      n := 0;
    } else {
      NameIsByteOrder(p[0], q[0]);
      if NameBefore(p[0], q[0]) {
        n := 0;
      } else {
        var m := BeforeIsDecided(p[1..], q[1..]);
        n := m + 1;
        assert p[..n] == [p[0]] + p[1..][..m] && q[..n] == [q[0]] + q[1..][..m];
      }
    }
  }

  /** Paths are ordered by their first differing component, bytewise; a path comes before what lies below it. */
  lemma {:induction false} PathIsComponentOrder(p: Path, q: Path)
    ensures PathBefore(p, q) <==> exists n: nat :: DecidedAt(p, q, n)
  {
    hide PathBefore, DecidedAt;
    if PathBefore(p, q) {
      var n := BeforeIsDecided(p, q);
    }
    forall n: nat | DecidedAt(p, q, n) ensures PathBefore(p, q) {
      DecidedMeansBefore(p, q, n);
    }
  }

  predicate Ascending(files: seq<Path>)
  {
    forall i, j :: 0 <= i < j < |files| ==> PathBefore(files[i], files[j])
  }

  /** The regular files of a tree in ascending order: there is exactly one such list. */
  ghost predicate IsListing(files: seq<Path>, tree: Entry)
  {
    Ascending(files) && forall p :: p in files <==> ContentAt(tree, p).Some?
  }

  lemma {:induction false} SameMembers(a: seq<Path>, b: seq<Path>)
    requires Ascending(a) && Ascending(b) && forall p :: p in a <==> p in b
    ensures a == b
  {
    hide PathBefore;
    assert a != [] ==> a[0] in b;
    assert b != [] ==> b[0] in a;
    if a != [] && b != [] {
      if PathBefore(a[0], b[0]) && PathBefore(b[0], a[0]) {
        PathTransitive(a[0], b[0], a[0]);
      }
      PathIrreflexive(a[0]);
      assert a[0] == b[0];
      forall p ensures p in a[1..] <==> p in b[1..] {
        assert p in a <==> p == a[0] || p in a[1..];
        assert p in b <==> p == b[0] || p in b[1..];
        assert p in a[1..] ==> PathBefore(a[0], p);
        assert p in b[1..] ==> PathBefore(b[0], p);
      }
      SameMembers(a[1..], b[1..]);
      assert a == [a[0]] + a[1..] && b == [b[0]] + b[1..];
    }
  }

  lemma {:induction false} ListingIsUnique(a: seq<Path>, b: seq<Path>, tree: Entry)
    requires IsListing(a, tree) && IsListing(b, tree)
    ensures a == b
  {
    SameMembers(a, b);
  }

  function InsertPath(files: seq<Path>, path: Path): seq<Path>
  {
    if files == [] || !PathBefore(path, files[|files| - 1]) then files + [path]
    else InsertPath(files[..|files| - 1], path) + [files[|files| - 1]]
  }

  /** `files.sort()`. */
  function SortPaths(files: seq<Path>): seq<Path>
  {
    if files == [] then [] else InsertPath(SortPaths(files[..|files| - 1]), files[|files| - 1])
  }

  lemma {:induction false} InsertAscends(files: seq<Path>, path: Path)
    requires Ascending(files) && path !in files
    ensures Ascending(InsertPath(files, path))
    ensures multiset(InsertPath(files, path)) == multiset(files) + multiset{path}
  {
    hide PathBefore;
    if files != [] {
      var init, last := files[..|files| - 1], files[|files| - 1];
      assert files == init + [last];
      PathTotal(path, last);
      if PathBefore(path, last) {
        InsertAscends(init, path);
        AllBefore(init, path, InsertPath(init, path), last);
      } else {
        forall i | 0 <= i < |init| ensures PathBefore(init[i], path) {
          assert PathBefore(files[i], last);
          PathTransitive(init[i], last, path);
        }
      }
    }
  }

  lemma {:induction false} AllBefore(init: seq<Path>, path: Path, rest: seq<Path>, last: Path)
    requires multiset(rest) == multiset(init) + multiset{path}
    requires PathBefore(path, last) && forall i :: 0 <= i < |init| ==> PathBefore(init[i], last)
    ensures forall i :: 0 <= i < |rest| ==> PathBefore(rest[i], last)
  {
    hide PathBefore;
    forall i | 0 <= i < |rest| ensures PathBefore(rest[i], last) {
      assert rest[i] in multiset(rest);
      assert rest[i] in init || rest[i] == path;
    }
  }

  lemma {:induction false} SortAscends(files: seq<Path>)
    requires forall p :: multiset(files)[p] <= 1
    ensures Ascending(SortPaths(files)) && multiset(SortPaths(files)) == multiset(files)
  {
    if files != [] {
      var init, last := files[..|files| - 1], files[|files| - 1];
      assert files == init + [last];
      assert forall p :: multiset(files)[p] == multiset(init)[p] + multiset{last}[p];
      assert multiset(init)[last] == 0;
      SortAscends(init);
      assert last !in multiset(SortPaths(init));
      InsertAscends(SortPaths(init), last);
    }
  }

  // ----- the traversal -----

  /** The whole tree is within the rules: only files and directories, and all limits kept. */
  ghost predicate Acceptable(tree: Entry)
  {
    var s := Below([], tree);
    s.fine && |s.files| <= MAX_FILES && s.bytes <= MAX_BYTES
  }

  /** The tree has the fault that an error names. */
  ghost predicate HasFault(e: PackageError, tree: Entry)
  {
    match e
    case SymlinkFound => exists p :: Lookup(tree, p) == Some(Symlink)
    case UnsupportedFile => exists p :: Lookup(tree, p) == Some(Other)
    case FileTooLarge => exists p :: ContentAt(tree, p).Some? && |ContentAt(tree, p).value| > MAX_FILE_BYTES
    case PackageTooLarge => |Below([], tree).files| > MAX_FILES || Below([], tree).bytes > MAX_BYTES
    case PathEncoding => false
  }

  lemma {:induction false} LookupChild(tree: Entry, path: Path, name: Name)
    requires Lookup(tree, path).Some? && Lookup(tree, path).value.Directory? && name in Lookup(tree, path).value.entries
    ensures Lookup(tree, path + [name]) == Some(Lookup(tree, path).value.entries[name])
    decreases |path|
  {
    if path == [] {
      assert [] + [name] == [name] && [name][1..] == [];
    } else {
      LookupChild(tree.entries[path[0]], path[1..], name);
      assert (path + [name])[1..] == path[1..] + [name];
    }
  }

  /** What lies in the directories still to be read. */
  ghost function Waiting(pending: seq<(Path, Entry)>): Summary
  {
    if pending == [] then NOTHING
    else Plus(Below(pending[|pending| - 1].0, pending[|pending| - 1].1), Waiting(pending[..|pending| - 1]))
  }

  lemma {:induction false} WaitingMore(pending: seq<(Path, Entry)>, path: Path, e: Entry)
    ensures Waiting(pending + [(path, e)]) == Plus(Below(path, e), Waiting(pending))
  {
    hide Below;
    assert (pending + [(path, e)])[..|pending|] == pending;
  }

  /** One entry moves from the unread rest of a directory to the results. */
  lemma {:induction false} Regroup(done: Summary, one: Summary, rest: Summary, waiting: Summary)
    ensures Plus(done, Plus(Plus(one, rest), waiting)) == Plus(Plus(done, one), Plus(rest, waiting))
    ensures Plus(done, Plus(Plus(one, rest), waiting)) == Plus(done, Plus(rest, Plus(one, waiting)))
  {
    PlusRegroups(done, one, Plus(rest, waiting));
    PlusRegroups(one, rest, waiting);
    PlusRegroups(rest, one, waiting);
  }

  lemma {:induction false} StartDirectory(done: Summary, path: Path, e: Entry, waiting: Summary)
    requires e.Directory?
    ensures Plus(done, Plus(Below(path, e), waiting))
         == Plus(done.(entries := done.entries + 1), Plus(Inside(path, e, e.entries.Keys), waiting))
  {
    hide Inside;
    var here := Summary(multiset{}, 0, 1, true);
    Regroup(done, here, Inside(path, e, e.entries.Keys), waiting);
    assert Plus(done, here) == done.(entries := done.entries + 1);
  }

  lemma {:induction false} Begin(tree: Entry)
    ensures Below([], tree) == Plus(Summary(multiset([]), 0, 0, true), Waiting([([], tree)]))
  {
    hide Below;
    WaitingMore([], [], tree);
    var none: seq<(Path, Entry)> := [];
    assert none + [([], tree)] == [([], tree)];
  }

  lemma RootIsFound(tree: Entry)
    ensures Lookup(tree, []) == Some(tree)
  {
  }

  lemma {:induction false} AtMost(a: Summary, b: Summary)
    ensures var s := Plus(a, b);
            |s.files| >= |a.files| && s.bytes >= a.bytes && s.entries >= a.entries && (s.fine ==> b.fine)
  {
  }

  lemma {:induction false} NotFine(done: Summary, path: Path, e: Entry, rest: Summary)
    requires e.Symlink? || e.Other? || (e.File? && |e.content| > MAX_FILE_BYTES)
    ensures !Plus(Plus(done, Below(path, e)), rest).fine
  {
  }

  lemma {:induction false} OneFile(files: seq<Path>, total: nat, entries: nat, path: Path, content: Bytes)
    requires |content| <= MAX_FILE_BYTES
    ensures Plus(Summary(multiset(files), total, entries, true), Below(path, File(content)))
         == Summary(multiset(files + [path]), total + |content|, entries + 1, true)
  {
  }

  lemma {:induction false} NothingInside(path: Path, e: Entry, waiting: Summary)
    requires e.Directory?
    ensures Plus(Inside(path, e, {}), waiting) == waiting
  {
  }

  /** When nothing is left the files found are the files of the tree. */
  lemma {:induction false} Finish(tree: Entry, files: seq<Path>, total: nat, entries: nat)
    requires Below([], tree) == Plus(Summary(multiset(files), total, entries, true), Waiting([]))
    requires |files| <= MAX_FILES && total <= MAX_BYTES
    ensures Acceptable(tree) && IsListing(SortPaths(files), tree)
  {
    hide Below, Inside, PathBefore, ContentAt, SortPaths, Ascending;
    assert Below([], tree).files == multiset(files);
    forall p ensures multiset(files)[p] == if ContentAt(tree, p).Some? then 1 else 0 {
      CountsEachFile([], tree, p);
      assert p[0..] == p;
    }
    SortAscends(files);
    forall p ensures p in SortPaths(files) <==> ContentAt(tree, p).Some? {
      assert p in SortPaths(files) <==> p in multiset(SortPaths(files));
    }
  }

  /**
   Whatever order the directories list their entries in, the traversal ends;
   it succeeds exactly for acceptable trees, with their one sorted listing,
   and otherwise reports a fault that the tree has.
   */
  method CollectFiles(tree: Entry) returns (r: Result<seq<Path>, PackageError>)
    requires tree.Directory?
    ensures r.Success? <==> Acceptable(tree)
    ensures r.Success? ==> IsListing(r.value, tree)
    ensures r.Failure? ==> HasFault(r.error, tree)
  {
    hide Inside, Plus, Below, Waiting, IsListing, Lookup;
    var pending: seq<(Path, Entry)> := [([], tree)];
    RootIsFound(tree);
    var files: seq<Path>, total: nat := [], 0;
    ghost var entries: nat := 0;
    ghost var whole := Below([], tree);
    Begin(tree);
    while pending != []
      invariant forall i :: 0 <= i < |pending| ==> pending[i].1.Directory? && Lookup(tree, pending[i].0) == Some(pending[i].1)
      invariant |files| <= MAX_FILES && total <= MAX_BYTES
      invariant whole == Plus(Summary(multiset(files), total, entries, true), Waiting(pending))
      decreases whole.entries - entries
    {
      AtMost(Summary(multiset(files), total, entries, true), Waiting(pending));
      var (path, directory) := pending[|pending| - 1];
      WaitingMore(pending[..|pending| - 1], path, directory);
      assert pending[..|pending| - 1] + [(path, directory)] == pending;
      pending := pending[..|pending| - 1];
      StartDirectory(Summary(multiset(files), total, entries, true), path, directory, Waiting(pending));
      entries := entries + 1;
      ghost var before := entries - 1;
      var remaining := directory.entries.Keys;
      while remaining != {}
        invariant remaining <= directory.entries.Keys
        invariant forall i :: 0 <= i < |pending| ==> pending[i].1.Directory? && Lookup(tree, pending[i].0) == Some(pending[i].1)
        invariant |files| <= MAX_FILES && total <= MAX_BYTES && entries > before
        invariant whole == Plus(Summary(multiset(files), total, entries, true), Plus(Inside(path, directory, remaining), Waiting(pending)))
        decreases remaining
      {
        var name :| name in remaining;
        var entry, here := directory.entries[name], path + [name];
        ghost var done := Summary(multiset(files), total, entries, true);
        LookupChild(tree, path, name);
        TakeAny(path, directory, remaining, name);
        remaining := remaining - {name};
        Regroup(done, Below(here, entry), Inside(path, directory, remaining), Waiting(pending));
        match entry {
          case Directory(_) =>
            WaitingMore(pending, here, entry);
            pending := pending + [(here, entry)];
          case Symlink =>
            NotFine(done, here, entry, Plus(Inside(path, directory, remaining), Waiting(pending)));
            return Failure(SymlinkFound);
          case Other =>
            NotFine(done, here, entry, Plus(Inside(path, directory, remaining), Waiting(pending)));
            return Failure(UnsupportedFile);
          case File(content) =>
            if |content| > MAX_FILE_BYTES {
              NotFine(done, here, entry, Plus(Inside(path, directory, remaining), Waiting(pending)));
              assert ContentAt(tree, here) == Some(content);
              return Failure(FileTooLarge);
            }
            OneFile(files, total, entries, here, content);
            total := total + |content|;
            files := files + [here];
            entries := entries + 1;
            AtMost(Summary(multiset(files), total, entries, true), Plus(Inside(path, directory, remaining), Waiting(pending)));
            if |files| > MAX_FILES || total > MAX_BYTES {
              return Failure(PackageTooLarge);
            }
        }
      }
      NothingInside(path, directory, Waiting(pending));
    }
    Finish(tree, files, total, entries);
    r := Success(SortPaths(files));
  }

  // ----- the byte stream that is hashed -----

  const SLASH: Byte := 0x2F
  const BACKSLASH: Byte := 0x5C
  const TWO_64 := 0x1_0000_0000_0000_0000

  /** The relative path as text: components joined by slashes. */
  function Join(path: Path): Bytes
  {
    if path == [] then [] else if |path| == 1 then path[0] else path[0] + [SLASH] + Join(path[1..])
  }

  /** `.replace('\\', "/")`. */
  function Slashes(text: Bytes): (r: Bytes)
    ensures |r| == |text|
    ensures forall i :: 0 <= i < |text| ==> r[i] == if text[i] == BACKSLASH then SLASH else text[i]
  {
    if text == [] then [] else [if text[0] == BACKSLASH then SLASH else text[0]] + Slashes(text[1..])
  }

  /** Big-endian digits to base 256, as many as asked for. */
  function BigEndian(n: nat, width: nat): (r: Bytes)
    ensures |r| == width
  {
    if width == 0 then [] else BigEndian(n / 256, width - 1) + [n % 256]
  }

  function FromBigEndian(digits: Bytes): nat
  {
    if digits == [] then 0 else 256 * FromBigEndian(digits[..|digits| - 1]) + digits[|digits| - 1]
  }

  function Power256(width: nat): nat
  {
    if width == 0 then 1 else 256 * Power256(width - 1)
  }

  lemma {:induction false} BigEndianBack(n: nat, width: nat)
    requires n < Power256(width)
    ensures FromBigEndian(BigEndian(n, width)) == n
  {
    if width > 0 {
      BigEndianBack(n / 256, width - 1);
      assert BigEndian(n, width)[..width - 1] == BigEndian(n / 256, width - 1);
    }
  }

  lemma LengthFits(n: nat)
    requires n < TWO_64
    ensures FromBigEndian(BigEndian(n, 8)) == n
  {
    assert Power256(8) == TWO_64 by {
      assert Power256(2) == 0x1_0000 && Power256(4) == 0x1_0000_0000 && Power256(6) == 0x1_0000_0000_0000;
    }
    BigEndianBack(n, 8);
  }

  /** A length-prefixed field. */
  function Field(text: Bytes): Bytes
  {
    BigEndian(|text|, 8) + text
  }

  datatype Record = Record(path: Bytes, content: Bytes)

  predicate Representable(r: Record)
  {
    |r.path| < TWO_64 && |r.content| < TWO_64
  }

  function Stream(records: seq<Record>): Bytes
  {
    if records == [] then []
    else Stream(records[..|records| - 1]) + Field(records[|records| - 1].path) + Field(records[|records| - 1].content)
  }

  /** A field at the front of a stream, and what follows it. */
  function ReadField(stream: Bytes): (r: Option<(Bytes, Bytes)>)
    ensures r.Some? ==> |r.value.1| < |stream|
  {
    if |stream| < 8 then None
    else
      var n := FromBigEndian(stream[..8]);
      if |stream| - 8 < n then None else Some((stream[8..8 + n], stream[8 + n..]))
  }

  function ReadStream(stream: Bytes): Option<seq<Record>>
    decreases |stream|
  {
    if stream == [] then Some([])
    else match ReadField(stream)
      case None => None
      case Some((path, rest)) =>
        match ReadField(rest)
        case None => None
        case Some((content, more)) =>
          var records := ReadStream(more);
          if records.None? then None else Some([Record(path, content)] + records.value)
  }

  lemma {:induction false} FieldReads(text: Bytes, rest: Bytes)
    requires |text| < TWO_64
    ensures ReadField(Field(text) + rest) == Some((text, rest))
  {
    hide BigEndian, FromBigEndian;
    var stream := Field(text) + rest;
    LengthFits(|text|);
    assert stream[..8] == BigEndian(|text|, 8);
    assert stream[8..8 + |text|] == text && stream[8 + |text|..] == rest;
  }

  lemma {:induction false} StreamFront(record: Record, records: seq<Record>)
    ensures Stream([record] + records) == Field(record.path) + (Field(record.content) + Stream(records))
    decreases |records|
  {
    hide Field;
    if records == [] {
      assert [record] + records == [record] && [record][..0] == [];
    } else {
      var init, last := records[..|records| - 1], records[|records| - 1];
      StreamFront(record, init);
      assert ([record] + records)[..|records|] == [record] + init;
      Associate(Field(record.path), Field(record.content), Stream(init), Field(last.path), Field(last.content));
    }
  }

  lemma {:induction false} Associate(a: Bytes, b: Bytes, c: Bytes, d: Bytes, e: Bytes)
    ensures a + (b + c) + d + e == a + (b + (c + d + e))
  {
  }

  /** The hashed stream can be read back: it determines the list of normalised paths and contents. */
  lemma {:induction false} StreamReads(records: seq<Record>)
    requires forall i :: 0 <= i < |records| ==> Representable(records[i])
    ensures ReadStream(Stream(records)) == Some(records)
    decreases |records|
  {
    if records != [] {
      var first, rest := records[0], records[1..];
      assert records == [first] + rest;
      StreamReads(rest);
      hide Field, ReadField, Stream;
      StreamFront(first, rest);
      FieldReads(first.path, Field(first.content) + Stream(rest));
      FieldReads(first.content, Stream(rest));
      ReadsNothing();
    }
  }

  lemma ReadsNothing()
    ensures ReadField([]) == None
  {
  }

  predicate IsContinuation(s: Bytes, i: nat)
  {
    i < |s| && 0x80 <= s[i] <= 0xBF
  }

  /** Well-formed UTF-8 (section 4 of RFC 3629). */
  predicate IsUtf8(s: Bytes)
  {
    if s == [] then true
    else if s[0] < 0x80 then IsUtf8(s[1..])
    else if 0xC2 <= s[0] <= 0xDF then IsContinuation(s, 1) && IsUtf8(s[2..])
    else if 0xE0 <= s[0] <= 0xEF then
      IsContinuation(s, 1) && IsContinuation(s, 2)
      && (s[0] == 0xE0 ==> s[1] >= 0xA0) && (s[0] == 0xED ==> s[1] <= 0x9F) && IsUtf8(s[3..])
    else if 0xF0 <= s[0] <= 0xF4 then
      IsContinuation(s, 1) && IsContinuation(s, 2) && IsContinuation(s, 3)
      && (s[0] == 0xF0 ==> s[1] >= 0x90) && (s[0] == 0xF4 ==> s[1] <= 0x8F) && IsUtf8(s[4..])
    else false
  }

  function RecordOf(tree: Entry, path: Path): Record
    requires ContentAt(tree, path).Some?
  {
    Record(Slashes(Join(path)), ContentAt(tree, path).value)
  }

  function Records(tree: Entry, files: seq<Path>): (r: seq<Record>)
    requires forall p :: p in files ==> ContentAt(tree, p).Some?
    ensures |r| == |files|
  {
    seq(|files|, i requires 0 <= i < |files| => RecordOf(tree, files[i]))
  }

  /** The stream given to SHA-256, or an error for a path that is not UTF-8. */
  method HashFiles(tree: Entry, files: seq<Path>) returns (r: Result<Bytes, PackageError>)
    requires forall p :: p in files ==> ContentAt(tree, p).Some?
    ensures r == if forall p :: p in files ==> IsUtf8(Join(p)) then Success(Stream(Records(tree, files)))
                 else Failure(PathEncoding)
  {
    hide IsUtf8, Join, ContentAt, RecordOf, Field;
    var stream: Bytes := [];
    for i := 0 to |files|
      invariant forall p :: p in files[..i] ==> IsUtf8(Join(p))
      invariant stream == Stream(Records(tree, files)[..i])
    {
      assert Records(tree, files)[..i + 1][..i] == Records(tree, files)[..i];
      assert files[..i + 1] == files[..i] + [files[i]];
      if !IsUtf8(Join(files[i])) {
        assert files[i] in files;
        return Failure(PathEncoding);
      }
      var record := RecordOf(tree, files[i]);
      stream := stream + Field(record.path) + Field(record.content);
    }
    assert Records(tree, files)[..|files|] == Records(tree, files) && files[..|files|] == files;
    return Success(stream);
  }

  /** Equal streams mean equal lists of normalised paths and contents. */
  lemma {:induction false} StreamIsInjective(a: seq<Record>, b: seq<Record>)
    requires forall i :: 0 <= i < |a| ==> Representable(a[i])
    requires forall i :: 0 <= i < |b| ==> Representable(b[i])
    ensures Stream(a) == Stream(b) <==> a == b
  {
    StreamReads(a);
    StreamReads(b);
  }

  /** Components as a file system has them, and free of backslashes. */
  predicate IsPlain(path: Path)
  {
    path != [] && forall i :: 0 <= i < |path| ==> SLASH !in path[i] && BACKSLASH !in path[i]
  }

  lemma {:induction false} JoinPlain(path: Path)
    requires IsPlain(path)
    ensures BACKSLASH !in Join(path)
    ensures |Join(path)| >= |path[0]| && Join(path)[..|path[0]|] == path[0]
    ensures if |path| == 1 then Join(path) == path[0]
            else |Join(path)| > |path[0]| && Join(path)[|path[0]|] == SLASH
                 && Join(path)[|path[0]| + 1..] == Join(path[1..])
  {
    if |path| > 1 {
      JoinPlain(path[1..]);
    }
  }

  lemma {:induction false} JoinIsInjective(a: Path, b: Path)
    requires IsPlain(a) && IsPlain(b) && Join(a) == Join(b)
    ensures a == b
    decreases |a|
  {
    JoinPlain(a);
    JoinPlain(b);
    var text := Join(a);
    assert forall i :: 0 <= i < |a[0]| ==> text[i] == a[0][i];
    assert forall i :: 0 <= i < |b[0]| ==> text[i] == b[0][i];
    assert |a[0]| == |b[0]|;
    if |a| > 1 {
      JoinIsInjective(a[1..], b[1..]);
    }
    assert a == [a[0]] + a[1..] && b == [b[0]] + b[1..];
  }

  lemma {:induction false} PlainText(path: Path)
    requires IsPlain(path)
    ensures Slashes(Join(path)) == Join(path)
  {
    JoinPlain(path);
    assert forall i :: 0 <= i < |Join(path)| ==> Join(path)[i] != BACKSLASH;
  }

  /**
   For packages without backslashes in their names the stream identifies the
   package: equal streams exactly when the same files have the same contents.
   */
  lemma {:induction false} StreamIdentifiesPackage(a: Entry, files: seq<Path>, b: Entry, others: seq<Path>)
    requires IsListing(files, a) && IsListing(others, b)
    requires forall p :: p in files ==> IsPlain(p) && Representable(RecordOf(a, p))
    requires forall p :: p in others ==> IsPlain(p) && Representable(RecordOf(b, p))
    ensures Stream(Records(a, files)) == Stream(Records(b, others)) <==> forall p :: ContentAt(a, p) == ContentAt(b, p)
  {
    hide Stream, Join, PathBefore, IsPlain, Lookup;
    StreamIsInjective(Records(a, files), Records(b, others));
    if Records(a, files) == Records(b, others) {
      forall i | 0 <= i < |files| ensures files[i] == others[i] {
        assert Records(a, files)[i] == Records(b, others)[i];
        PlainText(files[i]);
        PlainText(others[i]);
        JoinIsInjective(files[i], others[i]);
      }
      assert files == others;
      forall p ensures ContentAt(a, p) == ContentAt(b, p) {
        if p in files {
          var i :| 0 <= i < |files| && files[i] == p;
          assert Records(a, files)[i] == Records(b, others)[i];
        }
      }
    }
    if forall p :: ContentAt(a, p) == ContentAt(b, p) {
      SameMembers(files, others);
      assert Records(a, files) == Records(b, others);
    }
  }

  const A: Name := [0x61]
  const B: Name := [0x62]
  const A_BACKSLASH_B: Name := [0x61, BACKSLASH, 0x62]

  /** A package with one file, in a directory `a` or not. */
  function Flat(content: Bytes): Entry
  {
    Directory(map[A_BACKSLASH_B := File(content)])
  }

  function Nested(content: Bytes): Entry
  {
    Directory(map[A := Directory(map[B := File(content)])])
  }

  lemma {:induction false} FlatListing(content: Bytes)
    ensures IsListing([[A_BACKSLASH_B]], Flat(content)) && ContentAt(Flat(content), [A_BACKSLASH_B]) == Some(content)
  {
    hide ContentAt, Lookup;
    forall p ensures p == [A_BACKSLASH_B] <==> ContentAt(Flat(content), p).Some? {
      ContentCases(Flat(content), p);
      if p != [] {
        ContentCases(File(content), p[1..]);
        assert p == [p[0]] + p[1..];
      }
    }
    ContentCases(Flat(content), [A_BACKSLASH_B]);
    ContentCases(File(content), []);
    assert [A_BACKSLASH_B][1..] == [];
  }

  lemma {:induction false} NestedListing(content: Bytes)
    ensures IsListing([[A, B]], Nested(content)) && ContentAt(Nested(content), [A, B]) == Some(content)
  {
    hide ContentAt, Lookup;
    var inner := Directory(map[B := File(content)]);
    forall p ensures p == [A, B] <==> ContentAt(Nested(content), p).Some? {
      ContentCases(Nested(content), p);
      if p != [] {
        ContentCases(inner, p[1..]);
        assert p == [p[0]] + p[1..];
        if |p| > 1 {
          ContentCases(File(content), p[1..][1..]);
          assert p == [p[0], p[1]] + p[1..][1..];
        }
      }
    }
    ContentCases(Nested(content), [A, B]);
    ContentCases(inner, [B]);
    ContentCases(File(content), []);
    assert [A, B][1..] == [B] && [B][1..] == [];
  }

  /**
   With a backslash it need not: a file `a\b` and a file `b` in a directory
   `a` have the same stream. A backslash alone is no collision, though: with
   a second file `a-c` the two packages are listed in different orders, and
   their streams differ. Equality of the lists of records decides, see
   `StreamIsInjective`.
   */
  lemma {:induction false} BackslashCollides(content: Bytes)
    ensures IsListing([[A_BACKSLASH_B]], Flat(content)) && IsListing([[A, B]], Nested(content))
    ensures ContentAt(Flat(content), [A_BACKSLASH_B]).Some? && ContentAt(Nested(content), [A_BACKSLASH_B]).None?
    ensures ContentAt(Nested(content), [A, B]).Some?
    ensures Stream(Records(Flat(content), [[A_BACKSLASH_B]])) == Stream(Records(Nested(content), [[A, B]]))
  {
    hide ContentAt, Lookup, Flat, Nested, Stream;
    FlatListing(content);
    NestedListing(content);
    assert A != A_BACKSLASH_B && [A_BACKSLASH_B] != [A, B];
    assert [A, B][1..] == [B];
    assert Join([A_BACKSLASH_B]) == A_BACKSLASH_B && Join([A, B]) == [0x61, SLASH, 0x62];
    assert Slashes(A_BACKSLASH_B) == [0x61, SLASH, 0x62];
    assert Slashes([0x61, SLASH, 0x62]) == [0x61, SLASH, 0x62];
    assert Records(Flat(content), [[A_BACKSLASH_B]]) == Records(Nested(content), [[A, B]]);
  }

  // ----- hexadecimal -----

  function HexOf(bytes: Bytes): string
  {
    if bytes == [] then ""
    else HexOf(bytes[..|bytes| - 1]) + [HexDigit(bytes[|bytes| - 1] / 16), HexDigit(bytes[|bytes| - 1] % 16)]
  }

  /** Two lower-case digits a byte, the high one first. */
  lemma {:induction false} HexDigits(bytes: Bytes, i: nat)
    requires i < |bytes|
    ensures |HexOf(bytes)| == 2 * |bytes|
    ensures HexValue(HexOf(bytes)[2 * i]) == Some(bytes[i] / 16) && HexValue(HexOf(bytes)[2 * i + 1]) == Some(bytes[i] % 16)
  {
    hide HexDigit, HexValue;
    var init, last := bytes[..|bytes| - 1], bytes[|bytes| - 1];
    HexBack(last / 16);
    HexBack(last % 16);
    if init == [] {
      assert HexOf(init) == "";
    } else {
      HexDigits(init, if i < |init| then i else 0);
    }
  }

  method Hex(bytes: Bytes) returns (output: string)
    ensures output == HexOf(bytes)
  {
    output := "";
    for i := 0 to |bytes|
      invariant output == HexOf(bytes[..i])
    {
      assert bytes[..i + 1][..i] == bytes[..i];
      output := output + [HexDigit(bytes[i] / 16)];
      output := output + [HexDigit(bytes[i] % 16)];
    }
    assert bytes[..|bytes|] == bytes;
  }
}