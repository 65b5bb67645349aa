/**
 * The pruned discovery walk of VaultStorage.list_files (src/obsidian_mcp/storage/filesystem.py)
 * against the simple listing it stands for: every file of the tree, filtered by the direct read check.
 */
module VaultWalk {
  import opened Text
  import opened Paths
  import opened PathRules
  import opened AccessPolicy

  /** `Broken` fails to stat; `Sealed` is a directory that cannot be opened. */
  datatype Node = Leaf | Link | Broken | Sealed | Dir(entries: seq<Entry>)

  datatype Entry = Entry(name: string, node: Node)

  function Child(prefix: string, name: string): string {
    if prefix == "" then name else prefix + "/" + name
  }

  /** The operating system has no empty names and none with a slash. */
  predicate Named(entries: seq<Entry>) {
    forall e :: e in entries ==> e.name != "" && '/' !in e.name && (e.node.Dir? ==> Named(e.node.entries))
  }

  /** Every non-directory that is not a symbolic link, in scan order. */
  function AllFiles(entries: seq<Entry>, prefix: string): seq<string> {
    if entries == [] then [] else FilesOf(entries[0], prefix) + AllFiles(entries[1..], prefix)
  }

  function FilesOf(entry: Entry, prefix: string): seq<string> {
    match entry.node
    case Leaf => [Child(prefix, entry.name)]
    case Dir(inner) => AllFiles(inner, Child(prefix, entry.name))
    case _ => []
  }

  /** The same scan, which does not enter a directory that the policy refuses to discover. */
  function Walk(policy: Policy, fold: Fold, entries: seq<Entry>, prefix: string): seq<string> {
    if entries == [] then []
    else WalkEntry(policy, fold, entries[0], prefix) + Walk(policy, fold, entries[1..], prefix)
  }

  function WalkEntry(policy: Policy, fold: Fold, entry: Entry, prefix: string): seq<string> {
    var path := Child(prefix, entry.name);
    match entry.node
    case Leaf => if policy.Discovers(path, false, fold) then [path] else []
    case Dir(inner) => if policy.Discovers(path, true, fold) then Walk(policy, fold, inner, path) else []
    case _ => []
  }

  /** A caller who names this file directly is allowed to read exactly this file. */
  predicate Readable(policy: Policy, fold: Fold, path: string) {
    policy.ResolveRead(path, false, fold) == Ok(path)
  }

  function ReadableOnly(policy: Policy, fold: Fold, paths: seq<string>): seq<string> {
    if paths == [] then []
    else (if Readable(policy, fold, paths[0]) then [paths[0]] else []) + ReadableOnly(policy, fold, paths[1..])
  }

  /** A deny rule without a trailing slash names this directory. */
  predicate ExactlyDenied(policy: Policy, fold: Fold, dir: string) {
    exists rule :: rule in policy.denyReadPaths && !Recursive(rule) && MatchesFolded(dir, rule, fold)
  }

  /** Some directory of the tree is named by an exact deny rule and has a readable file below it. */
  predicate Hides(policy: Policy, fold: Fold, entries: seq<Entry>, prefix: string) {
    entries != [] && (HidesEntry(policy, fold, entries[0], prefix) || Hides(policy, fold, entries[1..], prefix))
  }

  predicate HidesEntry(policy: Policy, fold: Fold, entry: Entry, prefix: string) {
    var path := Child(prefix, entry.name);
    entry.node.Dir? &&
      (|| (ExactlyDenied(policy, fold, path)
           && ReadableOnly(policy, fold, AllFiles(entry.node.entries, path)) != [])
       || Hides(policy, fold, entry.node.entries, path))
  }

  lemma {:induction false} ReadableOnlyOfConcat(policy: Policy, fold: Fold, a: seq<string>, b: seq<string>)
    ensures ReadableOnly(policy, fold, a + b) == ReadableOnly(policy, fold, a) + ReadableOnly(policy, fold, b)
  {
    if a == [] {
      assert a + b == b;
    } else {
      assert (a + b)[1..] == a[1..] + b;
      ReadableOnlyOfConcat(policy, fold, a[1..], b);
    }
  }

  lemma {:induction false} ReadableOnlyMembers(policy: Policy, fold: Fold, paths: seq<string>)
    ensures forall p :: p in ReadableOnly(policy, fold, paths) <==> p in paths && Readable(policy, fold, p)
  {
    if paths != [] {
      ReadableOnlyMembers(policy, fold, paths[1..]);
      assert forall p :: p in paths <==> p == paths[0] || p in paths[1..];
    }
  }

  lemma {:induction false} FilesAreBelow(entries: seq<Entry>, prefix: string, path: string)
    requires Named(entries) && prefix != "" && path in AllFiles(entries, prefix)
    ensures exists rest :: path == prefix + "/" + rest
    decreases entries
  {
    var entry := entries[0];
    if path in FilesOf(entry, prefix) {
      if entry.node.Leaf? {
        assert path == prefix + "/" + entry.name;
      } else {
        FilesAreBelow(entry.node.entries, Child(prefix, entry.name), path);
        var rest :| path == Child(prefix, entry.name) + "/" + rest;
        assert path == prefix + "/" + (entry.name + "/" + rest);
      }
    } else {
      FilesAreBelow(entries[1..], prefix, path);
    }
  }

  /** Pruning is harmless above a readable file, except where an exact deny rule names the directory. */
  lemma PrunedAboveReadable(policy: Policy, fold: Fold, dir: string, rest: string)
    requires fold('/') == "/" && dir != ""
    requires Readable(policy, fold, dir + "/" + rest)
    ensures policy.Discovers(dir, true, fold) <==> !ExactlyDenied(policy, fold, dir)
  {
    hide Normalise, CaseFold, Denied;
    var path := dir + "/" + rest;
    SelfNormalParent(dir, rest);
    if policy.readPaths != [] {
      var i :| 0 <= i < |policy.readPaths| && Matches(path, policy.readPaths[i]);
      var scope := RulePath(policy.readPaths[i]);
      assert dir + "/" <= path;
      if |scope| < |dir| {
        assert scope + "/" == path[..|scope| + 1] == dir[..|scope| + 1];
      } else if |scope| == |dir| {
        assert scope == path[..|dir|] == dir;
      } else {
        assert dir + "/" == path[..|dir| + 1] == scope[..|dir| + 1];
      }
      assert policy.ReadScopeAllows(dir, true);
    }
    if Denied(dir, policy.denyReadPaths, fold).Some? {
      DeniedDirectory(dir, rest, policy.denyReadPaths, fold);
    }
  }

  lemma {:induction false} WalkAgainstFilter(policy: Policy, fold: Fold, entries: seq<Entry>, prefix: string)
    requires fold('/') == "/" && Named(entries)
    ensures var listed, expected := Walk(policy, fold, entries, prefix),
                                    ReadableOnly(policy, fold, AllFiles(entries, prefix));
            && |listed| <= |expected|
            && (listed == expected <==> !Hides(policy, fold, entries, prefix))
            && (forall p :: p in listed ==> p in expected)
    decreases entries
  {
    if entries != [] {
      WalkEntryAgainstFilter(policy, fold, entries[0], prefix);
      WalkAgainstFilter(policy, fold, entries[1..], prefix);
      ReadableOnlyOfConcat(policy, fold, FilesOf(entries[0], prefix), AllFiles(entries[1..], prefix));
      var a, b := WalkEntry(policy, fold, entries[0], prefix), Walk(policy, fold, entries[1..], prefix);
      var c := ReadableOnly(policy, fold, FilesOf(entries[0], prefix));
      var d := ReadableOnly(policy, fold, AllFiles(entries[1..], prefix));
      if a + b == c + d {
        assert |a| == |c|;
        assert a == (a + b)[..|a|] && b == (a + b)[|a|..];
      }
    }
  }

  lemma {:induction false} WalkEntryAgainstFilter(policy: Policy, fold: Fold, entry: Entry, prefix: string)
    requires fold('/') == "/" && entry.name != "" && (entry.node.Dir? ==> Named(entry.node.entries))
    ensures var listed, expected := WalkEntry(policy, fold, entry, prefix),
                                    ReadableOnly(policy, fold, FilesOf(entry, prefix));
            && |listed| <= |expected|
            && (listed == expected <==> !HidesEntry(policy, fold, entry, prefix))
            && (forall p :: p in listed ==> p in expected)
    decreases entry
  {
    var path := Child(prefix, entry.name);
    match entry.node
    case Leaf =>
    case Dir(inner) =>
      WalkAgainstFilter(policy, fold, inner, path);
      var files := AllFiles(inner, path);
      if ReadableOnly(policy, fold, files) != [] {
        ReadableOnlyMembers(policy, fold, files);
        var file := ReadableOnly(policy, fold, files)[0];
        assert file in ReadableOnly(policy, fold, files);
        FilesAreBelow(inner, path, file);
        var rest :| file == path + "/" + rest;
        PrunedAboveReadable(policy, fold, path, rest);
      } else {
        assert Walk(policy, fold, inner, path) == [];
      }
    case _ =>
  }

  // ---------------------------------------------------------------------------------------
  // The walk as a set of names

  /** A directory above the file, below the one the walk starts from, is named by an exact deny rule. */
  ghost predicate Pruned(policy: Policy, fold: Fold, path: string, prefix: string) {
    exists dir :: Below(path, dir) && (prefix == "" || Below(dir, prefix)) && ExactlyDenied(policy, fold, dir)
  }

  /** A name without a slash leaves no room for a directory between a directory and its child. */
  lemma NothingBetween(prefix: string, name: string, path: string, dir: string)
    requires name != "" && '/' !in name && (path == Child(prefix, name) || Below(path, Child(prefix, name)))
    requires Below(path, dir) && (prefix == "" || Below(dir, prefix))
    ensures dir == Child(prefix, name) || Below(dir, Child(prefix, name))
  {
    var child := Child(prefix, name);
    var at := |child| - |name|;
    assert forall i :: 0 <= i < |name| ==> child[at + i] == name[i];
    assert path[|dir|] == '/' && dir == path[..|dir|] && child == path[..|child|];
    if |dir| < |child| {
      assert false;
    } else if |dir| > |child| {
      assert child + "/" == path[..|child| + 1] == dir[..|child| + 1];
    }
  }

  lemma PrunedByChild(policy: Policy, fold: Fold, prefix: string, name: string, path: string)
    requires name != "" && '/' !in name && Below(path, Child(prefix, name))
    ensures Pruned(policy, fold, path, prefix)
            <==> ExactlyDenied(policy, fold, Child(prefix, name)) || Pruned(policy, fold, path, Child(prefix, name))
  {
    hide ExactlyDenied;
    var child := Child(prefix, name);
    if Pruned(policy, fold, path, prefix) {
      var dir :| Below(path, dir) && (prefix == "" || Below(dir, prefix)) && ExactlyDenied(policy, fold, dir);
      NothingBetween(prefix, name, path, dir);
    }
    if ExactlyDenied(policy, fold, child) {
      assert prefix == "" || Below(child, prefix);
    } else if Pruned(policy, fold, path, child) {
      var dir :| Below(path, dir) && Below(dir, child) && ExactlyDenied(policy, fold, dir);
      assert prefix == "" || prefix + "/" <= child <= dir;
    }
  }

  lemma NotPrunedAtOnce(policy: Policy, fold: Fold, prefix: string, name: string)
    requires name != "" && '/' !in name
    ensures !Pruned(policy, fold, Child(prefix, name), prefix)
  {
    hide ExactlyDenied;
    var child := Child(prefix, name);
    if Pruned(policy, fold, child, prefix) {
      var dir :| Below(child, dir) && (prefix == "" || Below(dir, prefix)) && ExactlyDenied(policy, fold, dir);
      NothingBetween(prefix, name, child, dir);
      assert false;
    }
  }

  /** The walk yields exactly the readable files above which no exact deny rule names a directory. */
  lemma {:induction false} WalkMembers(policy: Policy, fold: Fold, entries: seq<Entry>, prefix: string, path: string)
    requires fold('/') == "/" && Named(entries)
    ensures path in Walk(policy, fold, entries, prefix)
            <==> path in AllFiles(entries, prefix) && Readable(policy, fold, path)
                 && !Pruned(policy, fold, path, prefix)
    decreases entries
  {
    hide Pruned, Readable;
    if entries != [] {
      WalkEntryMembers(policy, fold, entries[0], prefix, path);
      WalkMembers(policy, fold, entries[1..], prefix, path);
    }
  }

  lemma {:induction false} WalkEntryMembers(policy: Policy, fold: Fold, entry: Entry, prefix: string, path: string)
    requires fold('/') == "/" && entry.name != "" && '/' !in entry.name
    requires entry.node.Dir? ==> Named(entry.node.entries)
    ensures path in WalkEntry(policy, fold, entry, prefix)
            <==> path in FilesOf(entry, prefix) && Readable(policy, fold, path) && !Pruned(policy, fold, path, prefix)
    decreases entry
  {
    hide Pruned, ExactlyDenied, Policy.AllowsRead;
    var child := Child(prefix, entry.name);
    match entry.node
    case Leaf => NotPrunedAtOnce(policy, fold, prefix, entry.name);
    case Dir(inner) =>
      WalkMembers(policy, fold, inner, child, path);
      if path in AllFiles(inner, child) {
        FilesAreBelow(inner, child, path);
        var rest :| path == child + "/" + rest;
        PrunedByChild(policy, fold, prefix, entry.name, path);
        if Readable(policy, fold, path) {
          PrunedAboveReadable(policy, fold, child, rest);
        }
      }
    case _ =>
  }

  /** The walk yields nothing more often than the tree has it. */
  lemma {:induction false} WalkIsPart(policy: Policy, fold: Fold, entries: seq<Entry>, prefix: string)
    ensures multiset(Walk(policy, fold, entries, prefix)) <= multiset(AllFiles(entries, prefix))
    decreases entries
  {
    hide Policy.Discovers;
    if entries != [] {
      WalkIsPart(policy, fold, entries[1..], prefix);
      var entry := entries[0];
      if entry.node.Dir? {
        WalkIsPart(policy, fold, entry.node.entries, Child(prefix, entry.name));
      }
      assert multiset(WalkEntry(policy, fold, entry, prefix)) <= multiset(FilesOf(entry, prefix));
    }
  }

  /** The directory a listing starts from, or nothing where opening a component fails. */
  function OpenDir(entries: seq<Entry>, parts: seq<string>): Option<seq<Entry>>
    decreases |parts|
  {
    if parts == [] then Some(entries)
    else match FindDir(entries, parts[0])
      case None => None
      case Some(inner) => OpenDir(inner, parts[1..])
  }

  function FindDir(entries: seq<Entry>, name: string): (r: Option<seq<Entry>>)
    ensures Named(entries) && r.Some? ==> Named(r.value)
  {
    if entries == [] then None
    else if entries[0].name == name && entries[0].node.Dir? then Some(entries[0].node.entries)
    else FindDir(entries[1..], name)
  }

  lemma {:induction false} OpenDirIsNamed(entries: seq<Entry>, parts: seq<string>)
    requires Named(entries) && OpenDir(entries, parts).Some?
    ensures Named(OpenDir(entries, parts).value)
    decreases |parts|
  {
    if parts != [] {
      OpenDirIsNamed(FindDir(entries, parts[0]).value, parts[1..]);
    }
  }

  /** No directory has two entries of one name. */
  predicate Distinct(entries: seq<Entry>) {
    && (forall i, j :: 0 <= i < j < |entries| ==> entries[i].name != entries[j].name)
    && forall e :: e in entries && e.node.Dir? ==> Distinct(e.node.entries)
  }

  lemma ChildHasOneName(prefix: string, m: string, n: string)
    requires m != "" && n != "" && '/' !in m && '/' !in n
    ensures Child(prefix, m) == Child(prefix, n) ==> m == n
    ensures !Below(Child(prefix, m), Child(prefix, n))
  {
    var a, b := Child(prefix, m), Child(prefix, n);
    var at := if prefix == "" then 0 else |prefix| + 1;
    assert a[at..] == m && b[at..] == n && |b| >= at;
    assert forall i :: at <= i < |a| ==> a[i] == m[i - at];
    if |a| > |b| {
      assert m[|b| - at] in m && a[|b|] != (b + "/")[|b|];
    }
  }

  lemma FilesOfEntryBelow(entry: Entry, prefix: string, n: string, path: string)
    requires entry.name != "" && '/' !in entry.name && (entry.node.Dir? ==> Named(entry.node.entries))
    requires n != "" && '/' !in n && path in FilesOf(entry, prefix) && Below(path, Child(prefix, n))
    ensures entry.name == n && entry.node.Dir?
  {
    var child, dir := Child(prefix, entry.name), Child(prefix, n);
    ChildHasOneName(prefix, entry.name, n);
    ChildHasOneName(prefix, n, entry.name);
    if entry.node.Dir? {
      FilesAreBelow(entry.node.entries, child, path);
      NothingBetween(prefix, entry.name, path, dir);
    }
  }

  /** The files below a child directory are the files of that directory. */
  lemma {:induction false} FindDirFiles(entries: seq<Entry>, prefix: string, n: string, path: string)
    requires Named(entries) && Distinct(entries) && n != "" && '/' !in n
    ensures var child := Child(prefix, n);
            var below := path in AllFiles(entries, prefix) && Below(path, child);
            match FindDir(entries, n)
            case None => !below
            case Some(inner) => path in AllFiles(inner, child) <==> below
    decreases |entries|
  {
    hide Below;
    if entries != [] {
      var entry, rest, child := entries[0], entries[1..], Child(prefix, n);
      assert entry in entries && forall i :: 0 <= i < |rest| ==> rest[i] == entries[i + 1];
      FindDirFiles(rest, prefix, n, path);
      if path in FilesOf(entry, prefix) && Below(path, child) {
        FilesOfEntryBelow(entry, prefix, n, path);
      }
      if entry.name == n && entry.node.Dir? {
        NotFoundTwice(rest, n);
        if path in AllFiles(entry.node.entries, child) {
          FilesAreBelow(entry.node.entries, child, path);
          IsBelow(path, child);
        }
      }
    }
  }

  lemma IsBelow(path: string, dir: string)
    requires exists rest :: path == dir + "/" + rest
    ensures Below(path, dir)
  {
  }

  lemma {:induction false} NotFoundTwice(entries: seq<Entry>, n: string)
    requires forall i :: 0 <= i < |entries| ==> entries[i].name != n
    ensures FindDir(entries, n).None?
  {
    if entries != [] {
      NotFoundTwice(entries[1..], n);
    }
  }

  lemma {:induction false} FindDirIsDistinct(entries: seq<Entry>, n: string)
    requires Distinct(entries) && Named(entries) && FindDir(entries, n).Some?
    ensures Distinct(FindDir(entries, n).value) && Named(FindDir(entries, n).value)
  {
    assert entries[0] in entries;
    if !(entries[0].name == n && entries[0].node.Dir?) {
      FindDirIsDistinct(entries[1..], n);
    }
  }

  /** Opening a directory by its components finds exactly the files below its path, or there are none. */
  lemma {:induction false} OpenDirFiles(entries: seq<Entry>, prefix: string, parts: seq<string>, path: string)
    requires Named(entries) && Distinct(entries) && parts != []
    requires forall n :: n in parts ==> n != "" && '/' !in n
    ensures var at := Child(prefix, Join(parts, '/'));
            var below := path in AllFiles(entries, prefix) && Below(path, at);
            match OpenDir(entries, parts)
            case None => !below
            case Some(start) => path in AllFiles(start, at) <==> below
    decreases |parts|
  {
    hide Below, Distinct, Named, FindDir;
    var n, rest := parts[0], parts[1..];
    var child, at := Child(prefix, n), Child(prefix, Join(parts, '/'));
    assert n in parts && forall m :: m in rest ==> m in parts;
    FindDirFiles(entries, prefix, n, path);
    if rest == [] {
      assert at == child && OpenDir(entries, parts) == FindDir(entries, n);
    } else {
      assert at == Child(child, Join(rest, '/'));
      if Below(path, at) {
        StillBelow(path, child, Join(rest, '/'));
      }
      if FindDir(entries, n).Some? {
        FindDirIsDistinct(entries, n);
        OpenDirFiles(FindDir(entries, n).value, child, rest, path);
      }
    }
  }

  lemma StillBelow(path: string, dir: string, rest: string)
    requires dir != "" && Below(path, Child(dir, rest))
    ensures Below(path, dir)
  {
    assert dir + "/" <= dir + "/" + rest + "/" <= path;
  }

  /** The same for a name in normal form, or for the whole vault. */
  lemma StartHasTheFiles(root: seq<Entry>, raw: string, path: string)
    requires Named(root) && Distinct(root) && Normalise(raw).Some?
    ensures var target := Normalise(raw).value;
            var below := path in AllFiles(root, "") && (target == "" || Below(path, target));
            match OpenDir(root, if target == "" then [] else Split(target, '/'))
            case None => !below
            case Some(start) => path in AllFiles(start, target) <==> below
  {
    hide Normalise, Named, Distinct, Below, AllFiles, Split;
    var target := Normalise(raw).value;
    if target != "" {
      NormaliseIsCanonical(raw);
      JoinOfSplit(target, '/');
      OpenDirFiles(root, "", Split(target, '/'), path);
    }
  }

  datatype ListError = Refused(e: AccessError) | NotADirectory

  /** The recursive generator of list_files, one directory at a time. */
  method WalkDirectory(policy: Policy, fold: Fold, entries: seq<Entry>, prefix: string)
    returns (found: seq<string>)
    ensures found == Walk(policy, fold, entries, prefix)
    decreases entries
  {
    found := [];
    for i := 0 to |entries|
      invariant found + Walk(policy, fold, entries[i..], prefix) == Walk(policy, fold, entries, prefix)
    {
      var step := VisitEntry(policy, fold, entries[i], prefix);
      WalkUnrolls(policy, fold, entries, i, prefix, step);
      ghost var rest := Walk(policy, fold, entries[i + 1..], prefix);
      assert (found + step) + rest == found + (step + rest);
      found := found + step;
    }
  }

  method VisitEntry(policy: Policy, fold: Fold, entry: Entry, prefix: string) returns (found: seq<string>)
    ensures found == WalkEntry(policy, fold, entry, prefix)
    decreases entry
  {
    var path := Child(prefix, entry.name);
    found := [];
    match entry.node {
      case Leaf =>
        if policy.Discovers(path, false, fold) {
          found := [path];
        }
      case Dir(inner) =>
        if policy.Discovers(path, true, fold) {
          found := WalkDirectory(policy, fold, inner, path);
        }
      case _ =>
    }
  }

  lemma WalkUnrolls(policy: Policy, fold: Fold, entries: seq<Entry>, i: nat, prefix: string, step: seq<string>)
    requires i < |entries| && step == WalkEntry(policy, fold, entries[i], prefix)
    ensures Walk(policy, fold, entries[i..], prefix) == step + Walk(policy, fold, entries[i + 1..], prefix)
  {
    assert entries[i..][0] == entries[i] && entries[i..][1..] == entries[i + 1..];
  }

  /**
   * list_files. The listing is exactly the readable files below the target if and only if no exact
   * deny rule names a directory above one of them; whatever is listed is always readable.
   */
  method ListFiles(policy: Policy, fold: Fold, root: seq<Entry>, path: string)
    returns (r: Result<seq<string>, ListError>)
    requires fold('/') == "/" && Named(root)
    ensures policy.ResolveRead(path, true, fold).Err? ==> r == Err(Refused(policy.ResolveRead(path, true, fold).error))
    ensures policy.ResolveRead(path, true, fold).Ok? ==>
              var target := policy.ResolveRead(path, true, fold).value;
              var start := OpenDir(root, if target == "" then [] else Split(target, '/'));
              && (r.Ok? <==> start.Some?)
              && (r.Err? ==> r.error == NotADirectory)
              && (r.Ok? ==>
                  var expected := ReadableOnly(policy, fold, AllFiles(start.value, target));
                  && (r.value == expected <==> !Hides(policy, fold, start.value, target))
                  && (forall p :: p in r.value ==> p in expected && Readable(policy, fold, p)))
    ensures policy.ResolveRead(path, true, fold).Ok? && Distinct(root) ==>
              var target := policy.ResolveRead(path, true, fold).value;
              if r.Err? then forall p :: p in AllFiles(root, "") ==> target != "" && !Below(p, target)
              else forall p :: p in r.value <==>
                     && p in AllFiles(root, "") && (target == "" || Below(p, target))
                     && Readable(policy, fold, p) && !Pruned(policy, fold, p, target)
  {
    match policy.ResolveRead(path, true, fold)
    case Err(e) => return Err(Refused(e));
    case Ok(target) =>
      var start := OpenDir(root, if target == "" then [] else Split(target, '/'));
      if Distinct(root) {
        FilesFromStart(policy, fold, root, path, target);
      }
      if start.None? {
        return Err(NotADirectory);
      }
      var found := WalkDirectory(policy, fold, start.value, target);
      OpenDirIsNamed(root, if target == "" then [] else Split(target, '/'));
      WalkAgainstFilter(policy, fold, start.value, target);
      ReadableOnlyMembers(policy, fold, AllFiles(start.value, target));
      return Ok(found);
  }

  lemma FilesFromStart(policy: Policy, fold: Fold, root: seq<Entry>, path: string, target: string)
    requires fold('/') == "/" && Named(root) && Distinct(root) && policy.ResolveRead(path, true, fold) == Ok(target)
    ensures var start := OpenDir(root, if target == "" then [] else Split(target, '/'));
            forall p ::
              if start.None? then p in AllFiles(root, "") ==> target != "" && !Below(p, target)
              else p in Walk(policy, fold, start.value, target) <==>
                   && p in AllFiles(root, "") && (target == "" || Below(p, target))
                   && Readable(policy, fold, p) && !Pruned(policy, fold, p, target)
  {
    hide Normalise, Named, Distinct, Below, AllFiles, Walk, Split, Readable, Pruned, Policy.AllowsRead;
    var parts := if target == "" then [] else Split(target, '/');
    var start := OpenDir(root, parts);
    forall p ensures
        if start.None? then p in AllFiles(root, "") ==> target != "" && !Below(p, target)
        else p in Walk(policy, fold, start.value, target) <==>
             && p in AllFiles(root, "") && (target == "" || Below(p, target))
             && Readable(policy, fold, p) && !Pruned(policy, fold, p, target)
    {
      StartHasTheFiles(root, path, p);
      if start.Some? {
        OpenDirIsNamed(root, parts);
        WalkMembers(policy, fold, start.value, target, p);
      }
    }
  }

  /** A deny rule "dir" keeps the readable file "dir/a.md" out of the listing. */
  lemma ListingHidesReadable(fold: Fold)
    requires fold('/') == "/"
    ensures var policy := Policy(false, [], [], ["dir"], []);
            var root := [Entry("dir", Dir([Entry("a.md", Leaf)]))];
            && Named(root) && Hides(policy, fold, root, "")
            && Walk(policy, fold, root, "") == [] && ReadableOnly(policy, fold, AllFiles(root, "")) == ["dir/a.md"]
  {
    hide Readable, ExactlyDenied, Policy.Discovers, Walk, AllFiles, ReadableOnly, Hides;
    OnlyDirIsDenied(fold);
    OneFileBelow(Policy(false, [], [], ["dir"], []), fold);
  }

  lemma OnlyDirIsDenied(fold: Fold)
    requires fold('/') == "/"
    ensures var policy := Policy(false, [], [], ["dir"], []);
            && Readable(policy, fold, "dir/a.md") && ExactlyDenied(policy, fold, "dir")
            && !policy.Discovers("dir", true, fold)
  {
    hide Readable, ExactlyDenied, Policy.Discovers;
    DirIsDenied(fold);
    FileIsReadable(fold);
  }

  lemma DirIsDenied(fold: Fold)
    requires fold('/') == "/"
    ensures var policy := Policy(false, [], [], ["dir"], []);
            ExactlyDenied(policy, fold, "dir") && !policy.Discovers("dir", true, fold)
  {
    hide Normalise, SelfNormal, Denied, MatchesFolded, RulePath, Recursive;
    ExactRuleStandsAlone("dir", "a.md", fold);
    assert "dir" in ["dir"];
  }

  lemma FileIsReadable(fold: Fold)
    requires fold('/') == "/"
    ensures Readable(Policy(false, [], [], ["dir"], []), fold, "dir/a.md")
  {
    hide Normalise, Denied, MatchesFolded, RulePath, Recursive, Policy.AllowsRead;
    assert "dir" + "/" + "a.md" == "dir/a.md";
    ExactRuleStandsAlone("dir", "a.md", fold);
    FileIsAllowed(fold);
    PairIsNormal("dir", "a.md");
  }

  lemma FileIsAllowed(fold: Fold)
    requires Denied("dir/a.md", ["dir"], fold).None?
    ensures Policy(false, [], [], ["dir"], []).AllowsRead("dir/a.md", false, fold)
  {
    hide Denied;
  }

  lemma OneFileBelow(policy: Policy, fold: Fold)
    ensures var root := [Entry("dir", Dir([Entry("a.md", Leaf)]))];
            && Named(root)
            && (Readable(policy, fold, "dir/a.md") ==> ReadableOnly(policy, fold, AllFiles(root, "")) == ["dir/a.md"])
            && (!policy.Discovers("dir", true, fold) ==> Walk(policy, fold, root, "") == [])
            && (Readable(policy, fold, "dir/a.md") && ExactlyDenied(policy, fold, "dir") ==>
                  Hides(policy, fold, root, ""))
  {
    hide Readable, ExactlyDenied, Policy.Discovers;
    var inner := [Entry("a.md", Leaf)];
    var root := [Entry("dir", Dir(inner))];
    assert inner[1..] == [] && root[1..] == [] && Child("dir", "a.md") == "dir/a.md";
    assert FilesOf(inner[0], "dir") == ["dir/a.md"];
    assert AllFiles(inner, "dir") == ["dir/a.md"];
    assert FilesOf(root[0], "") == ["dir/a.md"] && AllFiles(root, "") == ["dir/a.md"];
    var file := ["dir/a.md"];
    assert file[1..] == [] && (Readable(policy, fold, "dir/a.md") ==> ReadableOnly(policy, fold, file) == file);
    assert !policy.Discovers("dir", true, fold) ==> WalkEntry(policy, fold, root[0], "") == [];
  }
}
