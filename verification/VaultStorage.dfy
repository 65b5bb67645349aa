/**
 * move, trash and restore of VaultStorage (src/obsidian_mcp/storage/filesystem.py) on a vault whose
 * entries are updated in place. Every path is authorized before the first change; what is then removed
 * or created is what was authorized, and nothing is lost.
 */
module VaultStorage {
  import opened Text
  import opened Revisions
  import opened Paths
  import opened PathRules
  import opened AccessPolicy
  import opened WriteScope
  import opened TreeMutations

  datatype MutationError =
    | Refused(e: AccessError)
    | CrossesProtected
    | BadDestination
    | BadName
    | NoSuchEntry
    | AlreadyExists
    | ParentMissing
    | ParentNotADirectory

  const TRASH := ".trash"

  /** Some deny rule speaks of a name below this directory. */
  predicate ProtectsBelow(rules: seq<string>, dir: string) {
    exists rule :: rule in rules && Below(RulePath(rule), dir)
  }

  /** Every entry of the source may be deleted. */
  ghost predicate SourceAuthorized(policy: Policy, fold: Fold, fs: Tree, src: string) {
    && (src in fs && fs[src].Directory? ==> !ProtectsBelow(policy.denyWritePaths, src))
    && (forall p :: p in TreePaths(fs, src) ==> policy.ResolveDelete(p, false, false, fold).Ok?)
  }

  /** Every name the source's entries will get may be written. */
  ghost predicate DestinationAuthorized(policy: Policy, fold: Fold, fs: Tree, src: string, dst: string) {
    && (src in fs && fs[src].Directory? ==> !ProtectsBelow(policy.denyWritePaths, dst))
    && (forall p :: p in TreePaths(fs, src) ==> policy.ResolveWrite(Mapped(p, src, dst), false, fold).Ok?)
  }

  /** The missing ancestors of `dst` that were made on the way, all of them inside the write scope. */
  ghost predicate ParentsOf(made: set<string>, dst: string, policy: Policy) {
    forall d :: d in made ==>
      IsAncestor(d, dst) && (policy.writePaths != [] ==> InScope(d, dst, policy.writePaths))
  }

  /** The parents of `dst` are there, or missing where they may be made. */
  predicate CanOpen(fs: Tree, dst: string, policy: Policy)
    requires policy.writePaths != [] ==> AnyMatches(dst, policy.writePaths)
  {
    var dirs := set d | d in fs && fs[d].Directory?;
    Openable(dirs, fs.Keys - dirs, dst, policy.writePaths)
  }

  function WithDirectories(fs: Tree, made: set<string>): Tree {
    fs + map d | d in made - fs.Keys :: Directory
  }

  /** `name.rpartition(".")` and a suffix of eight hexadecimal digits in front of the extension. */
  function Suffixed(name: string, suffix: string): string {
    var parts := Split(name, '.');
    var ext := parts[|parts| - 1];
    if |parts| == 1 then name + "-" + suffix
    else Join(parts[..|parts| - 1], '.') + "-" + suffix + (if ext == "" then "" else "." + ext)
  }

  function BaseName(path: string): string {
    var parts := Split(path, '/');
    parts[|parts| - 1]
  }

  /** The name a trashed entry gets. */
  function TrashName(fs: Tree, src: string, suffix: string): string {
    var name := BaseName(src);
    if TRASH + "/" + name in fs then Suffixed(name, suffix) else name
  }

  lemma AncestorIsAbove(d: string, dst: string)
    requires IsAncestor(d, dst)
    ensures Below(dst, d)
  {
    var parts := Split(dst, '/');
    var i :| 0 <= i < |parts| - 1 && Ancestor(parts, i) == d;
    JoinOfSplit(dst, '/');
    assert parts == parts[..i + 1] + parts[i + 1..];
    JoinOfConcat(parts[..i + 1], parts[i + 1..], '/');
  }

  lemma {:induction false} AboveIsAncestor(dst: string, d: string)
    requires Below(dst, d)
    ensures IsAncestor(d, dst)
  {
    var rest := dst[|d| + 1..];
    assert dst == d + "/" + rest;
    SplitOfConcat(d, rest, '/');
    JoinOfSplit(d, '/');
    var parts, i := Split(dst, '/'), |Split(d, '/')| - 1;
    assert parts[..i + 1] == Split(d, '/');
    assert 0 <= i < |parts| - 1 && Ancestor(parts, i) == d;
  }

  /** An ancestor that had to be made was not there, and nothing is made above a file. */
  lemma OnlyMissingAreMade(fs: Tree, made: set<string>, dst: string)
    requires WellFormed(fs) && made !! fs.Keys && forall d :: d in made ==> IsAncestor(d, dst)
    requires forall d :: Below(dst, d) ==> d in fs.Keys + made && (d in fs ==> fs[d].Directory?)
    ensures WellFormed(WithDirectories(fs, made))
  {
    var gs := WithDirectories(fs, made);
    forall p, d | p in gs && Below(p, d) ensures d in gs && gs[d].Directory? {
      if p in made {
        AncestorIsAbove(p, dst);
        InsideIsTransitive(dst, p, d);
        assert Below(dst, d) by { BelowIsTransitive(dst, p, d); }
      }
    }
  }

  lemma BelowIsTransitive(q: string, p: string, d: string)
    requires Below(q, p) && Below(p, d)
    ensures Below(q, d)
  {
    assert d + "/" == p[..|d| + 1] == q[..|d| + 1];
  }

  /** The new parents of a free destination lie outside the source and outside the destination. */
  lemma ParentsLeaveFree(fs: Tree, made: set<string>, src: string, dst: string, policy: Policy)
    requires WellFormed(fs) && src in fs && dst !in fs && !Inside(dst, src)
    requires made !! fs.Keys && ParentsOf(made, dst, policy)
    ensures Free(WithDirectories(fs, made), src, dst)
    ensures TreePaths(WithDirectories(fs, made), src) == TreePaths(fs, src)
  {
    NothingBelow(fs, dst);
    forall d | d in made ensures !Inside(d, dst) && !Inside(d, src) {
      AncestorIsAbove(d, dst);
      if Inside(d, src) {
        InsideIsTransitive(dst, d, src);
      }
    }
    assert TreePaths(WithDirectories(fs, made), dst) == {};
  }

  lemma {:induction false} SuffixedIsPlain(name: string, suffix: string)
    requires '/' !in name && '/' !in suffix
    ensures '/' !in Suffixed(name, suffix)
  {
    var parts := Split(name, '.');
    SplitKeepsOut(name, '.', '/');
    assert parts[|parts| - 1] in parts;
    JoinKeepsOut(parts[..|parts| - 1], '.', '/');
  }

  /** An entry is trashed under its own name, what stands behind the last slash, when that is free. */
  lemma TrashNameMeaning(fs: Tree, path: string, dir: string, name: string, suffix: string)
    requires '/' !in name && (path == name || path == dir + "/" + name)
    ensures TrashName(fs, path, suffix) == if TRASH + "/" + name in fs then Suffixed(name, suffix) else name
  {
    hide Suffixed;
    SplitOfPlain(name, '/');
    if path != name {
      SplitOfConcat(dir, name, '/');
    }
  }

  /** Or, when that is taken, with the suffix behind its stem. */
  lemma SuffixedMeaning(stem: string, ext: string, suffix: string)
    requires '.' !in ext
    ensures Suffixed(stem + "." + ext, suffix) == stem + "-" + suffix + (if ext == "" then "" else "." + ext)
    ensures Suffixed(ext, suffix) == ext + "-" + suffix
  {
    SplitOfConcat(stem, ext, '.');
    SplitOfPlain(ext, '.');
    JoinOfSplit(stem, '.');
    var parts := Split(stem + "." + ext, '.');
    assert parts == Split(stem, '.') + [ext] && parts[..|parts| - 1] == Split(stem, '.');
  }

  lemma BaseNameIsPlain(path: string)
    ensures '/' !in BaseName(path)
  {
    var parts := Split(path, '/');
    assert parts[|parts| - 1] in parts;
  }

  /** A name in the trash has only the trash above it, and the trash has nothing above it. */
  lemma TrashIsTop(name: string)
    requires '/' !in name
    ensures forall d :: Below(TRASH + "/" + name, d) ==> d == TRASH
    ensures forall d :: !Below(TRASH, d)
  {
    var path := TRASH + "/" + name;
    assert forall i :: 0 <= i < |path| && path[i] == '/' ==> i == |TRASH|;
    assert forall i :: 0 <= i < |TRASH| ==> TRASH[i] != '/';
    forall d | Below(path, d) ensures d == TRASH {
      assert path[|d|] == '/' && d == path[..|d|];
    }
    forall d ensures !Below(TRASH, d) {
      SlashOf(TRASH, d);
    }
  }

  lemma SlashOf(path: string, d: string)
    ensures Below(path, d) ==> exists i :: 0 <= i < |path| && path[i] == '/'
  {
    if Below(path, d) {
      assert path[|d|] == '/';
    }
  }

  lemma TrashStaysWellFormed(fs: Tree)
    requires WellFormed(fs) && (TRASH in fs ==> fs[TRASH].Directory?)
    ensures WellFormed(WithDirectories(fs, {TRASH}))
  {
    TrashIsTop("");
    var gs := WithDirectories(fs, {TRASH});
    forall p, d | p in gs && Below(p, d) ensures d in gs && gs[d].Directory? {
      assert p != TRASH;
    }
  }

  /** A resolved name that resolves at all resolves to itself. */
  lemma ResolvedIsStable(policy: Policy, fold: Fold, path: string, dst: string)
    ensures policy.ResolveWrite(path, false, fold) == Ok(dst) && policy.ResolveWrite(dst, false, fold).Ok? ==>
              policy.ResolveWrite(dst, false, fold) == Ok(dst)
  {
    if policy.ResolveWrite(path, false, fold) == Ok(dst) && policy.ResolveWrite(dst, false, fold).Ok? {
      NormaliseIdempotence(path);
    }
  }

  lemma DestinationIsStable(policy: Policy, fold: Fold, fs: Tree, path: string, src: string, dst: string)
    requires policy.ResolveWrite(path, false, fold) == Ok(dst) && src in fs
    requires DestinationAuthorized(policy, fold, fs, src, dst)
    ensures policy.ResolveWrite(dst, false, fold) == Ok(dst)
  {
    assert src in TreePaths(fs, src) && Mapped(src, src, dst) == dst + "" == dst;
    ResolvedIsStable(policy, fold, path, dst);
  }

  lemma KeptByDirectories(fs: Tree, made: set<string>)
    ensures fs.Keys <= WithDirectories(fs, made).Keys
  {
  }

  /** What is there already has its parents there already. */
  lemma ExistingNeedsNoParents(fs: Tree, made: set<string>, dst: string, policy: Policy)
    requires WellFormed(fs) && made !! fs.Keys && ParentsOf(made, dst, policy)
    requires dst in WithDirectories(fs, made)
    ensures dst in fs && WithDirectories(fs, made) == fs
  {
    forall d | d in made ensures Below(dst, d) {
      AncestorIsAbove(d, dst);
    }
    if dst in fs {
      assert made == {};
    } else {
      assert false;
    }
  }

  // ---------------------------------------------------------------------------------------
  // When each mutation goes through

  ghost predicate Movable(policy: Policy, fold: Fold, fs: Tree, fromPath: string, toPath: string) {
    var source := policy.ResolveDelete(fromPath, false, false, fold);
    var target := policy.ResolveWrite(toPath, false, fold);
    && source.Ok? && target.Ok? && source.value in fs && target.value !in fs
    && !Inside(target.value, source.value)
    && SourceAuthorized(policy, fold, fs, source.value)
    && DestinationAuthorized(policy, fold, fs, source.value, target.value)
    && CanOpen(fs, target.value, policy)
  }

  ghost predicate Trashable(policy: Policy, fold: Fold, fs: Tree, path: string, suffix: string) {
    var source := policy.ResolveDelete(path, false, false, fold);
    && source.Ok? && source.value in fs && SourceAuthorized(policy, fold, fs, source.value)
    && (TRASH in fs ==> fs[TRASH].Directory?)
    && var dst := TRASH + "/" + TrashName(fs, source.value, suffix);
       !Inside(dst, source.value) && Replaceable(fs, source.value, dst)
  }

  /** `rename` replaces a file by a file, and an empty directory by a directory. */
  predicate Replaceable(fs: Tree, src: string, dst: string)
    requires src in fs
  {
    dst !in fs || if fs[src].File? then fs[dst].File? else fs[dst].Directory? && TreePaths(fs, dst) == {dst}
  }

  lemma ReplaceableStandsAlone(fs: Tree, src: string, dst: string)
    requires WellFormed(fs) && src in fs && Replaceable(fs, src, dst) && !Inside(dst, src)
    ensures TreePaths(fs - {dst}, dst) == {} && WellFormed(fs - {dst})
  {
    if dst in fs && fs[dst].File? {
      assert forall p :: p in fs ==> !Below(p, dst);
    }
    if dst in fs && fs[dst].Directory? {
      assert forall p :: p in fs && Below(p, dst) ==> p in TreePaths(fs, dst) && |p| > |dst|;
    }
    NothingBelowFree(fs, dst);
  }

  lemma NothingBelowFree(fs: Tree, dst: string)
    requires WellFormed(fs)
    ensures dst !in fs ==> TreePaths(fs, dst) == {}
  {
    if dst !in fs {
      NothingBelow(fs, dst);
    }
  }

  /** The rename into the trash, with the directory made and what has the name already out of the way. */
  lemma TrashRename(fs: Tree, src: string, name: string)
    requires WellFormed(fs) && src in fs && '/' !in name && (TRASH in fs ==> fs[TRASH].Directory?)
    requires !Inside(TRASH + "/" + name, src) && Replaceable(fs, src, TRASH + "/" + name)
    ensures var dst := TRASH + "/" + name;
            var mid := WithDirectories(fs - {dst}, {TRASH});
            Free(mid, src, dst) && WellFormed(Renamed(mid, src, dst))
  {
    hide Renamed, Replaceable;
    var dst := TRASH + "/" + name;
    ReplaceableStandsAlone(fs, src, dst);
    assert |dst| > |TRASH|;
    TrashStaysWellFormed(fs - {dst});
    TrashIsTop(name);
    var mid := WithDirectories(fs - {dst}, {TRASH});
    assert forall p :: p in mid ==> p == TRASH || p in fs - {dst};
    RenameKeepsWellFormed(mid, src, dst);
  }

  /** What `trash_info` lets pass: `Path(name).name == name`, which is true of two dots as well. */
  predicate Bare(name: string) {
    name != "" && name != "." && '/' !in name
  }

  const UP := ".."

  ghost predicate Restorable(policy: Policy, fold: Fold, fs: Tree, name: string, toPath: string) {
    var src := TRASH + "/" + name;
    var target := policy.ResolveWrite(toPath, false, fold);
    && Bare(name) && name != UP && target.Ok? && src in fs && target.value !in fs && !Inside(target.value, src)
    && DestinationAuthorized(policy, fold, fs, src, target.value)
    && CanOpen(fs, target.value, policy)
  }

  /** Every name the vault would get below `dst`, and `dst` itself, may be written. */
  ghost predicate VaultAuthorized(policy: Policy, fold: Fold, fs: Tree, dst: string) {
    && !ProtectsBelow(policy.denyWritePaths, dst) && policy.ResolveWrite(dst, false, fold).Ok?
    && (forall p :: p in fs ==> policy.ResolveWrite(dst + "/" + p, false, fold).Ok?)
  }

  /**
   * All checks pass and the missing parents are made, and only then the system refuses the rename: of an
   * entry of the trash into itself, or of two dots, which are the vault.
   */
  ghost predicate RefusedLate(policy: Policy, fold: Fold, fs: Tree, name: string, toPath: string) {
    var src := TRASH + "/" + name;
    var target := policy.ResolveWrite(toPath, false, fold);
    && Bare(name) && target.Ok? && target.value !in fs
    && (if name == UP then TRASH in fs && fs[TRASH].Directory? && VaultAuthorized(policy, fold, fs, target.value)
        else
          && src in fs && Inside(target.value, src)
          && DestinationAuthorized(policy, fold, fs, src, target.value))
    && CanOpen(fs, target.value, policy)
  }

  class Vault {
    const policy: Policy
    const fold: Fold
    var nodes: Tree

    ghost predicate Valid()
      reads this
    {
      WellFormed(nodes) && fold('/') == "/"
    }

    constructor (policy: Policy, fold: Fold, nodes: Tree)
      requires WellFormed(nodes) && fold('/') == "/"
      ensures Valid() && this.policy == policy && this.fold == fold && this.nodes == nodes
    {
      this.policy, this.fold, this.nodes := policy, fold, nodes;
    }

    /** _authorize_resolved_tree, the loop over the source: resolve_delete for each path. */
    method AuthorizeSource(src: string) returns (error: Option<MutationError>)
      ensures src !in nodes ==> error == Some(NoSuchEntry)
      ensures src in nodes ==> (error.None? <==> SourceAuthorized(policy, fold, nodes, src))
    {
      if src !in nodes {
        return Some(NoSuchEntry);
      }
      if nodes[src].Directory? && ProtectsBelow(policy.denyWritePaths, src) {
        return Some(CrossesProtected);
      }
      var all := TreePaths(nodes, src);
      var todo := all;
      while todo != {}
        invariant todo <= all
        invariant forall p :: p in all - todo ==> policy.ResolveDelete(p, false, false, fold).Ok?
        decreases todo
      {
        var p :| p in todo;
        if policy.ResolveDelete(p, false, false, fold).Err? {
          assert p in all;
          return Some(Refused(policy.ResolveDelete(p, false, false, fold).error));
        }
        todo := todo - {p};
      }
      assert all - todo == all;
      return None;
    }

    /** The loop over the mapped destinations: resolve_write for each. */
    method AuthorizeDestination(src: string, dst: string) returns (error: Option<MutationError>)
      requires src in nodes
      ensures error.None? <==> DestinationAuthorized(policy, fold, nodes, src, dst)
    {
      if nodes[src].Directory? && ProtectsBelow(policy.denyWritePaths, dst) {
        return Some(CrossesProtected);
      }
      var all := TreePaths(nodes, src);
      var todo := all;
      while todo != {}
        invariant todo <= all
        invariant forall p :: p in all - todo ==> policy.ResolveWrite(Mapped(p, src, dst), false, fold).Ok?
        decreases todo
      {
        var p :| p in todo;
        if policy.ResolveWrite(Mapped(p, src, dst), false, fold).Err? {
          assert p in all;
          return Some(Refused(policy.ResolveWrite(Mapped(p, src, dst), false, fold).error));
        }
        todo := todo - {p};
      }
      assert all - todo == all;
      return None;
    }

    /** _opened_write_parent on this vault; a failure makes no directory. */
    method OpenParents(dst: string) returns (r: Opening, ghost made: set<string>)
      requires Valid() && policy.ResolveWrite(dst, false, fold) == Ok(dst)
      modifies this`nodes
      ensures Valid() && nodes == WithDirectories(old(nodes), made) && made !! old(nodes).Keys
      ensures ParentsOf(made, dst, policy)
      ensures r.Opened? <==> CanOpen(old(nodes), dst, policy)
      ensures !r.Opened? ==> nodes == old(nodes)
      ensures r.Opened? ==> forall d :: Below(dst, d) ==> d in nodes && nodes[d].Directory?
    {
      hide Policy.ResolveWrite, InScope, IsAncestor;
      var dirs := set d | d in nodes && nodes[d].Directory?;
      var tree := new VaultTree(dirs, nodes.Keys - dirs);
      r := OpenWriteParent(tree, policy, fold, dst);
      made := tree.dirs - dirs;
      assert tree.files == nodes.Keys - dirs && made !! nodes.Keys;
      if r.NotADirectory? {
        ghost var file :| file in tree.files - dirs && OnlyAbove(file, made);
        assert forall d :: d in made ==> Below(file, d) && d in nodes;
      }
      assert !r.Opened? ==> made == {};
      if r.Opened? {
        forall d | Below(dst, d) ensures d in nodes.Keys + made && (d in nodes ==> nodes[d].Directory?) {
          AboveIsAncestor(dst, d);
        }
        OnlyMissingAreMade(nodes, made, dst);
      }
      nodes := nodes + map d | d in tree.dirs && d !in nodes :: Directory;
      assert nodes == WithDirectories(old(nodes), made);
    }

    /**
     * _rename_relative to an authorized destination. The parents of a destination inside the source are
     * made before the system refuses the rename itself.
     */
    method Rename(src: string, dst: string) returns (error: Option<MutationError>, ghost made: set<string>)
      requires Valid() && src in nodes && policy.ResolveWrite(dst, false, fold) == Ok(dst)
      modifies this`nodes
      ensures Valid() && made !! old(nodes).Keys && ParentsOf(made, dst, policy)
      ensures error.None? <==> CanOpen(old(nodes), dst, policy) && dst !in old(nodes) && !Inside(dst, src)
      ensures error.Some? ==>
                nodes == if CanOpen(old(nodes), dst, policy) && dst !in old(nodes)
                         then WithDirectories(old(nodes), made) else old(nodes)
      ensures error.None? ==>
                && Free(WithDirectories(old(nodes), made), src, dst)
                && nodes == Renamed(WithDirectories(old(nodes), made), src, dst)
    {
      hide Policy.ResolveWrite, Renamed, InScope, CanOpen;
      var opening;
      opening, made := OpenParents(dst);
      if !opening.Opened? {
        return Some(if opening.Missing? then ParentMissing else ParentNotADirectory), made;
      }
      if dst in nodes {
        ExistingNeedsNoParents(old(nodes), made, dst, policy);
        return Some(AlreadyExists), made;
      }
      if Inside(dst, src) {
        return Some(BadDestination), made;
      }
      ParentsLeaveFree(old(nodes), made, src, dst, policy);
      RenameKeepsWellFormed(nodes, src, dst);
      nodes := Renamed(nodes, src, dst);
      error := None;
    }

    /** `move`. */
    method Move(fromPath: string, toPath: string)
      returns (r: Result<(string, string), MutationError>, ghost made: set<string>)
      requires Valid()
      modifies this`nodes
      ensures Valid() && (r.Err? ==> nodes == old(nodes))
      ensures r.Ok? <==> Movable(policy, fold, old(nodes), fromPath, toPath)
      ensures r.Ok? ==>
                var (src, dst) := r.value;
                && policy.ResolveDelete(fromPath, false, false, fold) == Ok(src)
                && policy.ResolveWrite(toPath, false, fold) == Ok(dst)
                && SourceAuthorized(policy, fold, old(nodes), src)
                && DestinationAuthorized(policy, fold, old(nodes), src, dst)
                && dst !in old(nodes) && ParentsOf(made, dst, policy) && made !! old(nodes).Keys
                && Free(WithDirectories(old(nodes), made), src, dst)
                && nodes == Renamed(WithDirectories(old(nodes), made), src, dst)
    {
      hide Policy.ResolveWrite, Policy.ResolveDelete, Renamed, InScope, Free, WithDirectories;
      made := {};
      var source := policy.ResolveDelete(fromPath, false, false, fold);
      var destination := policy.ResolveWrite(toPath, false, fold);
      if source.Err? {
        return Err(Refused(source.error)), made;
      }
      if destination.Err? {
        return Err(Refused(destination.error)), made;
      }
      var src, dst := source.value, destination.value;
      if Inside(dst, src) {
        return Err(BadDestination), made;
      }
      var error := AuthorizeSource(src);
      if error.Some? {
        return Err(error.value), made;
      }
      error := AuthorizeDestination(src, dst);
      if error.Some? {
        return Err(error.value), made;
      }
      DestinationIsStable(policy, fold, nodes, toPath, src, dst);
      error, made := Rename(src, dst);
      r := if error.Some? then Err(error.value) else Ok((src, dst));
    }

    /**
     * `trash`: a name already taken in the trash gets a suffix. Whether the suffixed name is taken as well
     * is not looked at: what has it is replaced.
     */
    method Trash(path: string, suffix: string) returns (r: Result<string, MutationError>)
      requires Valid() && '/' !in suffix
      modifies this`nodes
      ensures r.Ok? <==> Trashable(policy, fold, old(nodes), path, suffix)
      ensures Valid() && (r.Err? ==> nodes == old(nodes) || nodes == WithDirectories(old(nodes), {TRASH}))
      ensures r.Ok? ==>
                && policy.ResolveDelete(path, false, false, fold).Ok?
                && var src := policy.ResolveDelete(path, false, false, fold).value;
                   var dst := TRASH + "/" + r.value;
                && r.value == TrashName(old(nodes), src, suffix)
                && SourceAuthorized(policy, fold, old(nodes), src)
                && Free(WithDirectories(old(nodes) - {dst}, {TRASH}), src, dst)
                && nodes == Renamed(WithDirectories(old(nodes) - {dst}, {TRASH}), src, dst)
    {
      hide Policy.ResolveDelete, SourceAuthorized, Renamed, BaseName, Suffixed, Replaceable, Free, WithDirectories,
        WellFormed;
      var source := policy.ResolveDelete(path, false, false, fold);
      if source.Err? {
        return Err(Refused(source.error));
      }
      var src := source.value;
      var error := AuthorizeSource(src);
      if error.Some? {
        return Err(error.value);
      }
      if TRASH in nodes && !nodes[TRASH].Directory? {
        return Err(ParentNotADirectory);
      }
      var before := nodes;
      TrashStaysWellFormed(nodes);
      nodes := WithDirectories(nodes, {TRASH});
      var name := BaseName(src);
      BaseNameIsPlain(src);
      if TRASH + "/" + name in before {
        SuffixedIsPlain(name, suffix);
        name := Suffixed(name, suffix);
      }
      var dst := TRASH + "/" + name;
      if Inside(dst, src) {
        return Err(BadDestination);
      }
      if !Replaceable(before, src, dst) {
        return Err(AlreadyExists);
      }
      TrashRename(before, src, name);
      nodes := Renamed(WithDirectories(before - {dst}, {TRASH}), src, dst);
      return Ok(name);
    }

    /** The loop over the vault for the name of two dots: resolve_write for each name below `dst`. */
    method AuthorizeVault(dst: string) returns (error: Option<MutationError>)
      ensures error.None? <==> VaultAuthorized(policy, fold, nodes, dst)
    {
      if ProtectsBelow(policy.denyWritePaths, dst) {
        return Some(CrossesProtected);
      }
      if policy.ResolveWrite(dst, false, fold).Err? {
        return Some(Refused(policy.ResolveWrite(dst, false, fold).error));
      }
      var all := nodes.Keys;
      var todo := all;
      while todo != {}
        invariant todo <= all
        invariant forall p :: p in all - todo ==> policy.ResolveWrite(dst + "/" + p, false, fold).Ok?
        decreases todo
      {
        var p :| p in todo;
        if policy.ResolveWrite(dst + "/" + p, false, fold).Err? {
          assert p in all;
          return Some(Refused(policy.ResolveWrite(dst + "/" + p, false, fold).error));
        }
        todo := todo - {p};
      }
      assert all - todo == all;
      return None;
    }

    /** The rest of `restore` for the name of two dots, which no rename accepts. */
    method RestoreVault(toPath: string) returns (error: MutationError, ghost made: set<string>)
      requires Valid()
      modifies this`nodes
      ensures Valid() && made !! old(nodes).Keys
      ensures nodes == if RefusedLate(policy, fold, old(nodes), UP, toPath) then WithDirectories(old(nodes), made)
                       else old(nodes)
      ensures RefusedLate(policy, fold, old(nodes), UP, toPath) ==>
                ParentsOf(made, policy.ResolveWrite(toPath, false, fold).value, policy)
    {
      hide Policy.ResolveWrite, InScope, WithDirectories, ParentsOf, CanOpen, WellFormed;
      made := {};
      if TRASH !in nodes || !nodes[TRASH].Directory? {
        return NoSuchEntry, made;
      }
      var destination := policy.ResolveWrite(toPath, false, fold);
      if destination.Err? {
        return Refused(destination.error), made;
      }
      var dst := destination.value;
      var refusal := AuthorizeVault(dst);
      if refusal.Some? {
        return refusal.value, made;
      }
      ResolvedIsStable(policy, fold, toPath, dst);
      var opening;
      opening, made := OpenParents(dst);
      if !opening.Opened? {
        return if opening.Missing? then ParentMissing else ParentNotADirectory, made;
      }
      if dst in nodes {
        ExistingNeedsNoParents(old(nodes), made, dst, policy);
        return AlreadyExists, made;
      }
      assert dst !in old(nodes) by { KeptByDirectories(old(nodes), made); }
      return BadName, made;
    }

    /** `restore`: an entry of the trash goes to a place where each of its names may be written. */
    method Restore(name: string, toPath: string) returns (r: Result<string, MutationError>, ghost made: set<string>)
      requires Valid()
      modifies this`nodes
      ensures Valid() && made !! old(nodes).Keys
      ensures r.Ok? <==> Restorable(policy, fold, old(nodes), name, toPath)
      ensures r.Err? ==>
                nodes == if RefusedLate(policy, fold, old(nodes), name, toPath) then WithDirectories(old(nodes), made)
                         else old(nodes)
      ensures r.Ok? || RefusedLate(policy, fold, old(nodes), name, toPath) ==>
                ParentsOf(made, policy.ResolveWrite(toPath, false, fold).value, policy)
      ensures r.Ok? ==>
                var src, dst := TRASH + "/" + name, r.value;
                && policy.ResolveWrite(toPath, false, fold) == Ok(dst)
                && Free(WithDirectories(old(nodes), made), src, dst)
                && nodes == Renamed(WithDirectories(old(nodes), made), src, dst)
    {
      hide Policy.ResolveWrite, Renamed, InScope, Free, WithDirectories, WellFormed, ParentsOf, CanOpen,
        VaultAuthorized;
      made := {};
      if !Bare(name) {
        return Err(BadName), made;
      }
      if name == UP {
        var refusal;
        refusal, made := RestoreVault(toPath);
        return Err(refusal), made;
      }
      var src := TRASH + "/" + name;
      if src !in nodes {
        return Err(NoSuchEntry), made;
      }
      var destination := policy.ResolveWrite(toPath, false, fold);
      if destination.Err? {
        return Err(Refused(destination.error)), made;
      }
      var dst := destination.value;
      var error := AuthorizeDestination(src, dst);
      if error.Some? {
        return Err(error.value), made;
      }
      DestinationIsStable(policy, fold, nodes, toPath, src, dst);
      error, made := Rename(src, dst);
      r := if error.Some? then Err(error.value) else Ok(dst);
    }
  }

  // ---------------------------------------------------------------------------------------
  // What follows for a whole mutation

  /**
   * Nothing happens outside the authorization: after a move, whatever is gone was cleared for deletion,
   * and whatever is new was cleared for writing or is a parent directory inside the write scope. A name
   * is cleared as its normal form, so as itself if and only if it is in normal form. No deny rule speaks
   * of anything that is or could be below a directory that moves, at its old place or its new one.
   */
  lemma ChangesWereAuthorized(
      policy: Policy, fold: Fold, fs: Tree, made: set<string>, src: string, dst: string)
    requires SourceAuthorized(policy, fold, fs, src) && DestinationAuthorized(policy, fold, fs, src, dst)
    requires ParentsOf(made, dst, policy) && made !! fs.Keys && WellFormed(fs)
    requires src in fs && dst !in fs && !Inside(dst, src)
    ensures fs[src].Directory? ==>
              forall rule :: rule in policy.denyWritePaths ==>
                !Below(RulePath(rule), src) && !Below(RulePath(rule), dst)
    ensures var gs := Renamed(WithDirectories(fs, made), src, dst);
            && (forall p :: p in fs && p !in gs ==>
                  && policy.ResolveDelete(p, false, false, fold).Ok?
                  && (policy.ResolveDelete(p, false, false, fold) == Ok(p) <==> SelfNormal(p)))
            && (forall q :: q in gs && q !in fs ==>
                  || (q in made && (policy.writePaths != [] ==> InScope(q, dst, policy.writePaths)))
                  || (&& policy.ResolveWrite(q, false, fold).Ok?
                      && (policy.ResolveWrite(q, false, fold) == Ok(q) <==> SelfNormal(q))
                      && ((forall p :: p in fs ==> SelfNormal(p)) && SelfNormal(dst) ==> SelfNormal(q))))
  {
    hide Policy.ResolveDelete, Policy.ResolveWrite, Renamed, SelfNormal, WithDirectories, InScope;
    var mid := WithDirectories(fs, made);
    var gs := Renamed(mid, src, dst);
    ParentsLeaveFree(fs, made, src, dst, policy);
    RenameConserves(mid, src, dst);
    MidKeys(fs, made);
    forall p | p in fs && p !in gs
      ensures policy.ResolveDelete(p, false, false, fold).Ok?
      ensures policy.ResolveDelete(p, false, false, fold) == Ok(p) <==> SelfNormal(p)
    {
      assert p in TreePaths(fs, src);
      ClearedAsItself(policy, fold, p);
    }
    forall q | q in gs && q !in fs && q !in made
      ensures policy.ResolveWrite(q, false, fold).Ok?
      ensures policy.ResolveWrite(q, false, fold) == Ok(q) <==> SelfNormal(q)
      ensures (forall p :: p in fs ==> SelfNormal(p)) && SelfNormal(dst) ==> SelfNormal(q)
    {
      var p :| p in TreePaths(mid, src) && Mapped(p, src, dst) == q;
      assert p in TreePaths(fs, src);
      ClearedAsItself(policy, fold, q);
      MappedIsSelfNormal(p, src, dst);
    }
  }

  lemma MidKeys(fs: Tree, made: set<string>)
    ensures WithDirectories(fs, made).Keys == fs.Keys + made
  {
  }

  lemma ClearedAsItself(policy: Policy, fold: Fold, p: string)
    ensures policy.ResolveDelete(p, false, false, fold).Ok? ==>
              (policy.ResolveDelete(p, false, false, fold) == Ok(p) <==> SelfNormal(p))
    ensures policy.ResolveWrite(p, false, fold).Ok? ==>
              (policy.ResolveWrite(p, false, fold) == Ok(p) <==> SelfNormal(p))
  {
    hide Normalise;
  }

  /** A name in normal form keeps it under a new prefix in normal form. */
  lemma MappedIsSelfNormal(p: string, src: string, dst: string)
    requires Inside(p, src)
    ensures SelfNormal(p) && SelfNormal(dst) ==> SelfNormal(Mapped(p, src, dst))
  {
    hide SelfNormal, Split;
    SelfNormalMeaning(p);
    SelfNormalMeaning(dst);
    SelfNormalMeaning(Mapped(p, src, dst));
    if p == src {
      assert Mapped(p, src, dst) == dst;
    } else if SelfNormal(p) && SelfNormal(dst) {
      var rest := p[|src| + 1..];
      assert p == src + "/" + rest && Mapped(p, src, dst) == dst + "/" + rest;
      SplitOfConcat(src, rest, '/');
      SplitOfConcat(dst, rest, '/');
      assert dst != "" by { NormalFormIsSomething(dst); }
    }
  }

  lemma NormalFormIsSomething(p: string)
    ensures SelfNormal(p) ==> p != ""
  {
  }

  /** A name with a backslash is cleared under another name: the one with a slash in its place. */
  lemma BackslashIsClearedElsewhere()
    ensures Normalise("a\\b") == Some("a/b") && !SelfNormal("a\\b")
  {
    SlashedBackslash();
    PairIsNormal("a", "b");
    assert "a" + "/" + "b" == "a/b" && Slashed("a/b") == "a/b";
  }

  lemma SlashedBackslash()
    ensures Slashed("a\\b") == "a/b"
  {
  }

  /** The name in the trash is one that `restore` takes. */
  lemma TrashNameIsOrdinary(fs: Tree, src: string, suffix: string)
    requires Canonical(src) && '/' !in suffix
    ensures Bare(TrashName(fs, src, suffix)) && TrashName(fs, src, suffix) != UP
  {
    hide Suffixed;
    BaseNameIsPlain(src);
    SuffixedIsPlain(BaseName(src), suffix);
    SuffixedHasDash(BaseName(src), suffix);
    assert OrdinaryComponent(BaseName(src)) by {
      assert BaseName(src) in Split(src, '/');
    }
  }

  lemma SuffixedHasDash(name: string, suffix: string)
    ensures '-' in Suffixed(name, suffix)
  {
    var parts := Split(name, '.');
    assert |parts| == 1 ==> Suffixed(name, suffix)[|name|] == '-';
    assert |parts| > 1 ==> Suffixed(name, suffix)[|Join(parts[..|parts| - 1], '.')|] == '-';
  }

  /** The vault between the two renames: entries of the source keep their names and contents. */
  lemma OutOfTheWay(fs: Tree, src: string, dst: string)
    requires WellFormed(fs) && src in fs && !Inside(dst, src) && Below(dst, TRASH)
    ensures var mid := WithDirectories(fs - {dst}, {TRASH});
            TreePaths(mid, src) == TreePaths(fs, src) && src in mid && mid[src] == fs[src]
  {
    var mid := WithDirectories(fs - {dst}, {TRASH});
    TrashIsTop("");
    assert src != TRASH && !Inside(TRASH, src);
    assert forall p :: Inside(p, src) ==> (p in mid <==> p in fs);
  }

  lemma {:induction false} OpenWhereAllIsThere(fs: Tree, dst: string, policy: Policy)
    requires policy.writePaths != [] ==> AnyMatches(dst, policy.writePaths)
    requires forall d :: Below(dst, d) ==> d in fs && fs[d].Directory?
    ensures CanOpen(fs, dst, policy)
  {
    var parts := Split(dst, '/');
    forall i | 0 <= i < |parts| - 1 ensures Below(dst, Ancestor(parts, i)) {
      assert IsAncestor(Ancestor(parts, i), dst);
      AncestorIsAbove(Ancestor(parts, i), dst);
    }
  }

  /** The directories above the source are still there after the source has gone to the trash. */
  lemma ParentsStay(fs: Tree, src: string, dst: string)
    requires WellFormed(fs) && src in fs && !Inside(dst, src) && Below(dst, TRASH) && Replaceable(fs, src, dst)
    requires Free(WithDirectories(fs - {dst}, {TRASH}), src, dst)
    ensures var trashed := Renamed(WithDirectories(fs - {dst}, {TRASH}), src, dst);
            forall d :: Below(src, d) ==> d in trashed && trashed[d].Directory?
  {
    hide Renamed;
    var mid := WithDirectories(fs - {dst}, {TRASH});
    RenameConserves(mid, src, dst);
    forall d | Below(src, d) ensures d in Renamed(mid, src, dst) && Renamed(mid, src, dst)[d].Directory? {
      assert d in fs && fs[d].Directory? && src in TreePaths(fs, d) && |src| > |d|;
      assert d != dst;
      assert d in mid && mid[d].Directory? && !Inside(d, src);
    }
  }

  /**
   * What has been trashed can be restored to where it came from, whatever the policy: the directories
   * above it are still there, so none is made. That leaves the vault as it was, but for the trash
   * directory, if and only if the name it got in the trash was free.
   */
  lemma TrashThenRestore(policy: Policy, fold: Fold, fs: Tree, path: string, suffix: string)
    requires WellFormed(fs) && '/' !in suffix && Trashable(policy, fold, fs, path, suffix)
    ensures var src := policy.ResolveDelete(path, false, false, fold).value;
            var name := TrashName(fs, src, suffix);
            var dst := TRASH + "/" + name;
            var trashed := Renamed(WithDirectories(fs - {dst}, {TRASH}), src, dst);
            && Restorable(policy, fold, trashed, name, path) && policy.ResolveWrite(path, false, fold) == Ok(src)
            && (forall made :: made !! trashed.Keys && ParentsOf(made, src, policy) ==> made == {})
            && Renamed(WithDirectories(trashed, {}), dst, src) == WithDirectories(fs - {dst}, {TRASH})
            && (Renamed(WithDirectories(trashed, {}), dst, src) == WithDirectories(fs, {TRASH}) <==> dst !in fs)
  {
    hide Renamed, TrashName, WithDirectories, WellFormed, Normalise, Canonical, Free;
    var src := policy.ResolveDelete(path, false, false, fold).value;
    var name := TrashName(fs, src, suffix);
    var dst := TRASH + "/" + name;
    NormaliseIsCanonical(path);
    TrashNameIsOrdinary(fs, src, suffix);
    RenamedBack(fs, src, name);
    assert src in TreePaths(fs, src);
    DeletableIsWritable(policy, fold, path);
    DeletableIsWritable(policy, fold, src);
    ResolvedIsStable(policy, fold, path, src);
    RestoreIsAuthorized(policy, fold, fs, src, name);
    NoneIsMade(fs, src, name, policy);
  }

  lemma RenamedBack(fs: Tree, src: string, name: string)
    requires WellFormed(fs) && (TRASH in fs ==> fs[TRASH].Directory?) && Bare(name)
    requires src in fs && !Inside(TRASH + "/" + name, src) && Replaceable(fs, src, TRASH + "/" + name)
    ensures var dst := TRASH + "/" + name;
            var mid := WithDirectories(fs - {dst}, {TRASH});
            var trashed := Renamed(mid, src, dst);
            && WithDirectories(trashed, {}) == trashed && Free(mid, src, dst) && Free(trashed, dst, src)
            && Renamed(trashed, dst, src) == mid && (mid == WithDirectories(fs, {TRASH}) <==> dst !in fs)
  {
    hide Renamed, Free;
    var dst := TRASH + "/" + name;
    var mid := WithDirectories(fs - {dst}, {TRASH});
    TrashRename(fs, src, name);
    RenameUndoes(mid, src, dst);
    assert |dst| > |TRASH|;
    if dst in fs {
      assert dst in WithDirectories(fs, {TRASH}) && dst !in mid;
    } else {
      assert fs - {dst} == fs;
    }
  }

  lemma NoneIsMade(fs: Tree, src: string, name: string, policy: Policy)
    requires WellFormed(fs) && (TRASH in fs ==> fs[TRASH].Directory?) && Bare(name)
    requires src in fs && !Inside(TRASH + "/" + name, src) && Replaceable(fs, src, TRASH + "/" + name)
    ensures var dst := TRASH + "/" + name;
            var trashed := Renamed(WithDirectories(fs - {dst}, {TRASH}), src, dst);
            && (forall d :: Below(src, d) ==> d in trashed && trashed[d].Directory?)
            && forall made :: made !! trashed.Keys && ParentsOf(made, src, policy) ==> made == {}
  {
    hide Renamed, Free, WellFormed, IsAncestor, InScope;
    var dst := TRASH + "/" + name;
    TrashRename(fs, src, name);
    ParentsStay(fs, src, dst);
    var trashed := Renamed(WithDirectories(fs - {dst}, {TRASH}), src, dst);
    forall made: set<string> | made !! trashed.Keys && ParentsOf(made, src, policy) ensures made == {} {
      if d :| d in made {
        AncestorIsAbove(d, src);
      }
    }
  }

  /** The way back is cleared because the way out was. */
  lemma RestoreIsAuthorized(policy: Policy, fold: Fold, fs: Tree, src: string, name: string)
    requires WellFormed(fs) && (TRASH in fs ==> fs[TRASH].Directory?) && Bare(name)
    requires src in fs && !Inside(TRASH + "/" + name, src) && Replaceable(fs, src, TRASH + "/" + name)
    requires SourceAuthorized(policy, fold, fs, src) && policy.ResolveWrite(src, false, fold) == Ok(src)
    ensures var dst := TRASH + "/" + name;
            var trashed := Renamed(WithDirectories(fs - {dst}, {TRASH}), src, dst);
            && dst in trashed && src !in trashed && !Inside(src, dst)
            && DestinationAuthorized(policy, fold, trashed, dst, src) && CanOpen(trashed, src, policy)
  {
    hide Renamed, WellFormed, CanOpen, Replaceable, WithDirectories;
    var dst := TRASH + "/" + name;
    var mid := WithDirectories(fs - {dst}, {TRASH});
    TrashRename(fs, src, name);
    OutOfTheWay(fs, src, dst);
    RenameConserves(mid, src, dst);
    MappedBack(src, src, dst);
    assert src in TreePaths(mid, src) && Mapped(src, src, dst) == dst + "" == dst;
    assert !Inside(src, dst) by { assert src !in TreePaths(mid, dst); }
    var trashed := Renamed(mid, src, dst);
    forall q | q in TreePaths(trashed, dst) ensures policy.ResolveWrite(Mapped(q, dst, src), false, fold).Ok? {
      var p :| p in TreePaths(mid, src) && Mapped(p, src, dst) == q;
      MappedBack(p, src, dst);
      DeletableIsWritable(policy, fold, p);
    }
    NoneIsMade(fs, src, name, policy);
    OpenWhereAllIsThere(trashed, src, policy);
  }

  lemma DeletableIsWritable(policy: Policy, fold: Fold, p: string)
    ensures policy.ResolveDelete(p, false, false, fold).Ok? ==>
              policy.ResolveWrite(p, false, fold) == policy.ResolveDelete(p, false, false, fold)
  {
    hide Normalise;
  }

  /** A trashed file whose name with the suffix is taken replaces what was trashed under that name. */
  lemma TrashingReplaces(a: Bytes, b: Bytes, c: Bytes)
    ensures var fs := map[TRASH := Directory, ".trash/n" := File(a), ".trash/n-s" := File(b), "n" := File(c)];
            var name := TrashName(fs, "n", "s");
            && WellFormed(fs) && Replaceable(fs, "n", TRASH + "/" + name)
            && TRASH + "/" + name == ".trash/n-s" && ".trash/n-s" in fs
            && Renamed(WithDirectories(fs - {".trash/n-s"}, {TRASH}), "n", ".trash/n-s")
               == map[TRASH := Directory, ".trash/n" := File(a), ".trash/n-s" := File(c)]
  {
    SplitOfPlain("n", '/');
    SplitOfPlain("n", '.');
    assert BaseName("n") == "n" && Suffixed("n", "s") == "n" + "-" + "s" == "n-s";
    assert TRASH + "/" + "n" == ".trash/n" && TRASH + "/" + "n-s" == ".trash/n-s";
    var fs := map[TRASH := Directory, ".trash/n" := File(a), ".trash/n-s" := File(b), "n" := File(c)];
    TrashEntries(fs);
    RenamedIntoTrash(a, c);
    assert WithDirectories(fs - {".trash/n-s"}, {TRASH})
           == map[TRASH := Directory, ".trash/n" := File(a), "n" := File(c)];
  }

  lemma TrashEntries(fs: Tree)
    requires fs.Keys == {TRASH, ".trash/n", ".trash/n-s", "n"} && fs[TRASH].Directory?
    ensures WellFormed(fs)
  {
    TrashIsTop("n");
    TrashIsTop("n-s");
    assert TRASH + "/" + "n" == ".trash/n" && TRASH + "/" + "n-s" == ".trash/n-s";
    forall p, d | p in fs && Below(p, d) ensures d in fs && fs[d].Directory? {
      if p == "n" {
        SlashOf("n", d);
      }
    }
  }

  lemma RenamedIntoTrash(a: Bytes, c: Bytes)
    ensures Renamed(map[TRASH := Directory, ".trash/n" := File(a), "n" := File(c)], "n", ".trash/n-s")
            == map[TRASH := Directory, ".trash/n" := File(a), ".trash/n-s" := File(c)]
  {
    var fs := map[TRASH := Directory, ".trash/n" := File(a), "n" := File(c)];
    assert TRASH[0] != "n"[0] && ".trash/n"[0] != "n"[0];
    assert TreePaths(fs, "n") == {"n"};
    assert Mapped("n", "n", ".trash/n-s") == ".trash/n-s";
    assert !(".trash/n-s" <= TRASH) && !(".trash/n-s" <= ".trash/n");
    assert "n" + ".trash/n-s"[|".trash/n-s"|..] == "n";
  }
}
