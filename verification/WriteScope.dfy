/**
 * Opening, and where allowed creating, the parents of a write target
 * (src/obsidian_mcp/storage/filesystem.py): no directory is ever made outside the write scope.
 */
module WriteScope {
  import opened Text
  import opened Paths
  import opened PathRules
  import opened AccessPolicy

  /** Proper ancestor number `i` of a target given by its components. */
  function Ancestor(parts: seq<string>, i: nat): string
    requires i < |parts|
  {
    Join(parts[..i + 1], '/')
  }

  datatype Opening = Opened | Missing | NotADirectory

  /** Number of components of a rule above which the source never creates: its last one may be made. */
  function ScopeDepth(rule: string): nat {
    |Split(RulePath(rule), '/')| - 1
  }

  /** `min` over the matching scopes. */
  function MinDepth(target: string, rules: seq<string>): Option<nat> {
    if rules == [] then None
    else
      var rest := MinDepth(target, rules[1..]);
      if !Matches(target, rules[0]) then rest
      else if rest.Some? && rest.value <= ScopeDepth(rules[0]) then rest
      else Some(ScopeDepth(rules[0]))
  }

  lemma {:induction false} MinDepthMeaning(target: string, rules: seq<string>)
    ensures MinDepth(target, rules).Some? <==> AnyMatches(target, rules)
    ensures MinDepth(target, rules).Some? ==>
              && (exists i :: 0 <= i < |rules| && Matches(target, rules[i])
                              && ScopeDepth(rules[i]) == MinDepth(target, rules).value)
              && (forall i :: 0 <= i < |rules| && Matches(target, rules[i])
                              ==> MinDepth(target, rules).value <= ScopeDepth(rules[i]))
  {
    if rules != [] {
      MinDepthMeaning(target, rules[1..]);
      assert forall i :: 1 <= i < |rules| ==> rules[i] == rules[1..][i - 1];
      if MinDepth(target, rules[1..]).Some? {
        var i :| 0 <= i < |rules[1..]| && Matches(target, rules[1..][i])
                 && ScopeDepth(rules[1..][i]) == MinDepth(target, rules[1..]).value;
        assert Matches(target, rules[i + 1]);
      }
    }
  }

  /** _write_create_from: the first parent depth that may be created. */
  function CreateFrom(target: string, writePaths: seq<string>): nat
    requires writePaths != [] ==> AnyMatches(target, writePaths)
  {
    if writePaths == [] then 0
    else (MinDepthMeaning(target, writePaths); MinDepth(target, writePaths).value)
  }

  ghost predicate OnlyAbove(file: string, made: set<string>) {
    forall d :: d in made ==> Below(file, d)
  }

  /** The directories and files of a vault, by canonical name. */
  class VaultTree {
    var dirs: set<string>
    var files: set<string>

    constructor (dirs: set<string>, files: set<string>)
      ensures this.dirs == dirs && this.files == files
    {
      this.dirs, this.files := dirs, files;
    }

    /**
     * _opened_parent: opens one component after another. The outcome and the new state are fixed by
     * the first ancestor that cannot be opened.
     */
    method OpenParent(parts: seq<string>, createFrom: Option<nat>) returns (r: Opening)
      requires parts != []
      modifies this`dirs
      ensures old(dirs) <= dirs <= old(dirs) + Creatable(parts, createFrom, old(dirs))
      ensures (dirs - old(dirs)) !! files
      ensures r.Opened? ==> forall i :: 0 <= i < |parts| - 1 ==>
                Ancestor(parts, i) in dirs
                && (Ancestor(parts, i) in old(dirs) || (createFrom.Some? && createFrom.value <= i))
      ensures r.Missing? ==>
                && dirs == old(dirs)
                && exists i :: 0 <= i < |parts| - 1 && Ancestor(parts, i) !in old(dirs) + files
                               && (createFrom.None? || i < createFrom.value)
      ensures r.NotADirectory? ==>
                exists i :: 0 <= i < |parts| - 1 && Ancestor(parts, i) in files - old(dirs)
                            && OnlyAbove(Ancestor(parts, i), dirs - old(dirs))
    {
      for depth := 0 to |parts| - 1
        invariant old(dirs) <= dirs <= old(dirs) + Creatable(parts, createFrom, old(dirs))
        invariant (dirs - old(dirs)) !! files
        invariant forall i :: 0 <= i < depth ==>
                    Ancestor(parts, i) in dirs
                    && (Ancestor(parts, i) in old(dirs) || (createFrom.Some? && createFrom.value <= i))
        invariant createFrom.None? || depth <= createFrom.value ==> dirs == old(dirs)
        invariant forall d :: d in dirs - old(dirs) ==> Below(Ancestor(parts, depth), d)
      {
        var current := Ancestor(parts, depth);
        AncestorsNest(parts, depth);
        ghost var made := dirs - old(dirs);
        if current !in dirs {
          if current in files {
            return NotADirectory;
          }
          if createFrom.None? || depth < createFrom.value {
            return Missing;
          }
          dirs := dirs + {current};
        }
        forall d | d in dirs - old(dirs) ensures Below(Ancestor(parts, depth + 1), d) {
          assert d in made || d == current;
          assert d in made ==> Below(current, d);
        }
      }
      r := Opened;
    }
  }

  /** The ancestors missing from `dirs` at or past the creation depth. */
  ghost function Creatable(parts: seq<string>, createFrom: Option<nat>, dirs: set<string>): set<string>
    requires parts != []
  {
    if createFrom.None? then {}
    else set i | createFrom.value <= i < |parts| - 1 && Ancestor(parts, i) !in dirs :: Ancestor(parts, i)
  }

  lemma AncestorsNest(parts: seq<string>, i: nat)
    requires i + 1 < |parts|
    ensures Below(Ancestor(parts, i + 1), Ancestor(parts, i))
    ensures forall d :: Below(Ancestor(parts, i), d) ==> Below(Ancestor(parts, i + 1), d)
  {
    assert parts[..i + 2] == parts[..i + 1] + [parts[i + 1]];
    JoinOfConcat(parts[..i + 1], [parts[i + 1]], '/');
    var small, large := Ancestor(parts, i), Ancestor(parts, i + 1);
    forall d | Below(small, d) ensures Below(large, d) {
      assert d + "/" == small[..|d| + 1] == large[..|d| + 1];
    }
  }

  /** An ancestor of `scope/rest` with at least as many components as `scope` is in or below it. */
  lemma AncestorAtOrBelow(scope: string, rest: string, i: nat)
    requires |Split(scope, '/')| <= i + 1 < |Split(scope + "/" + rest, '/')|
    ensures var dir := Ancestor(Split(scope + "/" + rest, '/'), i); dir == scope || Below(dir, scope)
  {
    var parts, top := Split(scope + "/" + rest, '/'), Split(scope, '/');
    SplitOfConcat(scope, rest, '/');
    JoinOfSplit(scope, '/');
    if i + 1 == |top| {
      assert parts[..i + 1] == top;
    } else {
      assert parts[..i + 1] == top + parts[|top|..i + 1];
      JoinOfConcat(top, parts[|top|..i + 1], '/');
    }
  }

  /** A recursive rule of the write scope admits both the target and the directory. */
  predicate InScope(dir: string, target: string, writePaths: seq<string>) {
    exists rule :: rule in writePaths && Recursive(rule) && Matches(target, rule) && Matches(dir, rule)
  }

  lemma DeepAncestorMatches(target: string, rule: string, i: nat)
    requires Matches(target, rule) && ScopeDepth(rule) <= i < |Split(target, '/')| - 1
    ensures Recursive(rule) && Matches(Ancestor(Split(target, '/'), i), rule)
  {
    var scope := RulePath(rule);
    if target != scope {
      var rest := target[|scope| + 1..];
      assert target == scope + "/" + rest;
      AncestorAtOrBelow(scope, rest, i);
    }
  }

  /** An ancestor that a rule of the scope admits lies at or past the depth of the rule. */
  lemma AdmittedIsDeep(target: string, rule: string, i: nat)
    requires i < |Split(target, '/')| - 1 && Matches(Ancestor(Split(target, '/'), i), rule)
    ensures ScopeDepth(rule) <= i
  {
    hide Split, Join;
    var parts := Split(target, '/');
    var dir, scope := Ancestor(parts, i), RulePath(rule);
    SplitOfJoin(parts[..i + 1], '/');
    assert |Split(dir, '/')| == i + 1;
    if dir != scope {
      var rest := dir[|scope| + 1..];
      assert dir == scope + "/" + rest;
      SplitOfConcat(scope, rest, '/');
    }
  }

  /**
   * An ancestor of an authorized target lies at or past the creation depth if and only if it is itself
   * inside the write scope, by a recursive rule: nothing is made above a scope, and all is made below it.
   */
  lemma CreatedIsInScope(target: string, writePaths: seq<string>, i: nat)
    requires writePaths != [] && AnyMatches(target, writePaths) && i < |Split(target, '/')| - 1
    ensures CreateFrom(target, writePaths) <= i <==> InScope(Ancestor(Split(target, '/'), i), target, writePaths)
  {
    hide Split, Join, ScopeDepth, Matches, Recursive;
    MinDepthMeaning(target, writePaths);
    if CreateFrom(target, writePaths) <= i {
      var k :| 0 <= k < |writePaths| && Matches(target, writePaths[k])
               && ScopeDepth(writePaths[k]) == MinDepth(target, writePaths).value;
      DeepAncestorMatches(target, writePaths[k], i);
      assert writePaths[k] in writePaths;
    }
    if rule :| rule in writePaths && Recursive(rule) && Matches(target, rule)
               && Matches(Ancestor(Split(target, '/'), i), rule) {
      AdmittedIsDeep(target, rule, i);
      var k :| 0 <= k < |writePaths| && writePaths[k] == rule;
    }
  }

  lemma ExactScopesCreateNothing(target: string, writePaths: seq<string>)
    requires writePaths != [] && AnyMatches(target, writePaths)
    requires forall rule :: rule in writePaths && Matches(target, rule) ==> !Recursive(rule)
    ensures CreateFrom(target, writePaths) == |Split(target, '/')| - 1
  {
    MinDepthMeaning(target, writePaths);
  }

  predicate IsAncestor(dir: string, target: string) {
    exists i :: 0 <= i < |Split(target, '/')| - 1 && Ancestor(Split(target, '/'), i) == dir
  }

  /** Each ancestor of the target is there as a directory, or is missing and may be made. */
  predicate Openable(dirs: set<string>, files: set<string>, target: string, writePaths: seq<string>)
    requires writePaths != [] ==> AnyMatches(target, writePaths)
  {
    var parts := Split(target, '/');
    forall i :: 0 <= i < |parts| - 1 ==>
      Ancestor(parts, i) in dirs || (Ancestor(parts, i) !in files && CreateFrom(target, writePaths) <= i)
  }

  /**
   * _opened_write_parent for an authorized target. A successful opening adds exactly the missing
   * ancestors, each inside the write scope; a failed one never reaches above it either.
   */
  method OpenWriteParent(tree: VaultTree, policy: Policy, fold: Fold, target: string) returns (r: Opening)
    requires policy.ResolveWrite(target, false, fold) == Ok(target)
    modifies tree`dirs
    ensures old(tree.dirs) <= tree.dirs && (tree.dirs - old(tree.dirs)) !! tree.files
    ensures forall d :: d in tree.dirs - old(tree.dirs) ==> IsAncestor(d, target)
    ensures policy.writePaths != [] ==> forall d :: d in tree.dirs - old(tree.dirs) ==>
              InScope(d, target, policy.writePaths)
    ensures r.Opened? ==>
              forall i :: 0 <= i < |Split(target, '/')| - 1 ==> Ancestor(Split(target, '/'), i) in tree.dirs
    ensures r.Opened? <==> Openable(old(tree.dirs), tree.files, target, policy.writePaths)
    ensures r.Missing? ==> policy.writePaths != [] && tree.dirs == old(tree.dirs)
    ensures r.NotADirectory? ==>
              exists file :: file in tree.files - old(tree.dirs) && OnlyAbove(file, tree.dirs - old(tree.dirs))
  {
    var parts := Split(target, '/');
    var from := CreateFrom(target, policy.writePaths);
    r := tree.OpenParent(parts, Some(from));
    forall d | d in tree.dirs - old(tree.dirs)
      ensures IsAncestor(d, target)
      ensures policy.writePaths != [] ==> InScope(d, target, policy.writePaths)
    {
      assert d in Creatable(parts, Some(from), old(tree.dirs));
      var i :| from <= i < |parts| - 1 && Ancestor(parts, i) == d;
      if policy.writePaths != [] {
        CreatedIsInScope(target, policy.writePaths, i);
      }
    }
  }

  lemma AncestorSplits(target: string, i: nat)
    requires Canonical(target) && i < |Split(target, '/')| - 1
    ensures var dir := Ancestor(Split(target, '/'), i);
            dir != "" && exists rest :: target == dir + "/" + rest
  {
    var parts := Split(target, '/');
    JoinOfSplit(target, '/');
    assert parts == parts[..i + 1] + parts[i + 1..];
    JoinOfConcat(parts[..i + 1], parts[i + 1..], '/');
    assert parts[0] in parts;
    assert target == Ancestor(parts, i) + "/" + Join(parts[i + 1..], '/');
  }

  /** A directory made on the way to an authorized target is writable unless an exact deny rule names it. */
  lemma CreatedIsWritable(policy: Policy, fold: Fold, target: string, i: nat)
    requires fold('/') == "/" && policy.ResolveWrite(target, false, fold) == Ok(target)
    requires CreateFrom(target, policy.writePaths) <= i < |Split(target, '/')| - 1
    ensures var dir := Ancestor(Split(target, '/'), i);
            policy.ResolveWrite(dir, false, fold) == Ok(dir)
            <==> !exists rule :: rule in policy.denyWritePaths && !Recursive(rule) && MatchesFolded(dir, rule, fold)
  {
    hide Normalise, Canonical, CreateFrom, MatchesFolded, HasDrive;
    var dir := Ancestor(Split(target, '/'), i);
    SelfNormalMeaning(target);
    AncestorSplits(target, i);
    var rest :| target == dir + "/" + rest;
    SelfNormalParent(dir, rest);
    if policy.writePaths != [] {
      CreatedIsInScope(target, policy.writePaths, i);
    }
    if Denied(dir, policy.denyWritePaths, fold).Some? {
      DeniedDirectory(dir, rest, policy.denyWritePaths, fold);
    }
  }

  /** A deny rule "dir" does not keep a write to "dir/a.md" from making the directory it protects. */
  lemma ProtectedParentIsMade(fold: Fold)
    requires fold('/') == "/"
    ensures var policy := Policy(false, [], [], [], ["dir"]);
            && policy.ResolveWrite("dir/a.md", false, fold) == Ok("dir/a.md")
            && policy.ResolveWrite("dir", false, fold) == Err(ProtectedPath("dir"))
            && CreateFrom("dir/a.md", policy.writePaths) == 0 && Ancestor(Split("dir/a.md", '/'), 0) == "dir"
            && Openable({}, {}, "dir/a.md", policy.writePaths)
  {
    hide Normalise, Denied, MatchesFolded, RulePath, Recursive, Split;
    PairIsNormal("dir", "a.md");
    assert "dir" + "/" + "a.md" == "dir/a.md";
    ExactRuleStandsAlone("dir", "a.md", fold);
    assert ["dir", "a.md"][..1] == ["dir"];
  }
}
