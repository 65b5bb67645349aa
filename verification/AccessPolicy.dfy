/**
 * The authorization decisions of VaultAccessPolicy (src/obsidian_mcp/storage/policy.py) and the
 * promise that merging an identity override can only take permissions away.
 */
module AccessPolicy {
  import opened Text
  import opened Paths
  import opened PathRules

  datatype Override = Override(
    readOnly: Option<bool>,
    readPaths: Option<seq<string>>,
    writePaths: Option<seq<string>>,
    denyReadPaths: Option<seq<string>>,
    denyWritePaths: Option<seq<string>>)

  datatype AccessError =
    | BadPath
    | ReadDenied
    | ServerReadOnly
    | WriteOutsideScope
    | ProtectedPath(rule: string)
    | RootDelete
    | PermanentDeleteDisabled

  function OrEmpty(rules: Option<seq<string>>): seq<string> {
    if rules.None? then [] else rules.value
  }

  function StripSlashes(s: string): string {
    if s != "" && s[0] == '/' then StripSlashes(s[1..]) else RStrip(s, '/')
  }

  /** The five path-policy fields in force for one call. */
  datatype Policy = Policy(
    readOnly: bool,
    readPaths: seq<string>,
    writePaths: seq<string>,
    denyReadPaths: seq<string>,
    denyWritePaths: seq<string>)
  {
    /** Applies one override, restricting only; Err carries the rule that would widen access. */
    function MergedWith(o: Override): Result<Policy, string> {
      match MergeAllowlist(readPaths, o.readPaths)
      case Err(rule) => Err(rule)
      case Ok(readable) =>
        match MergeAllowlist(writePaths, o.writePaths)
        case Err(rule) => Err(rule)
        case Ok(writable) =>
          Ok(Policy(
            readOnly || (o.readOnly.Some? && o.readOnly.value),
            readable,
            writable,
            MergeDenylist(denyReadPaths, OrEmpty(o.denyReadPaths)),
            MergeDenylist(denyWritePaths, OrEmpty(o.denyWritePaths))))
    }

    predicate ReadScopeAllows(path: string, allowAncestor: bool) {
      exists i :: 0 <= i < |readPaths| &&
        (Matches(path, readPaths[i]) || (allowAncestor && (path == "" || Below(RulePath(readPaths[i]), path))))
    }

    /** The two rule checks shared by every read decision. */
    predicate AllowsRead(path: string, allowAncestor: bool, fold: Fold) {
      && (readPaths != [] ==> ReadScopeAllows(path, allowAncestor))
      && Denied(path, denyReadPaths, fold).None?
    }

    /** permits_read: the rule-only gate of index-backed tools. */
    predicate PermitsRead(relative: string, allowAncestor: bool, fold: Fold) {
      AllowsRead(StripSlashes(Slashed(relative)), allowAncestor, fold)
    }

    /** authorize_discovered_read: a directory may also be an ancestor of an allowed scope. */
    predicate Discovers(path: string, isDir: bool, fold: Fold) {
      SelfNormal(path) && AllowsRead(path, isDir, fold)
    }

    /** resolve_read, with the canonical name on success. */
    function ResolveRead(path: string, allowEmpty: bool, fold: Fold): Result<string, AccessError> {
      match Normalise(path)
      case None => Err(BadPath)
      case Some(relative) =>
        if relative == "" && !allowEmpty then Err(BadPath)
        else if AllowsRead(relative, allowEmpty, fold) then Ok(relative) else Err(ReadDenied)
    }

    /** resolve_write, with the canonical name on success. */
    function ResolveWrite(path: string, allowEmpty: bool, fold: Fold): Result<string, AccessError> {
      match Normalise(path)
      case None => Err(BadPath)
      case Some(relative) =>
        if relative == "" && !allowEmpty then Err(BadPath)
        else if readOnly then Err(ServerReadOnly)
        else if writePaths != [] && !AnyMatches(relative, writePaths) then Err(WriteOutsideScope)
        else match Denied(relative, denyWritePaths, fold)
          case Some(rule) => Err(ProtectedPath(rule))
          case None => Ok(relative)
    }

    function ResolveDelete(path: string, permanent: bool, allowPermanent: bool, fold: Fold)
      : Result<string, AccessError>
    {
      match ResolveWrite(path, true, fold)
      case Err(e) => Err(e)
      case Ok(relative) =>
        if relative == "" then Err(RootDelete)
        else if permanent && !allowPermanent then Err(PermanentDeleteDisabled)
        else Ok(relative)
    }
  }

  /** Everything `narrow` permits, `wide` permits as well. */
  ghost predicate Narrows(narrow: Policy, wide: Policy, fold: Fold) {
    && (forall path, up :: narrow.AllowsRead(path, up, fold) ==> wide.AllowsRead(path, up, fold))
    && (forall path, up :: narrow.PermitsRead(path, up, fold) ==> wide.PermitsRead(path, up, fold))
    && (forall path, dir :: narrow.Discovers(path, dir, fold) ==> wide.Discovers(path, dir, fold))
    && (forall path, empty :: narrow.ResolveRead(path, empty, fold).Ok? ==>
          wide.ResolveRead(path, empty, fold) == narrow.ResolveRead(path, empty, fold))
    && (forall path, empty :: narrow.ResolveWrite(path, empty, fold).Ok? ==>
          wide.ResolveWrite(path, empty, fold) == narrow.ResolveWrite(path, empty, fold))
    && (forall path, permanent, allowed :: narrow.ResolveDelete(path, permanent, allowed, fold).Ok? ==>
          wide.ResolveDelete(path, permanent, allowed, fold) == narrow.ResolveDelete(path, permanent, allowed, fold))
  }

  /** Covering also carries the right to traverse: an ancestor of the override's scope stays traversable. */
  lemma CoveringKeepsAncestors(allowRule: string, rule: string, path: string)
    requires RuleCoversRule(allowRule, rule) && Below(RulePath(rule), path)
    ensures Matches(path, allowRule) || Below(RulePath(allowRule), path)
  {
    var outer, inner := RulePath(allowRule), RulePath(rule);
    if outer != inner {
      assert outer + "/" <= inner && path + "/" <= inner;
      if |path| < |outer| {
        assert path + "/" == inner[..|path| + 1] == outer[..|path| + 1];
      } else {
        assert path == inner[..|path|];
        if |path| > |outer| {
          assert outer + "/" == inner[..|outer| + 1] == path[..|outer| + 1];
        } else {
          assert outer == inner[..|outer|];
        }
      }
    }
  }

  lemma MergedScopeIsInside(vaultRules: seq<string>, overrideRules: Option<seq<string>>, path: string)
    requires MergeAllowlist(vaultRules, overrideRules).Ok? && vaultRules != []
    ensures MergeAllowlist(vaultRules, overrideRules).value != []
    ensures AnyMatches(path, MergeAllowlist(vaultRules, overrideRules).value) ==> AnyMatches(path, vaultRules)
  {
    var merged := MergeAllowlist(vaultRules, overrideRules).value;
    if merged != vaultRules && AnyMatches(path, merged) {
      FirstUncoveredMeaning(vaultRules, overrideRules.value);
      var i :| 0 <= i < |merged| && Matches(path, merged[i]);
      assert merged[i] in merged;
      var j :| 0 <= j < |vaultRules| && RuleCoversRule(vaultRules[j], merged[i]);
      CoveringIsSound(vaultRules[j], merged[i], path);
    }
  }

  lemma MergedReadScopeIsInside(base: Policy, o: Override, path: string, up: bool)
    requires base.MergedWith(o).Ok? && base.readPaths != []
    ensures base.MergedWith(o).value.readPaths != []
    ensures base.MergedWith(o).value.ReadScopeAllows(path, up) ==> base.ReadScopeAllows(path, up)
  {
    var merged := base.MergedWith(o).value;
    MergedScopeIsInside(base.readPaths, o.readPaths, path);
    if merged.readPaths != base.readPaths && merged.ReadScopeAllows(path, up) {
      var i :| 0 <= i < |merged.readPaths| && (Matches(path, merged.readPaths[i]) ||
        (up && (path == "" || Below(RulePath(merged.readPaths[i]), path))));
      if Matches(path, merged.readPaths[i]) {
        assert AnyMatches(path, base.readPaths);
      } else if path == "" {
        assert base.ReadScopeAllows(path, up) by {
          assert 0 <= 0 < |base.readPaths| && path == "";
        }
      } else {
        FirstUncoveredMeaning(base.readPaths, o.readPaths.value);
        assert merged.readPaths[i] in merged.readPaths;
        var j :| 0 <= j < |base.readPaths| && RuleCoversRule(base.readPaths[j], merged.readPaths[i]);
        CoveringKeepsAncestors(base.readPaths[j], merged.readPaths[i], path);
      }
    }
  }

  lemma MergedReadIsAllowed(base: Policy, o: Override, path: string, up: bool, fold: Fold)
    requires base.MergedWith(o).Ok?
    ensures base.MergedWith(o).value.AllowsRead(path, up, fold) ==> base.AllowsRead(path, up, fold)
  {
    if base.readPaths != [] {
      MergedReadScopeIsInside(base, o, path, up);
    }
  }

  lemma MergedWriteIsAllowed(base: Policy, o: Override, path: string, empty: bool, fold: Fold)
    requires base.MergedWith(o).Ok?
    ensures base.MergedWith(o).value.ResolveWrite(path, empty, fold).Ok? ==>
              base.ResolveWrite(path, empty, fold) == base.MergedWith(o).value.ResolveWrite(path, empty, fold)
  {
    if Normalise(path).Some? && base.writePaths != [] {
      MergedScopeIsInside(base.writePaths, o.writePaths, Normalise(path).value);
    }
  }

  /** An accepted override never permits a read, a traversal, a write or a delete the vault refuses. */
  lemma MergeOnlyNarrows(base: Policy, o: Override, fold: Fold)
    requires base.MergedWith(o).Ok?
    ensures Narrows(base.MergedWith(o).value, base, fold)
  {
    var merged := base.MergedWith(o).value;
    forall path, up ensures merged.AllowsRead(path, up, fold) ==> base.AllowsRead(path, up, fold) {
      MergedReadIsAllowed(base, o, path, up, fold);
    }
    forall path, empty ensures merged.ResolveWrite(path, empty, fold).Ok? ==>
        base.ResolveWrite(path, empty, fold) == merged.ResolveWrite(path, empty, fold) {
      MergedWriteIsAllowed(base, o, path, empty, fold);
    }
  }

  /** The override, taken by itself, lets this be read; `up` also for traversal to a scope below. */
  ghost predicate LeavesReadable(o: Override, path: string, up: bool, fold: Fold) {
    && (o.readPaths.Some? && o.readPaths.value != [] ==>
          exists rule :: rule in o.readPaths.value &&
            (Matches(path, rule) || (up && (path == "" || Below(RulePath(rule), path)))))
    && (o.denyReadPaths.Some? ==> forall rule :: rule in o.denyReadPaths.value ==> !MatchesFolded(path, rule, fold))
  }

  /** The override, taken by itself, lets this be written. */
  ghost predicate LeavesWritable(o: Override, path: string, fold: Fold) {
    && o.readOnly != Some(true)
    && (o.writePaths.Some? && o.writePaths.value != [] ==>
          exists rule :: rule in o.writePaths.value && Matches(path, rule))
    && (o.denyWritePaths.Some? ==> forall rule :: rule in o.denyWritePaths.value ==> !MatchesFolded(path, rule, fold))
  }

  lemma MergedAllowsRead(base: Policy, o: Override, path: string, up: bool, fold: Fold)
    requires base.MergedWith(o).Ok?
    ensures base.MergedWith(o).value.AllowsRead(path, up, fold)
            <==> base.AllowsRead(path, up, fold) && LeavesReadable(o, path, up, fold)
  {
    hide Matches, Below, MatchesFolded, RulePath;
    MergedReadIsAllowed(base, o, path, up, fold);
    var merged := base.MergedWith(o).value;
    ScopeOfRules(merged, path, up);
    ScopeOfRules(base, path, up);
    assert Denied(path, merged.denyReadPaths, fold).None?
        <==> Denied(path, base.denyReadPaths, fold).None? && Denied(path, OrEmpty(o.denyReadPaths), fold).None?;
  }

  lemma ScopeOfRules(policy: Policy, path: string, up: bool)
    ensures policy.ReadScopeAllows(path, up) <==>
              exists rule :: rule in policy.readPaths &&
                (Matches(path, rule) || (up && (path == "" || Below(RulePath(rule), path))))
  {
    hide Matches, Below, RulePath;
    if rule :| rule in policy.readPaths
               && (Matches(path, rule) || (up && (path == "" || Below(RulePath(rule), path)))) {
      var i :| 0 <= i < |policy.readPaths| && policy.readPaths[i] == rule;
    }
  }

  /**
   * A merge is an intersection: an accepted override permits to read, to traverse and to discover exactly
   * what the vault and the override both permit.
   */
  lemma MergedReads(base: Policy, o: Override, path: string, up: bool, fold: Fold)
    requires base.MergedWith(o).Ok?
    ensures var merged := base.MergedWith(o).value;
            && (merged.AllowsRead(path, up, fold)
                <==> base.AllowsRead(path, up, fold) && LeavesReadable(o, path, up, fold))
            && (merged.Discovers(path, up, fold)
                <==> base.Discovers(path, up, fold) && LeavesReadable(o, path, up, fold))
            && (merged.PermitsRead(path, up, fold)
                <==> base.PermitsRead(path, up, fold) && LeavesReadable(o, StripSlashes(Slashed(path)), up, fold))
            && (merged.ResolveRead(path, up, fold).Ok?
                <==> && base.ResolveRead(path, up, fold).Ok?
                     && LeavesReadable(o, base.ResolveRead(path, up, fold).value, up, fold))
  {
    hide LeavesReadable, Policy.AllowsRead, Policy.MergedWith, Normalise;
    MergedAllowsRead(base, o, path, up, fold);
    MergedAllowsRead(base, o, StripSlashes(Slashed(path)), up, fold);
    if Normalise(path).Some? {
      MergedAllowsRead(base, o, Normalise(path).value, up, fold);
    }
  }

  /** And to write and to delete; nothing at all when the vault or the override is read-only. */
  lemma MergedWrites(
      base: Policy, o: Override, path: string, empty: bool, permanent: bool, allowed: bool, fold: Fold)
    requires base.MergedWith(o).Ok?
    ensures var merged := base.MergedWith(o).value;
            && (merged.ResolveWrite(path, empty, fold).Ok?
                <==> && base.ResolveWrite(path, empty, fold).Ok?
                     && LeavesWritable(o, base.ResolveWrite(path, empty, fold).value, fold))
            && (merged.ResolveDelete(path, permanent, allowed, fold).Ok?
                <==> && base.ResolveDelete(path, permanent, allowed, fold).Ok?
                     && LeavesWritable(o, base.ResolveDelete(path, permanent, allowed, fold).value, fold))
            && (base.readOnly || o.readOnly == Some(true) ==>
                  && merged.ResolveWrite(path, empty, fold).Err?
                  && merged.ResolveDelete(path, permanent, allowed, fold).Err?)
  {
    hide LeavesWritable, Policy.MergedWith, Normalise, Denied, AnyMatches;
    if Normalise(path).Some? {
      MergedRulesForWriting(base, o, Normalise(path).value, fold);
    }
    MergedReadOnly(base, o);
  }

  lemma MergedReadOnly(base: Policy, o: Override)
    requires base.MergedWith(o).Ok?
    ensures base.MergedWith(o).value.readOnly <==> base.readOnly || o.readOnly == Some(true)
  {
  }

  lemma MergedRulesForWriting(base: Policy, o: Override, path: string, fold: Fold)
    requires base.MergedWith(o).Ok?
    ensures var merged := base.MergedWith(o).value;
            && (!merged.readOnly && (merged.writePaths != [] ==> AnyMatches(path, merged.writePaths))
                && Denied(path, merged.denyWritePaths, fold).None?
                <==>
                !base.readOnly && (base.writePaths != [] ==> AnyMatches(path, base.writePaths))
                && Denied(path, base.denyWritePaths, fold).None? && LeavesWritable(o, path, fold))
  {
    hide Matches, MatchesFolded;
    var merged := base.MergedWith(o).value;
    if base.writePaths != [] {
      MergedScopeIsInside(base.writePaths, o.writePaths, path);
    }
    assert Denied(path, merged.denyWritePaths, fold).None?
        <==> Denied(path, base.denyWritePaths, fold).None? && Denied(path, OrEmpty(o.denyWritePaths), fold).None?;
    if o.writePaths.Some? && o.writePaths.value != [] {
      AnyIsSome(path, merged.writePaths);
    }
  }

  lemma AnyIsSome(path: string, rules: seq<string>)
    ensures AnyMatches(path, rules) <==> exists rule :: rule in rules && Matches(path, rule)
  {
    hide Matches;
    if rule :| rule in rules && Matches(path, rule) {
      var i :| 0 <= i < |rules| && rules[i] == rule;
    }
  }

  /** The rule-only gate of index-backed tools decides on a name in normal form as the access itself does. */
  lemma GateIsAccess(policy: Policy, path: string, fold: Fold)
    requires SelfNormal(path)
    ensures policy.PermitsRead(path, false, fold) <==> policy.ResolveRead(path, false, fold) == Ok(path)
    ensures policy.Discovers(path, false, fold) <==> policy.ResolveRead(path, false, fold) == Ok(path)
  {
    hide Normalise, Policy.AllowsRead;
    SelfNormalMeaning(path);
    NothingToStrip(path);
  }

  lemma NothingToStrip(path: string)
    requires Canonical(path)
    ensures StripSlashes(Slashed(path)) == path
  {
    CanonicalEnds(path);
    assert Slashed(path) == path;
    FirstIsNoSlash(path);
  }

  lemma FirstIsNoSlash(path: string)
    requires Canonical(path) && path != ""
    ensures path[0] != '/'
  {
    var first := Split(path, '/')[0];
    assert first in Split(path, '/') && (path[0] == '/' ==> first == "");
  }

  ghost predicate OnlySlashes(s: string) {
    forall i :: 0 <= i < |s| ==> s[i] == '/'
  }

  lemma {:induction false} StripSlashesOff(pre: string, path: string, post: string)
    requires path != "" && path[0] != '/' && path[|path| - 1] != '/'
    requires OnlySlashes(pre) && OnlySlashes(post)
    ensures StripSlashes(pre + path + post) == path
    decreases |pre| + |post|
  {
    var whole := pre + path + post;
    if pre != "" {
      assert whole[1..] == pre[1..] + path + post;
      StripSlashesOff(pre[1..], path, post);
    } else {
      assert whole == path + post;
      RStripOff(path, post);
    }
  }

  lemma {:induction false} RStripOff(path: string, post: string)
    requires path != "" && path[|path| - 1] != '/' && OnlySlashes(post)
    ensures RStrip(path + post, '/') == path
  {
    if post == "" {
      assert path + post == path;
    } else {
      var shorter := post[..|post| - 1];
      assert (path + post)[..|path + post| - 1] == path + shorter;
      RStripOff(path, shorter);
    }
  }

  /** That gate looks through either kind of slash around the name. */
  lemma GateIgnoresSlashes(policy: Policy, pre: string, path: string, post: string, up: bool, fold: Fold)
    requires SelfNormal(path) && OnlySlashes(Slashed(pre)) && OnlySlashes(Slashed(post))
    ensures policy.PermitsRead(pre + path + post, up, fold) <==> policy.PermitsRead(path, up, fold)
  {
    hide Normalise, Policy.AllowsRead, StripSlashes, RStrip;
    SelfNormalMeaning(path);
    NothingToStrip(path);
    CanonicalEnds(path);
    assert path[0] != '/' by { FirstIsNoSlash(path); }
    SlashedConcat(pre + path, post);
    SlashedConcat(pre, path);
    assert Slashed(path) == path;
    StripSlashesOff(Slashed(pre), path, Slashed(post));
  }

  /** The vault itself is neither read nor written as a file; what may be written may be deleted, unless for good. */
  lemma DeleteIsWrite(policy: Policy, path: string, permanent: bool, allowed: bool, fold: Fold)
    ensures Normalise(path) == Some("") ==>
              policy.ResolveRead(path, false, fold).Err? && policy.ResolveWrite(path, false, fold).Err?
    ensures policy.ResolveDelete(path, permanent, allowed, fold).Ok? <==>
              policy.ResolveWrite(path, false, fold).Ok? && (permanent ==> allowed)
    ensures policy.ResolveDelete(path, permanent, allowed, fold).Ok? ==>
              policy.ResolveDelete(path, permanent, allowed, fold) == policy.ResolveWrite(path, false, fold)
  {
    hide Normalise, Denied;
  }

  function MergeChain(base: Policy, overrides: seq<Override>): Result<Policy, string>
    decreases |overrides|
  {
    if overrides == [] then Ok(base)
    else match base.MergedWith(overrides[0])
      case Err(rule) => Err(rule)
      case Ok(merged) => MergeChain(merged, overrides[1..])
  }

  lemma NarrowsItself(policy: Policy, fold: Fold)
    ensures Narrows(policy, policy, fold)
  {
  }

  lemma NarrowsOnwards(a: Policy, b: Policy, c: Policy, fold: Fold)
    requires Narrows(a, b, fold) && Narrows(b, c, fold)
    ensures Narrows(a, c, fold)
  {
    hide Policy.AllowsRead, Policy.PermitsRead, Policy.Discovers, Policy.ResolveRead, Policy.ResolveWrite,
      Policy.ResolveDelete;
  }

  /** A chain of accepted overrides shrinks monotonically: each prefix permits all that the whole does. */
  lemma {:induction false} ChainOnlyNarrows(base: Policy, overrides: seq<Override>, k: nat, fold: Fold)
    requires k <= |overrides| && MergeChain(base, overrides).Ok?
    ensures MergeChain(base, overrides[..k]).Ok?
    ensures Narrows(MergeChain(base, overrides).value, MergeChain(base, overrides[..k]).value, fold)
    decreases |overrides|
  {
    hide Narrows, Policy.MergedWith;
    NarrowsItself(base, fold);
    if overrides != [] {
      var merged := base.MergedWith(overrides[0]).value;
      if k == 0 {
        ChainOnlyNarrows(merged, overrides[1..], 0, fold);
        assert overrides[1..][..0] == [];
        MergeOnlyNarrows(base, overrides[0], fold);
        NarrowsOnwards(MergeChain(base, overrides).value, merged, base, fold);
        assert overrides[..0] == [];
      } else {
        ChainOnlyNarrows(merged, overrides[1..], k - 1, fold);
        assert overrides[..k][1..] == overrides[1..][..k - 1];
      }
    }
  }

  /** Some canonical path would gain access through one of the two allowlists. */
  ghost predicate OverrideWidens(vaultRules: seq<string>, overrideRules: Option<seq<string>>) {
    vaultRules != [] && overrideRules.Some? && exists path :: Widens(vaultRules, overrideRules.value, path)
  }

  /** merged_with raises PolicyMergeError exactly when an allowlist of the override really widens access. */
  lemma MergeRejectsExactlyWidening(base: Policy, o: Override)
    requires forall rule :: rule in OrEmpty(o.readPaths) + OrEmpty(o.writePaths) ==> NormalRule(rule)
    ensures base.MergedWith(o).Ok?
            <==> !OverrideWidens(base.readPaths, o.readPaths) && !OverrideWidens(base.writePaths, o.writePaths)
  {
    if base.readPaths != [] && OrEmpty(o.readPaths) != [] {
      MergeAllowlistIsExact(base.readPaths, o.readPaths.value);
    }
    if base.writePaths != [] && OrEmpty(o.writePaths) != [] {
      MergeAllowlistIsExact(base.writePaths, o.writePaths.value);
    }
  }

  /** A recursive deny rule on a directory is a deny on each name below it. */
  lemma DeniedDirectory(dir: string, rest: string, rules: seq<string>, fold: Fold)
    requires fold('/') == "/"
    requires Denied(dir, rules, fold).Some? && Denied(dir + "/" + rest, rules, fold).None?
    ensures exists rule :: rule in rules && !Recursive(rule) && MatchesFolded(dir, rule, fold)
    ensures forall rule :: rule in rules && MatchesFolded(dir, rule, fold) ==> !Recursive(rule)
  {
    forall rule | rule in rules && MatchesFolded(dir, rule, fold) ensures !Recursive(rule) {
      if Recursive(rule) {
        RecursiveDenyReachesBelow(dir, rest, rule, fold);
      }
    }
    var hit := Denied(dir, rules, fold).value;
    assert hit in rules && !Recursive(hit);
  }

  /** The per-override cache of `effective`: the dictionary only ever holds what the merge returns. */
  class VaultAccessPolicy {
    const base: Policy
    var merged: map<Override, Policy>

    ghost predicate Valid()
      reads this
    {
      forall o :: o in merged ==> base.MergedWith(o) == Ok(merged[o])
    }

    constructor (base: Policy)
      ensures Valid() && this.base == base && merged == map[]
    {
      this.base := base;
      merged := map[];
    }

    /** Every call answers as if nothing were cached, and a rejected override is never remembered. */
    method Effective(o: Option<Override>) returns (r: Result<Policy, string>)
      requires Valid()
      modifies this`merged
      ensures Valid()
      ensures r == if o.None? then Ok(base) else base.MergedWith(o.value)
      ensures merged == if o.Some? && r.Ok? then old(merged)[o.value := r.value] else old(merged)
    {
      if o.None? {
        return Ok(base);
      }
      if o.value !in merged {
        var computed := base.MergedWith(o.value);
        if computed.Err? {
          return computed;
        }
        merged := merged[o.value := computed.value];
      }
      r := Ok(merged[o.value]);
    }
  }
}
