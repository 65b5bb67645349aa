/**
 * Rooted path rules and the merge of one identity override into a vault's policy
 * (src/obsidian_mcp/storage/policy.py). A rule that ends in a slash covers a directory and
 * everything below it; any other rule covers exactly one name.
 */
module PathRules {
  import opened Text
  import opened Paths

  /** `str.casefold` is a homomorphism: each character folds on its own, possibly to several. */
  type Fold = char -> string

  function CaseFold(s: string, fold: Fold): string {
    if s == "" then "" else fold(s[0]) + CaseFold(s[1..], fold)
  }

  predicate Recursive(rule: string) {
    rule != "" && rule[|rule| - 1] == '/'
  }

  /** The canonical path portion of a configured rule. */
  function RulePath(rule: string): string {
    RStrip(rule, '/')
  }

  predicate Below(path: string, dir: string) {
    dir + "/" <= path
  }

  /** The case-sensitive matcher used by allow rules. */
  predicate Matches(path: string, rule: string) {
    path == RulePath(rule) || (Recursive(rule) && Below(path, RulePath(rule)))
  }

  /** The case-folded matcher used by deny rules. */
  predicate MatchesFolded(path: string, rule: string, fold: Fold) {
    var candidate, scope := CaseFold(path, fold), CaseFold(RulePath(rule), fold);
    candidate == scope || (Recursive(rule) && Below(candidate, scope))
  }

  predicate AnyMatches(path: string, rules: seq<string>) {
    exists i :: 0 <= i < |rules| && Matches(path, rules[i])
  }

  /** Is every path reachable through `candidate` also inside `allowRule`? */
  predicate RuleCoversRule(allowRule: string, candidate: string) {
    (Recursive(candidate) ==> Recursive(allowRule)) && Matches(RulePath(candidate), allowRule)
  }

  predicate Covered(rule: string, vaultRules: seq<string>) {
    exists i :: 0 <= i < |vaultRules| && RuleCoversRule(vaultRules[i], rule)
  }

  // ---------------------------------------------------------------------------------------
  // Allowlist merge

  /** The first override rule outside the vault's scope is the error. */
  function FirstUncovered(vaultRules: seq<string>, overrideRules: seq<string>): Option<string> {
    if overrideRules == [] then None
    else if !Covered(overrideRules[0], vaultRules) then Some(overrideRules[0])
    else FirstUncovered(vaultRules, overrideRules[1..])
  }

  /** An empty list means the whole vault; an absent or empty override inherits. */
  function MergeAllowlist(vaultRules: seq<string>, overrideRules: Option<seq<string>>)
    : Result<seq<string>, string>
  {
    if overrideRules.None? || overrideRules.value == [] then Ok(vaultRules)
    else if vaultRules == [] then Ok(overrideRules.value)
    else match FirstUncovered(vaultRules, overrideRules.value)
      case Some(rule) => Err(rule)
      case None => Ok(overrideRules.value)
  }

  lemma {:induction false} FirstUncoveredMeaning(vaultRules: seq<string>, overrideRules: seq<string>)
    ensures FirstUncovered(vaultRules, overrideRules).None?
            <==> forall rule :: rule in overrideRules ==> Covered(rule, vaultRules)
    ensures FirstUncovered(vaultRules, overrideRules).Some? ==>
              && FirstUncovered(vaultRules, overrideRules).value in overrideRules
              && !Covered(FirstUncovered(vaultRules, overrideRules).value, vaultRules)
  {
    if overrideRules != [] {
      FirstUncoveredMeaning(vaultRules, overrideRules[1..]);
      assert overrideRules == [overrideRules[0]] + overrideRules[1..];
    }
  }

  /** A rule as `normalise_path_rules` leaves it: a canonical name, possibly with one slash behind. */
  predicate NormalRule(rule: string) {
    var scope := if Recursive(rule) then rule[..|rule| - 1] else rule;
    Canonical(scope)
  }

  lemma CanonicalEnds(p: string)
    requires Canonical(p)
    ensures p != "" && p[|p| - 1] != '/'
  {
    assert Split("", '/') == [""] && "" in Split("", '/');
    SplitOfConcat(p[..|p| - 1], "", '/');
    assert "" in Split(p[..|p| - 1], '/') + [""];
    assert p == p[..|p| - 1] + [p[|p| - 1]] + "";
  }

  lemma NormalRuleScope(rule: string)
    requires NormalRule(rule)
    ensures Canonical(RulePath(rule))
    ensures rule == if Recursive(rule) then RulePath(rule) + "/" else RulePath(rule)
  {
    if Recursive(rule) {
      CanonicalEnds(rule[..|rule| - 1]);
      assert RStrip(rule, '/') == RStrip(rule[..|rule| - 1], '/');
    }
  }

  lemma CoveringIsSound(allowRule: string, rule: string, path: string)
    requires RuleCoversRule(allowRule, rule) && Matches(path, rule)
    ensures Matches(path, allowRule)
  {
  }

  function Longest(rules: seq<string>): (n: nat)
    ensures forall rule :: rule in rules ==> |rule| <= n
  {
    if rules == [] then 0
    else
      var rest := Longest(rules[1..]);
      assert forall rule :: rule in rules ==> rule == rules[0] || rule in rules[1..];
      if |rules[0]| > rest then |rules[0]| else rest
  }

  /** A name longer than every rule, one level below `scope`: no exact rule can mention it. */
  function FreshBelow(scope: string, rules: seq<string>): string {
    scope + "/" + seq(Longest(rules) + 1, _ => 'x')
  }

  lemma FreshBelowIsCanonical(scope: string, rules: seq<string>)
    requires Canonical(scope)
    ensures Canonical(FreshBelow(scope, rules))
  {
    var tail := seq(Longest(rules) + 1, _ => 'x');
    assert tail[0] == 'x';
    SplitOfConcat(scope, tail, '/');
    SplitOfPlain(tail, '/');
    assert forall c :: c in Split(FreshBelow(scope, rules), '/') ==> c in Split(scope, '/') || c == tail;
  }

  /** If some rule matches a fresh name below a directory, it is recursive and covers the directory. */
  lemma FreshIsOnlyMatchedByCovers(scope: string, rules: seq<string>, rule: string)
    requires rule in rules && Matches(FreshBelow(scope, rules), rule)
    ensures Recursive(rule) && Matches(scope, rule)
  {
    var probe := FreshBelow(scope, rules);
    var top := RulePath(rule);
    assert |top| <= |rule| < |probe|;
    assert probe[|top|] == '/';
    assert |top| <= |scope|;
    if |top| < |scope| {
      assert scope[|top|] == '/';
      assert top + "/" <= scope;
    } else {
      assert probe[..|scope|] == scope;
      assert top == probe[..|top|];
    }
  }

  /** The path that tells an override rule apart from the vault's rules, if anything does. */
  function Witness(vaultRules: seq<string>, rule: string): string {
    if Recursive(rule) then FreshBelow(RulePath(rule), vaultRules) else rule
  }

  /** The vault allows the witness of a rule only by covering that rule with a single one of its own. */
  lemma WitnessDecides(vaultRules: seq<string>, rule: string)
    requires NormalRule(rule)
    ensures var path := Witness(vaultRules, rule);
            Canonical(path) && Matches(path, rule) && (AnyMatches(path, vaultRules) ==> Covered(rule, vaultRules))
  {
    var path := Witness(vaultRules, rule);
    NormalRuleScope(rule);
    if Recursive(rule) {
      FreshBelowIsCanonical(RulePath(rule), vaultRules);
    }
    if AnyMatches(path, vaultRules) {
      var i :| 0 <= i < |vaultRules| && Matches(path, vaultRules[i]);
      if Recursive(rule) {
        FreshIsOnlyMatchedByCovers(RulePath(rule), vaultRules, vaultRules[i]);
      }
      assert RuleCoversRule(vaultRules[i], rule);
    }
  }

  ghost predicate Widens(vaultRules: seq<string>, overrideRules: seq<string>, path: string) {
    Canonical(path) && AnyMatches(path, overrideRules) && !AnyMatches(path, vaultRules)
  }

  /**
   * The merge is exact: comparing rule with rule accepts an override if and only if no canonical
   * path is permitted by the override and refused by the union of the vault's rules.
   */
  lemma MergeAllowlistIsExact(vaultRules: seq<string>, overrideRules: seq<string>)
    requires vaultRules != [] && overrideRules != []
    requires forall rule :: rule in overrideRules ==> NormalRule(rule)
    ensures MergeAllowlist(vaultRules, Some(overrideRules)).Ok?
            <==> !exists path :: Widens(vaultRules, overrideRules, path)
    ensures MergeAllowlist(vaultRules, Some(overrideRules)).Ok? ==>
              MergeAllowlist(vaultRules, Some(overrideRules)).value == overrideRules
  {
    FirstUncoveredMeaning(vaultRules, overrideRules);
    match FirstUncovered(vaultRules, overrideRules)
    case Some(rule) =>
      var path := Witness(vaultRules, rule);
      WitnessDecides(vaultRules, rule);
      var i :| 0 <= i < |overrideRules| && overrideRules[i] == rule;
      assert Matches(path, overrideRules[i]);
      assert Widens(vaultRules, overrideRules, path);
    case None =>
      forall path | AnyMatches(path, overrideRules) ensures AnyMatches(path, vaultRules) {
        var i :| 0 <= i < |overrideRules| && Matches(path, overrideRules[i]);
        assert overrideRules[i] in overrideRules;
        var j :| 0 <= j < |vaultRules| && RuleCoversRule(vaultRules[j], overrideRules[i]);
        CoveringIsSound(vaultRules[j], overrideRules[i], path);
      }
  }

  // ---------------------------------------------------------------------------------------
  // Denylist merge and lookup

  function MergeDenylist(vaultRules: seq<string>, extra: seq<string>): (merged: seq<string>)
    ensures vaultRules <= merged
    ensures forall rule :: rule in merged <==> rule in vaultRules || rule in extra
    decreases |extra|
  {
    if extra == [] then vaultRules
    else
      assert forall rule :: rule in extra <==> rule == extra[0] || rule in extra[1..];
      MergeDenylist(if extra[0] in vaultRules then vaultRules else vaultRules + [extra[0]], extra[1..])
  }

  /** The loop over a local list, as merge_denylist runs it. */
  method MergeDenylistLoop(vaultRules: seq<string>, overrideRules: Option<seq<string>>)
    returns (result: seq<string>)
    ensures result == MergeDenylist(vaultRules, if overrideRules.None? then [] else overrideRules.value)
  {
    var extra := if overrideRules.None? then [] else overrideRules.value;
    result := vaultRules;
    for i := 0 to |extra|
      invariant MergeDenylist(result, extra[i..]) == MergeDenylist(vaultRules, extra)
    {
      assert extra[i..][1..] == extra[i + 1..];
      if extra[i] !in result {
        result := result + [extra[i]];
      }
    }
  }

  /** `max(matches, key=len)`: the longest matching rule, the first one among equals. */
  function Denied(path: string, rules: seq<string>, fold: Fold): (r: Option<string>)
    ensures r.None? <==> forall rule :: rule in rules ==> !MatchesFolded(path, rule, fold)
    ensures r.Some? ==>
              && r.value in rules && MatchesFolded(path, r.value, fold)
              && forall rule :: rule in rules && MatchesFolded(path, rule, fold) ==> |rule| <= |r.value|
  {
    if rules == [] then None
    else
      assert forall rule :: rule in rules <==> rule == rules[0] || rule in rules[1..];
      var rest := Denied(path, rules[1..], fold);
      if !MatchesFolded(path, rules[0], fold) then rest
      else if rest.Some? && |rest.value| > |rules[0]| then rest
      else Some(rules[0])
  }

  lemma {:induction false} CaseFoldConcat(a: string, b: string, fold: Fold)
    ensures CaseFold(a + b, fold) == CaseFold(a, fold) + CaseFold(b, fold)
  {
    if a == "" {
      assert a + b == b;
    } else {
      assert (a + b)[1..] == a[1..] + b;
      CaseFoldConcat(a[1..], b, fold);
    }
  }

  lemma CaseFoldBelow(dir: string, rest: string, fold: Fold)
    requires fold('/') == "/"
    ensures CaseFold(dir + "/" + rest, fold) == CaseFold(dir, fold) + "/" + CaseFold(rest, fold)
  {
    CaseFoldConcat(dir + "/", rest, fold);
    CaseFoldConcat(dir, "/", fold);
    assert "/"[1..] == "";
    assert CaseFold("/", fold) == fold('/') + CaseFold("", fold);
  }

  /** The two differ in the case of their characters at most. */
  ghost predicate SameButCase(a: string, b: string, fold: Fold) {
    |a| == |b| && forall i :: 0 <= i < |a| ==> fold(a[i]) == fold(b[i])
  }

  lemma {:induction false} SameButCaseFolds(a: string, b: string, fold: Fold)
    requires SameButCase(a, b, fold)
    ensures CaseFold(a, fold) == CaseFold(b, fold)
  {
    if a != "" {
      assert forall i :: 0 <= i < |a[1..]| ==> a[1..][i] == a[i + 1] && b[1..][i] == b[i + 1];
      SameButCaseFolds(a[1..], b[1..], fold);
    }
  }

  lemma {:induction false} FoldOfNoCase(a: string, fold: Fold)
    requires forall c :: fold(c) == [c]
    ensures CaseFold(a, fold) == a
  {
    if a != "" {
      FoldOfNoCase(a[1..], fold);
    }
  }

  /**
   * A deny rule does not look at case, neither of the path nor of the rule; it denies what the rule would
   * allow, and where there is no case nothing else.
   */
  lemma DenyIgnoresCase(path: string, other: string, rule: string, rewritten: string, fold: Fold)
    requires fold('/') == "/" && SameButCase(path, other, fold)
    requires SameButCase(RulePath(rule), RulePath(rewritten), fold) && (Recursive(rule) <==> Recursive(rewritten))
    ensures MatchesFolded(path, rule, fold) <==> MatchesFolded(other, rewritten, fold)
    ensures Matches(other, rewritten) ==> MatchesFolded(path, rule, fold)
    ensures (forall c :: fold(c) == [c]) ==> (MatchesFolded(path, rule, fold) <==> Matches(path, rule))
  {
    hide CaseFold;
    SameButCaseFolds(path, other, fold);
    SameButCaseFolds(RulePath(rule), RulePath(rewritten), fold);
    var scope := RulePath(rewritten);
    if Recursive(rewritten) && Below(other, scope) {
      var rest := other[|scope| + 1..];
      assert other == scope + "/" + rest;
      CaseFoldBelow(scope, rest, fold);
    }
    if forall c :: fold(c) == [c] {
      FoldOfNoCase(path, fold);
      FoldOfNoCase(RulePath(rule), fold);
    }
  }

  /** A single exact rule denies the name it is, and no name below it. */
  lemma ExactRuleStandsAlone(dir: string, rest: string, fold: Fold)
    requires fold('/') == "/" && dir != "" && dir[|dir| - 1] != '/'
    ensures !Recursive(dir) && RulePath(dir) == dir && MatchesFolded(dir, dir, fold)
    ensures Denied(dir, [dir], fold) == Some(dir) && Denied(dir + "/" + rest, [dir], fold) == None
  {
    hide CaseFold;
    CaseFoldBelow(dir, rest, fold);
    assert RulePath(dir) == dir;
  }

  /** A recursive deny rule that hits a directory hits everything below it. */
  lemma RecursiveDenyReachesBelow(dir: string, rest: string, rule: string, fold: Fold)
    requires fold('/') == "/"
    requires Recursive(rule) && MatchesFolded(dir, rule, fold)
    ensures MatchesFolded(dir + "/" + rest, rule, fold)
  {
    CaseFoldBelow(dir, rest, fold);
    var scope := CaseFold(RulePath(rule), fold);
    if CaseFold(dir, fold) == scope {
      assert scope + "/" <= CaseFold(dir + "/" + rest, fold);
    } else {
      assert scope + "/" <= CaseFold(dir, fold);
    }
  }

  // ---------------------------------------------------------------------------------------
  // Normalised rule lists

  function NormaliseRule(raw: string): Option<string> {
    var recursive := raw != "" && raw[|raw| - 1] in {'/', '\\'};
    match Normalise(RStripBoth(raw))
    case None => None
    case Some(item) => if item == "" then None else Some(if recursive then item + "/" else item)
  }

  /** `raw.rstrip("/\\")`. */
  function RStripBoth(raw: string): string {
    if raw != "" && raw[|raw| - 1] in {'/', '\\'} then RStripBoth(raw[..|raw| - 1]) else raw
  }

  /** A separator behind a path says nothing about its normal form. */
  lemma SeparatorBehind(path: string, c: char)
    requires path != "" && c in {'/', '\\'}
    ensures Normalise(path + [c]) == Normalise(path)
  {
    hide NormComponents, Split, Join;
    SlashedConcat(path, [c]);
    assert Slashed(path + [c]) == Slashed(path) + ['/'] + "";
    SplitOfConcat(Slashed(path), "", '/');
    SplitOfPlain("", '/');
    ComponentsOfConcat([], Split(Slashed(path), '/'), [""]);
    NothingMore(NormComponents([], Split(Slashed(path), '/')));
    assert Slashed(path + [c])[0] == Slashed(path)[0];
    assert |path| > 1 ==> Slashed(path + [c])[1] == Slashed(path)[1];
  }

  lemma NothingMore(done: seq<string>)
    ensures NormComponents(done, [""]) == done
  {
    assert [""][1..] == [];
  }

  lemma {:induction false} SeparatorsBehind(raw: string)
    ensures RStripBoth(raw) != "" ==> Normalise(RStripBoth(raw)) == Normalise(raw)
    ensures RStripBoth(raw) == "" && raw != "" ==> Normalise(raw).None?
  {
    hide Normalise;
    if raw != "" && raw[|raw| - 1] in {'/', '\\'} {
      var shorter := raw[..|raw| - 1];
      SeparatorsBehind(shorter);
      if shorter == "" {
        OneSeparator(raw);
      } else {
        SeparatorBehind(shorter, raw[|raw| - 1]);
        assert shorter + [raw[|raw| - 1]] == raw;
      }
    }
  }

  lemma OneSeparator(raw: string)
    requires |raw| == 1 && raw[0] in {'/', '\\'}
    ensures Normalise(raw).None?
  {
    assert Slashed(raw)[0] == '/';
  }

  /**
   * A configured rule is accepted exactly when it is the path of something in the vault; it then is that
   * path, for the name alone or, with a separator behind it, for all below as well.
   */
  lemma NormaliseRuleMeaning(raw: string)
    ensures NormaliseRule(raw).Some? <==> Normalise(raw).Some? && Normalise(raw).value != ""
    ensures NormaliseRule(raw).Some? ==>
              && Normalise(raw) == Some(RulePath(NormaliseRule(raw).value))
              && (Recursive(NormaliseRule(raw).value) <==> raw[|raw| - 1] in {'/', '\\'})
  {
    hide Normalise, Canonical;
    SeparatorsBehind(raw);
    NormalOfNothing();
    var stripped := Normalise(RStripBoth(raw));
    if stripped.Some? && stripped.value != "" {
      NormaliseIsCanonical(RStripBoth(raw));
      CanonicalEnds(stripped.value);
      assert RStrip(stripped.value + "/", '/') == RStrip(stripped.value, '/') by {
        assert (stripped.value + "/")[..|stripped.value|] == stripped.value;
      }
    }
  }

  lemma NormaliseRuleIsNormal(raw: string)
    ensures NormaliseRule(raw).Some? ==> NormalRule(NormaliseRule(raw).value)
  {
    hide Normalise, Canonical;
    if NormaliseRule(raw).Some? {
      var item, scope := NormaliseRule(raw).value, Normalise(RStripBoth(raw)).value;
      NormaliseIsCanonical(RStripBoth(raw));
      CanonicalEnds(scope);
      if item != scope {
        assert item[..|item| - 1] == scope;
      }
    }
  }

  lemma NormalOfNothing()
    ensures Normalise("") == Some("")
  {
    assert Split("", '/') == [""];
    NothingMore([]);
  }

  function NormaliseRules(done: seq<string>, values: seq<string>): Option<seq<string>>
    decreases |values|
  {
    if values == [] then Some(done)
    else match NormaliseRule(values[0])
      case None => None
      case Some(item) => NormaliseRules(if item in done then done else done + [item], values[1..])
  }

  /** The loop of normalise_path_rules; None where the source raises VaultPathError. */
  method NormalisePathRules(values: seq<string>) returns (result: Option<seq<string>>)
    ensures result == NormaliseRules([], values)
    ensures result.Some? ==> forall rule :: rule in result.value ==> NormalRule(rule)
    ensures result.Some? ==> forall i, j :: 0 <= i < j < |result.value| ==> result.value[i] != result.value[j]
    ensures result.Some? <==> forall raw :: raw in values ==> NormaliseRule(raw).Some?
    ensures result.Some? ==>
              forall rule :: rule in result.value <==> exists raw :: raw in values && NormaliseRule(raw) == Some(rule)
  {
    hide NormaliseRule, NormalRule;
    var list: seq<string> := [];
    for i := 0 to |values|
      invariant NormaliseRules(list, values[i..]) == NormaliseRules([], values)
      invariant forall rule :: rule in list ==> NormalRule(rule)
      invariant forall i, j :: 0 <= i < j < |list| ==> list[i] != list[j]
      invariant forall k :: 0 <= k < i ==> NormaliseRule(values[k]).Some?
      invariant forall k :: 0 <= k < i ==> NormaliseRule(values[k]).value in list
      invariant forall rule :: rule in list ==> exists raw :: raw in values && NormaliseRule(raw) == Some(rule)
    {
      assert values[i..][1..] == values[i + 1..];
      match NormaliseRule(values[i]) {
        case None =>
          assert values[i] in values;
          return None;
        case Some(item) =>
          NormaliseRuleIsNormal(values[i]);
          assert values[i] in values;
          if item !in list {
            list := list + [item];
          }
      }
    }
    result := Some(list);
  }
}
