/**
 * Canonical vault-relative names: what `_normalise_relative` accepts and returns
 * (src/obsidian_mcp/storage/policy.py), with `posixpath.normpath` as a fold over the components.
 */
module Paths {
  import opened Text

  const NUL := '\0'

  /** Both separators are path separators. */
  function Slashed(s: string): (r: string)
    ensures |r| == |s| && '\\' !in r
    ensures '\\' !in s ==> r == s
  {
    seq(|s|, i requires 0 <= i < |s| => if s[i] == '\\' then '/' else s[i])
  }

  /** A Windows drive prefix: any one character followed by a colon. */
  predicate HasDrive(s: string) {
    |s| >= 2 && s[1] == ':'
  }

  predicate OrdinaryComponent(c: string) {
    c != "" && c != "." && c != ".."
  }

  /** One turn of the component loop of `normpath` for a path that is not absolute. */
  function NormStep(done: seq<string>, c: string): seq<string> {
    if c == "" || c == "." then done
    else if c != ".." || done == [] || done[|done| - 1] == ".." then done + [c]
    else done[..|done| - 1]
  }

  function NormComponents(done: seq<string>, todo: seq<string>): seq<string>
    decreases |todo|
  {
    if todo == [] then done else NormComponents(NormStep(done, todo[0]), todo[1..])
  }

  /** The canonical form of a caller's path, or nothing when the source raises VaultPathError. */
  function Normalise(raw: string): Option<string> {
    if NUL in raw then None
    else
      var value := Slashed(raw);
      if (value != "" && value[0] == '/') || HasDrive(value) then None
      else
        var parts := NormComponents([], Split(value, '/'));
        if parts != [] && parts[0] == ".." then None else Some(Join(parts, '/'))
  }

  /** A non-empty name every component of which is an ordinary one. */
  predicate Canonical(p: string) {
    NUL !in p && '\\' !in p && forall c :: c in Split(p, '/') ==> OrdinaryComponent(c)
  }

  /** A prefix of ".." followed by ordinary components: the loop invariant of `normpath`. */
  ghost predicate Climbing(parts: seq<string>) {
    && (forall i :: 0 <= i < |parts| ==> parts[i] != "" && parts[i] != "." && '/' !in parts[i])
    && (forall i :: 0 < i < |parts| && parts[i] == ".." ==> parts[i - 1] == "..")
  }

  lemma {:induction false} NormKeepsClimbing(done: seq<string>, todo: seq<string>)
    requires Climbing(done)
    requires forall c :: c in todo ==> '/' !in c
    ensures Climbing(NormComponents(done, todo))
    decreases |todo|
  {
    if todo != [] {
      assert todo[0] in todo;
      NormKeepsClimbing(NormStep(done, todo[0]), todo[1..]);
    }
  }

  lemma {:induction false} ClimbingStartsWithDots(parts: seq<string>, i: nat)
    requires Climbing(parts) && i < |parts| && parts[i] == ".."
    ensures parts[0] == ".."
  {
    if i > 0 {
      ClimbingStartsWithDots(parts, i - 1);
    }
  }

  lemma {:induction false} NormKeepsOrdinary(done: seq<string>, todo: seq<string>)
    requires forall c :: c in todo ==> OrdinaryComponent(c)
    ensures NormComponents(done, todo) == done + todo
    decreases |todo|
  {
    if todo != [] {
      assert todo[0] in todo;
      NormKeepsOrdinary(done + [todo[0]], todo[1..]);
      assert done + [todo[0]] + todo[1..] == done + todo;
    } else {
      assert done + todo == done;
    }
  }

  lemma {:induction false} NormComponentsFrom(done: seq<string>, todo: seq<string>, ch: char)
    requires forall c :: c in done || c in todo ==> ch !in c
    ensures forall c :: c in NormComponents(done, todo) ==> ch !in c
    decreases |todo|
  {
    if todo != [] {
      assert todo[0] in todo;
      NormComponentsFrom(NormStep(done, todo[0]), todo[1..], ch);
    }
  }

  lemma {:induction false} SplitKeepsOut(s: string, sep: char, ch: char)
    requires ch !in s
    ensures forall c :: c in Split(s, sep) ==> ch !in c
  {
    if s != "" {
      SplitKeepsOut(s[1..], sep, ch);
      assert Split(s[1..], sep)[0] in Split(s[1..], sep);
    }
  }

  lemma {:induction false} JoinKeepsOut(parts: seq<string>, sep: char, ch: char)
    requires ch != sep
    requires forall c :: c in parts ==> ch !in c
    ensures ch !in Join(parts, sep)
  {
    if |parts| > 0 {
      assert parts[0] in parts;
      if |parts| > 1 {
        JoinKeepsOut(parts[1..], sep, ch);
      }
    }
  }

  /** Whatever Normalise returns is the root or a canonical name. */
  lemma NormaliseIsCanonical(raw: string)
    requires Normalise(raw).Some?
    ensures Normalise(raw).value == "" || Canonical(Normalise(raw).value)
  {
    var value := Slashed(raw);
    var todo := Split(value, '/');
    var parts := NormComponents([], todo);
    NormKeepsClimbing([], todo);
    if parts != [] {
      SplitKeepsOut(value, '/', '\\');
      assert NUL !in value;
      SplitKeepsOut(value, '/', NUL);
      NormComponentsFrom([], todo, '\\');
      NormComponentsFrom([], todo, NUL);
      JoinKeepsOut(parts, '/', '\\');
      JoinKeepsOut(parts, '/', NUL);
      SplitOfJoin(parts, '/');
      forall c | c in parts ensures OrdinaryComponent(c) {
        var i :| 0 <= i < |parts| && parts[i] == c;
        if c == ".." {
          ClimbingStartsWithDots(parts, i);
        }
      }
    }
  }

  /** Canonical names are fixed points, unless they read as a Windows drive. */
  lemma CanonicalIsFixed(p: string)
    requires Canonical(p)
    ensures Normalise(p) == if HasDrive(p) then None else Some(p)
  {
    var parts := Split(p, '/');
    NormKeepsOrdinary([], parts);
    assert [] + parts == parts;
    JoinOfSplit(p, '/');
    assert parts[0] in parts;
  }

  /**
   * Normalising twice changes nothing exactly when the first result does not read as a drive:
   * "./c:x" is accepted and becomes "c:x", which is then rejected.
   */
  lemma NormaliseIdempotence(raw: string)
    requires Normalise(raw).Some?
    ensures var p := Normalise(raw).value; Normalise(p) == Some(p) <==> !HasDrive(p)
  {
    var p := Normalise(raw).value;
    NormaliseIsCanonical(raw);
    if p != "" {
      CanonicalIsFixed(p);
    } else {
      assert Split(p, '/') == [""];
      assert NormComponents([], [""]) == NormComponents([], []);
    }
  }

  /** A name that one normalisation accepts and the next refuses. */
  lemma NormalFormMayBeRefused()
    ensures Normalise("./c:x") == Some("c:x") && Normalise("c:x") == None
  {
    hide Split;
    SplitOfPlain(".", '/');
    SplitOfPlain("c:x", '/');
    SplitOfConcat(".", "c:x", '/');
    assert "." + ['/'] + "c:x" == "./c:x";
    assert [".", "c:x"][1..] == ["c:x"] && ["c:x"][1..] == [] && [] + ["c:x"] == ["c:x"];
    assert HasDrive("c:x");
  }

  /** A name of two plain components is in normal form. */
  lemma PairIsNormal(a: string, b: string)
    requires OrdinaryComponent(a) && OrdinaryComponent(b) && !HasDrive(a)
    requires forall c :: c in a || c in b ==> c != '/' && c != '\\' && c != NUL
    ensures Normalise(a + "/" + b) == Some(a + "/" + b) && Normalise(a) == Some(a)
    ensures Split(a + "/" + b, '/') == [a, b]
  {
    hide Split, Normalise;
    SplitOfPlain(a, '/');
    SplitOfPlain(b, '/');
    SplitOfConcat(a, b, '/');
    assert a + ['/'] + b == a + "/" + b;
    CanonicalIsFixed(a);
    CanonicalIsFixed(a + "/" + b);
  }

  /** The names the source itself would leave untouched. */
  predicate SelfNormal(p: string) {
    p != "" && Normalise(p) == Some(p)
  }

  lemma SelfNormalMeaning(p: string)
    ensures SelfNormal(p) <==> Canonical(p) && !HasDrive(p)
  {
    if Canonical(p) {
      assert Split("", '/') == [""] && "" in Split("", '/');
      CanonicalIsFixed(p);
    } else if SelfNormal(p) {
      NormaliseIsCanonical(p);
    }
  }

  /** A parent of an acceptable name is acceptable. */
  lemma SelfNormalParent(d: string, rest: string)
    requires d != "" && SelfNormal(d + "/" + rest)
    ensures SelfNormal(d)
  {
    SelfNormalMeaning(d + "/" + rest);
    SelfNormalMeaning(d);
    SplitOfConcat(d, rest, '/');
    assert forall c :: c in Split(d, '/') ==> c in Split(d, '/') + Split(rest, '/');
    assert forall i :: 0 <= i < |d| ==> (d + "/" + rest)[i] == d[i];
  }

  // ---------------------------------------------------------------------------------------
  // What normalising does, step by step, and what it accepts

  lemma {:induction false} ComponentsOfConcat(done: seq<string>, a: seq<string>, b: seq<string>)
    ensures NormComponents(done, a + b) == NormComponents(NormComponents(done, a), b)
    decreases |a|
  {
    if a == [] {
      assert a + b == b;
    } else {
      assert (a + b)[1..] == a[1..] + b;
      ComponentsOfConcat(NormStep(done, a[0]), a[1..], b);
    }
  }

  lemma SlashedConcat(a: string, b: string)
    ensures Slashed(a + b) == Slashed(a) + Slashed(b)
  {
  }

  /** Two spellings with the same beginning have the same normal form if their components come to the same. */
  lemma SameComponents(a: string, b: string)
    requires (NUL in a <==> NUL in b) && |a| >= 2 && |b| >= 2 && Slashed(a)[..2] == Slashed(b)[..2]
    requires NormComponents([], Split(Slashed(a), '/')) == NormComponents([], Split(Slashed(b), '/'))
    ensures Normalise(a) == Normalise(b)
  {
    hide NormComponents, Split, Slashed, Join;
    assert Slashed(a)[0] == Slashed(a)[..2][0] && Slashed(a)[1] == Slashed(a)[..2][1];
    assert Slashed(b)[0] == Slashed(b)[..2][0] && Slashed(b)[1] == Slashed(b)[..2][1];
  }

  /** Components in the middle of a path that come to nothing can be left out. */
  lemma MiddleIsNothing(pre: string, middle: string, post: string)
    requires pre != "" && '\\' !in middle && NUL !in middle
    requires forall done :: NormComponents(done, Split(middle, '/')) == done
    ensures Normalise(pre + "/" + middle + "/" + post) == Normalise(pre + "/" + post)
  {
    hide NormComponents, Split, Normalise;
    var a, b := pre + "/" + middle + "/" + post, pre + "/" + post;
    var front, back := Slashed(pre), Slashed(post);
    SlashedConcat(pre + "/" + middle + "/", post);
    SlashedConcat(pre + "/" + middle, "/");
    SlashedConcat(pre + "/", middle);
    SlashedConcat(pre, "/");
    SlashedConcat(pre + "/", post);
    assert Slashed(a) == front + "/" + middle + "/" + back && Slashed(b) == front + "/" + back;
    SplitOfConcat(front + "/" + middle, back, '/');
    SplitOfConcat(front, middle, '/');
    SplitOfConcat(front, back, '/');
    ComponentsOfConcat([], Split(front, '/') + Split(middle, '/'), Split(back, '/'));
    ComponentsOfConcat([], Split(front, '/'), Split(middle, '/'));
    ComponentsOfConcat([], Split(front, '/'), Split(back, '/'));
    SameComponents(a, b);
  }

  /** Two dots take back exactly the ordinary component before them. */
  lemma DotDotTakesBackOne(pre: string, c: string, post: string)
    requires pre != "" && OrdinaryComponent(c) && '/' !in c && '\\' !in c && NUL !in c
    ensures Normalise(pre + "/" + c + "/../" + post) == Normalise(pre + "/" + post)
  {
    hide Normalise, Split;
    var middle := c + "/" + "..";
    SplitOfPlain(c, '/');
    SplitOfPlain("..", '/');
    SplitOfConcat(c, "..", '/');
    assert Split(middle, '/') == [c, ".."] && [c, ".."][1..] == [".."] && [".."][1..] == [];
    forall done ensures NormComponents(done, [c, ".."]) == done {
      assert (done + [c])[..|done|] == done;
      assert NormComponents(done + [c], [".."]) == NormComponents(done, []);
    }
    MiddleIsNothing(pre, middle, post);
    assert pre + "/" + middle + "/" + post == pre + "/" + c + "/../" + post;
  }

  /** A single dot, or nothing between two slashes, stays out. */
  lemma DotStaysOut(pre: string, post: string)
    requires pre != ""
    ensures Normalise(pre + "/./" + post) == Normalise(pre + "/" + post) == Normalise(pre + "//" + post)
  {
    hide Normalise, Split;
    SplitOfPlain(".", '/');
    SplitOfPlain("", '/');
    assert ["."][1..] == [] && [""][1..] == [];
    MiddleIsNothing(pre, ".", post);
    MiddleIsNothing(pre, "", post);
    assert pre + "/" + "." + "/" + post == pre + "/./" + post && pre + "/" + "" + "/" + post == pre + "//" + post;
  }

  /** How far below its start a walk along these components ends. */
  ghost function Depth(parts: seq<string>): int {
    if parts == [] then 0
    else
      var last := parts[|parts| - 1];
      Depth(parts[..|parts| - 1]) + Descent(last)
  }

  function Descent(c: string): int {
    if c == "" || c == "." then 0 else if c == ".." then -1 else 1
  }

  /** The walk never leaves the directory where it starts. */
  ghost predicate StaysInside(parts: seq<string>) {
    forall k :: 0 <= k <= |parts| ==> Depth(parts[..k]) >= 0
  }

  lemma {:induction false} ComponentsStayInside(parts: seq<string>)
    ensures var r := NormComponents([], parts);
            if StaysInside(parts) then |r| == Depth(parts) && ".." !in r else r != [] && r[0] == ".."
  {
    hide StaysInside, Depth, NormComponents, NormStep;
    StaysInsideUpTo(parts);
    if parts != [] {
      var before, last := parts[..|parts| - 1], parts[|parts| - 1];
      ComponentsStayInside(before);
      assert parts == before + [last];
      ComponentsOfConcat([], before, [last]);
      OneComponent(NormComponents([], before), last);
    }
  }

  /** One component goes one directory down, one up, or nowhere. */
  lemma OneComponent(done: seq<string>, c: string)
    ensures var r := NormComponents(done, [c]);
            && (".." !in done ==> if |done| + Descent(c) >= 0 then |r| == |done| + Descent(c) && ".." !in r
                                  else r != [] && r[0] == "..")
            && (done != [] && done[0] == ".." ==> r != [] && r[0] == "..")
  {
    assert [c][1..] == [];
    assert done != [] ==> done[|done| - 1] in done && (|done| == 1 ==> done[0] == done[|done| - 1]);
  }

  lemma StaysInsideUpTo(parts: seq<string>)
    ensures parts == [] ==> StaysInside(parts) && Depth(parts) == 0 && NormComponents([], parts) == []
    ensures parts != [] ==>
              var before := parts[..|parts| - 1];
              && Depth(parts) == Depth(before) + Descent(parts[|parts| - 1])
              && (StaysInside(parts) <==> StaysInside(before) && Depth(parts) >= 0)
              && (StaysInside(before) ==> Depth(before) >= 0)
  {
    DepthUnfolds(parts);
    hide Depth;
    assert parts[..|parts|] == parts;
    if parts != [] {
      var before := parts[..|parts| - 1];
      assert before[..|before|] == before;
      assert forall k :: 0 <= k <= |before| ==> before[..k] == parts[..k];
    }
  }

  lemma DepthUnfolds(parts: seq<string>)
    ensures Depth(parts) == if parts == [] then 0
                            else Depth(parts[..|parts| - 1]) + Descent(parts[|parts| - 1])
  {
  }

  /** A path is accepted exactly when it is relative, names no drive, and never leaves the vault on its way. */
  lemma NormaliseAccepts(raw: string)
    ensures Normalise(raw).Some? <==>
              && NUL !in raw && !("/" <= Slashed(raw)) && !HasDrive(Slashed(raw))
              && StaysInside(Split(Slashed(raw), '/'))
  {
    hide StaysInside, NormComponents, Split;
    ComponentsStayInside(Split(Slashed(raw), '/'));
  }
}
