/** Small vaults on which the index and the vault come apart. */
module IndexExamples {
  import opened Text
  import opened Revisions
  import opened Paths
  import opened PathRules
  import opened AccessPolicy
  import opened NoteIndex
  import opened IndexGuarantees
  import opened IndexFollowing
  import VaultWalk

  const OPEN := Policy(false, [], [], [], [])

  /** Every note has no links and no tags, and claims the alias "k". */
  function Simple(policy: Policy, fold: Fold, hash: Hash): Settings {
    Settings(policy, fold, [], (s: string) => s, (s: string) => s, (b: Bytes) => Note([], [], ["k"], []), hash)
  }

  lemma NotExcluded(p: string, s: Settings)
    requires s.excludePaths == [] && p != "" && p[0] != '/' && p[|p| - 1] != '/' && '\\' !in p && |p| < 14
    ensures !s.Excluded(p)
  {
    assert Slashed(p) == p && StripSlashes(p) == p;
  }

  lemma ReadableInOpen(fold: Fold, hash: Hash)
    ensures var s := Simple(OPEN, fold, hash);
            s.CanRead("dir") && !s.Excluded("dir")
  {
    hide Normalise;
    PairIsNormal("dir", "a.md");
    NotExcluded("dir", Simple(OPEN, fold, hash));
  }

  /** Only this note may be read, not the directory it is in. */
  const NARROW := Policy(false, ["dir/a.md"], [], [], [])

  lemma OnlyTheNoteIsReadable(fold: Fold, hash: Hash)
    ensures var s := Simple(NARROW, fold, hash);
            && s.Indexable("dir/a.md") && s.CanRead("dir/a.md") && !s.CanRead("dir")
            && SelfNormal("dir/a.md") && Normalise("dir") == Some("dir") && Discovered("dir/a.md", "dir", s)
  {
    hide Normalise, RulePath, Settings.Excluded, Slashed, Split, Join, CaseFold;
    var s := Simple(NARROW, fold, hash);
    PairIsNormal("dir", "a.md");
    assert "dir" + "/" + "a.md" == "dir/a.md";
    RuleOfName();
    NotExcluded("dir/a.md", s);
    assert Matches("dir/a.md", NARROW.readPaths[0]);
    assert s.Markdown("dir/a.md") by { assert "dir/a.md"[5..] == ".md"; }
  }

  /** A directory appears with a note in it that may be read, while the directory may not: it is missed. */
  lemma AppearanceIsMissed(fold: Fold, hash: Hash)
    ensures var s := Simple(NARROW, fold, hash);
            var e := Event(DirectoryAppeared("dir", map["dir/a.md" := []]),
                           Directory([Listed("dir/a.md", File(Content([], 0)))]));
            && Plausible(map[], e, s) && Fresh(EMPTY, Wanted(map[], s), s)
            && Wanted(After(map[], e.change), s).Keys == {"dir/a.md"} && Respond(EMPTY, e, s).notes == {}
  {
    hide Settings.CanRead, Settings.Excluded, Settings.Markdown, SelfNormal, Normalise, Discovered, Fresh;
    var s := Simple(NARROW, fold, hash);
    OnlyTheNoteIsReadable(fold, hash);
    assert Below("dir/a.md", "dir") by { assert "dir/" <= "dir/a.md"; }
    EmptyIsSound(s);
    assert Wanted(map[], s) == map[];
    var files: Contents := map["dir/a.md" := []];
    var e := Event(DirectoryAppeared("dir", files), Directory([Listed("dir/a.md", File(Content([], 0)))]));
    assert Respond(EMPTY, e, s) == Purge(EMPTY, "dir");
    assert map[] + files == files;
  }

  /** A note whose name holds a backslash is updated under another name, where there is nothing. */
  lemma BackslashIsNotIndexed(fold: Fold, hash: Hash)
    ensures var s := Simple(OPEN, fold, hash);
            var e := Event(Written("a\\b.md", []), Absent);
            && Plausible(map[], e, s) && s.CanRead("a\\b.md") && Normalise("a\\b.md") == Some("a/b.md")
            && Wanted(After(map[], e.change), s) == map[] && Respond(EMPTY, e, s).notes == {}
  {
    hide Normalise, Settings.Excluded;
    var s := Simple(OPEN, fold, hash);
    NormalFormOfBackslash();
    assert Respond(EMPTY, Event(Written("a\\b.md", []), Absent), s) == Purge(EMPTY, "a/b.md");
    assert EndsWith("a\\b.md", ".md") by { assert "a\\b.md"[3..] == "..md"[1..]; }
  }

  lemma NormalFormOfBackslash()
    ensures Normalise("a\\b.md") == Some("a/b.md")
  {
    hide Normalise, Slashed;
    PairIsNormal("a", "b.md");
    assert "a" + "/" + "b.md" == "a/b.md";
    SlashedBackslash();
    SlashesDecide("a\\b.md", "a/b.md");
  }

  lemma SlashedBackslash()
    ensures Slashed("a\\b.md") == "a/b.md" == Slashed("a/b.md")
  {
  }

  lemma SlashesDecide(a: string, b: string)
    requires Slashed(a) == Slashed(b) && NUL !in a && NUL !in b
    ensures Normalise(a) == Normalise(b)
  {
    hide Slashed, NormComponents, Split, Join, HasDrive;
  }

  lemma RuleOfName()
    ensures RulePath("dir/a.md") == "dir/a.md" && !Recursive("dir/a.md")
  {
  }

  /** The note has vanished from the directory, and the update of the directory leaves it in the index. */
  lemma VanishedNoteStays(fold: Fold, hash: Hash)
    ensures var s := Simple(OPEN, fold, hash);
            var ix := IndexNote(EMPTY, "dir/a.md", [], 0, s);
            && ListsBelow([], "dir", map[], s)
            && Descendants(Update(ix, "dir", Directory([]), s), "dir") == {"dir/a.md"}
            && Under(Wanted(map[], s), "dir") == {}
  {
    hide Settings.CanRead, Settings.Excluded;
    var s := Simple(OPEN, fold, hash);
    var ix := IndexNote(EMPTY, "dir/a.md", [], 0, s);
    ReadableInOpen(fold, hash);
    assert Below("dir/a.md", "dir") by { assert "dir/" <= "dir/a.md"; }
    assert Update(ix, "dir", Directory([]), s).notes == {"dir/a.md"};
  }

  /** With a deny rule "dir", an update indexes the note "dir/a.md" that a build never comes upon. */
  lemma BuildMissesWhatUpdateIndexes(fold: Fold, hash: Hash)
    requires fold('/') == "/"
    ensures var s := Simple(Policy(false, [], [], ["dir"], []), fold, hash);
            var root := [VaultWalk.Entry("dir", VaultWalk.Dir([VaultWalk.Entry("a.md", VaultWalk.Leaf)]))];
            && Respond(EMPTY, Event(Written("dir/a.md", []), File(Content([], 0))), s).notes == {"dir/a.md"}
            && Candidates(root, s) == []
  {
    hide Normalise, Settings.Excluded, Settings.Targets, Settings.Tags, Settings.AliasKeys, VaultWalk.Walk,
      Policy.AllowsRead, AddTo, LinkedBy, LinkersOf, BlockMap, Slashed;
    var s := Simple(Policy(false, [], [], ["dir"], []), fold, hash);
    VaultWalk.ListingHidesReadable(fold);
    VaultWalk.OnlyDirIsDenied(fold);
    NotExcluded("dir/a.md", s);
  }

  lemma ClaimedKeys(path: string, fold: Fold, hash: Hash)
    ensures Simple(OPEN, fold, hash).AliasKeys(path, []) == {path, "k"}
  {
    assert "k" in ["k"];
  }

  function Both(s: Settings): Index {
    IndexNote(IndexNote(EMPTY, "a.md", [], 0, s), "b.md", [], 0, s)
  }

  lemma FirstHasTheAlias(fold: Fold, hash: Hash)
    ensures var one := IndexNote(EMPTY, "a.md", [], 0, Simple(OPEN, fold, hash));
            && one.aliases == map["a.md" := "a.md", "k" := "a.md"] && one.notes == {"a.md"}
            && one.revisions == map["a.md" := Revision(hash([]), 0, 0)]
  {
    hide Settings.AliasKeys, Settings.Targets, Settings.Tags, AddTo, LinkedBy, LinkersOf, BlockMap;
    ClaimedKeys("a.md", fold, hash);
  }

  lemma SecondTakesTheAlias(fold: Fold, hash: Hash)
    ensures var both := Both(Simple(OPEN, fold, hash));
            && both.aliases == map["a.md" := "a.md", "b.md" := "b.md", "k" := "b.md"]
            && both.notes == {"a.md", "b.md"}
            && both.revisions == map["a.md" := Revision(hash([]), 0, 0), "b.md" := Revision(hash([]), 0, 0)]
  {
    hide Settings.AliasKeys, Settings.Targets, Settings.Tags, AddTo, LinkedBy, LinkersOf, BlockMap;
    FirstHasTheAlias(fold, hash);
    ClaimedKeys("b.md", fold, hash);
    assert "a.md" != "b.md" && "k" != "a.md" && "k" != "b.md";
  }

  lemma SecondHasTheAlias(fold: Fold, hash: Hash)
    ensures var s := Simple(OPEN, fold, hash);
            var removed := Remove(Both(s), "b.md");
            && Both(s).aliases == map["a.md" := "a.md", "b.md" := "b.md", "k" := "b.md"]
            && removed.aliases == map["a.md" := "a.md"] && removed.notes == {"a.md"}
            && "a.md" in removed.revisions && removed.revisions["a.md"].sha == hash([])
            && "k" in IndexNote(EMPTY, "a.md", [], 0, s).aliases
  {
    hide IndexNote, Both, LinkedBy, LinkersOf;
    FirstHasTheAlias(fold, hash);
    SecondTakesTheAlias(fold, hash);
    assert "a.md" != "b.md" && "k" != "a.md" && "k" != "b.md";
  }

  lemma NobodyHasTheAlias(fold: Fold, hash: Hash)
    ensures var s := Simple(OPEN, fold, hash);
            && Complete(Both(s), map["a.md" := [], "b.md" := []], s)
            && !Complete(Remove(Both(s), "b.md"), map["a.md" := []], s)
  {
    hide Settings.AliasKeys, IndexNote, RemoveAll;
    var s := Simple(OPEN, fold, hash);
    ClaimedKeys("a.md", fold, hash);
    ClaimedKeys("b.md", fold, hash);
    SecondHasTheAlias(fold, hash);
    var left: Contents := map["a.md" := []];
    assert "a.md" in left && "k" in s.AliasKeys("a.md", left["a.md"]);
    assert "k" != "a.md" && "k" !in Remove(Both(s), "b.md").aliases;
  }

  /**
   * Two notes claim "k", the second has it, and is removed: then nobody has it, the sweep skips the first
   * note, and only a build would give it back.
   */
  lemma SharedAliasIsLost(fold: Fold, hash: Hash, view: View)
    requires forall p :: view(p) == Content([], 0)
    ensures var s := Simple(OPEN, fold, hash);
            var built := Perform(EMPTY, Build(["a.md", "b.md"], view), s);
            var removed := Perform(built, RemovePath("b.md"), s);
            var swept := Perform(removed, Reconciliation(["a.md"], view), s);
            && Complete(built, map["a.md" := [], "b.md" := []], s) && !Complete(removed, map["a.md" := []], s)
            && swept == removed && !Same(swept, Perform(swept, Build(["a.md"], view), s))
  {
    hide IndexNote, RemoveAll, Complete, Both, BuildFrom, Reconcile;
    var s := Simple(OPEN, fold, hash);
    BuildOfTwo(view, s);
    SecondHasTheAlias(fold, hash);
    NobodyHasTheAlias(fold, hash);
    SweepOfOne(Remove(Both(s), "b.md"), view, s);
  }

  lemma BuildOfTwo(view: View, s: Settings)
    requires forall p :: view(p) == Content([], 0)
    ensures BuildFrom(EMPTY, ["a.md", "b.md"], view, s) == Both(s)
    ensures BuildFrom(EMPTY, ["a.md"], view, s) == IndexNote(EMPTY, "a.md", [], 0, s)
  {
    hide IndexNote;
    assert ["a.md", "b.md"][1..] == ["b.md"] && ["b.md"][1..] == [] && ["a.md"][1..] == [];
  }

  lemma SweepOfOne(ix: Index, view: View, s: Settings)
    requires view("a.md") == Content([], 0) && ix.notes == {"a.md"}
    requires "a.md" in ix.revisions && ix.revisions["a.md"].sha == s.hash([])
    ensures Reconcile(ix, ["a.md"], view, s) == ix
  {
    hide RemoveAll;
    assert "a.md" in ["a.md"] && ix.notes - Members(["a.md"]) == {};
    RemoveNothing(ix);
    assert ["a.md"][1..] == [];
  }
}
