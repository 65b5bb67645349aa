/**
 * VaultIndex (src/obsidian_mcp/domain/index.py): the maps as mutable fields, the loops that maintain
 * them in place, and the queries, each proved against the value-level specification in NoteIndex.
 */
module VaultIndex {
  import opened Text
  import opened Revisions
  import opened Paths
  import opened PathRules
  import opened NoteIndex

  datatype IndexError = IndexBuilding

  /** The telemetry of the last sweep. */
  datatype ReconcileError = NoError | DiscoveryFailed | NotesFailed(count: nat)

  /** The lower-cased path, with and without its extension, and the stem. */
  function OwnKeys(path: string, s: Settings): set<string> {
    var low := s.lower(path);
    {low, if EndsWith(low, ".md") then low[..|low| - 3] else low, s.lower(s.stem(path))}
  }

  function AliasesTo(ix: Index, path: string): set<string> {
    set k | k in ix.aliases && ix.aliases[k] == path
  }

  function LinksTo(backlinks: map<string, set<string>>, keys: set<string>): set<string> {
    set k, q | k in keys && q in Get(backlinks, k) :: q
  }

  /** What is recorded under the keys that lead to this note. */
  function Backlinks(ix: Index, s: Settings, path: string): set<string> {
    LinksTo(ix.backlinks, OwnKeys(path, s) + AliasesTo(ix, path))
  }

  lemma LinksToOneMore(backlinks: map<string, set<string>>, keys: set<string>, k: string)
    ensures LinksTo(backlinks, keys + {k}) == LinksTo(backlinks, keys) + Get(backlinks, k)
    ensures LinksTo(backlinks, {}) == {}
  {
  }

  /** The name is the stem or one of the aliases of an indexed note, whatever the case. */
  ghost predicate Claims(path: string, low: string, rec: Contents, s: Settings) {
    path in rec && (low == s.lower(s.stem(path)) || exists a :: a in s.parse(rec[path]).aliases && low == s.lower(a))
  }

  /** The name is the path, with or without its extension, whatever the case. */
  ghost predicate NamesPath(low: string, path: string, s: Settings) {
    low == s.lower(path) || low + ".md" == s.lower(path)
  }

  /** Brute force, link by link: some link of a note is this path or its stem, or a name that it claims. */
  ghost function ScanBacklinks(path: string, rec: Contents, s: Settings): set<string> {
    set q | q in rec && exists link :: link in s.parse(rec[q]).links && Means(link, path, rec, s)
  }

  ghost predicate Means(link: string, path: string, rec: Contents, s: Settings) {
    var low := s.lower(link);
    NamesPath(low, path, s) || low == s.lower(s.stem(path)) || Claims(path, low, rec, s)
  }

  /** Brute force: some note claims the name, or is that path. */
  ghost predicate ScanHasNote(target: string, rec: Contents, s: Settings) {
    exists p :: p in rec && (Claims(p, s.lower(target), rec, s) || NamesPath(s.lower(target), p, s))
  }

  /** Everything `list_files` yields below a directory is a canonical name. */
  predicate Listable(probe: Probe)
    decreases probe
  {
    probe.Directory? ==> forall c :: c in probe.children ==> Normalise(c.path) == Some(c.path) && Listable(c.probe)
  }

  class VaultIndex {
    const settings: Settings
    var ready: bool
    var backlinks: map<string, set<string>>
    var tagsIndex: map<string, set<string>>
    var outlinks: map<string, set<string>>
    var aliasIndex: map<string, string>
    var blockIndex: map<string, map<string, int>>
    var allNotes: set<string>
    var revisions: map<string, Revision>
    var lastReconcileError: ReconcileError

    constructor (settings: Settings)
      ensures this.settings == settings && State() == EMPTY && !ready && lastReconcileError.NoError?
    {
      this.settings := settings;
      ready := false;
      backlinks, tagsIndex, outlinks, aliasIndex := map[], map[], map[], map[];
      blockIndex, allNotes, revisions := map[], {}, map[];
      lastReconcileError := NoError;
    }

    ghost function State(): Index
      reads this
    {
      Index(backlinks, tagsIndex, outlinks, aliasIndex, blockIndex, allNotes, revisions)
    }

    /** `self._backlinks[target].discard(path)` for each target; the default dict grows on the way. */
    method DiscardLinks(targets: set<string>, path: string)
      modifies this`backlinks
      ensures backlinks == map k | k in old(backlinks).Keys + targets ::
                             if k in targets then Get(old(backlinks), k) - {path} else old(backlinks)[k]
    {
      var todo := targets;
      while todo != {}
        invariant todo <= targets
        invariant backlinks == map k | k in old(backlinks).Keys + (targets - todo) ::
                                 if k in targets - todo then Get(old(backlinks), k) - {path} else old(backlinks)[k]
        decreases todo
      {
        var k :| k in todo;
        backlinks := backlinks[k := Get(backlinks, k) - {path}];
        todo := todo - {k};
      }
    }

    /** Every tag set loses the path. */
    method DiscardTags(path: string)
      modifies this`tagsIndex
      ensures tagsIndex == map t | t in old(tagsIndex) :: old(tagsIndex)[t] - {path}
    {
      var todo := tagsIndex.Keys;
      while todo != {}
        invariant todo <= old(tagsIndex).Keys
        invariant tagsIndex == map t | t in old(tagsIndex) ::
                                 if t in todo then old(tagsIndex)[t] else old(tagsIndex)[t] - {path}
        decreases todo
      {
        var t :| t in todo;
        tagsIndex := tagsIndex[t := tagsIndex[t] - {path}];
        todo := todo - {t};
      }
    }

    /** The aliases that point to the path are collected first and deleted one by one. */
    method DropAliases(path: string)
      modifies this`aliasIndex
      ensures aliasIndex == map k | k in old(aliasIndex) && old(aliasIndex)[k] != path :: old(aliasIndex)[k]
    {
      var stale := set k | k in aliasIndex && aliasIndex[k] == path;
      var todo := stale;
      while todo != {}
        invariant todo <= stale
        invariant aliasIndex == old(aliasIndex) - (stale - todo)
        decreases todo
      {
        var k :| k in todo;
        aliasIndex := aliasIndex - {k};
        todo := todo - {k};
      }
    }

    /** `remove`. */
    method Remove(path: string)
      modifies this`backlinks, this`tagsIndex, this`outlinks, this`aliasIndex
      modifies this`blockIndex, this`allNotes, this`revisions
      ensures State() == NoteIndex.Remove(old(State()), path)
    {
      var oldTargets := if path in outlinks then outlinks[path] else {};
      ghost var before := State();
      outlinks := outlinks - {path};
      DiscardLinks(oldTargets, path);
      DiscardTags(path);
      DropAliases(path);
      blockIndex := blockIndex - {path};
      allNotes := allNotes - {path};
      revisions := revisions - {path};
      RemoveOne(before, path);
    }

    /** `self._backlinks[target].add(path)` for each target. */
    method AddLinks(targets: set<string>, path: string)
      modifies this`backlinks
      ensures backlinks == AddTo(old(backlinks), targets, path)
    {
      var todo := targets;
      assert AddTo(backlinks, {}, path) == backlinks;
      while todo != {}
        invariant todo <= targets
        invariant backlinks == AddTo(old(backlinks), targets - todo, path)
        decreases todo
      {
        var k :| k in todo;
        backlinks := backlinks[k := Get(backlinks, k) + {path}];
        todo := todo - {k};
      }
      assert targets - todo == targets;
    }

    method AddTags(tags: seq<string>, path: string)
      modifies this`tagsIndex
      ensures tagsIndex == AddTo(old(tagsIndex), Members(tags), path)
    {
      assert AddTo(tagsIndex, {}, path) == tagsIndex;
      for i := 0 to |tags|
        invariant tagsIndex == AddTo(old(tagsIndex), Members(tags[..i]), path)
      {
        tagsIndex := tagsIndex[tags[i] := Get(tagsIndex, tags[i]) + {path}];
        assert tags[..i + 1] == tags[..i] + [tags[i]];
        assert Members(tags[..i + 1]) == Members(tags[..i]) + {tags[i]};
      }
      assert tags[..|tags|] == tags;
    }

    method AddAliases(stem: string, aliases: seq<string>, path: string)
      modifies this`aliasIndex
      ensures aliasIndex == TakeOver(old(aliasIndex), {settings.lower(stem)} + Lowered(aliases, settings), path)
    {
      hide Lowered, TakeOver;
      LoweredOfNone(settings);
      TakeOverOneMore(aliasIndex, {}, settings.lower(stem), path);
      assert {} + {settings.lower(stem)} == {settings.lower(stem)};
      aliasIndex := aliasIndex[settings.lower(stem) := path];
      ghost var keys := {settings.lower(stem)};
      for i := 0 to |aliases|
        invariant keys == {settings.lower(stem)} + Lowered(aliases[..i], settings)
        invariant aliasIndex == TakeOver(old(aliasIndex), keys, path)
      {
        LoweredOneMore(aliases, i, settings);
        TakeOverOneMore(old(aliasIndex), keys, settings.lower(aliases[i]), path);
        aliasIndex := aliasIndex[settings.lower(aliases[i]) := path];
        keys := keys + {settings.lower(aliases[i])};
      }
      assert aliases[..|aliases|] == aliases;
    }

    /** `_index_note`, after parsing. */
    method IndexNote(path: string, content: Bytes, mtime: int)
      modifies this`backlinks, this`tagsIndex, this`outlinks, this`aliasIndex
      modifies this`blockIndex, this`allNotes, this`revisions
      ensures State() == NoteIndex.IndexNote(old(State()), path, content, mtime, settings)
    {
      var note := settings.parse(content);
      var targets := settings.Targets(content);
      allNotes := allNotes + {path};
      revisions := revisions[path := Revision(settings.hash(content), |content|, mtime)];
      outlinks := outlinks[path := targets];
      AddLinks(targets, path);
      AddTags(note.tags, path);
      assert Members(note.tags) == settings.Tags(content);
      AddAliases(settings.stem(path), note.aliases, path);
      assert {settings.lower(settings.stem(path))} + Lowered(note.aliases, settings)
             == settings.AliasKeys(path, content);
      if note.blocks != [] {
        blockIndex := blockIndex[path := BlockMap(note.blocks)];
      }
    }

    /** `_remove_descendants`: the stale notes are collected first, then removed one by one. */
    method RemoveStale(stale: set<string>)
      modifies this`backlinks, this`tagsIndex, this`outlinks, this`aliasIndex
      modifies this`blockIndex, this`allNotes, this`revisions
      ensures State() == RemoveAll(old(State()), stale)
    {
      hide RemoveAll;
      var todo := stale;
      ghost var done := {};
      RemoveNothing(State());
      while todo != {}
        invariant todo + done == stale && State() == RemoveAll(old(State()), done)
        decreases todo
      {
        var p :| p in todo;
        RemoveOneMore(old(State()), done, p);
        Remove(p);
        todo, done := todo - {p}, done + {p};
      }
      assert done == stale;
    }

    /** `_build`: everything is forgotten, then each file is read and indexed; failures are skipped. */
    method Build(files: seq<string>, view: View, publishReady: bool)
      modifies this
      ensures State() == BuildFrom(EMPTY, files, view, settings)
      ensures ready == publishReady && lastReconcileError == old(lastReconcileError)
    {
      ready := false;
      backlinks, tagsIndex, outlinks, aliasIndex := map[], map[], map[], map[];
      blockIndex, allNotes, revisions := map[], {}, map[];
      for i := 0 to |files|
        invariant BuildFrom(State(), files[i..], view, settings) == BuildFrom(EMPTY, files, view, settings)
        invariant !ready && lastReconcileError == old(lastReconcileError)
      {
        assert files[i..][0] == files[i] && files[i..][1..] == files[i + 1..];
        match view(files[i]) {
          case Content(bytes, mtime) => IndexNote(files[i], bytes, mtime);
          case _ =>
        }
      }
      ready := publishReady;
    }

    /** `update`: a path that cannot be canonicalized is removed as it was given. */
    method Update(path: string, probe: Probe)
      requires Listable(probe)
      modifies this`backlinks, this`tagsIndex, this`outlinks, this`aliasIndex
      modifies this`blockIndex, this`allNotes, this`revisions
      ensures State() == UpdateAsGiven(old(State()), path, probe, settings)
      decreases probe, 1
    {
      if Normalise(path).None? || probe.Invalid? {
        Remove(path);
        return;
      }
      var rel := Normalise(path).value;
      Remove(rel);
      if !settings.CanRead(rel) || settings.Excluded(rel) || probe.Absent? {
        RemoveStale(set p | p in allNotes && Below(p, rel));
        return;
      }
      match probe {
        case Directory(children) => UpdateChildren(children);
        case File(Content(bytes, mtime)) =>
          Remove(rel);
          IndexNote(rel, bytes, mtime);
        case _ =>
      }
    }

    /** The loop over `list_files` of a live directory. */
    method UpdateChildren(children: seq<Listed>)
      requires forall c :: c in children ==> Normalise(c.path) == Some(c.path) && Listable(c.probe)
      modifies this`backlinks, this`tagsIndex, this`outlinks, this`aliasIndex
      modifies this`blockIndex, this`allNotes, this`revisions
      ensures State() == NoteIndex.UpdateChildren(old(State()), children, settings)
      decreases children, 0
    {
      hide NoteIndex.Update;
      for i := 0 to |children|
        invariant NoteIndex.UpdateChildren(State(), children[i..], settings)
                  == NoteIndex.UpdateChildren(old(State()), children, settings)
      {
        assert children[i..][0] == children[i] && children[i..][1..] == children[i + 1..];
        var c := children[i];
        if settings.Markdown(c.path) && !settings.Excluded(c.path) {
          UpdateInvalid(State(), c, settings);
          Update(c.path, c.probe);
        }
      }
    }

    /** `_reconcile`. `listing` is None when discovery itself raised: then nothing is touched but the telemetry. */
    method Reconcile(listing: Option<seq<string>>, view: View) returns (raised: bool)
      modifies this`backlinks, this`tagsIndex, this`outlinks, this`aliasIndex
      modifies this`blockIndex, this`allNotes, this`revisions, this`lastReconcileError
      ensures raised == listing.None?
      ensures State() == if listing.None? then old(State())
                         else NoteIndex.Reconcile(old(State()), listing.value, view, settings)
      ensures lastReconcileError ==
                if listing.None? then DiscoveryFailed
                else (var n := FailureCount(listing.value, view); if n == 0 then NoError else NotesFailed(n))
    {
      hide RemoveAll, NoteIndex.IndexNote;
      if listing.None? {
        lastReconcileError := DiscoveryFailed;
        return true;
      }
      var files := listing.value;
      RemoveStale(allNotes - Members(files));
      var failures := 0;
      for i := 0 to |files|
        invariant Sweep(State(), files[i..], view, settings)
                  == NoteIndex.Reconcile(old(State()), files, view, settings)
        invariant failures + FailureCount(files[i..], view) == FailureCount(files, view)
      {
        assert files[i..][0] == files[i] && files[i..][1..] == files[i + 1..];
        var rel := files[i];
        match view(rel) {
          case Content(bytes, mtime) =>
            if rel !in revisions || revisions[rel].sha != settings.hash(bytes) {
              Remove(rel);
              IndexNote(rel, bytes, mtime);
            }
          case Gone => Remove(rel);
          case Failed => failures := failures + 1;
        }
      }
      lastReconcileError := if failures == 0 then NoError else NotesFailed(failures);
      return false;
    }

    /** `get_backlinks` answers as a scan of all indexed contents would. */
    method GetBacklinks(notePath: string, ghost rec: Contents) returns (r: Result<set<string>, IndexError>)
      ensures r == if ready then Ok(Backlinks(State(), settings, notePath)) else Err(IndexBuilding)
      ensures ready && Fresh(State(), rec, settings) ==> r == Ok(ScanBacklinks(notePath, rec, settings))
    {
      hide LinksTo, OwnKeys, ScanBacklinks, Fresh;
      if !ready {
        return Err(IndexBuilding);
      }
      var keys := OwnKeys(notePath, settings) + set k | k in aliasIndex && aliasIndex[k] == notePath;
      var results := {};
      var todo := keys;
      LinksToOneMore(backlinks, {}, "");
      assert keys - todo == {};
      while todo != {}
        invariant todo <= keys
        invariant results == LinksTo(backlinks, keys - todo)
        decreases todo
      {
        var k :| k in todo;
        LinksToOneMore(backlinks, keys - todo, k);
        assert keys - (todo - {k}) == keys - todo + {k};
        results := results + Get(backlinks, k);
        todo := todo - {k};
      }
      assert keys - todo == keys == OwnKeys(notePath, settings) + AliasesTo(State(), notePath);
      if Fresh(State(), rec, settings) {
        BacklinksAreScanned(State(), notePath, rec, settings);
      }
      r := Ok(results);
    }

    /** `get_notes_by_tag` answers as a scan would. */
    method GetNotesByTag(tag: string, ghost rec: Contents) returns (r: Result<set<string>, IndexError>)
      ensures r.Err? <==> !ready
      ensures ready && Sound(State(), rec, settings) ==>
                r == Ok(set q | q in rec && tag in settings.parse(rec[q]).tags)
    {
      hide SoundDomain, SoundLinks, SoundBlocks, SoundAliases;
      if !ready {
        return Err(IndexBuilding);
      }
      var found := Get(tagsIndex, tag);
      if Sound(State(), rec, settings) {
        forall q ensures q in found <==> q in rec && tag in settings.parse(rec[q]).tags {
          assert q in Get(State().tags, tag) <==> q in rec && tag in settings.Tags(rec[q]);
        }
        assert found == set q | q in rec && tag in settings.parse(rec[q]).tags;
      }
      return Ok(found);
    }

    /** `get_block`: the line of the last reference with this id. */
    method GetBlock(path: string, id: string, ghost rec: Contents) returns (r: Result<Option<int>, IndexError>)
      ensures r.Err? <==> !ready
      ensures ready && Sound(State(), rec, settings) ==>
                && (r.value.Some? <==>
                      path in rec && exists i :: 0 <= i < |settings.parse(rec[path]).blocks|
                                                 && settings.parse(rec[path]).blocks[i].id == id)
                && (r.value.Some? ==> LastRef(settings.parse(rec[path]).blocks, id, r.value.value))
    {
      hide SoundDomain, SoundLinks, SoundTags, SoundAliases, LastRef;
      if !ready {
        return Err(IndexBuilding);
      }
      if path in rec {
        BlockMapMeaning(settings.parse(rec[path]).blocks, id);
      }
      assert Sound(State(), rec, settings) ==>
          (path in State().blocks <==> path in rec && settings.parse(rec[path]).blocks != []);
      if path in blockIndex && id in blockIndex[path] {
        return Ok(Some(blockIndex[path][id]));
      }
      return Ok(None);
    }

    /** `has_note` answers as a scan would. */
    method HasNote(target: string, ghost rec: Contents) returns (r: Result<bool, IndexError>)
      ensures r.Err? <==> !ready
      ensures ready && Fresh(State(), rec, settings) ==> r == Ok(ScanHasNote(target, rec, settings))
    {
      hide Fresh, Claims;
      if !ready {
        return Err(IndexBuilding);
      }
      var low := settings.lower(target);
      if Fresh(State(), rec, settings) {
        AliasesAreClaims(State(), rec, settings);
      }
      if low in aliasIndex {
        ghost var holder := aliasIndex[low];
        assert Fresh(State(), rec, settings) ==> holder in rec && Claims(holder, low, rec, settings);
        return Ok(true);
      }
      var todo := allNotes;
      while todo != {}
        invariant todo <= allNotes
        invariant forall p :: p in allNotes - todo ==> !NamesPath(low, p, settings)
        decreases todo
      {
        var p :| p in todo;
        var name := settings.lower(p);
        if name == low {
          return Ok(true);
        }
        WithoutExtension(name, low);
        if EndsWith(name, ".md") && name[..|name| - 3] == low {
          return Ok(true);
        }
        todo := todo - {p};
      }
      assert forall p :: p in allNotes ==> p in allNotes - todo;
      return Ok(false);
    }
  }

  /** `name[:-3]` of a name that ends in ".md". */
  lemma WithoutExtension(name: string, low: string)
    ensures low + ".md" == name <==> EndsWith(name, ".md") && name[..|name| - 3] == low
  {
    if EndsWith(name, ".md") {
      assert name == name[..|name| - 3] + ".md";
    }
    if low + ".md" == name {
      assert name[|name| - 3..] == ".md" && name[..|name| - 3] == low;
    }
  }

  /** On an exact index every alias leads to the one note that claims it, and to every such name there is one. */
  lemma AliasesAreClaims(ix: Index, rec: Contents, s: Settings)
    requires Fresh(ix, rec, s)
    ensures ix.notes == rec.Keys
    ensures forall k, p :: k in ix.aliases && ix.aliases[k] == p <==> Claims(p, k, rec, s)
    ensures forall k :: k in ix.aliases ==> ix.aliases[k] in rec
  {
    hide SoundLinks, SoundTags, SoundBlocks;
    forall p, k | Claims(p, k, rec, s) ensures k in ix.aliases && ix.aliases[k] == p {
      assert Owns(ix, p, rec[p], s) && k in s.AliasKeys(p, rec[p]);
    }
  }

  ghost function Lowered(aliases: seq<string>, s: Settings): set<string> {
    set a | a in aliases :: s.lower(a)
  }

  lemma LoweredOneMore(aliases: seq<string>, i: nat, s: Settings)
    requires i < |aliases|
    ensures Lowered(aliases[..i + 1], s) == Lowered(aliases[..i], s) + {s.lower(aliases[i])}
  {
    assert aliases[..i + 1] == aliases[..i] + [aliases[i]];
  }

  lemma LoweredOfNone(s: Settings)
    ensures Lowered([], s) == {}
  {
  }

  lemma TakeOverOneMore(m: map<string, string>, keys: set<string>, key: string, path: string)
    ensures TakeOver(m, keys, path)[key := path] == TakeOver(m, keys + {key}, path)
    ensures TakeOver(m, {}, path) == m
  {
  }

  function FailureCount(files: seq<string>, view: View): (n: nat)
    ensures n == 0 <==> forall f :: f in files ==> !view(f).Failed?
  {
    if files == [] then 0
    else
      assert forall f :: f in files <==> f == files[0] || f in files[1..];
      (if view(files[0]).Failed? then 1 else 0) + FailureCount(files[1..], view)
  }

  lemma RemoveOne(ix: Index, path: string)
    ensures var targets := if path in ix.outlinks then ix.outlinks[path] else {};
            Remove(ix, path) == Index(
              map k | k in ix.backlinks.Keys + targets ::
                if k in targets then Get(ix.backlinks, k) - {path} else ix.backlinks[k],
              map t | t in ix.tags :: ix.tags[t] - {path},
              ix.outlinks - {path},
              map k | k in ix.aliases && ix.aliases[k] != path :: ix.aliases[k],
              ix.blocks - {path}, ix.notes - {path}, ix.revisions - {path})
  {
    hide LinkedBy, LinkersOf;
    var one := Remove(ix, path);
    RemoveOneLinks(ix, path);
    assert one.aliases == map k | k in ix.aliases && ix.aliases[k] != path :: ix.aliases[k];
  }

  lemma RemoveOneLinks(ix: Index, path: string)
    ensures var targets := if path in ix.outlinks then ix.outlinks[path] else {};
            Remove(ix, path).backlinks == map k | k in ix.backlinks.Keys + targets ::
              if k in targets then Get(ix.backlinks, k) - {path} else ix.backlinks[k]
  {
    var targets := if path in ix.outlinks then ix.outlinks[path] else {};
    var one := Remove(ix, path);
    assert LinkedBy(ix, {path}) == targets;
    forall k | k in one.backlinks
      ensures one.backlinks[k] == if k in targets then Get(ix.backlinks, k) - {path} else ix.backlinks[k]
    {
      assert LinkersOf(ix, {path}, k) == if k in targets then {path} else {};
    }
  }

  /** Removing notes one by one, in any order, is removing them all. */
  lemma RemoveOneMore(ix: Index, gone: set<string>, p: string)
    ensures Remove(RemoveAll(ix, gone), p) == RemoveAll(ix, gone + {p})
  {
    hide LinkedBy, LinkersOf;
    var a, b := Remove(RemoveAll(ix, gone), p), RemoveAll(ix, gone + {p});
    assert a.outlinks == b.outlinks;
    assert a.blocks == b.blocks;
    assert a.revisions == b.revisions;
    assert a.notes == b.notes;
    assert a.aliases == b.aliases;
    forall t | t in ix.tags ensures a.tags[t] == b.tags[t] {
    }
    assert a.tags == b.tags;
    RemoveOneMoreLinks(ix, gone, p);
  }

  lemma RemoveOneMoreLinks(ix: Index, gone: set<string>, p: string)
    ensures Remove(RemoveAll(ix, gone), p).backlinks == RemoveAll(ix, gone + {p}).backlinks
  {
    var mid := RemoveAll(ix, gone);
    var a, b := Remove(mid, p).backlinks, RemoveAll(ix, gone + {p}).backlinks;
    RemoveOneMoreKeys(ix, gone, p);
    assert a.Keys == b.Keys;
    forall k | k in b ensures a[k] == b[k] {
      RemoveOneMoreAt(ix, gone, p, k);
    }
  }

  lemma RemoveOneMoreAt(ix: Index, gone: set<string>, p: string, k: string)
    ensures Get(RemoveAll(ix, gone).backlinks, k) - LinkersOf(RemoveAll(ix, gone), {p}, k)
            == Get(ix.backlinks, k) - LinkersOf(ix, gone + {p}, k)
  {
    var mid := RemoveAll(ix, gone);
    assert LinkersOf(ix, gone + {p}, k) == LinkersOf(ix, gone, k) + LinkersOf(mid, {p}, k);
    assert Get(mid.backlinks, k) == Get(ix.backlinks, k) - LinkersOf(ix, gone, k);
  }

  lemma RemoveOneMoreKeys(ix: Index, gone: set<string>, p: string)
    ensures LinkedBy(ix, gone + {p}) == LinkedBy(ix, gone) + LinkedBy(RemoveAll(ix, gone), {p})
  {
    var mid := RemoveAll(ix, gone);
    forall k | k in LinkedBy(ix, gone + {p}) ensures k in LinkedBy(ix, gone) + LinkedBy(mid, {p}) {
      var q :| q in gone + {p} && q in ix.outlinks && k in ix.outlinks[q];
      if q !in gone {
        assert q in mid.outlinks && mid.outlinks[q] == ix.outlinks[q];
      }
    }
    forall k | k in LinkedBy(mid, {p}) ensures k in LinkedBy(ix, gone + {p}) {
      assert p in ix.outlinks && k in ix.outlinks[p];
    }
    forall k | k in LinkedBy(ix, gone) ensures k in LinkedBy(ix, gone + {p}) {
      var q :| q in gone && q in ix.outlinks && k in ix.outlinks[q];
      assert q in gone + {p};
    }
  }

  lemma UpdateInvalid(ix: Index, c: Listed, s: Settings)
    ensures c.probe.Invalid? ==> NoteIndex.Update(ix, c.path, c.probe, s) == Remove(ix, c.path)
  {
  }

  /** The keys `get_backlinks` looks under are those a link that means the note can have. */
  lemma KeysAreMeanings(ix: Index, path: string, rec: Contents, link: string, s: Settings)
    requires Fresh(ix, rec, s)
    ensures s.lower(link) in OwnKeys(path, s) + AliasesTo(ix, path) <==> Means(link, path, rec, s)
  {
    hide Fresh, Claims;
    AliasesAreClaims(ix, rec, s);
    WithoutExtension(s.lower(path), s.lower(link));
  }

  lemma BacklinksAreScanned(ix: Index, path: string, rec: Contents, s: Settings)
    requires Fresh(ix, rec, s)
    ensures Backlinks(ix, s, path) == ScanBacklinks(path, rec, s)
  {
    hide AllOwn, SoundTags, SoundBlocks, SoundAliases, SoundDomain, OwnKeys, AliasesTo, Means;
    var keys, results := OwnKeys(path, s) + AliasesTo(ix, path), Backlinks(ix, s, path);
    forall q | q in results ensures q in ScanBacklinks(path, rec, s) {
      var k :| k in keys && q in Get(ix.backlinks, k);
      var link :| link in s.parse(rec[q]).links && s.lower(link) == k;
      KeysAreMeanings(ix, path, rec, link, s);
    }
    forall q | q in ScanBacklinks(path, rec, s) ensures q in results {
      var link :| link in s.parse(rec[q]).links && Means(link, path, rec, s);
      KeysAreMeanings(ix, path, rec, link, s);
      assert q in Get(ix.backlinks, s.lower(link));
    }
  }
}
