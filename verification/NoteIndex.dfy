/**
 * The seven maps of VaultIndex (src/obsidian_mcp/domain/index.py) as one value, what each operation
 * does to them, and what they are supposed to say: exactly what a scan of the indexed contents says.
 */
module NoteIndex {
  import opened Text
  import opened Revisions
  import opened Paths
  import opened PathRules
  import opened AccessPolicy

  datatype BlockRef = BlockRef(id: string, line: int)

  /** What the index uses of a parsed note. */
  datatype Note = Note(links: seq<string>, tags: seq<string>, aliases: seq<string>, blocks: seq<BlockRef>)

  datatype Revision = Revision(sha: string, size: nat, mtime: int)

  /**
   * The configuration of one index, and the string and parsing functions it is built on: lower-casing,
   * the stem of a path, decoding and parsing of a note, and the content digest.
   */
  datatype Settings = Settings(
    policy: Policy,
    fold: Fold,
    excludePaths: seq<string>,
    lower: string -> string,
    stem: string -> string,
    parse: Bytes -> Note,
    hash: Hash)
  {
    function Targets(content: Bytes): set<string> {
      set link | link in parse(content).links :: lower(link)
    }

    /** The keys a note registers: its stem and its explicit aliases. */
    function AliasKeys(path: string, content: Bytes): set<string> {
      {lower(stem(path))} + set a | a in parse(content).aliases :: lower(a)
    }

    function Tags(content: Bytes): set<string> {
      set tag | tag in parse(content).tags
    }

    predicate CanRead(path: string) {
      policy.ResolveRead(path, false, fold).Ok?
    }

    predicate Excluded(path: string) {
      var rel := StripSlashes(Slashed(path));
      AnyMatches(rel, excludePaths) || EndsWith(rel, ".excalidraw.md")
    }

    predicate Markdown(path: string) {
      EndsWith(lower(path), ".md")
    }

    /** The files that may be indexed, under their own names. Whether a build comes upon them depends on the walk. */
    predicate Indexable(path: string) {
      CanRead(path) && SelfNormal(path) && Markdown(path) && !Excluded(path)
    }
  }

  datatype Index = Index(
    backlinks: map<string, set<string>>,
    tags: map<string, set<string>>,
    outlinks: map<string, set<string>>,
    aliases: map<string, string>,
    blocks: map<string, map<string, int>>,
    notes: set<string>,
    revisions: map<string, Revision>)

  const EMPTY := Index(map[], map[], map[], map[], map[], {}, map[])

  /** An absent entry and an empty one mean the same. */
  function Get(m: map<string, set<string>>, k: string): set<string> {
    if k in m then m[k] else {}
  }

  /** `{r.block_id: r.line for r in refs}`: the last line of an id wins. */
  function BlockMap(refs: seq<BlockRef>): map<string, int> {
    if refs == [] then map[]
    else BlockMap(refs[..|refs| - 1])[refs[|refs| - 1].id := refs[|refs| - 1].line]
  }

  /** The last reference with this id gives this line. */
  ghost predicate LastRef(refs: seq<BlockRef>, id: string, line: int) {
    exists i :: 0 <= i < |refs| && refs[i] == BlockRef(id, line) && forall j :: i < j < |refs| ==> refs[j].id != id
  }

  lemma {:induction false} BlockMapMeaning(refs: seq<BlockRef>, id: string)
    ensures id in BlockMap(refs) <==> exists i :: 0 <= i < |refs| && refs[i].id == id
    ensures id in BlockMap(refs) ==> LastRef(refs, id, BlockMap(refs)[id])
  {
    if refs != [] {
      var last, before := refs[|refs| - 1], refs[..|refs| - 1];
      BlockMapMeaning(before, id);
      if last.id != id && id in BlockMap(before) {
        var line := BlockMap(before)[id];
        var i :| 0 <= i < |before| && before[i] == BlockRef(id, line)
                 && forall j :: i < j < |before| ==> before[j].id != id;
        assert refs[i] == BlockRef(id, line);
      }
    }
  }

  // ---------------------------------------------------------------------------------------
  // Operations

  function LinkedBy(ix: Index, gone: set<string>): set<string> {
    set p, k | p in gone && p in ix.outlinks && k in ix.outlinks[p] :: k
  }

  function LinkersOf(ix: Index, gone: set<string>, k: string): set<string> {
    set p | p in gone && p in ix.outlinks && k in ix.outlinks[p]
  }

  /** `remove`, for any number of notes in any order. An alias goes with the note it points to. */
  function RemoveAll(ix: Index, gone: set<string>): Index {
    Index(
      map k | k in ix.backlinks.Keys + LinkedBy(ix, gone) :: Get(ix.backlinks, k) - LinkersOf(ix, gone, k),
      map t | t in ix.tags :: ix.tags[t] - gone,
      ix.outlinks - gone,
      map k | k in ix.aliases && ix.aliases[k] !in gone :: ix.aliases[k],
      ix.blocks - gone,
      ix.notes - gone,
      ix.revisions - gone)
  }

  lemma RemoveNothing(ix: Index)
    ensures RemoveAll(ix, {}) == ix
  {
    var same := RemoveAll(ix, {});
    assert LinkedBy(ix, {}) == {};
    forall k | k in ix.backlinks ensures same.backlinks[k] == ix.backlinks[k] {
      assert LinkersOf(ix, {}, k) == {};
    }
    assert same.backlinks == ix.backlinks;
    forall t | t in ix.tags ensures same.tags[t] == ix.tags[t] {
    }
    assert same.tags == ix.tags && same.aliases == ix.aliases;
    assert same.outlinks == ix.outlinks && same.blocks == ix.blocks && same.revisions == ix.revisions;
  }

  function Remove(ix: Index, path: string): Index {
    RemoveAll(ix, {path})
  }

  function AddTo(m: map<string, set<string>>, keys: set<string>, path: string): map<string, set<string>> {
    map k | k in m.Keys + keys :: if k in keys then Get(m, k) + {path} else m[k]
  }

  /** Each key now leads to the path, whoever held it. */
  function TakeOver(m: map<string, string>, keys: set<string>, path: string): map<string, string> {
    map k | k in m.Keys + keys :: if k in keys then path else m[k]
  }

  /** `_index_note`. An alias key held by another note is taken over. */
  function IndexNote(ix: Index, path: string, content: Bytes, mtime: int, s: Settings): Index {
    var keys := s.AliasKeys(path, content);
    var refs := s.parse(content).blocks;
    Index(
      AddTo(ix.backlinks, s.Targets(content), path),
      AddTo(ix.tags, s.Tags(content), path),
      ix.outlinks[path := s.Targets(content)],
      TakeOver(ix.aliases, keys, path),
      if refs == [] then ix.blocks else ix.blocks[path := BlockMap(refs)],
      ix.notes + {path},
      ix.revisions[path := Revision(s.hash(content), |content|, mtime)])
  }

  /** What reading one file gives at the moment it is read. `Gone` covers missing and no longer permitted. */
  datatype Read = Content(bytes: Bytes, mtime: int) | Gone | Failed

  type View = string -> Read

  /** `_build` after clearing: unreadable files are logged and skipped. */
  function BuildFrom(ix: Index, files: seq<string>, view: View, s: Settings): Index
    decreases |files|
  {
    if files == [] then ix
    else match view(files[0])
      case Content(bytes, mtime) => BuildFrom(IndexNote(ix, files[0], bytes, mtime, s), files[1..], view, s)
      case _ => BuildFrom(ix, files[1..], view, s)
  }

  /** One turn of the reconcile loop: a note whose digest is already known is skipped. */
  function ReconcileNote(ix: Index, path: string, read: Read, s: Settings): Index {
    match read
    case Content(bytes, mtime) =>
      if path in ix.revisions && ix.revisions[path].sha == s.hash(bytes) then ix
      else IndexNote(Remove(ix, path), path, bytes, mtime, s)
    case Gone => Remove(ix, path)
    case Failed => ix
  }

  function Sweep(ix: Index, files: seq<string>, view: View, s: Settings): Index
    decreases |files|
  {
    if files == [] then ix else Sweep(ReconcileNote(ix, files[0], view(files[0]), s), files[1..], view, s)
  }

  /** `_reconcile`: drop what is no longer a candidate, then sweep the candidates in the given order. */
  function Reconcile(ix: Index, files: seq<string>, view: View, s: Settings): Index {
    Sweep(RemoveAll(ix, ix.notes - Members(files)), files, view, s)
  }

  function Members<T>(xs: seq<T>): set<T> {
    set x | x in xs
  }

  /** What stands at a path when `update` looks at it. `Invalid` makes canonicalize raise. */
  datatype Probe = Invalid | Absent | File(read: Read) | Directory(children: seq<Listed>)

  datatype Listed = Listed(path: string, probe: Probe)

  function Descendants(ix: Index, dir: string): set<string> {
    set p | p in ix.notes && Below(p, dir)
  }

  /** The note and everything indexed below it is forgotten. */
  function Purge(ix: Index, path: string): Index {
    RemoveAll(Remove(ix, path), Descendants(Remove(ix, path), path))
  }

  /** `_update` of a path in normal form. */
  function Update(ix: Index, path: string, probe: Probe, s: Settings): Index
    decreases probe, 1
  {
    if probe.Invalid? then Remove(ix, path)
    else
      var purged := Remove(ix, path);
      if !s.CanRead(path) || s.Excluded(path) || probe.Absent? then Purge(ix, path)
      else match probe
        case Directory(children) => UpdateChildren(purged, children, s)
        case File(Content(bytes, mtime)) => IndexNote(Remove(purged, path), path, bytes, mtime, s)
        case _ => purged
  }

  /** `_update`: it works under the normal form of the path, and removes a path that has none as it was given. */
  function UpdateAsGiven(ix: Index, path: string, probe: Probe, s: Settings): Index {
    if Normalise(path).None? || probe.Invalid? then Remove(ix, path) else Update(ix, Normalise(path).value, probe, s)
  }

  function UpdateChildren(ix: Index, children: seq<Listed>, s: Settings): Index
    decreases children, 0
  {
    if children == [] then ix
    else
      var c := children[0];
      var next := if s.Markdown(c.path) && !s.Excluded(c.path) then Update(ix, c.path, c.probe, s) else ix;
      UpdateChildren(next, children[1..], s)
  }

  // ---------------------------------------------------------------------------------------
  // What the index means

  type Contents = map<string, Bytes>

  /** The index says exactly what the contents it has parsed say; an alias only ever leads to a claimant. */
  ghost predicate Sound(ix: Index, rec: Contents, s: Settings) {
    && SoundDomain(ix, rec, s)
    && SoundLinks(ix, rec, s)
    && SoundTags(ix, rec, s)
    && SoundBlocks(ix, rec, s)
    && SoundAliases(ix, rec, s)
  }

  ghost predicate SoundDomain(ix: Index, rec: Contents, s: Settings) {
    && ix.notes == rec.Keys && ix.outlinks.Keys == rec.Keys && ix.revisions.Keys == rec.Keys
    && (forall p :: p in rec ==>
          && ix.outlinks[p] == s.Targets(rec[p])
          && ix.revisions[p].sha == s.hash(rec[p]) && ix.revisions[p].size == |rec[p]|)
  }

  ghost predicate SoundLinks(ix: Index, rec: Contents, s: Settings) {
    forall k, p :: p in Get(ix.backlinks, k) <==> p in rec && k in s.Targets(rec[p])
  }

  ghost predicate SoundTags(ix: Index, rec: Contents, s: Settings) {
    forall t, p :: p in Get(ix.tags, t) <==> p in rec && t in s.Tags(rec[p])
  }

  ghost predicate SoundBlocks(ix: Index, rec: Contents, s: Settings) {
    forall p :: (p in ix.blocks <==> p in rec && s.parse(rec[p]).blocks != [])
                && (p in ix.blocks ==> ix.blocks[p] == BlockMap(s.parse(rec[p]).blocks))
  }

  ghost predicate SoundAliases(ix: Index, rec: Contents, s: Settings) {
    forall k :: k in ix.aliases ==> ix.aliases[k] in rec && k in s.AliasKeys(ix.aliases[k], rec[ix.aliases[k]])
  }

  /** The note is found under each key it claims. */
  ghost predicate Owns(ix: Index, path: string, content: Bytes, s: Settings) {
    forall k :: k in s.AliasKeys(path, content) ==> k in ix.aliases && ix.aliases[k] == path
  }

  ghost predicate AllOwn(ix: Index, rec: Contents, s: Settings) {
    forall p :: p in rec ==> Owns(ix, p, rec[p], s)
  }

  /** No two notes claim a key. */
  ghost predicate Unique(rec: Contents, s: Settings) {
    forall p, q :: p in rec && q in rec && p != q ==> s.AliasKeys(p, rec[p]) !! s.AliasKeys(q, rec[q])
  }

  ghost predicate Fresh(ix: Index, rec: Contents, s: Settings) {
    Sound(ix, rec, s) && AllOwn(ix, rec, s)
  }

  /** No query can tell the two apart; time stamps are not observable. */
  ghost predicate Same(a: Index, b: Index) {
    && (forall k :: Get(a.backlinks, k) == Get(b.backlinks, k))
    && (forall t :: Get(a.tags, t) == Get(b.tags, t))
    && a.outlinks == b.outlinks && a.aliases == b.aliases && a.blocks == b.blocks && a.notes == b.notes
    && a.revisions.Keys == b.revisions.Keys
    && (forall p :: p in a.revisions ==>
          a.revisions[p].sha == b.revisions[p].sha && a.revisions[p].size == b.revisions[p].size)
  }

  lemma FreshIsUnique(a: Index, b: Index, rec: Contents, s: Settings)
    requires Sound(a, rec, s) && Fresh(b, rec, s)
    ensures Same(a, b) <==> AllOwn(a, rec, s)
  {
    LinksCoincide(a, b, rec, s);
    OwnersDecideAliases(a, b, rec, s);
    assert a.blocks == b.blocks && a.outlinks == b.outlinks by {
      BlocksCoincide(a, b, rec, s);
    }
  }

  lemma BlocksCoincide(a: Index, b: Index, rec: Contents, s: Settings)
    requires SoundBlocks(a, rec, s) && SoundBlocks(b, rec, s) && SoundDomain(a, rec, s) && SoundDomain(b, rec, s)
    ensures a.blocks == b.blocks && a.outlinks == b.outlinks
  {
    assert a.blocks.Keys == b.blocks.Keys;
  }

  lemma OwnersDecideAliases(a: Index, b: Index, rec: Contents, s: Settings)
    requires SoundAliases(a, rec, s) && SoundAliases(b, rec, s) && AllOwn(b, rec, s)
    ensures a.aliases == b.aliases <==> AllOwn(a, rec, s)
  {
    if AllOwn(a, rec, s) {
      AliasesCoincide(a, b, rec, s);
      AliasesCoincide(b, a, rec, s);
    }
    if a.aliases == b.aliases {
      forall p | p in rec ensures Owns(a, p, rec[p], s) {
        assert Owns(b, p, rec[p], s);
      }
    }
  }

  lemma LinksCoincide(a: Index, b: Index, rec: Contents, s: Settings)
    requires SoundLinks(a, rec, s) && SoundLinks(b, rec, s) && SoundTags(a, rec, s) && SoundTags(b, rec, s)
    ensures forall k :: Get(a.backlinks, k) == Get(b.backlinks, k)
    ensures forall t :: Get(a.tags, t) == Get(b.tags, t)
  {
    forall k ensures Get(a.backlinks, k) == Get(b.backlinks, k) {
      forall p ensures p in Get(a.backlinks, k) <==> p in Get(b.backlinks, k) {
        assert p in Get(a.backlinks, k) <==> p in rec && k in s.Targets(rec[p]);
      }
    }
    forall t ensures Get(a.tags, t) == Get(b.tags, t) {
      forall p ensures p in Get(a.tags, t) <==> p in Get(b.tags, t) {
        assert p in Get(a.tags, t) <==> p in rec && t in s.Tags(rec[p]);
      }
    }
  }

  lemma AliasesCoincide(a: Index, b: Index, rec: Contents, s: Settings)
    requires SoundAliases(a, rec, s) && AllOwn(b, rec, s)
    ensures forall k :: k in a.aliases ==> k in b.aliases && b.aliases[k] == a.aliases[k]
  {
    forall k | k in a.aliases ensures k in b.aliases && b.aliases[k] == a.aliases[k] {
      assert Owns(b, a.aliases[k], rec[a.aliases[k]], s);
    }
  }

  // ---------------------------------------------------------------------------------------
  // What each operation keeps

  lemma RemoveAllKeepsLinks(ix: Index, gone: set<string>, rec: Contents, s: Settings)
    requires SoundLinks(ix, rec, s) && SoundDomain(ix, rec, s)
    ensures SoundLinks(RemoveAll(ix, gone), rec - gone, s)
  {
    var jx := RemoveAll(ix, gone);
    forall k, p ensures p in Get(jx.backlinks, k) <==> p in rec - gone && k in s.Targets((rec - gone)[p]) {
      assert p in Get(ix.backlinks, k) <==> p in rec && k in s.Targets(rec[p]);
    }
  }

  lemma RemoveAllKeepsTags(ix: Index, gone: set<string>, rec: Contents, s: Settings)
    requires SoundTags(ix, rec, s)
    ensures SoundTags(RemoveAll(ix, gone), rec - gone, s)
  {
    hide LinkedBy, LinkersOf;
    var jx := RemoveAll(ix, gone);
    forall t, p ensures p in Get(jx.tags, t) <==> p in rec - gone && t in s.Tags((rec - gone)[p]) {
      assert p in Get(ix.tags, t) <==> p in rec && t in s.Tags(rec[p]);
    }
  }

  lemma RemoveAllKeepsSound(ix: Index, gone: set<string>, rec: Contents, s: Settings)
    requires Sound(ix, rec, s)
    ensures Sound(RemoveAll(ix, gone), rec - gone, s)
  {
    RemoveAllKeepsLinks(ix, gone, rec, s);
    RemoveAllKeepsTags(ix, gone, rec, s);
    assert SoundAliases(RemoveAll(ix, gone), rec - gone, s);
    assert SoundBlocks(RemoveAll(ix, gone), rec - gone, s);
    assert SoundDomain(RemoveAll(ix, gone), rec - gone, s);
  }

  lemma AddToMembers(m: map<string, set<string>>, keys: set<string>, path: string, k: string, p: string)
    ensures p in Get(AddTo(m, keys, path), k) <==> p in Get(m, k) || (p == path && k in keys)
  {
  }

  lemma IndexNoteKeepsLinks(ix: Index, path: string, content: Bytes, mtime: int, rec: Contents, s: Settings)
    requires SoundLinks(ix, rec, s) && SoundTags(ix, rec, s) && path !in rec
    ensures SoundLinks(IndexNote(ix, path, content, mtime, s), rec[path := content], s)
    ensures SoundTags(IndexNote(ix, path, content, mtime, s), rec[path := content], s)
  {
    var jx := IndexNote(ix, path, content, mtime, s);
    var after := rec[path := content];
    forall k, p ensures p in Get(jx.backlinks, k) <==> p in after && k in s.Targets(after[p]) {
      assert p in Get(ix.backlinks, k) <==> p in rec && k in s.Targets(rec[p]);
      AddToMembers(ix.backlinks, s.Targets(content), path, k, p);
    }
    forall t, p ensures p in Get(jx.tags, t) <==> p in after && t in s.Tags(after[p]) {
      assert p in Get(ix.tags, t) <==> p in rec && t in s.Tags(rec[p]);
      AddToMembers(ix.tags, s.Tags(content), path, t, p);
    }
  }

  lemma IndexNoteKeepsSound(ix: Index, path: string, content: Bytes, mtime: int, rec: Contents, s: Settings)
    requires Sound(ix, rec, s) && path !in rec
    ensures Sound(IndexNote(ix, path, content, mtime, s), rec[path := content], s)
    ensures Owns(IndexNote(ix, path, content, mtime, s), path, content, s)
  {
    IndexNoteKeepsLinks(ix, path, content, mtime, rec, s);
    IndexNoteKeepsDomain(ix, path, content, mtime, rec, s);
    IndexNoteKeepsBlocks(ix, path, content, mtime, rec, s);
    IndexNoteKeepsAliases(ix, path, content, mtime, rec, s);
  }

  lemma IndexNoteKeepsDomain(ix: Index, path: string, content: Bytes, mtime: int, rec: Contents, s: Settings)
    requires SoundDomain(ix, rec, s)
    ensures SoundDomain(IndexNote(ix, path, content, mtime, s), rec[path := content], s)
  {
    var jx := IndexNote(ix, path, content, mtime, s);
    var after := rec[path := content];
    assert jx.outlinks == ix.outlinks[path := s.Targets(content)];
    assert jx.revisions == ix.revisions[path := Revision(s.hash(content), |content|, mtime)];
    forall p | p in after
      ensures jx.outlinks[p] == s.Targets(after[p])
      ensures jx.revisions[p].sha == s.hash(after[p]) && jx.revisions[p].size == |after[p]|
    {
      if p != path {
        assert jx.outlinks[p] == ix.outlinks[p] && jx.revisions[p] == ix.revisions[p] && after[p] == rec[p];
      }
    }
  }

  lemma IndexNoteKeepsBlocks(ix: Index, path: string, content: Bytes, mtime: int, rec: Contents, s: Settings)
    requires SoundBlocks(ix, rec, s) && path !in rec
    ensures SoundBlocks(IndexNote(ix, path, content, mtime, s), rec[path := content], s)
  {
    assert path !in ix.blocks;
  }

  lemma IndexNoteKeepsAliases(ix: Index, path: string, content: Bytes, mtime: int, rec: Contents, s: Settings)
    requires SoundAliases(ix, rec, s) && path !in rec
    ensures SoundAliases(IndexNote(ix, path, content, mtime, s), rec[path := content], s)
    ensures Owns(IndexNote(ix, path, content, mtime, s), path, content, s)
  {
    var jx := IndexNote(ix, path, content, mtime, s);
    var after := rec[path := content];
    forall k | k in jx.aliases ensures jx.aliases[k] in after && k in s.AliasKeys(jx.aliases[k], after[jx.aliases[k]]) {
      if k !in s.AliasKeys(path, content) {
        assert k in ix.aliases && jx.aliases[k] == ix.aliases[k];
      }
    }
  }

  /** Removing notes neither takes a key from another note nor gives it one. */
  lemma RemoveAllKeepsOwners(ix: Index, gone: set<string>, p: string, content: Bytes, s: Settings)
    requires p !in gone
    ensures Owns(RemoveAll(ix, gone), p, content, s) <==> Owns(ix, p, content, s)
  {
    forall k ensures k in RemoveAll(ix, gone).aliases && RemoveAll(ix, gone).aliases[k] == p
                     <==> k in ix.aliases && ix.aliases[k] == p {
    }
  }

  /** Indexing a note leaves the owners of other keys alone. */
  lemma IndexNoteKeepsOwners(
      ix: Index, path: string, content: Bytes, mtime: int, p: string, other: Bytes, s: Settings)
    requires p != path && s.AliasKeys(path, content) !! s.AliasKeys(p, other)
    ensures Owns(IndexNote(ix, path, content, mtime, s), p, other, s) <==> Owns(ix, p, other, s)
  {
    forall k | k in s.AliasKeys(p, other)
      ensures k in IndexNote(ix, path, content, mtime, s).aliases
              && IndexNote(ix, path, content, mtime, s).aliases[k] == p
              <==> k in ix.aliases && ix.aliases[k] == p
    {
    }
  }
}
