/**
 * The index against a full rebuild: every operation keeps it sound with respect to the contents it has
 * parsed, and a reconcile sweep converges to what a fresh build would produce.
 */
module IndexGuarantees {
  import opened Revisions
  import opened Paths
  import opened PathRules
  import opened NoteIndex

  // ---------------------------------------------------------------------------------------
  // Which contents the index speaks of after each operation

  ghost function RecordOne(rec: Contents, path: string, read: Read): Contents {
    match read
    case Content(bytes, _) => rec[path := bytes]
    case Gone => rec - {path}
    case Failed => rec
  }

  ghost function RecordSweep(rec: Contents, files: seq<string>, view: View): Contents
    decreases |files|
  {
    if files == [] then rec else RecordSweep(RecordOne(rec, files[0], view(files[0])), files[1..], view)
  }

  ghost function RecordBuild(rec: Contents, files: seq<string>, view: View): Contents
    decreases |files|
  {
    if files == [] then rec
    else RecordBuild(
      if view(files[0]).Content? then rec[files[0] := view(files[0]).bytes] else rec, files[1..], view)
  }

  ghost function Under(rec: Contents, dir: string): set<string> {
    set p | p in rec && Below(p, dir)
  }

  ghost function RecordUpdate(rec: Contents, path: string, probe: Probe, s: Settings): Contents
    decreases probe, 1
  {
    if probe.Invalid? then rec - {path}
    else if !s.CanRead(path) || s.Excluded(path) || probe.Absent? then rec - {path} - Under(rec, path)
    else match probe
      case Directory(children) => RecordChildren(rec - {path}, children, s)
      case File(Content(bytes, _)) => rec[path := bytes]
      case _ => rec - {path}
  }

  ghost function RecordChildren(rec: Contents, children: seq<Listed>, s: Settings): Contents
    decreases children, 0
  {
    if children == [] then rec
    else
      var c := children[0];
      RecordChildren(
        if s.Markdown(c.path) && !s.Excluded(c.path) then RecordUpdate(rec, c.path, c.probe, s) else rec,
        children[1..], s)
  }

  lemma NotesAreRecorded(ix: Index, rec: Contents, s: Settings)
    requires Sound(ix, rec, s)
    ensures ix.notes == rec.Keys
  {
  }

  lemma EmptyIsSound(s: Settings)
    ensures Fresh(EMPTY, map[], s)
  {
  }

  /** Re-indexing a note gives it its keys, and leaves the owners of keys it does not claim alone. */
  lemma ReplaceKeepsOwners(ix: Index, f: string, mtime: int, disk: Contents, p: string, s: Settings)
    requires Unique(disk, s) && f in disk && p in disk && p != f
    ensures Owns(IndexNote(Remove(ix, f), f, disk[f], mtime, s), p, disk[p], s) <==> Owns(ix, p, disk[p], s)
  {
    RemoveAllKeepsOwners(ix, {f}, p, disk[p], s);
    IndexNoteKeepsOwners(Remove(ix, f), f, disk[f], mtime, p, disk[p], s);
  }

  lemma ReplaceKeepsSound(ix: Index, path: string, bytes: Bytes, mtime: int, rec: Contents, s: Settings)
    requires Sound(ix, rec, s)
    ensures Sound(IndexNote(Remove(ix, path), path, bytes, mtime, s), rec[path := bytes], s)
    ensures Owns(IndexNote(Remove(ix, path), path, bytes, mtime, s), path, bytes, s)
  {
    hide Sound, Owns, IndexNote, RemoveAll;
    RemoveAllKeepsSound(ix, {path}, rec, s);
    IndexNoteKeepsSound(Remove(ix, path), path, bytes, mtime, rec - {path}, s);
    assert (rec - {path})[path := bytes] == rec[path := bytes];
  }

  /** Skipping a note with a known digest is as good as indexing it again. */
  lemma ReconcileNoteKeepsSound(ix: Index, path: string, read: Read, rec: Contents, s: Settings)
    requires Sound(ix, rec, s) && Injective(s.hash)
    ensures Sound(ReconcileNote(ix, path, read, s), RecordOne(rec, path, read), s)
  {
    match read
    case Content(bytes, mtime) =>
      if path in ix.revisions && ix.revisions[path].sha == s.hash(bytes) {
        assert rec[path := bytes] == rec;
      } else {
        ReplaceKeepsSound(ix, path, bytes, mtime, rec, s);
      }
    case Gone => RemoveAllKeepsSound(ix, {path}, rec, s);
    case Failed =>
  }

  lemma {:induction false} SweepKeepsSound(ix: Index, files: seq<string>, view: View, rec: Contents, s: Settings)
    requires Sound(ix, rec, s) && Injective(s.hash)
    ensures Sound(Sweep(ix, files, view, s), RecordSweep(rec, files, view), s)
    decreases |files|
  {
    if files != [] {
      ReconcileNoteKeepsSound(ix, files[0], view(files[0]), rec, s);
      SweepKeepsSound(ReconcileNote(ix, files[0], view(files[0]), s), files[1..], view,
        RecordOne(rec, files[0], view(files[0])), s);
    }
  }

  lemma {:induction false} BuildKeepsSound(ix: Index, files: seq<string>, view: View, rec: Contents, s: Settings)
    requires Sound(ix, rec, s)
    requires forall i, j :: 0 <= i < j < |files| ==> files[i] != files[j]
    requires forall f :: f in files ==> f !in rec
    ensures Sound(BuildFrom(ix, files, view, s), RecordBuild(rec, files, view), s)
    decreases |files|
  {
    if files != [] {
      var rest := files[1..];
      assert files[0] in files && forall f :: f in rest ==> f in files;
      match view(files[0])
      case Content(bytes, mtime) =>
        IndexNoteKeepsSound(ix, files[0], bytes, mtime, rec, s);
        BuildKeepsSound(IndexNote(ix, files[0], bytes, mtime, s), rest, view, rec[files[0] := bytes], s);
      case _ =>
        BuildKeepsSound(ix, rest, view, rec, s);
    }
  }

  lemma PurgeKeepsSound(ix: Index, path: string, rec: Contents, s: Settings)
    requires Sound(ix, rec, s)
    ensures Sound(Purge(ix, path), rec - {path} - Under(rec, path), s)
  {
    hide SoundLinks, SoundTags, SoundBlocks, SoundAliases;
    var purged := Remove(ix, path);
    var below := Descendants(purged, path);
    RemoveAllKeepsSound(ix, {path}, rec, s);
    RemoveAllKeepsSound(purged, below, rec - {path}, s);
    assert below == Under(rec, path) - {path};
    assert rec - {path} - below == rec - {path} - Under(rec, path);
  }

  lemma {:induction false} UpdateKeepsSound(ix: Index, path: string, probe: Probe, rec: Contents, s: Settings)
    requires Sound(ix, rec, s)
    ensures Sound(Update(ix, path, probe, s), RecordUpdate(rec, path, probe, s), s)
    decreases probe, 1
  {
    hide Sound, RemoveAll, IndexNote;
    RemoveAllKeepsSound(ix, {path}, rec, s);
    var purged := Remove(ix, path);
    if probe.Invalid? {
    } else if !s.CanRead(path) || s.Excluded(path) || probe.Absent? {
      PurgeKeepsSound(ix, path, rec, s);
    } else if probe.Directory? {
      ChildrenKeepSound(purged, probe.children, rec - {path}, s);
    } else if probe.read.Content? {
      ReplaceKeepsSound(purged, path, probe.read.bytes, probe.read.mtime, rec - {path}, s);
      assert (rec - {path})[path := probe.read.bytes] == rec[path := probe.read.bytes];
    }
  }

  lemma {:induction false} ChildrenKeepSound(ix: Index, children: seq<Listed>, rec: Contents, s: Settings)
    requires Sound(ix, rec, s)
    ensures Sound(UpdateChildren(ix, children, s), RecordChildren(rec, children, s), s)
    decreases children, 0
  {
    if children != [] {
      var c := children[0];
      if s.Markdown(c.path) && !s.Excluded(c.path) {
        UpdateKeepsSound(ix, c.path, c.probe, rec, s);
        ChildrenKeepSound(Update(ix, c.path, c.probe, s), children[1..], RecordUpdate(rec, c.path, c.probe, s), s);
      } else {
        ChildrenKeepSound(ix, children[1..], rec, s);
      }
    }
  }

  // ---------------------------------------------------------------------------------------
  // Every run

  datatype Call =
    | Build(files: seq<string>, view: View)
    | UpdatePath(path: string, probe: Probe)
    | RemovePath(path: string)
    | Reconciliation(files: seq<string>, view: View)

  ghost predicate Listing(files: seq<string>) {
    forall i, j :: 0 <= i < j < |files| ==> files[i] != files[j]
  }

  ghost function Perform(ix: Index, c: Call, s: Settings): Index {
    match c
    case Build(files, view) => BuildFrom(EMPTY, files, view, s)
    case UpdatePath(path, probe) => UpdateAsGiven(ix, path, probe, s)
    case RemovePath(path) => Remove(ix, path)
    case Reconciliation(files, view) => Reconcile(ix, files, view, s)
  }

  ghost function Recorded(rec: Contents, c: Call, s: Settings): Contents {
    match c
    case Build(files, view) => RecordBuild(map[], files, view)
    case UpdatePath(path, probe) =>
      if Normalise(path).None? || probe.Invalid? then rec - {path}
      else RecordUpdate(rec, Normalise(path).value, probe, s)
    case RemovePath(path) => rec - {path}
    case Reconciliation(files, view) => RecordSweep(rec - (rec.Keys - Members(files)), files, view)
  }

  ghost function PerformAll(ix: Index, calls: seq<Call>, s: Settings): Index {
    if calls == [] then ix else Perform(PerformAll(ix, calls[..|calls| - 1], s), calls[|calls| - 1], s)
  }

  ghost function RecordedAll(rec: Contents, calls: seq<Call>, s: Settings): Contents {
    if calls == [] then rec else Recorded(RecordedAll(rec, calls[..|calls| - 1], s), calls[|calls| - 1], s)
  }

  /**
   * The invariant of every run: whatever the calls find on a disk that keeps changing under them, with
   * files vanishing or failing to read in the middle of a sweep, the index is sound for the contents it
   * has parsed: backlinks invert outlinks, tags and blocks are those of the contents, every stored
   * digest is that of the parsed content, every alias leads to an indexed note that claims it.
   */
  lemma {:induction false} EveryRunIsSound(calls: seq<Call>, s: Settings)
    requires Injective(s.hash)
    requires forall c :: c in calls && c.Build? ==> Listing(c.files)
    ensures Sound(PerformAll(EMPTY, calls, s), RecordedAll(map[], calls, s), s)
  {
    if calls == [] {
      EmptyIsSound(s);
    } else {
      var before, last := calls[..|calls| - 1], calls[|calls| - 1];
      assert last in calls && forall c :: c in before ==> c in calls;
      EveryRunIsSound(before, s);
      var ix, rec := PerformAll(EMPTY, before, s), RecordedAll(map[], before, s);
      match last
      case Build(files, view) =>
        EmptyIsSound(s);
        BuildKeepsSound(EMPTY, files, view, map[], s);
      case UpdatePath(path, probe) =>
        RemoveAllKeepsSound(ix, {path}, rec, s);
        if Normalise(path).Some? {
          UpdateKeepsSound(ix, Normalise(path).value, probe, rec, s);
        }
      case RemovePath(path) => RemoveAllKeepsSound(ix, {path}, rec, s);
      case Reconciliation(files, view) =>
        RemoveAllKeepsSound(ix, ix.notes - Members(files), rec, s);
        SweepKeepsSound(RemoveAll(ix, ix.notes - Members(files)), files, view, rec - (rec.Keys - Members(files)), s);
    }
  }

  // ---------------------------------------------------------------------------------------
  // Reconcile converges

  /** Nothing changes while the calls run: a read gives what is on disk. */
  ghost predicate Quiet(view: View, disk: Contents) {
    forall p :: p in disk ==> view(p).Content? && view(p).bytes == disk[p]
  }

  /** The listing names each file of the disk once. */
  ghost predicate Lists(files: seq<string>, disk: Contents) {
    Listing(files) && Members(files) == disk.Keys
  }

  lemma IndexNoteKeepsFresh(ix: Index, f: string, mtime: int, rec: Contents, disk: Contents, s: Settings)
    requires Fresh(ix, rec, s) && Unique(disk, s) && f in disk && f !in rec
    requires forall p :: p in rec ==> p in disk && rec[p] == disk[p]
    ensures Fresh(IndexNote(ix, f, disk[f], mtime, s), rec[f := disk[f]], s)
  {
    hide Sound, Owns, IndexNote;
    var next := IndexNote(ix, f, disk[f], mtime, s);
    IndexNoteKeepsSound(ix, f, disk[f], mtime, rec, s);
    forall p | p in rec ensures Owns(next, p, rec[p], s) {
      IndexNoteKeepsOwners(ix, f, disk[f], mtime, p, rec[p], s);
    }
  }

  lemma {:induction false} QuietBuild(
      ix: Index, files: seq<string>, view: View, rec: Contents, disk: Contents, s: Settings)
    requires Fresh(ix, rec, s) && Unique(disk, s) && Quiet(view, disk) && Listing(files)
    requires forall f :: f in files ==> f in disk && f !in rec
    requires forall p :: p in rec ==> p in disk && rec[p] == disk[p]
    ensures RecordBuild(rec, files, view).Keys == rec.Keys + Members(files)
    ensures forall p :: p in RecordBuild(rec, files, view) ==> p in disk && RecordBuild(rec, files, view)[p] == disk[p]
    ensures Fresh(BuildFrom(ix, files, view, s), RecordBuild(rec, files, view), s)
    decreases |files|
  {
    hide Sound, AllOwn, IndexNote, Unique;
    if files != [] {
      var f, rest := files[0], files[1..];
      assert f in files && forall g :: g in rest ==> g in files;
      assert files == [f] + rest;
      IndexNoteKeepsFresh(ix, f, view(f).mtime, rec, disk, s);
      QuietBuild(IndexNote(ix, f, disk[f], view(f).mtime, s), rest, view, rec[f := disk[f]], disk, s);
    }
  }

  /** A build over a quiet disk without clashing keys is exact, whatever order the files come in. */
  lemma BuildIsFresh(files: seq<string>, view: View, disk: Contents, s: Settings)
    requires Unique(disk, s) && Quiet(view, disk) && Lists(files, disk)
    ensures Fresh(BuildFrom(EMPTY, files, view, s), disk, s)
  {
    hide Sound, Owns;
    EmptyIsSound(s);
    assert forall f :: f in files ==> f in Members(files);
    QuietBuild(EMPTY, files, view, map[], disk, s);
    assert RecordBuild(map[], files, view) == disk;
  }

  /** The note is on disk with the very content the index has parsed: the sweep will skip it. */
  ghost predicate Kept(rec: Contents, disk: Contents, p: string) {
    p in rec && p in disk && rec[p] == disk[p]
  }

  /** Half-way through a sweep: what has been visited is exact, what is skipped is as it was. */
  ghost predicate HalfSwept(
      ix: Index, start: Index, rec: Contents, disk: Contents, todo: set<string>, s: Settings)
  {
    forall p :: p in disk ==>
      && (Kept(rec, disk, p) ==> (Owns(ix, p, disk[p], s) <==> Owns(start, p, disk[p], s)))
      && (!Kept(rec, disk, p) && p !in todo ==> Owns(ix, p, disk[p], s))
  }

  /** The contents known half-way: the disk for visited notes, the old contents for the others. */
  ghost predicate HalfRecorded(cur: Contents, rec: Contents, disk: Contents, todo: set<string>) {
    && cur.Keys <= disk.Keys
    && (forall p :: p in disk && p !in todo ==> p in cur && cur[p] == disk[p])
    && (forall p :: p in todo ==> (p in cur <==> p in rec) && (p in cur ==> cur[p] == rec[p]))
  }

  /** Visiting `f` turned `ix` into `jx`. */
  lemma HalfSweptStep(
      ix: Index, jx: Index, start: Index, f: string, rec: Contents, disk: Contents, todo: set<string>, s: Settings)
    requires f in todo && f in disk && HalfSwept(ix, start, rec, disk, todo, s)
    requires Kept(rec, disk, f) ==> jx == ix
    requires !Kept(rec, disk, f) ==>
               && Owns(jx, f, disk[f], s)
               && forall p :: p in disk && p != f ==> (Owns(jx, p, disk[p], s) <==> Owns(ix, p, disk[p], s))
    ensures HalfSwept(jx, start, rec, disk, todo - {f}, s)
  {
  }

  /** The sweep skips a note exactly when the index has parsed what is on disk. */
  lemma SkipIsExact(ix: Index, f: string, read: Read, cur: Contents, s: Settings)
    requires Sound(ix, cur, s) && Injective(s.hash) && read.Content?
    ensures ReconcileNote(ix, f, read, s)
            == if f in cur && cur[f] == read.bytes then ix
               else IndexNote(Remove(ix, f), f, read.bytes, read.mtime, s)
  {
  }

  lemma HalfRecordedStep(
      f: string, read: Read, cur: Contents, rec: Contents, disk: Contents, todo: set<string>)
    requires HalfRecorded(cur, rec, disk, todo)
    requires f in todo && f in disk && read.Content? && read.bytes == disk[f]
    ensures HalfRecorded(RecordOne(cur, f, read), rec, disk, todo - {f})
    ensures Kept(rec, disk, f) <==> f in cur && cur[f] == read.bytes
  {
  }

  lemma SweepStep(
      ix: Index, start: Index, f: string, read: Read, cur: Contents, rec: Contents, disk: Contents,
      todo: set<string>, s: Settings)
    requires Sound(ix, cur, s) && Injective(s.hash) && Unique(disk, s)
    requires f in todo && f in disk && read.Content? && read.bytes == disk[f]
    requires HalfRecorded(cur, rec, disk, todo) && HalfSwept(ix, start, rec, disk, todo, s)
    ensures HalfRecorded(RecordOne(cur, f, read), rec, disk, todo - {f})
    ensures HalfSwept(ReconcileNote(ix, f, read, s), start, rec, disk, todo - {f}, s)
  {
    hide Sound, IndexNote, RemoveAll, Owns, Unique, HalfRecorded, HalfSwept, Kept;
    var jx := ReconcileNote(ix, f, read, s);
    HalfRecordedStep(f, read, cur, rec, disk, todo);
    SkipIsExact(ix, f, read, cur, s);
    if !Kept(rec, disk, f) {
      ReplaceKeepsSound(ix, f, disk[f], read.mtime, cur, s);
      forall p | p in disk && p != f ensures Owns(jx, p, disk[p], s) <==> Owns(ix, p, disk[p], s) {
        ReplaceKeepsOwners(ix, f, read.mtime, disk, p, s);
      }
    }
    HalfSweptStep(ix, jx, start, f, rec, disk, todo, s);
  }

  lemma {:induction false} SweepConverges(
      ix: Index, start: Index, files: seq<string>, view: View, cur: Contents, rec: Contents, disk: Contents,
      s: Settings)
    requires Sound(ix, cur, s) && Injective(s.hash) && Unique(disk, s) && Quiet(view, disk)
    requires Listing(files) && Members(files) <= disk.Keys
    requires HalfRecorded(cur, rec, disk, Members(files)) && HalfSwept(ix, start, rec, disk, Members(files), s)
    ensures Sound(Sweep(ix, files, view, s), disk, s)
    ensures HalfSwept(Sweep(ix, files, view, s), start, rec, disk, {}, s)
    decreases |files|
  {
    hide Sound, Owns, HalfSwept, IndexNote, RemoveAll, Unique;
    if files == [] {
      assert cur == disk;
      assert Members(files) == {};
    } else {
      var f, rest := files[0], files[1..];
      assert f in Members(files);
      assert Members(rest) == Members(files) - {f} by {
        assert files == [f] + rest;
      }
      SweepStep(ix, start, f, view(f), cur, rec, disk, Members(files), s);
      ReconcileNoteKeepsSound(ix, f, view(f), cur, s);
      SweepConverges(ReconcileNote(ix, f, view(f), s), start, rest, view, RecordOne(cur, f, view(f)), rec, disk, s);
    }
  }

  /**
   * One failure-free reconcile over a quiet disk without clashing keys makes the index equal to a fresh
   * build, in whatever order the notes are visited and whatever keys re-indexed notes take over on the
   * way, if and only if each note it will skip still holds all of its own keys.
   */
  lemma ReconcileConverges(
      ix: Index, rec: Contents, files: seq<string>, view: View, disk: Contents,
      order: seq<string>, rebuilt: View, s: Settings)
    requires Sound(ix, rec, s) && Injective(s.hash) && Unique(disk, s)
    requires Lists(files, disk) && Quiet(view, disk)
    requires Lists(order, disk) && Quiet(rebuilt, disk)
    ensures Sound(Reconcile(ix, files, view, s), disk, s)
    ensures Same(Reconcile(ix, files, view, s), BuildFrom(EMPTY, order, rebuilt, s))
            <==> forall p :: Kept(rec, disk, p) ==> Owns(ix, p, disk[p], s)
  {
    hide Sound, Owns, IndexNote, RemoveAll, Unique, Same;
    var gone := ix.notes - Members(files);
    var start := RemoveAll(ix, gone);
    assert ix.notes == rec.Keys by {
      NotesAreRecorded(ix, rec, s);
    }
    RemoveAllKeepsSound(ix, gone, rec, s);
    forall p | p in disk ensures Owns(start, p, disk[p], s) <==> Owns(ix, p, disk[p], s) {
      RemoveAllKeepsOwners(ix, gone, p, disk[p], s);
    }
    SweepConverges(start, ix, files, view, rec - gone, rec, disk, s);
    BuildIsFresh(order, rebuilt, disk, s);
    var swept := Reconcile(ix, files, view, s);
    FreshIsUnique(swept, BuildFrom(EMPTY, order, rebuilt, s), disk, s);
    assert forall p :: p in disk ==>
      (Owns(swept, p, disk[p], s) <==> (Kept(rec, disk, p) ==> Owns(ix, p, disk[p], s)));
  }

  /** Which notes a build indexes: those it could read. */
  lemma {:induction false} BuiltNotes(ix: Index, files: seq<string>, view: View, s: Settings)
    ensures BuildFrom(ix, files, view, s).notes == ix.notes + set p | p in files && view(p).Content?
    decreases |files|
  {
    hide IndexNote;
    if files != [] {
      var f, rest := files[0], files[1..];
      assert files == [f] + rest;
      match view(f)
      case Content(bytes, mtime) =>
        IndexingAddsNote(ix, f, bytes, mtime, s);
        BuiltNotes(IndexNote(ix, f, bytes, mtime, s), rest, view, s);
      case _ => BuiltNotes(ix, rest, view, s);
    }
  }

  lemma IndexingAddsNote(ix: Index, f: string, bytes: Bytes, mtime: int, s: Settings)
    ensures IndexNote(ix, f, bytes, mtime, s).notes == ix.notes + {f}
  {
  }

  /** What one turn of a sweep does to the notes. */
  lemma SweptNote(ix: Index, f: string, read: Read, s: Settings)
    requires ix.revisions.Keys == ix.notes
    ensures var next := ReconcileNote(ix, f, read, s);
            && next.revisions.Keys == next.notes
            && next.notes == match read
                             case Content(_, _) => ix.notes + {f}
                             case Gone => ix.notes - {f}
                             case Failed => ix.notes
  {
    hide AddTo, TakeOver, LinkedBy, LinkersOf;
  }

  lemma {:induction false} SweepNotes(ix: Index, files: seq<string>, view: View, s: Settings)
    requires ix.revisions.Keys == ix.notes
    ensures Sweep(ix, files, view, s).notes
            == (set p | p in ix.notes && !(p in files && view(p).Gone?)) + set p | p in files && view(p).Content?
    decreases |files|
  {
    hide ReconcileNote;
    if files != [] {
      var f, rest := files[0], files[1..];
      assert files == [f] + rest;
      SweptNote(ix, f, view(f), s);
      SweepNotes(ReconcileNote(ix, f, view(f), s), rest, view, s);
    }
  }

  /**
   * Which notes a sweep leaves, whatever vanishes or cannot be read in the middle of it: those it could
   * read, and of those that failed the ones that were indexed before.
   */
  lemma ReconciledNotes(ix: Index, rec: Contents, files: seq<string>, view: View, s: Settings)
    requires Sound(ix, rec, s)
    ensures Reconcile(ix, files, view, s).notes
            == set p | p in files && (view(p).Content? || (view(p).Failed? && p in ix.notes))
  {
    hide SoundLinks, SoundTags, SoundBlocks, SoundAliases;
    var start := RemoveAll(ix, ix.notes - Members(files));
    assert start.revisions.Keys == start.notes;
    SweepNotes(start, files, view, s);
    assert forall p :: p in start.notes <==> p in ix.notes && p in files;
  }

  /** From an exact index every quiet reconcile converges: whatever it missed, it repairs. */
  lemma ReconcileRepairs(
      ix: Index, rec: Contents, files: seq<string>, view: View, disk: Contents, s: Settings)
    requires Fresh(ix, rec, s) && Injective(s.hash) && Unique(disk, s) && Lists(files, disk) && Quiet(view, disk)
    ensures Fresh(Reconcile(ix, files, view, s), disk, s)
  {
    hide Sound, Owns;
    ReconcileConverges(ix, rec, files, view, disk, files, view, s);
    BuildIsFresh(files, view, disk, s);
    FreshIsUnique(Reconcile(ix, files, view, s), BuildFrom(EMPTY, files, view, s), disk, s);
  }

  lemma RemoveKeepsFresh(ix: Index, gone: set<string>, rec: Contents, s: Settings)
    requires Fresh(ix, rec, s)
    ensures Fresh(RemoveAll(ix, gone), rec - gone, s)
  {
    hide Sound, Owns, RemoveAll;
    RemoveAllKeepsSound(ix, gone, rec, s);
    forall p | p in rec - gone ensures Owns(RemoveAll(ix, gone), p, (rec - gone)[p], s) {
      RemoveAllKeepsOwners(ix, gone, p, rec[p], s);
    }
  }

  lemma ReplaceKeepsFresh(ix: Index, path: string, bytes: Bytes, mtime: int, rec: Contents, s: Settings)
    requires Fresh(ix, rec, s) && Unique(rec[path := bytes], s)
    ensures Fresh(IndexNote(Remove(ix, path), path, bytes, mtime, s), rec[path := bytes], s)
  {
    hide Sound, Owns, IndexNote, RemoveAll;
    RemoveKeepsFresh(ix, {path}, rec, s);
    var after := rec[path := bytes];
    assert after[path] == bytes;
    IndexNoteKeepsFresh(Remove(ix, path), path, mtime, rec - {path}, after, s);
    assert (rec - {path})[path := bytes] == after;
  }

  lemma PurgeKeepsFresh(ix: Index, path: string, rec: Contents, s: Settings)
    requires Fresh(ix, rec, s)
    ensures Fresh(Purge(ix, path), rec - {path} - Under(rec, path), s)
  {
    hide Sound, AllOwn;
    var purged := Remove(ix, path);
    var below := Descendants(purged, path);
    RemoveKeepsFresh(ix, {path}, rec, s);
    RemoveKeepsFresh(purged, below, rec - {path}, s);
    NotesAreRecorded(purged, rec - {path}, s);
    assert rec - {path} - below == rec - {path} - Under(rec, path);
  }

  /** Every key somebody claims leads somewhere. */
  ghost predicate Complete(ix: Index, rec: Contents, s: Settings) {
    forall p, k :: p in rec && k in s.AliasKeys(p, rec[p]) ==> k in ix.aliases
  }

  /** Removing a note leaves every other note resolvable exactly when it holds no key another note claims. */
  lemma RemoveKeepsComplete(ix: Index, path: string, rec: Contents, s: Settings)
    requires Complete(ix, rec, s)
    ensures Complete(Remove(ix, path), rec - {path}, s)
            <==> forall p, k :: p in rec && p != path && k in s.AliasKeys(p, rec[p]) ==> ix.aliases[k] != path
  {
    var after := Remove(ix, path);
    assert forall k :: k in after.aliases <==> k in ix.aliases && ix.aliases[k] != path;
    if Complete(after, rec - {path}, s) {
      forall p, k | p in rec && p != path && k in s.AliasKeys(p, rec[p]) ensures ix.aliases[k] != path {
        assert p in rec - {path};
      }
    }
  }
}
