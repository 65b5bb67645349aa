/**
 * An index that follows a changing vault: the watcher reports a change and the index updates the path that
 * it was given (src/obsidian_mcp/domain/index.py:95-121). Whether that keeps the index exact can be told
 * from the vault alone, and then it cannot be told apart from a rebuild.
 */
module IndexFollowing {
  import opened Text
  import opened Revisions
  import opened Paths
  import opened PathRules
  import opened AccessPolicy
  import opened NoteIndex
  import opened IndexGuarantees
  import VaultWalk

  /** The part of a vault's files that may be indexed. */
  ghost function Wanted(disk: Contents, s: Settings): Contents {
    map p | p in disk && s.Indexable(p) :: disk[p]
  }

  /** Which these are: notes under their own names that may be read and that no setting keeps out. */
  lemma WantedMeaning(disk: Contents, p: string, s: Settings)
    ensures p in Wanted(disk, s) <==>
              && p in disk && s.policy.ResolveRead(p, false, s.fold) == Ok(p) && EndsWith(s.lower(p), ".md")
              && !EndsWith(p, ".excalidraw.md") && !exists rule :: rule in s.excludePaths && Matches(p, rule)
  {
    hide Normalise, Policy.AllowsRead, Matches;
    if SelfNormal(p) {
      SelfNormalMeaning(p);
      NothingToStrip(p);
      AnyIsSome(p, s.excludePaths);
    }
  }

  /** A change of the vault, with the name the watcher reports. */
  datatype Change =
    | Written(path: string, bytes: Bytes)
    | Deleted(path: string)
    | DirectoryGone(dir: string)
    | DirectoryAppeared(dir: string, files: Contents)

  /** A change, with what the update that follows it finds under the normal form of the name. */
  datatype Event = Event(change: Change, found: Probe)

  function Touched(c: Change): string {
    match c
    case Written(path, _) => path
    case Deleted(path) => path
    case DirectoryGone(dir) => dir
    case DirectoryAppeared(dir, _) => dir
  }

  ghost function After(disk: Contents, c: Change): Contents {
    match c
    case Written(path, bytes) => disk[path := bytes]
    case Deleted(path) => disk - {path}
    case DirectoryGone(dir) => disk - Under(disk, dir)
    case DirectoryAppeared(_, files) => disk + files
  }

  function Respond(ix: Index, e: Event, s: Settings): Index {
    UpdateAsGiven(ix, Touched(e.change), e.found, s)
  }

  /** The discovery walk from this directory comes upon the file, if it may be read under its own name. */
  ghost predicate Discovered(path: string, dir: string, s: Settings) {
    !VaultWalk.Pruned(s.policy, s.fold, path, dir)
  }

  /** `list_files(dir)` gave exactly the readable files it comes upon, with their contents. */
  ghost predicate ListsBelow(listing: seq<Listed>, dir: string, disk: Contents, s: Settings) {
    && (forall c :: c in listing ==>
          && c.path in disk && Below(c.path, dir)
          && s.CanRead(c.path) && SelfNormal(c.path) && Discovered(c.path, dir, s)
          && c.probe.File? && c.probe.read.Content? && c.probe.read.bytes == disk[c.path])
    && (forall p :: p in disk && Below(p, dir) && s.CanRead(p) && SelfNormal(p) && Discovered(p, dir, s) ==>
          exists c :: c in listing && c.path == p)
  }

  /** What is found is what the vault has there: a note, nothing, or a directory that could be listed. */
  ghost predicate Stands(found: Probe, at: string, disk: Contents, s: Settings) {
    match found
    case File(Content(bytes, _)) => s.Markdown(at) && at in disk && disk[at] == bytes && Under(disk, at) == {}
    case Absent => at !in disk && Under(disk, at) == {}
    case Directory(listing) => at !in disk && ListsBelow(listing, at, disk, s)
    case _ => false
  }

  /** The change is one a file system can make and the watcher reports: only notes, no file below a file. */
  ghost predicate Possible(disk: Contents, c: Change, s: Settings) {
    match c
    case Written(path, _) => s.Markdown(path) && Under(disk, path) == {}
    case Deleted(path) => Under(disk, path) == {}
    case DirectoryGone(dir) => dir !in disk
    case DirectoryAppeared(dir, files) => dir !in disk && forall p :: p in files ==> p !in disk && Below(p, dir)
  }

  /** Nothing else changes before the update looks. It looks only where it may read. */
  ghost predicate Plausible(disk: Contents, e: Event, s: Settings) {
    var at := Normalise(Touched(e.change));
    && Possible(disk, e.change, s)
    && (at.Some? ==>
          && !e.found.Invalid?
          && (s.CanRead(at.value) && !s.Excluded(at.value) ==> Stands(e.found, at.value, After(disk, e.change), s)))
  }

  /**
   * The update does justice to the change. Where it may not look, it forgets all notes below: there must be
   * none. In a directory it adds what the walk comes upon and forgets nothing: whatever the walk does not
   * come upon must have been there before, and no note may have vanished.
   */
  ghost predicate Followed(disk: Contents, e: Event, s: Settings) {
    var now := Wanted(After(disk, e.change), s);
    var at := Normalise(Touched(e.change));
    at.Some? ==>
      if !s.CanRead(at.value) || s.Excluded(at.value) then Under(now, at.value) == {}
      else e.found.Directory? ==>
        && (forall p :: p in Under(now, at.value) && !Discovered(p, at.value, s) ==> p in Wanted(disk, s))
        && Under(Wanted(disk, s), at.value) <= now.Keys
  }

  ghost predicate Part(rec: Contents, all: Contents) {
    forall p :: p in rec ==> p in all && rec[p] == all[p]
  }

  lemma PartIsUnique(rec: Contents, all: Contents, s: Settings)
    requires Part(rec, all) && Unique(all, s)
    ensures Unique(rec, s)
  {
  }

  /** Re-indexing one listed file of a vault without clashing keys. */
  lemma ChildKeepsFresh(ix: Index, c: Listed, rec: Contents, all: Contents, s: Settings)
    requires Fresh(ix, rec, s) && Part(rec, all) && Unique(all, s)
    requires s.CanRead(c.path) && !s.Excluded(c.path) && c.probe.File? && c.probe.read.Content?
    requires c.path in all && all[c.path] == c.probe.read.bytes
    ensures Fresh(Update(ix, c.path, c.probe, s), rec[c.path := all[c.path]], s)
    ensures Part(rec[c.path := all[c.path]], all)
  {
    hide Sound, AllOwn, Unique, IndexNote, RemoveAll, SelfNormal, Settings.CanRead, Settings.Excluded;
    var bytes := c.probe.read.bytes;
    RemoveKeepsFresh(ix, {c.path}, rec, s);
    PartIsUnique((rec - {c.path})[c.path := bytes], all, s);
    ReplaceKeepsFresh(Remove(ix, c.path), c.path, bytes, c.probe.read.mtime, rec - {c.path}, s);
    assert (rec - {c.path})[c.path := bytes] == rec[c.path := bytes];
  }

  lemma {:induction false} ChildrenKeepFresh(
      ix: Index, children: seq<Listed>, rec: Contents, all: Contents, s: Settings)
    requires Fresh(ix, rec, s) && Part(rec, all) && Unique(all, s)
    requires forall c :: c in children ==>
               && s.CanRead(c.path) && SelfNormal(c.path) && c.probe.File? && c.probe.read.Content?
               && (s.Indexable(c.path) ==> c.path in all && all[c.path] == c.probe.read.bytes)
    ensures Fresh(UpdateChildren(ix, children, s), RecordChildren(rec, children, s), s)
    ensures Part(RecordChildren(rec, children, s), all)
    ensures RecordChildren(rec, children, s).Keys
            == rec.Keys + set c | c in children && s.Indexable(c.path) :: c.path
    decreases |children|
  {
    hide Fresh, Part, Unique, Update, SelfNormal, Settings.CanRead, Settings.Excluded, Settings.Markdown;
    if children != [] {
      var c, rest := children[0], children[1..];
      assert c in children && forall d :: d in rest ==> d in children;
      assert children == [c] + rest;
      if s.Indexable(c.path) {
        ChildKeepsFresh(ix, c, rec, all, s);
        ChildrenKeepFresh(Update(ix, c.path, c.probe, s), rest, rec[c.path := all[c.path]], all, s);
      } else {
        ChildrenKeepFresh(ix, rest, rec, all, s);
      }
    }
  }

  /** A name that is not its own normal form is none of an indexable note, nor above one. */
  lemma ForeignChangesNothing(disk: Contents, c: Change, s: Settings)
    requires !SelfNormal(Touched(c)) && Possible(disk, c, s)
    ensures Wanted(After(disk, c), s) == Wanted(disk, s)
  {
    hide SelfNormal, Settings.CanRead, Settings.Excluded, Settings.Markdown;
    forall p | Below(p, Touched(c)) ensures !SelfNormal(p) {
      BelowForeign(p, Touched(c));
    }
  }

  lemma BelowForeign(p: string, dir: string)
    requires !SelfNormal(dir) && Below(p, dir)
    ensures !SelfNormal(p)
  {
    hide Normalise, Canonical;
    var rest := p[|dir| + 1..];
    assert p == dir + "/" + rest;
    if dir == "" {
      SelfNormalMeaning(p);
      RootedIsForeign(rest);
      assert p == "/" + rest;
    } else if SelfNormal(p) {
      SelfNormalParent(dir, rest);
      assert false;
    }
  }

  lemma RootedIsForeign(rest: string)
    ensures !Canonical("/" + rest)
  {
    var parts := Split("/" + rest, '/');
    assert ("/" + rest)[1..] == rest && parts[0] == "" && "" in parts;
  }

  lemma ReadableIsNormal(raw: string, s: Settings)
    requires Normalise(raw).Some? && s.CanRead(Normalise(raw).value)
    ensures SelfNormal(Normalise(raw).value)
  {
    NormaliseIdempotence(raw);
  }

  // ---------------------------------------------------------------------------------------
  // One change

  /** Away from where the update looks, nothing changes. */
  lemma ElsewhereIsSame(disk: Contents, e: Event, at: string, s: Settings)
    requires Plausible(disk, e, s) && Normalise(Touched(e.change)) == Some(at)
    ensures var rec, now := Wanted(disk, s), Wanted(After(disk, e.change), s);
            && (forall p :: p != at && !Below(p, at) ==> (p in rec <==> p in now))
            && (forall p :: p != at && p in rec && p in now ==> rec[p] == now[p])
            && (e.change.Written? || !SelfNormal(Touched(e.change)) || at !in now || at in rec)
  {
    hide Normalise, SelfNormal, Settings.CanRead, Settings.Excluded, Settings.Markdown, ListsBelow;
    if !SelfNormal(Touched(e.change)) {
      ForeignChangesNothing(disk, e.change, s);
    } else {
      NormalIsItself(Touched(e.change));
    }
  }

  lemma NormalIsItself(p: string)
    ensures SelfNormal(p) ==> Normalise(p) == Some(p)
  {
  }

  /** Where the update may not look or finds nothing, what it leaves is what is wanted if nothing is below. */
  lemma PurgedIsWanted(disk: Contents, e: Event, at: string, s: Settings)
    requires Plausible(disk, e, s) && Normalise(Touched(e.change)) == Some(at)
    requires !s.CanRead(at) || s.Excluded(at) || e.found.Absent?
    requires Under(Wanted(After(disk, e.change), s), at) == {}
    ensures Wanted(disk, s) - {at} - Under(Wanted(disk, s), at) == Wanted(After(disk, e.change), s)
  {
    hide Normalise, SelfNormal, Settings.CanRead, Settings.Excluded, Settings.Markdown, ListsBelow;
    var rec, now := Wanted(disk, s), Wanted(After(disk, e.change), s);
    var left := rec - {at} - Under(rec, at);
    ElsewhereIsSame(disk, e, at, s);
    assert at !in now;
    forall p | Below(p, at) ensures p !in now {
      assert p !in Under(now, at);
    }
    assert left.Keys == now.Keys;
  }

  lemma PurgingIsExact(ix: Index, disk: Contents, e: Event, at: string, s: Settings)
    requires Fresh(ix, Wanted(disk, s), s) && Plausible(disk, e, s) && Normalise(Touched(e.change)) == Some(at)
    requires !s.CanRead(at) || s.Excluded(at) || e.found.Absent?
    ensures Fresh(Purge(ix, at), Wanted(After(disk, e.change), s), s)
            <==> Under(Wanted(After(disk, e.change), s), at) == {}
  {
    hide Sound, AllOwn, Purge, Normalise, Wanted, Plausible, Settings.CanRead, Settings.Excluded;
    var rec, now := Wanted(disk, s), Wanted(After(disk, e.change), s);
    var left := rec - {at} - Under(rec, at);
    PurgeKeepsFresh(ix, at, rec, s);
    NotesAreRecorded(Purge(ix, at), left, s);
    if Fresh(Purge(ix, at), now, s) {
      NotesAreRecorded(Purge(ix, at), now, s);
      assert now.Keys == left.Keys;
      assert forall p :: Below(p, at) ==> p !in now;
    } else if Under(now, at) == {} {
      PurgedIsWanted(disk, e, at, s);
    }
  }

  lemma RewritingIsExact(ix: Index, disk: Contents, e: Event, at: string, s: Settings)
    requires Fresh(ix, Wanted(disk, s), s) && Plausible(disk, e, s) && Normalise(Touched(e.change)) == Some(at)
    requires s.CanRead(at) && !s.Excluded(at) && e.found.File? && Unique(Wanted(After(disk, e.change), s), s)
    ensures Fresh(Update(ix, at, e.found, s), Wanted(After(disk, e.change), s), s)
  {
    hide Sound, AllOwn, Unique, IndexNote, RemoveAll, Normalise, SelfNormal, Settings.CanRead, Settings.Excluded,
      Settings.Markdown, ListsBelow;
    var rec, now := Wanted(disk, s), Wanted(After(disk, e.change), s);
    var bytes := e.found.read.bytes;
    ReadableIsNormal(Touched(e.change), s);
    FoundIsWanted(disk, e, at, s);
    RemoveKeepsFresh(ix, {at}, rec, s);
    assert (rec - {at})[at := bytes] == rec[at := bytes] == now;
    ReplaceKeepsFresh(Remove(ix, at), at, bytes, e.found.read.mtime, rec - {at}, s);
  }

  lemma FoundIsWanted(disk: Contents, e: Event, at: string, s: Settings)
    requires Plausible(disk, e, s) && Normalise(Touched(e.change)) == Some(at) && SelfNormal(at)
    requires s.CanRead(at) && !s.Excluded(at) && e.found.File?
    ensures e.found.read.Content? && Wanted(After(disk, e.change), s) == Wanted(disk, s)[at := e.found.read.bytes]
  {
    hide Normalise, SelfNormal, Settings.CanRead, Settings.Excluded, Settings.Markdown, ListsBelow;
    var rec, now := Wanted(disk, s), Wanted(After(disk, e.change), s);
    ElsewhereIsSame(disk, e, at, s);
    forall p | Below(p, at) ensures p !in now && p !in rec {
      assert p !in Under(After(disk, e.change), at);
      NothingBelowFound(disk, e, at, p, s);
    }
    assert rec[at := e.found.read.bytes].Keys == now.Keys;
  }

  lemma NothingBelowFound(disk: Contents, e: Event, at: string, p: string, s: Settings)
    requires Plausible(disk, e, s) && Normalise(Touched(e.change)) == Some(at) && Below(p, at)
    requires at in After(disk, e.change) && p !in After(disk, e.change)
    ensures p !in Wanted(disk, s)
  {
    hide Normalise, SelfNormal, Settings.CanRead, Settings.Excluded, Settings.Markdown, Stands;
    if !SelfNormal(Touched(e.change)) {
      ForeignChangesNothing(disk, e.change, s);
    } else {
      NormalIsItself(Touched(e.change));
      assert p !in Under(disk, at) || e.change.DirectoryGone?;
    }
  }

  /** Which notes an update of a directory leaves in the index. */
  lemma ListingLeaves(ix: Index, disk: Contents, e: Event, at: string, s: Settings)
    requires Fresh(ix, Wanted(disk, s), s) && Plausible(disk, e, s) && Normalise(Touched(e.change)) == Some(at)
    requires s.CanRead(at) && !s.Excluded(at) && e.found.Directory?
    ensures var now := Wanted(After(disk, e.change), s);
            var updated := Update(ix, at, e.found, s);
            && updated.notes == RecordChildren(Wanted(disk, s) - {at}, e.found.children, s).Keys
            && updated.notes
               == (Wanted(disk, s) - {at}).Keys + set p | p in Under(now, at) && Discovered(p, at, s)
  {
    hide AllOwn, Unique, Normalise, SelfNormal, Discovered, RecordChildren, Update, Sound,
      Settings.CanRead, Settings.Excluded, Settings.Markdown, ListsBelow, Wanted;
    var rec, left, listing := Wanted(disk, s), Wanted(disk, s) - {at}, e.found.children;
    ListingIsReadable(listing, at, After(disk, e.change), s);
    RecordedChildren(left, listing, s);
    ListedIsWanted(After(disk, e.change), at, listing, s);
    UpdateKeepsSound(ix, at, e.found, rec, s);
    NotesAreRecorded(Update(ix, at, e.found, s), RecordUpdate(rec, at, e.found, s), s);
  }

  /** An update of a directory adds what the walk comes upon. */
  lemma ListingIsExact(ix: Index, disk: Contents, e: Event, at: string, s: Settings)
    requires Fresh(ix, Wanted(disk, s), s) && Plausible(disk, e, s) && Normalise(Touched(e.change)) == Some(at)
    requires s.CanRead(at) && !s.Excluded(at) && e.found.Directory? && Unique(Wanted(After(disk, e.change), s), s)
    ensures Fresh(Update(ix, at, e.found, s), Wanted(After(disk, e.change), s), s) <==> Followed(disk, e, s)
  {
    hide Fresh, Unique, Normalise, SelfNormal, Discovered, RecordChildren, UpdateChildren, RemoveAll, Update,
      Settings.CanRead, Settings.Excluded, Settings.Markdown, ListsBelow, Wanted;
    var now := Wanted(After(disk, e.change), s);
    var updated := Update(ix, at, e.found, s);
    ElsewhereIsSame(disk, e, at, s);
    NotListedItself(disk, e, at, s);
    ListingLeaves(ix, disk, e, at, s);
    if Fresh(updated, now, s) {
      FreshNotes(updated, now, s);
    }
    if Followed(disk, e, s) {
      FollowedListing(ix, disk, e, at, s);
    }
  }

  lemma FreshNotes(ix: Index, rec: Contents, s: Settings)
    requires Fresh(ix, rec, s)
    ensures ix.notes == rec.Keys
  {
    hide Sound, AllOwn;
    NotesAreRecorded(ix, rec, s);
  }

  lemma FollowedListing(ix: Index, disk: Contents, e: Event, at: string, s: Settings)
    requires Fresh(ix, Wanted(disk, s), s) && Plausible(disk, e, s) && Normalise(Touched(e.change)) == Some(at)
    requires s.CanRead(at) && !s.Excluded(at) && e.found.Directory? && Unique(Wanted(After(disk, e.change), s), s)
    requires Followed(disk, e, s)
    ensures Fresh(Update(ix, at, e.found, s), Wanted(After(disk, e.change), s), s)
  {
    hide Fresh, Unique, Normalise, SelfNormal, Discovered, RecordChildren, UpdateChildren, RemoveAll,
      Settings.CanRead, Settings.Excluded, Settings.Markdown, ListsBelow, Wanted;
    var rec, now := Wanted(disk, s), Wanted(After(disk, e.change), s);
    var left, listing := rec - {at}, e.found.children;
    ElsewhereIsSame(disk, e, at, s);
    NotListedItself(disk, e, at, s);
    ListingLeaves(ix, disk, e, at, s);
    ListingIsReadable(listing, at, After(disk, e.change), s);
    RemoveKeepsFresh(ix, {at}, rec, s);
    assert Part(left, now);
    ChildrenKeepFresh(Remove(ix, at), listing, left, now, s);
    assert RecordChildren(left, listing, s) == now;
  }

  lemma NotListedItself(disk: Contents, e: Event, at: string, s: Settings)
    requires Plausible(disk, e, s) && Normalise(Touched(e.change)) == Some(at)
    requires s.CanRead(at) && !s.Excluded(at) && e.found.Directory?
    ensures at !in Wanted(After(disk, e.change), s)
  {
    hide Normalise, SelfNormal, Settings.CanRead, Settings.Excluded, Settings.Markdown, ListsBelow;
  }

  lemma ListingIsReadable(listing: seq<Listed>, dir: string, disk: Contents, s: Settings)
    requires ListsBelow(listing, dir, disk, s)
    ensures forall c :: c in listing ==>
              && s.CanRead(c.path) && SelfNormal(c.path) && c.probe.File? && c.probe.read.Content?
              && (s.Indexable(c.path) ==>
                    c.path in Wanted(disk, s) && Wanted(disk, s)[c.path] == c.probe.read.bytes)
  {
    hide SelfNormal, Discovered, Settings.CanRead, Settings.Excluded, Settings.Markdown;
  }

  /** A change and the update that follows it keep an exact index exact if and only if the change is followed. */
  lemma ResponseIsExact(ix: Index, disk: Contents, e: Event, s: Settings)
    requires Fresh(ix, Wanted(disk, s), s)
    requires Plausible(disk, e, s) && Unique(Wanted(After(disk, e.change), s), s)
    ensures Fresh(Respond(ix, e, s), Wanted(After(disk, e.change), s), s) <==> Followed(disk, e, s)
  {
    hide Fresh, Unique, Normalise, Purge, ListsBelow, Wanted, Settings.CanRead, Settings.Excluded, Settings.Markdown;
    match Normalise(Touched(e.change))
    case None => UnnamedIsExact(ix, disk, e, s);
    case Some(at) =>
      if !s.CanRead(at) || s.Excluded(at) {
        PurgingIsExact(ix, disk, e, at, s);
      } else if e.found.Absent? {
        PurgingIsExact(ix, disk, e, at, s);
        AbsentIsEmpty(disk, e, at, s);
      } else if e.found.Directory? {
        ListingIsExact(ix, disk, e, at, s);
      } else {
        RewritingIsExact(ix, disk, e, at, s);
      }
  }

  lemma AbsentIsEmpty(disk: Contents, e: Event, at: string, s: Settings)
    requires Plausible(disk, e, s) && Normalise(Touched(e.change)) == Some(at)
    requires s.CanRead(at) && !s.Excluded(at) && e.found.Absent?
    ensures Under(Wanted(After(disk, e.change), s), at) == {}
  {
    hide Normalise, SelfNormal, Settings.CanRead, Settings.Excluded, Settings.Markdown;
    assert forall p :: Below(p, at) ==> p !in Under(After(disk, e.change), at);
  }

  /** A name without a normal form is no note's. */
  lemma UnnamedIsExact(ix: Index, disk: Contents, e: Event, s: Settings)
    requires Fresh(ix, Wanted(disk, s), s) && Plausible(disk, e, s) && Normalise(Touched(e.change)).None?
    ensures Fresh(Respond(ix, e, s), Wanted(After(disk, e.change), s), s)
  {
    hide Fresh, Normalise, RemoveAll, ListsBelow, Settings.CanRead, Settings.Excluded, Settings.Markdown;
    var path := Touched(e.change);
    NormalIsItself(path);
    ForeignChangesNothing(disk, e.change, s);
    RemoveKeepsFresh(ix, {path}, Wanted(disk, s), s);
    assert Wanted(disk, s) - {path} == Wanted(disk, s);
  }

  /** The directory may be read, and the walk of the update comes upon every note that appears in it. */
  ghost predicate Entered(dir: string, files: Contents, s: Settings) {
    && s.CanRead(dir) && !s.Excluded(dir)
    && forall p :: p in files && s.Indexable(p) ==> Discovered(p, dir, s)
  }

  /**
   * A directory that appears is indexed exactly when update may enter it and the walk comes upon all its
   * notes, or there is nothing in it to index. With a read scope below it, the directory itself is not
   * readable and its notes are missed.
   */
  lemma AppearanceIsExact(
      ix: Index, disk: Contents, dir: string, files: Contents, listing: seq<Listed>, s: Settings)
    requires Fresh(ix, Wanted(disk, s), s) && SelfNormal(dir)
    requires Plausible(disk, Event(DirectoryAppeared(dir, files), Directory(listing)), s)
    requires Unique(Wanted(disk + files, s), s)
    ensures Fresh(Respond(ix, Event(DirectoryAppeared(dir, files), Directory(listing)), s), Wanted(disk + files, s), s)
            <==> Entered(dir, files, s) || Under(Wanted(disk + files, s), dir) == {}
  {
    hide Fresh, Unique, Normalise, Respond, ListsBelow, Discovered, Settings.CanRead, Settings.Excluded,
      Settings.Markdown;
    var e := Event(DirectoryAppeared(dir, files), Directory(listing));
    var rec, now := Wanted(disk, s), Wanted(disk + files, s);
    ResponseIsExact(ix, disk, e, s);
    NormalIsItself(dir);
    assert forall p :: p in files && s.Indexable(p) ==> p in Under(now, dir);
    assert forall p :: p in now ==> p in rec || (p in files && s.Indexable(p));
  }

  // ---------------------------------------------------------------------------------------
  // Any number of changes

  ghost function AfterAll(disk: Contents, events: seq<Event>): Contents {
    if events == [] then disk else After(AfterAll(disk, events[..|events| - 1]), events[|events| - 1].change)
  }

  ghost function RespondAll(ix: Index, events: seq<Event>, s: Settings): Index {
    if events == [] then ix else Respond(RespondAll(ix, events[..|events| - 1], s), events[|events| - 1], s)
  }

  ghost predicate OrderlyAt(disk: Contents, e: Event, s: Settings) {
    Plausible(disk, e, s) && Followed(disk, e, s) && Unique(Wanted(After(disk, e.change), s), s)
  }

  /** Each change is plausible and followed where it happens, and no state on the way has clashing keys. */
  ghost predicate Orderly(disk: Contents, events: seq<Event>, s: Settings) {
    forall k :: 0 <= k < |events| ==> OrderlyAt(AfterAll(disk, events[..k]), events[k], s)
  }

  lemma {:induction false} FollowingKeepsFresh(ix: Index, disk: Contents, events: seq<Event>, s: Settings)
    requires Fresh(ix, Wanted(disk, s), s) && Orderly(disk, events, s)
    ensures Fresh(RespondAll(ix, events, s), Wanted(AfterAll(disk, events), s), s)
  {
    hide Fresh, Unique, Plausible, Followed, Respond, After, Wanted;
    if events != [] {
      var n := |events| - 1;
      var before := events[..n];
      assert forall k :: 0 <= k <= n ==> before[..k] == events[..k];
      FollowingKeepsFresh(ix, disk, before, s);
      assert OrderlyAt(AfterAll(disk, events[..n]), events[n], s);
      ResponseIsExact(RespondAll(ix, before, s), AfterAll(disk, before), events[n], s);
    }
  }

  // ---------------------------------------------------------------------------------------
  // The rebuild at the end, over the files the walk comes upon

  /** The tree a build walks over has each file of the disk once. */
  ghost predicate ScanOf(root: seq<VaultWalk.Entry>, disk: Contents) {
    VaultWalk.Named(root) && Lists(VaultWalk.AllFiles(root, ""), disk)
  }

  /** `md_files`: the discovered files that are notes and not excluded. */
  function Notes(paths: seq<string>, s: Settings): (r: seq<string>)
    ensures forall p :: p in r <==> p in paths && s.Markdown(p) && !s.Excluded(p)
    ensures multiset(r) <= multiset(paths)
  {
    if paths == [] then []
    else
      assert paths == [paths[0]] + paths[1..];
      (if s.Markdown(paths[0]) && !s.Excluded(paths[0]) then [paths[0]] else []) + Notes(paths[1..], s)
  }

  function Candidates(root: seq<VaultWalk.Entry>, s: Settings): seq<string> {
    Notes(VaultWalk.Walk(s.policy, s.fold, root, ""), s)
  }

  ghost function Seen(disk: Contents, s: Settings): Contents {
    map p | p in Wanted(disk, s) && Discovered(p, "", s) :: disk[p]
  }

  lemma OnceInBoth(some: seq<string>, all: seq<string>)
    requires multiset(some) <= multiset(all) && Listing(all)
    ensures Listing(some)
  {
    forall i, j | 0 <= i < j < |some| ensures some[i] != some[j] {
      if some[i] == some[j] {
        Twice(some, i, j);
        NeverTwice(all, some[i]);
      }
    }
  }

  lemma Twice(xs: seq<string>, i: nat, j: nat)
    requires i < j < |xs| && xs[i] == xs[j]
    ensures multiset(xs)[xs[i]] >= 2
  {
    assert xs == xs[..i + 1] + xs[i + 1..];
    assert xs[i] in multiset(xs[..i + 1]) && xs[i + 1..][j - i - 1] in multiset(xs[i + 1..]);
  }

  lemma {:induction false} NeverTwice(xs: seq<string>, x: string)
    requires Listing(xs)
    ensures multiset(xs)[x] <= 1
  {
    if xs != [] {
      assert xs == [xs[0]] + xs[1..];
      assert forall i :: 0 <= i < |xs[1..]| ==> xs[1..][i] == xs[i + 1];
      NeverTwice(xs[1..], x);
      assert xs[0] !in xs[1..];
    }
  }

  /** What a build indexes: the notes that may be indexed and that the walk comes upon. */
  lemma CandidatesAreSeen(root: seq<VaultWalk.Entry>, disk: Contents, s: Settings)
    requires s.fold('/') == "/" && ScanOf(root, disk)
    ensures Lists(Candidates(root, s), Seen(disk, s))
  {
    hide VaultWalk.Walk, VaultWalk.AllFiles, VaultWalk.Pruned, VaultWalk.Named, Notes, Settings.Excluded,
      Settings.Markdown;
    var walk, all := VaultWalk.Walk(s.policy, s.fold, root, ""), VaultWalk.AllFiles(root, "");
    VaultWalk.WalkIsPart(s.policy, s.fold, root, "");
    OnceInBoth(Candidates(root, s), all);
    forall p ensures p in Candidates(root, s) <==> p in Seen(disk, s) {
      VaultWalk.WalkMembers(s.policy, s.fold, root, "", p);
      ReadableByItself(p, s);
      assert p in all <==> p in Members(all);
    }
  }

  lemma ReadableByItself(p: string, s: Settings)
    ensures VaultWalk.Readable(s.policy, s.fold, p) <==> s.CanRead(p) && SelfNormal(p)
  {
  }

  /**
   * Incremental equals rebuild: an index that was exact and is updated after each change of the vault
   * cannot be told apart from one built from scratch at the end, if and only if the walk of the build
   * comes upon every note that may be indexed: no exact deny rule names a directory above one.
   */
  lemma IncrementalEqualsRebuild(
      ix: Index, disk: Contents, events: seq<Event>, root: seq<VaultWalk.Entry>, view: View, s: Settings)
    requires Fresh(ix, Wanted(disk, s), s) && Orderly(disk, events, s)
    requires Unique(Wanted(disk, s), s) && s.fold('/') == "/"
    requires ScanOf(root, AfterAll(disk, events)) && Quiet(view, AfterAll(disk, events))
    ensures Same(RespondAll(ix, events, s), BuildFrom(EMPTY, Candidates(root, s), view, s))
            <==> forall p :: p in Wanted(AfterAll(disk, events), s) ==> Discovered(p, "", s)
  {
    hide Sound, AllOwn, Unique, Plausible, Followed, Respond, After, Discovered, ScanOf, Candidates, Settings.CanRead,
      Settings.Excluded, Settings.Markdown, IndexNote;
    var now := AfterAll(disk, events);
    var wanted, seen := Wanted(now, s), Seen(now, s);
    var followed, rebuilt := RespondAll(ix, events, s), BuildFrom(EMPTY, Candidates(root, s), view, s);
    FollowingKeepsFresh(ix, disk, events, s);
    if events != [] {
      assert OrderlyAt(AfterAll(disk, events[..|events| - 1]), events[|events| - 1], s);
    }
    CandidatesAreSeen(root, now, s);
    PartIsUnique(seen, wanted, s);
    BuildIsFresh(Candidates(root, s), view, seen, s);
    NotesAreRecorded(followed, wanted, s);
    NotesAreRecorded(rebuilt, seen, s);
    if forall p :: p in wanted ==> Discovered(p, "", s) {
      assert seen == wanted;
      FreshIsUnique(followed, rebuilt, wanted, s);
    }
  }

  // ---------------------------------------------------------------------------------------
  // An update of a live directory

  /**
   * Updating a live directory adds the notes the walk comes upon and leaves in the index those that have
   * vanished: its notes are exactly those on disk if and only if no indexed note below it is gone and
   * every note the walk does not come upon was indexed before.
   */
  lemma LiveDirectoryKeepsStale(
      ix: Index, rec: Contents, disk: Contents, dir: string, listing: seq<Listed>, s: Settings)
    requires Sound(ix, rec, s) && dir !in rec && dir !in disk && s.CanRead(dir) && !s.Excluded(dir)
    requires ListsBelow(listing, dir, disk, s)
    ensures var on, after := Under(Wanted(disk, s), dir), Descendants(Update(ix, dir, Directory(listing), s), dir);
            && after == Descendants(ix, dir) + set p | p in on && Discovered(p, dir, s)
            && (after == on
                <==> Descendants(ix, dir) <= on && forall p :: p in on && !Discovered(p, dir, s) ==> p in ix.notes)
  {
    hide Discovered, Sound, Update, SelfNormal, Settings.CanRead, Settings.Excluded, Settings.Markdown;
    UpdateKeepsSound(ix, dir, Directory(listing), rec, s);
    NotesAreRecorded(ix, rec, s);
    NotesAreRecorded(Update(ix, dir, Directory(listing), s), RecordUpdate(rec, dir, Directory(listing), s), s);
    RecordedChildren(rec - {dir}, listing, s);
    assert rec - {dir} == rec;
    ListedIsWanted(disk, dir, listing, s);
  }

  lemma ListedIsWanted(disk: Contents, dir: string, listing: seq<Listed>, s: Settings)
    requires ListsBelow(listing, dir, disk, s)
    ensures (set c | c in listing && s.Indexable(c.path) :: c.path)
            == set p | p in Under(Wanted(disk, s), dir) && Discovered(p, dir, s)
  {
    hide Discovered, SelfNormal, Settings.CanRead, Settings.Excluded, Settings.Markdown;
    forall p | p in Under(Wanted(disk, s), dir) && Discovered(p, dir, s)
      ensures exists c :: c in listing && s.Indexable(c.path) && c.path == p
    {
      var c :| c in listing && c.path == p;
    }
  }

  lemma {:induction false} RecordedChildren(rec: Contents, children: seq<Listed>, s: Settings)
    requires forall c :: c in children ==>
               s.CanRead(c.path) && SelfNormal(c.path) && c.probe.File? && c.probe.read.Content?
    ensures RecordChildren(rec, children, s).Keys
            == rec.Keys + set c | c in children && s.Indexable(c.path) :: c.path
    decreases |children|
  {
    hide SelfNormal, Settings.CanRead, Settings.Excluded, Settings.Markdown;
    if children != [] {
      var c, rest := children[0], children[1..];
      assert c in children && forall d :: d in rest ==> d in children;
      assert children == [c] + rest;
      RecordedChildren(if s.Indexable(c.path) then rec[c.path := c.probe.read.bytes] else rec, rest, s);
    }
  }
}
