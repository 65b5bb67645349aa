/**
 * The nested tag tree of VaultIndex.get_tag_tree (src/obsidian_mcp/domain/index.py, lines 251-287) and
 * its inverse. A name that is both a tag and a namespace keeps its own notes under `_notes`.
 */
module TagTree {
  import opened Text

  const NOTES := "_notes"

  type Parts = seq<string>

  /** A value of the nested dictionaries: a list of notes, or a dictionary. */
  datatype Tree = Notes(notes: seq<string>) | Dir(entries: map<string, Tree>)

  type Entries = map<string, Tree>

  /**
   * One tag goes in. None stands for the AttributeError of extending a dictionary that sits under
   * `_notes`, where the source expects a list.
   */
  function Insert(node: Entries, parts: Parts, notes: seq<string>): Option<Entries>
    requires parts != []
    decreases |parts|
  {
    var name := parts[0];
    if |parts| == 1 then
      if name in node && node[name].Dir? then
        var inner := node[name].entries;
        if NOTES !in inner then Some(node[name := Dir(inner[NOTES := Notes(notes)])])
        else if inner[NOTES].Notes? then Some(node[name := Dir(inner[NOTES := Notes(inner[NOTES].notes + notes)])])
        else None
      else Some(node[name := Notes(notes)])
    else
      var child :=
        if name !in node then map[]
        else match node[name]
          case Dir(inner) => inner
          case Notes(own) => map[NOTES := Notes(own)];
      match Insert(child, parts[1..], notes)
      case None => None
      case Some(inner) => Some(node[name := Dir(inner)])
  }

  /** The notes attached to a tag: a list at its place, or the `_notes` of the namespace there. */
  function Lookup(node: Entries, parts: Parts): Option<seq<string>>
    requires parts != []
    decreases |parts|
  {
    var name := parts[0];
    if name !in node then None
    else match node[name]
      case Notes(own) => if |parts| == 1 then Some(own) else None
      case Dir(inner) =>
        if |parts| > 1 then Lookup(inner, parts[1..])
        else if NOTES in inner && inner[NOTES].Notes? then Some(inner[NOTES].notes)
        else None
  }

  /** `_notes` holds lists only, at every level. */
  predicate WellFormed(node: Entries)
    decreases Dir(node)
  {
    forall name :: name in node ==>
      && (name == NOTES ==> node[name].Notes?)
      && (node[name].Dir? ==> WellFormed(node[name].entries))
  }

  predicate Plain(parts: Parts) {
    parts != [] && NOTES !in parts
  }

  lemma {:induction false} InsertIsWellFormed(node: Entries, parts: Parts, notes: seq<string>)
    requires WellFormed(node) && Plain(parts)
    ensures Insert(node, parts, notes).Some? && WellFormed(Insert(node, parts, notes).value)
    decreases |parts|
  {
    if |parts| > 1 {
      var name := parts[0];
      var child := if name !in node then map[]
                   else if node[name].Dir? then node[name].entries
                   else map[NOTES := Notes(node[name].notes)];
      InsertIsWellFormed(child, parts[1..], notes);
    }
  }

  /** Inserting a tag adds its notes and changes nothing else, whatever is already there. */
  lemma {:induction false} InsertIsExact(node: Entries, parts: Parts, notes: seq<string>, q: Parts)
    requires WellFormed(node) && Plain(parts) && Plain(q)
    requires Lookup(node, parts).None?
    ensures Insert(node, parts, notes).Some?
    ensures Lookup(Insert(node, parts, notes).value, q) == if q == parts then Some(notes) else Lookup(node, q)
    decreases |parts|
  {
    InsertIsWellFormed(node, parts, notes);
    var name := parts[0];
    if |parts| > 1 {
      var child := if name !in node then map[]
                   else if node[name].Dir? then node[name].entries
                   else map[NOTES := Notes(node[name].notes)];
      InsertIsWellFormed(child, parts[1..], notes);
      assert parts == [name] + parts[1..] && q == [q[0]] + q[1..];
      if |q| > 1 {
        InsertIsExact(child, parts[1..], notes, q[1..]);
      }
      if |q| == 1 && q[0] == name {
        InsertKeepsOwnNotes(child, parts[1..], notes);
      }
    }
  }

  /** Going deeper leaves the notes of the namespace itself alone. */
  lemma InsertKeepsOwnNotes(node: Entries, parts: Parts, notes: seq<string>)
    requires WellFormed(node) && Plain(parts) && Insert(node, parts, notes).Some?
    ensures NOTES in Insert(node, parts, notes).value <==> NOTES in node
    ensures NOTES in node ==> Insert(node, parts, notes).value[NOTES] == node[NOTES]
  {
    assert parts[0] in parts;
  }

  // ---------------------------------------------------------------------------------------
  // The whole loop and its inverse

  /** One entry of the tag index that survives the filter: the tag and its sorted, non-empty notes. */
  datatype Tagged = Tagged(tag: string, notes: seq<string>)

  /** The loop of get_tag_tree, for the tags in the given order. */
  function Build(node: Entries, tags: seq<Tagged>): Option<Entries>
    decreases |tags|
  {
    if tags == [] then Some(node)
    else match Insert(node, Split(tags[0].tag, '/'), tags[0].notes)
      case None => None
      case Some(next) => Build(next, tags[1..])
  }

  type Entry = (Parts, seq<string>)

  ghost function Leaves(node: Entries): set<Entry> {
    set name | name in node && name != NOTES && node[name].Notes? :: ([name], node[name].notes)
  }

  ghost function Namespaces(node: Entries): set<Entry> {
    set name | name in node && name != NOTES && node[name].Dir?
               && NOTES in node[name].entries && node[name].entries[NOTES].Notes?
             :: ([name], node[name].entries[NOTES].notes)
  }

  function Prefixed(name: string, entry: Entry): Entry {
    ([name] + entry.0, entry.1)
  }

  /** Every tag the tree speaks of, with its notes: lists are leaves, `_notes` belongs to its namespace. */
  ghost function Flatten(node: Entries): set<Entry>
    decreases Dir(node)
  {
    Leaves(node) + Namespaces(node)
    + (set name, entry | name in node && name != NOTES && node[name].Dir? && entry in Flatten(node[name].entries)
         :: Prefixed(name, entry))
  }

  lemma {:induction false} FlattenIsLookup(node: Entries, q: Parts, notes: seq<string>)
    requires WellFormed(node)
    ensures (q, notes) in Flatten(node) <==> Plain(q) && Lookup(node, q) == Some(notes)
    decreases Dir(node)
  {
    if q != [] {
      var name, rest := q[0], q[1..];
      assert q == [name] + rest;
      if name in node && node[name].Dir? {
        FlattenIsLookup(node[name].entries, rest, notes);
      }
      FlattenUnfolds(node, q, notes);
    } else {
      FlattenIsNeverEmpty(node, notes);
    }
  }

  /** The tree never speaks of a tag with a `_notes` component, whatever has been put in. */
  lemma {:induction false} FlattenIsPlain(node: Entries, q: Parts, notes: seq<string>)
    requires (q, notes) in Flatten(node)
    ensures Plain(q)
    decreases Dir(node)
  {
    if q == [] {
      FlattenIsNeverEmpty(node, notes);
    } else {
      FlattenUnfolds(node, q, notes);
      assert q == [q[0]] + q[1..];
      if node[q[0]].Dir? && (q[1..], notes) in Flatten(node[q[0]].entries) {
        FlattenIsPlain(node[q[0]].entries, q[1..], notes);
      }
    }
  }

  lemma FlattenIsNeverEmpty(node: Entries, notes: seq<string>)
    ensures ([], notes) !in Flatten(node)
  {
  }

  lemma FlattenUnfolds(node: Entries, q: Parts, notes: seq<string>)
    requires q != []
    ensures (q, notes) in Flatten(node) <==>
              var name := q[0];
              name in node && name != NOTES &&
              (if node[name].Notes? then |q| == 1 && node[name].notes == notes
               else (|q| == 1 && NOTES in node[name].entries && node[name].entries[NOTES] == Notes(notes))
                    || (q[1..], notes) in Flatten(node[name].entries))
  {
    var name, rest := q[0], (q[1..], notes);
    assert q == [name] + q[1..];
    assert Prefixed(name, rest) == (q, notes);
    FlattenDeeper(node, q, notes);
    assert |q| == 1 ==> q == [name];
    assert (q, notes) in Leaves(node) <==>
      name in node && name != NOTES && node[name].Notes? && |q| == 1 && node[name].notes == notes;
    assert (q, notes) in Namespaces(node) <==>
      name in node && name != NOTES && node[name].Dir? && |q| == 1
      && NOTES in node[name].entries && node[name].entries[NOTES] == Notes(notes);
  }

  lemma FlattenDeeper(node: Entries, q: Parts, notes: seq<string>)
    requires q != []
    ensures (exists name, entry :: name in node && name != NOTES && node[name].Dir?
                                   && entry in Flatten(node[name].entries) && Prefixed(name, entry) == (q, notes))
            <==> q[0] in node && q[0] != NOTES && node[q[0]].Dir? && (q[1..], notes) in Flatten(node[q[0]].entries)
  {
    assert [q[0]] + q[1..] == q;
    forall name, entry: Entry | Prefixed(name, entry) == (q, notes) ensures name == q[0] && entry == (q[1..], notes) {
      assert ([name] + entry.0)[1..] == entry.0;
    }
  }

  predicate PlainTags(tags: seq<Tagged>) {
    forall t :: t in tags ==> Plain(Split(t.tag, '/'))
  }

  predicate DistinctTags(tags: seq<Tagged>) {
    forall i, j :: 0 <= i < j < |tags| ==> tags[i].tag != tags[j].tag
  }

  lemma {:induction false} BuildIsExact(node: Entries, tags: seq<Tagged>, q: Parts)
    requires WellFormed(node) && PlainTags(tags) && DistinctTags(tags) && Plain(q)
    requires forall t :: t in tags ==> Lookup(node, Split(t.tag, '/')).None?
    ensures Build(node, tags).Some? && WellFormed(Build(node, tags).value)
    ensures forall t :: t in tags && Split(t.tag, '/') == q ==> Lookup(Build(node, tags).value, q) == Some(t.notes)
    ensures (forall t :: t in tags ==> Split(t.tag, '/') != q) ==> Lookup(Build(node, tags).value, q) == Lookup(node, q)
    decreases |tags|
  {
    if tags != [] {
      var first, rest := tags[0], tags[1..];
      var parts := Split(first.tag, '/');
      assert first in tags && forall t :: t in rest ==> t in tags;
      assert tags == [first] + rest;
      InsertIsWellFormed(node, parts, first.notes);
      var next := Insert(node, parts, first.notes).value;
      forall t | t in rest ensures Split(t.tag, '/') != parts && Lookup(next, Split(t.tag, '/')).None? {
        var k :| 0 <= k < |rest| && rest[k] == t;
        assert tags[0].tag != tags[k + 1].tag;
        JoinOfSplit(t.tag, '/');
        JoinOfSplit(first.tag, '/');
        InsertIsExact(node, parts, first.notes, Split(t.tag, '/'));
      }
      InsertIsExact(node, parts, first.notes, q);
      BuildIsExact(next, rest, q);
    }
  }

  /** What the tree should say. */
  function EntriesOf(tags: seq<Tagged>): set<Entry> {
    set t | t in tags :: (Split(t.tag, '/'), t.notes)
  }

  lemma PlainTagsRoundTrip(tags: seq<Tagged>)
    requires PlainTags(tags) && DistinctTags(tags)
    ensures Build(map[], tags).Some?
    ensures Flatten(Build(map[], tags).value) == EntriesOf(tags)
  {
    BuildIsExact(map[], tags, ["x"]);
    var tree := Build(map[], tags).value;
    var expected := EntriesOf(tags);
    forall entry: (Parts, seq<string>) ensures entry in Flatten(tree) <==> entry in expected {
      FlattenIsLookup(tree, entry.0, entry.1);
      if Plain(entry.0) {
        BuildIsExact(map[], tags, entry.0);
      }
      if entry in expected {
        var t :| t in tags && (Split(t.tag, '/'), t.notes) == entry;
      } else if forall t :: t in tags ==> Split(t.tag, '/') != entry.0 {
      } else {
        var t :| t in tags && Split(t.tag, '/') == entry.0;
        assert (Split(t.tag, '/'), t.notes) in expected;
      }
    }
  }

  /**
   * Round trip: for any order of the tags, and with tags that are also namespaces of others, the tree is
   * built and flattening it gives back exactly the tags with their notes, if and only if no component of
   * a tag is `_notes`.
   */
  lemma TreeRoundTrip(tags: seq<Tagged>)
    requires DistinctTags(tags)
    ensures Build(map[], tags).Some? && Flatten(Build(map[], tags).value) == EntriesOf(tags) <==> PlainTags(tags)
  {
    if PlainTags(tags) {
      PlainTagsRoundTrip(tags);
    } else if Build(map[], tags).Some? && Flatten(Build(map[], tags).value) == EntriesOf(tags) {
      var t :| t in tags && !Plain(Split(t.tag, '/'));
      assert (Split(t.tag, '/'), t.notes) in EntriesOf(tags);
      FlattenIsPlain(Build(map[], tags).value, Split(t.tag, '/'), t.notes);
    }
  }

  /** The order in which tags are processed cannot be seen in the result. */
  lemma OrderDoesNotMatter(tags: seq<Tagged>, others: seq<Tagged>)
    requires PlainTags(tags) && DistinctTags(tags) && DistinctTags(others)
    requires forall t :: t in tags <==> t in others
    ensures Build(map[], tags).Some? && Build(map[], others).Some?
    ensures Flatten(Build(map[], tags).value) == Flatten(Build(map[], others).value)
  {
    PlainTagsRoundTrip(tags);
    PlainTagsRoundTrip(others);
  }

  /** Without the proviso the round trip fails: the tag "a/_notes" comes back as "a". */
  lemma NotesComponentBreaksRoundTrip(notes: seq<string>)
    ensures Insert(map[], ["a", NOTES], notes).Some?
    ensures (["a"], notes) in Flatten(Insert(map[], ["a", NOTES], notes).value)
    ensures (["a", NOTES], notes) !in Flatten(Insert(map[], ["a", NOTES], notes).value)
  {
    var leaf: Entries := map[NOTES := Notes(notes)];
    var tree: Entries := map["a" := Dir(leaf)];
    assert ["a", NOTES][1..] == [NOTES];
    assert Insert(map[], [NOTES], notes) == Some(leaf);
    FlattenUnfolds(tree, ["a"], notes);
    FlattenUnfolds(tree, ["a", NOTES], notes);
    FlattenUnfolds(leaf, [NOTES], notes);
  }

  // ---------------------------------------------------------------------------------------
  // The method

  /** The source's arguments: the tag index, and the notes the caller may see. */
  ghost function Visible(tagsIndex: map<string, set<string>>, shown: string -> bool, tag: string): set<string>
    requires tag in tagsIndex
  {
    set n | n in tagsIndex[tag] && shown(n)
  }

  /** Each tag that keeps a visible note, with its visible notes. */
  ghost function ShownEntries(
      tagsIndex: map<string, set<string>>, shown: string -> bool, sorted: set<string> -> seq<string>): set<Entry>
  {
    set tag | tag in tagsIndex && Visible(tagsIndex, shown, tag) != {}
            :: (Split(tag, '/'), sorted(Visible(tagsIndex, shown, tag)))
  }

  /**
   * get_tag_tree over the tags in some order, with some way of sorting notes: the tree is built and
   * flattens to each tag that keeps a visible note, with exactly its visible notes, if and only if none
   * of these tags has a component `_notes`.
   */
  method GetTagTree(
      tagsIndex: map<string, set<string>>, order: seq<string>, shown: string -> bool,
      sorted: set<string> -> seq<string>)
    returns (tree: Option<Entries>)
    requires forall i, j :: 0 <= i < j < |order| ==> order[i] != order[j]
    requires forall tag :: tag in order <==> tag in tagsIndex
    ensures tree.Some? && Flatten(tree.value) == ShownEntries(tagsIndex, shown, sorted)
            <==> forall tag :: tag in tagsIndex && Visible(tagsIndex, shown, tag) != {} ==> Plain(Split(tag, '/'))
  {
    hide Flatten, Insert, Split, Plain, PlainTags, ShownEntries, EntriesOf;
    var node: Entries := map[];
    ghost var done: seq<Tagged> := [];
    ghost var none: Entries := map[];
    tree := Some(node);
    for i := 0 to |order|
      invariant tree == Build(none, done)
      invariant forall t :: t in done ==> exists k :: 0 <= k < i && order[k] == t.tag
      invariant forall t :: t in done ==>
                  && t.tag in tagsIndex && Visible(tagsIndex, shown, t.tag) != {}
                  && t.notes == sorted(Visible(tagsIndex, shown, t.tag))
      invariant forall k :: 0 <= k < i && Visible(tagsIndex, shown, order[k]) != {} ==>
                  Tagged(order[k], sorted(Visible(tagsIndex, shown, order[k]))) in done
      invariant DistinctTags(done)
    {
      var tag := order[i];
      assert tag in order;
      var notes := set n | n in tagsIndex[tag] && shown(n);
      if notes != {} && tree.Some? {
        tree := Insert(tree.value, Split(tag, '/'), sorted(notes));
      }
      if notes != {} {
        BuildOneMore(none, done, Tagged(tag, sorted(notes)));
        done := done + [Tagged(tag, sorted(notes))];
      }
    }
    TreeRoundTrip(done);
    AllAreDone(tagsIndex, order, shown, sorted, done);
    EntriesOfDone(tagsIndex, shown, sorted, done);
  }

  lemma AllAreDone(
      tagsIndex: map<string, set<string>>, order: seq<string>, shown: string -> bool,
      sorted: set<string> -> seq<string>, done: seq<Tagged>)
    requires forall tag :: tag in tagsIndex ==> tag in order
    requires forall k :: 0 <= k < |order| && order[k] in tagsIndex && Visible(tagsIndex, shown, order[k]) != {} ==>
               Tagged(order[k], sorted(Visible(tagsIndex, shown, order[k]))) in done
    ensures forall tag :: tag in tagsIndex && Visible(tagsIndex, shown, tag) != {} ==>
              Tagged(tag, sorted(Visible(tagsIndex, shown, tag))) in done
  {
    forall tag | tag in tagsIndex && Visible(tagsIndex, shown, tag) != {}
      ensures Tagged(tag, sorted(Visible(tagsIndex, shown, tag))) in done
    {
      assert tag in order;
    }
  }

  lemma EntriesOfDone(
      tagsIndex: map<string, set<string>>, shown: string -> bool, sorted: set<string> -> seq<string>, done: seq<Tagged>)
    requires forall t :: t in done ==>
               && t.tag in tagsIndex && Visible(tagsIndex, shown, t.tag) != {}
               && t.notes == sorted(Visible(tagsIndex, shown, t.tag))
    requires forall tag :: tag in tagsIndex && Visible(tagsIndex, shown, tag) != {} ==>
               Tagged(tag, sorted(Visible(tagsIndex, shown, tag))) in done
    ensures EntriesOf(done) == ShownEntries(tagsIndex, shown, sorted)
    ensures PlainTags(done)
            <==> forall tag :: tag in tagsIndex && Visible(tagsIndex, shown, tag) != {} ==> Plain(Split(tag, '/'))
  {
    hide Plain;
    var a := EntriesOf(done);
    forall tag | tag in tagsIndex && Visible(tagsIndex, shown, tag) != {}
      ensures (Split(tag, '/'), sorted(Visible(tagsIndex, shown, tag))) in a
    {
      var t := Tagged(tag, sorted(Visible(tagsIndex, shown, tag)));
      assert t in done && (Split(t.tag, '/'), t.notes) in a;
    }
  }

  lemma {:induction false} BuildOneMore(node: Entries, tags: seq<Tagged>, t: Tagged)
    ensures Build(node, tags + [t])
            == match Build(node, tags)
               case None => None
               case Some(tree) => Insert(tree, Split(t.tag, '/'), t.notes)
    decreases |tags|
  {
    if tags == [] {
      assert (tags + [t])[1..] == [];
    } else {
      assert (tags + [t])[1..] == tags[1..] + [t];
      match Insert(node, Split(tags[0].tag, '/'), tags[0].notes)
      case None =>
      case Some(next) => BuildOneMore(next, tags[1..], t);
    }
  }
}
