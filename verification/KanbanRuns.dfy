/**
 * A board under any number of edits (src/obsidian_mcp/tools/kanban.py): as long as each edit is one of
 * those whose effect on the columns is exact, the parsed board follows the edits of the columns.
 */
module KanbanRuns {
  import opened Text
  import opened Kanban
  import opened KanbanColumns
  import opened KanbanLines
  import opened KanbanRefinement
  import opened KanbanDeletion

  datatype Edit =
    | Add(column: string, card: Card)
    | Move(text: string, source: string, target: string, done: Option<bool>)
    | Delete(text: string, scope: Option<string>)

  /** What the tools write; they write nothing when the edit fails or finds no card. */
  function Edited(lines: Lines, e: Edit): Lines {
    match e
    case Add(column, card) =>
      var r := AddCard(lines, column, card);
      if r.Ok? then r.value else lines
    case Move(text, source, target, done) =>
      var r := MoveCard(lines, text, source, target, done);
      if r.Ok? then r.value.0 else lines
    case Delete(text, column) => DeleteCard(lines, text, column).0
  }

  /** What was asked for. */
  function Wanted(columns: seq<Column>, e: Edit): seq<Column> {
    match e
    case Add(column, card) => AddToFirst(columns, column, card)
    case Move(text, source, target, done) =>
      var r := MoveInColumns(columns, text, source, target, done);
      if r.Ok? then r.value.0 else columns
    case Delete(text, column) => Removed(columns, text, column)
  }

  /** The arguments are names and texts that a heading or a card can carry. */
  predicate Proper(e: Edit, space: Space) {
    match e
    case Add(column, card) => Name(column) && Trimmed(card.text, space)
    case Move(text, source, target, _) => Name(source) && Name(target) && Trimmed(text, space)
    case Delete(text, column) => Trimmed(text, space) && (column.Some? ==> Name(column.value))
  }

  /** No heading in the way ends the note, and what the edit finds can stand in for what parsing finds. */
  predicate Exact(lines: Lines, e: Edit, space: Space) {
    match e
    case Add(column, _) => FindHeading(lines, column).Some? ==> HasRoom(lines, column)
    case Move(text, source, target, _) => Moves(lines, text, source, target, space)
    case Delete(text, column) => Deletes(lines, text, column, space)
  }

  function EditedAll(lines: Lines, edits: seq<Edit>): Lines
    decreases |edits|
  {
    if edits == [] then lines else EditedAll(Edited(lines, edits[0]), edits[1..])
  }

  function WantedAll(columns: seq<Column>, edits: seq<Edit>): seq<Column>
    decreases |edits|
  {
    if edits == [] then columns else WantedAll(Wanted(columns, edits[0]), edits[1..])
  }

  predicate ExactAll(lines: Lines, edits: seq<Edit>, space: Space)
    decreases |edits|
  {
    edits != [] ==> Exact(lines, edits[0], space) && ExactAll(Edited(lines, edits[0]), edits[1..], space)
  }

  /** An edit that is exact does to the parsed board what was asked for, and leaves the cards above it alone. */
  lemma EditFollows(lines: Lines, e: Edit, space: Space)
    requires Spaces(space) && Proper(e, space) && Exact(lines, e, space)
    ensures var board := Parse(lines, space);
            Parse(Edited(lines, e), space) == Board(board.stray, Wanted(board.columns, e))
  {
    hide Parse, HasRoom, AddCard, DeleteCard, AddToFirst, Removed, MoveInColumns, Trimmed, Name, HoldsIn, FindHeading,
      Deletes, Moves, MoveCard;
    match e
    case Add(column, card) =>
      AddCardIsExact(lines, column, card, space);
      ColumnAtHeading(lines, column, space);
      AddingToNone(Parse(lines, space).columns, column, card);
    case Move(text, source, target, done) =>
      MoveCardIsExact(lines, text, source, target, done, space);
      MoveKeepsStray(lines, text, source, target, done, space);
    case Delete(text, column) =>
      DeleteCardIsExact(lines, text, column, space);
  }

  lemma MoveKeepsStray(lines: Lines, text: string, source: string, target: string, done: Option<bool>, space: Space)
    requires Spaces(space) && Name(source) && Name(target) && Trimmed(text, space)
    requires Moves(lines, text, source, target, space)
    ensures var r := MoveCard(lines, text, source, target, done);
            r.Ok? ==> Parse(r.value.0, space).stray == Parse(lines, space).stray
  {
    hide Parse, HasRoom, Trimmed, Name, AddToFirst, FirstNamed, Locate, DropLine, Parsed, FindHeading, Twins, IsCard,
      CardOf, CardMatches;
    ParsedNeedsRoom(lines, source, text, space);
    if Locate(lines, source, text).Some? {
      LocateIsExact(lines, source, text, space);
      MoveLeaves(lines, text, source, target, done, space);
    }
  }

  /** Any number of exact edits in a row does to the parsed board what the same edits of the columns do. */
  lemma {:induction false} EditsFollow(lines: Lines, edits: seq<Edit>, space: Space)
    requires Spaces(space) && (forall e :: e in edits ==> Proper(e, space)) && ExactAll(lines, edits, space)
    ensures var board := Parse(lines, space);
            Parse(EditedAll(lines, edits), space) == Board(board.stray, WantedAll(board.columns, edits))
    decreases |edits|
  {
    hide Parse, Exact, Edited, Wanted, Proper, Spaces;
    if edits != [] {
      EditFollows(lines, edits[0], space);
      EditsFollow(Edited(lines, edits[0]), edits[1..], space);
    }
  }
}
