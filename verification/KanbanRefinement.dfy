/**
 * Editing the lines of a board (Kanban.dfy) is editing its columns (KanbanColumns.dfy): where that is true
 * of src/obsidian_mcp/tools/kanban.py, and exactly where it is not.
 */
module KanbanRefinement {
  import opened Text
  import opened Kanban
  import opened KanbanColumns
  import opened KanbanLines

  /** There is a line below the column's heading, if only an empty one. */
  predicate HasRoom(lines: Lines, column: string) {
    var heading := FindHeading(lines, column);
    heading.Some? && heading.value + 1 < |lines|
  }

  /** A note whose first line is not of this form has no frontmatter, so it does not count as a board. */
  predicate StartsFrontmatter(lines: Lines) {
    lines != [] && "---" <= lines[0]
  }

  /**
   * Adding a card prepends it to the column exactly when the heading does not end the note: with a
   * heading on the last line, and no newline behind it, the card lands above every column, and above the
   * frontmatter.
   */
  lemma AddCardIsExact(lines: Lines, column: string, card: Card, space: Space)
    requires Name(column) && Trimmed(card.text, space)
    ensures var board := Parse(lines, space);
            var r := AddCard(lines, column, card);
            && (r.Ok? <==> FirstNamed(board.columns, column).Some?)
            && (r.Ok? ==>
                  var added := AddToFirst(board.columns, column, card);
                  && Parse(r.value, space)
                     == (if HasRoom(lines, column) then Board(board.stray, added)
                         else Board([card] + board.stray, board.columns))
                  && (Parse(r.value, space).columns == added <==> HasRoom(lines, column))
                  && (StartsFrontmatter(r.value) <==> HasRoom(lines, column) && StartsFrontmatter(lines)))
  {
    hide HeadingOf, CardLine, Name, Trimmed, FirstNamed, AddToFirst, Parse;
    ColumnAtHeading(lines, column, space);
    if FindHeading(lines, column).Some? {
      var h := FindHeading(lines, column).value;
      if h + 1 < |lines| {
        InsertRefines(lines, column, card, space);
        assert AddCard(lines, column, card).value[0] == lines[0];
      } else {
        InsertOnTop(lines, card, space);
        CardLineIsNoFence(card);
        assert AddCard(lines, column, card).value[0] == CardLine(card);
        AddingChanges(Parse(lines, space).columns, column, card);
      }
    }
  }

  lemma CardLineIsNoFence(card: Card)
    ensures !("---" <= CardLine(card))
  {
    assert CardLine(card)[1] != "---"[1];
  }

  // ---------------------------------------------------------------------------------------
  // What the edits look for, and what they find

  /** What a match of the anchored pattern says about the parsed card. */
  lemma MatchCarries(line: string, text: string, space: Space)
    requires Spaces(space) && Trimmed(text, space) && CardMatches(line, text)
    ensures Carries(line, text, space) && CardOf(line, space) == Card(text, line[3] != ' ')
  {
    hide DropBlanks;
    var rest := line[6..];
    TextThenBlanksMeaning(rest, text);
    TrimRightIsDrop(rest, space);
    assert rest[0] == text[0] && TrimLeft(rest, space) == rest;
  }

  /** The card that parsing finds first in the column: the line the edits ought to find. */
  function Parsed(lines: Lines, column: string, text: string, space: Space): (r: Option<nat>)
    ensures r.Some? ==> r.value < |lines| && Carries(lines[r.value], text, space)
  {
    if HasRoom(lines, column) then FirstCarrying(lines, FindHeading(lines, column).value + 1, text, space) else None
  }

  lemma NoHeadingsBetween(lines: Lines, start: nat, i: nat)
    requires start <= |lines| && start <= i < SectionEnd(lines, start)
    ensures forall k :: start <= k <= i ==> !IsHeading(lines[k])
  {
  }

  /** The column holds the card exactly when there is such a line, and that line is its first such card. */
  lemma ParsedIsExact(lines: Lines, column: string, text: string, space: Space)
    requires Name(column)
    ensures var board := Parse(lines, space);
            var parsed := Parsed(lines, column, text, space);
            && (parsed.Some? <==> Holds(board.columns, column, text))
            && (parsed.Some? ==>
                  && Parse(DropLine(lines, parsed.value), space)
                     == Board(board.stray, RemoveFromFirst(board.columns, column, text))
                  && FirstText(FirstNamed(board.columns, column).value.cards, text)
                     == Some(CardOf(lines[parsed.value], space).done))
  {
    hide Parse, IsHeading, CardOf, IsCard, Name, FirstText, HasText, DropLine, RemoveFromFirst;
    ColumnAtHeading(lines, column, space);
    var heading := FindHeading(lines, column);
    if heading.Some? {
      var h := heading.value;
      FirstCarryingMeaning(lines, h + 1, text, space);
      if FirstCarrying(lines, h + 1, text, space).Some? {
        DropRefines(lines, column, h, FirstCarrying(lines, h + 1, text, space).value, text, space);
      } else {
        NoneBelowHeading(lines, column, h, text, space);
      }
    }
  }

  /** A line found below the heading of the column is, or stands below, the one that parsing finds. */
  lemma FoundInColumn(lines: Lines, column: string, text: string, i: nat, space: Space)
    requires Name(column) && HasRoom(lines, column) && FindHeading(lines, column).value < i < |lines|
    requires Carries(lines[i], text, space) && i < SectionEnd(lines, FindHeading(lines, column).value + 1)
    ensures Sheltered(lines, i)
    ensures var parsed := Parsed(lines, column, text, space); parsed.Some? && parsed.value <= i
  {
    hide IsHeading, Carries, HeadingOf, Name;
    var h := FindHeading(lines, column).value;
    NameOfHeading(lines[h], column);
    FirstCarryingMeaning(lines, h + 1, text, space);
    NoHeadingsBetween(lines, h + 1, i);
  }

  /** A search from line 0 up to the first heading finds no line below any heading. */
  lemma FoundAbove(lines: Lines, i: nat)
    requires i < SectionEnd(lines, 0)
    ensures !Sheltered(lines, i)
  {
    hide IsHeading;
    NoHeadingsBetween(lines, 0, i);
  }

  /**
   * The line a search finds can stand in for the one that parsing finds exactly when they are twins. When
   * the heading ends the note the column is empty and the search looks above all columns.
   */
  lemma LocateIsExact(lines: Lines, column: string, text: string, space: Space)
    requires Spaces(space) && Name(column) && Trimmed(text, space)
    ensures var found, parsed := Locate(lines, column, text), Parsed(lines, column, text, space);
            found.Some? ==>
              var board := Parse(lines, space);
              var without := Parse(DropLine(lines, found.value), space);
              && Carries(lines[found.value], text, space)
              && CardOf(lines[found.value], space).done == (lines[found.value][3] != ' ')
              && (if HasRoom(lines, column) then
                    && parsed.Some? && parsed.value <= found.value && without.stray == board.stray
                    && (without == Parse(DropLine(lines, parsed.value), space)
                        <==> Twins(lines, parsed.value, found.value, space))
                  else without.columns == board.columns)
  {
    hide Parse, IsHeading, CardOf, IsCard, Name, Trimmed, DropLine, Sheltered, Twins, CardMatches;
    var found := Locate(lines, column, text);
    if found.Some? {
      var i := found.value;
      MatchCarries(lines[i], text, space);
      CardIsNoHeading(lines[i]);
      DropStaysInPlace(lines, i, space);
      if HasRoom(lines, column) {
        FoundInColumn(lines, column, text, i, space);
        DropTwins(lines, Parsed(lines, column, text, space).value, i, space);
      } else {
        FoundAbove(lines, i);
      }
    }
  }

  // ---------------------------------------------------------------------------------------
  // Moving

  /** Taking a card out neither adds nor removes a heading, nor does it decide which heading is last. */
  lemma {:induction false} HeadingAfterDrop(lines: Lines, i: nat, column: string)
    requires i < |lines| && Name(column) && !HeadingOf(lines[i], column)
    ensures FindHeading(DropLine(lines, i), column).Some? <==> FindHeading(lines, column).Some?
    ensures HasRoom(DropLine(lines, i), column) <==> HasRoom(lines, column)
  {
    hide HeadingOf;
    if i == 0 {
      NoHeadingInEmpty(column);
      assert DropLine(lines, i) == if |lines| == 1 then [""] else lines[1..];
    } else {
      DropOfTail(lines, i);
      HeadingAfterDrop(lines[1..], i - 1, column);
    }
  }

  lemma NoHeadingInEmpty(column: string)
    ensures !HeadingOf("", column)
  {
  }

  lemma CardIsNoColumn(line: string, text: string, column: string)
    requires CardMatches(line, text)
    ensures |line| > 3 && !HeadingOf(line, column)
  {
    assert line[0] == line[..3][0] == '-';
  }

  /** The edited lines parse to what should become of the columns, and the answer is the same. */
  predicate Agree(
      edited: Result<(Lines, bool), EditError>, wanted: Result<(seq<Column>, bool), EditError>, space: Space)
  {
    match (edited, wanted)
    case (Ok((lines, found)), Ok((columns, expected))) => found == expected && Parse(lines, space).columns == columns
    case (Err(e), Err(f)) => e == f
    case _ => false
  }

  /**
   * Whether a move works on the columns can be told before: the search finds the line that parsing finds,
   * or a twin of it, or neither finds any; and the heading of the target does not end the note.
   */
  predicate Moves(lines: Lines, text: string, source: string, target: string, space: Space) {
    match (Parsed(lines, source, text, space), Locate(lines, source, text))
    case (None, None) => true
    case (Some(p), Some(i)) =>
      FindHeading(lines, target).Some? ==>
        HasRoom(lines, target) && p <= i && IsCard(lines[i]) && Twins(lines, p, i, space)
    case _ => false
  }

  /** What a move leaves, in terms of the board without the line that it found. */
  lemma MoveLeaves(lines: Lines, text: string, source: string, target: string, done: Option<bool>, space: Space)
    requires Spaces(space) && Name(source) && Name(target) && Trimmed(text, space)
    requires Locate(lines, source, text).Some?
    ensures var i := Locate(lines, source, text).value;
            var without := Parse(DropLine(lines, i), space);
            var card := Card(text, if done.Some? then done.value else lines[i][3] != ' ');
            var r := MoveCard(lines, text, source, target, done);
            && (FirstNamed(without.columns, target).Some? <==> FindHeading(lines, target).Some?)
            && (if FindHeading(lines, target).None? then r == Err(ColumnNotFound)
                else
                  && r.Ok? && r.value.1
                  && Parse(r.value.0, space)
                     == if HasRoom(lines, target) then Board(without.stray, AddToFirst(without.columns, target, card))
                        else Board([card] + without.stray, without.columns))
  {
    hide Parse, CardMatches, Locate, DropLine, AddToFirst, FirstNamed, FindHeading, Name, HasRoom, Trimmed;
    var i := Locate(lines, source, text).value;
    CardIsNoColumn(lines[i], text, target);
    HeadingAfterDrop(lines, i, target);
    var card := Card(text, if done.Some? then done.value else lines[i][3] != ' ');
    AddCardIsExact(DropLine(lines, i), target, card, space);
    ColumnAtHeading(DropLine(lines, i), target, space);
  }

  /** What the columns should become, in terms of the line that parsing finds. */
  lemma WantedOfMove(
      lines: Lines, text: string, source: string, target: string, done: Option<bool>, space: Space)
    requires Name(source) && Name(target)
    ensures var columns := Parse(lines, space).columns;
            var wanted := MoveInColumns(columns, text, source, target, done);
            match Parsed(lines, source, text, space)
            case None => wanted == Ok((columns, false))
            case Some(p) =>
              var without := Parse(DropLine(lines, p), space).columns;
              var card := Card(text, if done.Some? then done.value else CardOf(lines[p], space).done);
              && (FirstNamed(without, target).Some? <==> FindHeading(lines, target).Some?)
              && wanted == if FindHeading(lines, target).None? then Err(ColumnNotFound)
                           else Ok((AddToFirst(without, target, card), true))
  {
    hide Parse, IsHeading, CardOf, IsCard, Name, FirstText, HasText, DropLine, RemoveFromFirst, Parsed, Holds, HasRoom,
      FindHeading, AddToFirst, HeadingOf, HeadingName;
    ParsedIsExact(lines, source, text, space);
    var parsed := Parsed(lines, source, text, space);
    if parsed.Some? {
      var p := parsed.value;
      CardIsNoHeading(lines[p]);
      NameOfHeading(lines[p], target);
      HeadingAfterDrop(lines, p, target);
      ColumnAtHeading(DropLine(lines, p), target, space);
    }
  }

  /** A target without room does not get the card: one text is missing from the columns. */
  lemma NoRoomLosesCard(
      lines: Lines, p: nat, i: nat, text: string, target: string, card: Card, space: Space)
    requires p < |lines| && i < |lines| && Carries(lines[p], text, space) && Carries(lines[i], text, space)
    requires Parse(DropLine(lines, p), space).stray == Parse(DropLine(lines, i), space).stray && card.text == text
    requires FirstNamed(Parse(DropLine(lines, p), space).columns, target).Some?
    ensures AddToFirst(Parse(DropLine(lines, p), space).columns, target, card)
            != Parse(DropLine(lines, i), space).columns
  {
    hide Parse, CardOf, IsCard, DropLine, AddToFirst, Texts, TextsOf;
    TextsAfterDrop(lines, p, space);
    TextsAfterDrop(lines, i, space);
    var a, b := Parse(DropLine(lines, p), space), Parse(DropLine(lines, i), space);
    TextsAfterAdding(a.columns, target, card);
    var above := TextsOf(a.stray);
    assert (above + Texts(a.columns) + multiset{text})[text] == above[text] + Texts(a.columns)[text] + 1;
    assert (above + Texts(b.columns) + multiset{text})[text] == above[text] + Texts(b.columns)[text] + 1;
  }

  /** Two lines with this card, and the card put on top of the target column instead of either. */
  lemma TwinsDecideMove(
      lines: Lines, p: nat, i: nat, text: string, target: string, done: Option<bool>, space: Space)
    requires p <= i < |lines| && Carries(lines[p], text, space) && Carries(lines[i], text, space)
    requires Parse(DropLine(lines, p), space).stray == Parse(DropLine(lines, i), space).stray
    requires FirstNamed(Parse(DropLine(lines, p), space).columns, target).Some?
    requires FirstNamed(Parse(DropLine(lines, i), space).columns, target).Some?
    ensures AddToFirst(Parse(DropLine(lines, p), space).columns, target,
                       Card(text, if done.Some? then done.value else CardOf(lines[p], space).done))
            == AddToFirst(Parse(DropLine(lines, i), space).columns, target,
                          Card(text, if done.Some? then done.value else CardOf(lines[i], space).done))
            <==> Twins(lines, p, i, space)
  {
    hide Parse, CardOf, IsCard, DropLine, AddToFirst;
    var a, b := Parse(DropLine(lines, p), space), Parse(DropLine(lines, i), space);
    DropTwins(lines, p, i, space);
    AddingDecides(a.columns, b.columns, target,
                  Card(text, if done.Some? then done.value else CardOf(lines[p], space).done),
                  Card(text, if done.Some? then done.value else CardOf(lines[i], space).done));
  }

  /**
   * Moving a card takes the first card with that text out of the source column and puts it on top of the
   * target column, ticked as asked or as it was, also within one column, if and only if the search finds
   * what parsing finds and the heading of the target does not end the note.
   */
  lemma MoveCardIsExact(
      lines: Lines, text: string, source: string, target: string, done: Option<bool>, space: Space)
    requires Spaces(space) && Name(source) && Name(target) && Trimmed(text, space)
    ensures var wanted := MoveInColumns(Parse(lines, space).columns, text, source, target, done);
            Agree(MoveCard(lines, text, source, target, done), wanted, space)
            <==> Moves(lines, text, source, target, space)
  {
    hide Parse, CardOf, IsCard, Name, Trimmed, DropLine, FindHeading, Parsed, Locate, MoveInColumns, HasRoom, Twins,
      AddToFirst, FirstNamed, CardMatches;
    WantedOfMove(lines, text, source, target, done, space);
    var found, parsed := Locate(lines, source, text), Parsed(lines, source, text, space);
    ParsedNeedsRoom(lines, source, text, space);
    if found.Some? {
      hide MoveCard;
      LocateIsExact(lines, source, text, space);
      MoveLeaves(lines, text, source, target, done, space);
      if HasRoom(lines, source) && FindHeading(lines, target).Some? {
        StrayAfterParsed(lines, source, text, space);
        if HasRoom(lines, target) {
          TwinsDecideMove(lines, parsed.value, found.value, text, target, done, space);
        } else {
          var card := Card(text, if done.Some? then done.value else CardOf(lines[parsed.value], space).done);
          NoRoomLosesCard(lines, parsed.value, found.value, text, target, card, space);
        }
      }
    }
  }

  lemma ParsedNeedsRoom(lines: Lines, column: string, text: string, space: Space)
    ensures Parsed(lines, column, text, space).Some? ==> HasRoom(lines, column)
  {
  }

  lemma StrayAfterParsed(lines: Lines, column: string, text: string, space: Space)
    requires Name(column) && Parsed(lines, column, text, space).Some?
    ensures Parse(DropLine(lines, Parsed(lines, column, text, space).value), space).stray == Parse(lines, space).stray
  {
    hide Parse, DropLine, Parsed, Holds, FirstText, Name;
    ParsedIsExact(lines, column, text, space);
  }

  /**
   * A move that succeeds loses no card line. The parsed board keeps its card texts exactly when the two
   * headings are alike in ending the note or not: it loses the card when only the target's does, and gains
   * one from above the columns when only the source's does.
   */
  lemma MoveConserves(lines: Lines, text: string, source: string, target: string, done: Option<bool>, space: Space)
    requires Spaces(space) && Name(source) && Name(target) && Trimmed(text, space)
    requires MoveCard(lines, text, source, target, done).Ok? && Locate(lines, source, text).Some?
    ensures var board, moved := Parse(lines, space), Parse(MoveCard(lines, text, source, target, done).value.0, space);
            var before, after := Texts(board.columns), Texts(moved.columns);
            && TextsOf(moved.stray) + after == TextsOf(board.stray) + before
            && (after == before <==> (HasRoom(lines, source) <==> HasRoom(lines, target)))
            && (HasRoom(lines, source) && !HasRoom(lines, target) ==> after + multiset{text} == before)
            && (!HasRoom(lines, source) && HasRoom(lines, target) ==> after == before + multiset{text})
  {
    hide MoveCard, HasRoom, Parse, Texts, TextsOf, AddToFirst, Trimmed, Name, FirstNamed, IsCard, CardOf, DropLine,
      Locate, CardMatches, Parsed, Twins, FindHeading;
    var i := Locate(lines, source, text).value;
    LocateIsExact(lines, source, text, space);
    MoveLeaves(lines, text, source, target, done, space);
    TextsAfterDrop(lines, i, space);
    CardIsNoColumn(lines[i], text, target);
    var board, without := Parse(lines, space), Parse(DropLine(lines, i), space);
    var card := Card(text, if done.Some? then done.value else lines[i][3] != ' ');
    TextsAfterAdding(without.columns, target, card);
    TextsOfMore(card, without.stray);
    if HasRoom(lines, source) {
      SameAbove(TextsOf(board.stray), Texts(without.columns) + multiset{text}, Texts(board.columns));
    }
  }

  lemma SameAbove(above: multiset<string>, a: multiset<string>, b: multiset<string>)
    requires above + a == above + b
    ensures a == b
  {
    forall s ensures a[s] == b[s] {
      assert (above + a)[s] == above[s] + a[s] && (above + b)[s] == above[s] + b[s];
    }
  }

  // ---------------------------------------------------------------------------------------
  // Tidy boards

  /** A card line is a box, the trimmed text, and blanks. */
  predicate Tidy(line: string, space: Space) {
    IsCard(line) ==> Trimmed(DropBlanks(line[6..]), space)
  }

  /** On a tidy line the anchored pattern finds the card exactly when its parsed text is the one sought. */
  lemma MatchIsText(line: string, text: string, space: Space)
    requires Spaces(space) && Tidy(line, space) && Trimmed(text, space)
    ensures CardMatches(line, text) <==> Carries(line, text, space)
  {
    if IsBox(line) {
      TextThenBlanksMeaning(line[6..], text);
      if IsCard(line) {
        var rest := line[6..];
        assert rest[0] == DropBlanks(rest)[0];
        TrimRightIsDrop(rest, space);
      }
    }
  }

  /** A line that ends a section though it is no heading. */
  predicate Bare(line: string) {
    line == "## "
  }

  /** A bare line stands between the heading of the column and the card that parsing finds in it. */
  predicate CutOff(lines: Lines, column: string, text: string, space: Space) {
    var parsed := Parsed(lines, column, text, space);
    parsed.Some? && exists k :: FindHeading(lines, column).value < k < parsed.value && Bare(lines[k])
  }

  /** On a board of tidy lines the search finds what parsing finds, unless a bare line cuts that off. */
  lemma LocateOnTidyBoard(lines: Lines, column: string, text: string, space: Space)
    requires Spaces(space) && Name(column) && Trimmed(text, space) && HasRoom(lines, column)
    requires forall i :: 0 <= i < |lines| ==> Tidy(lines[i], space)
    ensures Locate(lines, column, text)
            == if CutOff(lines, column, text, space) then None else Parsed(lines, column, text, space)
  {
    hide Tidy, Carries, CardMatches, HeadingOf, Name, Trimmed, Parsed, Sheltered;
    var h := FindHeading(lines, column).value;
    forall i | 0 <= i < |lines| ensures CardMatches(lines[i], text) <==> Carries(lines[i], text, space) {
      MatchIsText(lines[i], text, space);
    }
    var found, parsed := Locate(lines, column, text), Parsed(lines, column, text, space);
    if found.Some? {
      FoundInColumn(lines, column, text, found.value, space);
    }
    if parsed.Some? {
      ParsedIsFirst(lines, column, text, space);
      SectionOfParsed(lines, column, text, space);
    }
  }

  /** The section of a column reaches down to the card that parsing finds, unless a bare line ends it above. */
  lemma SectionOfParsed(lines: Lines, column: string, text: string, space: Space)
    requires HasRoom(lines, column) && Parsed(lines, column, text, space).Some?
    ensures CutOff(lines, column, text, space) <==>
              SectionEnd(lines, FindHeading(lines, column).value + 1) <= Parsed(lines, column, text, space).value
  {
    hide Carries, Parsed, FindHeading;
    var h, p := FindHeading(lines, column).value, Parsed(lines, column, text, space).value;
    var end := SectionEnd(lines, h + 1);
    ParsedIsFirst(lines, column, text, space);
    CarriesStartsNoSection(lines[p], text, space);
    if end <= p {
      assert "## " <= lines[end] && end < p && !IsHeading(lines[end]);
      assert Bare(lines[end]);
    }
  }

  lemma CarriesStartsNoSection(line: string, text: string, space: Space)
    requires Carries(line, text, space)
    ensures !("## " <= line) && !IsHeading(line)
  {
    CardIsNoHeading(line);
  }

  lemma ParsedIsFirst(lines: Lines, column: string, text: string, space: Space)
    requires HasRoom(lines, column) && Parsed(lines, column, text, space).Some?
    ensures FirstIn(lines, FindHeading(lines, column).value + 1, Parsed(lines, column, text, space).value, text, space)
  {
    hide Carries, IsHeading;
    FirstCarryingMeaning(lines, FindHeading(lines, column).value + 1, text, space);
  }

  /** On a board of tidy lines a move works unless a bare line cuts the card off or a heading ends the note. */
  lemma MovesOnTidyBoard(lines: Lines, text: string, source: string, target: string, space: Space)
    requires Spaces(space) && Name(source) && Trimmed(text, space)
    requires forall i :: 0 <= i < |lines| ==> Tidy(lines[i], space)
    ensures Moves(lines, text, source, target, space) <==>
              && !CutOff(lines, source, text, space)
              && (Locate(lines, source, text).Some? ==>
                    HasRoom(lines, source) && (FindHeading(lines, target).Some? ==> HasRoom(lines, target)))
  {
    hide Tidy, Carries, CardMatches, Name, Trimmed, Parsed, Locate, CutOff, FindHeading, HasRoom, Twins, IsCard;
    ParsedNeedsRoom(lines, source, text, space);
    CutOffIsParsed(lines, source, text, space);
    if HasRoom(lines, source) {
      LocateOnTidyBoard(lines, source, text, space);
    }
    var found := Locate(lines, source, text);
    if found.Some? {
      MatchCarries(lines[found.value], text, space);
      CarriesIsCard(lines[found.value], text, space);
      TwinOfItself(lines, found.value, space);
    }
  }

  lemma CutOffIsParsed(lines: Lines, column: string, text: string, space: Space)
    ensures CutOff(lines, column, text, space) ==> Parsed(lines, column, text, space).Some?
  {
  }

  lemma CarriesIsCard(line: string, text: string, space: Space)
    requires Carries(line, text, space)
    ensures IsCard(line)
  {
  }
}
