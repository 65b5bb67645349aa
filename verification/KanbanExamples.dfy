/** Boards on which an edit of the lines does not do to the columns what was asked for. */
module KanbanExamples {
  import opened Text
  import opened Kanban
  import opened KanbanColumns
  import opened KanbanLines
  import opened KanbanRefinement
  import opened KanbanDeletion

  lemma TodoHeading()
    ensures IsHeading("## Todo") && HeadingName("## Todo") == "Todo" && HeadingOf("## Todo", "Todo")
    ensures !HeadingOf("## Todo", "Doing")
  {
    var heading := "## Todo";
    assert heading[3..] == "Todo" && DropBlanks("Todo") == "Todo";
    assert !("Doing" <= heading[3..]);
  }

  lemma DoingHeading()
    ensures IsHeading("## Doing") && HeadingName("## Doing") == "Doing" && HeadingOf("## Doing", "Doing")
    ensures !HeadingOf("## Doing", "Todo")
  {
    var heading := "## Doing";
    assert heading[3..] == "Doing" && DropBlanks("Doing") == "Doing";
    assert !("Todo" <= heading[3..]) by { assert "Doing"[0] != "Todo"[0]; }
  }

  lemma CallCard(space: Space)
    requires forall c :: space(c) <==> IsBlank(c)
    ensures IsCard("- [ ] call") && !("## " <= "- [ ] call") && !IsHeading("- [ ] call") && "- [ ] call"[3] == ' '
    ensures CardMatches("- [ ] call", "call") && Tidy("- [ ] call", space)
    ensures CardOf("- [ ] call", space) == Card("call", false) && CardLine(Card("call", false)) == "- [ ] call"
  {
    hide Trim;
    var line := "- [ ] call";
    assert line[6..] == "call" && line[..3] == "- [" && line[4..6] == "] ";
    assert line[0] != "## "[0];
    assert DropBlanks("call") == "call";
    assert TextThenBlanks("call", "call");
    TrimOfTrimmed("call", space);
  }

  lemma StrayBoard()
    ensures var lines := ["- [ ] call", "## Doing", "", "## Todo"];
            FindHeading(lines, "Todo") == Some(3) && Locate(lines, "Todo", "call") == Some(0)
  {
    hide HeadingName, HeadingOf, IsHeading, CardMatches, CardLine, CardOf, IsCard, IsBox;
    TodoHeading();
    DoingHeading();
    CallCard(IsBlank);
    var lines := ["- [ ] call", "## Doing", "", "## Todo"];
    NoHeadingInEmpty("Todo");
    CardIsNoColumn("- [ ] call", "call", "Todo");
    FindIsAt(lines, "Todo", 3);
    assert SectionEnd(lines, 1) == 1 == SectionEnd(lines, 0);
  }

  /**
   * A move out of an empty column whose heading ends the note finds a card above all columns, and says
   * that it has moved it.
   */
  lemma MovingHitsStray(space: Space)
    requires forall c :: space(c) <==> IsBlank(c)
    ensures var lines := ["- [ ] call", "## Doing", "", "## Todo"];
            && !Holds(Parse(lines, space).columns, "Todo", "call")
            && MoveCard(lines, "call", "Todo", "Doing", None) == Ok((["## Doing", "- [ ] call", "", "## Todo"], true))
  {
    hide HeadingName, HeadingOf, IsHeading, CardMatches, CardLine, CardOf, Parse, IsCard, IsBox, Locate,
      Holds;
    DoingHeading();
    CallCard(space);
    StrayBoard();
    var lines, without := ["- [ ] call", "## Doing", "", "## Todo"], ["## Doing", "", "## Todo"];
    assert DropLine(lines, 0) == without && FindHeading(without, "Doing") == Some(0);
    assert InsertLine(without, 1, "- [ ] call") == ["## Doing", "- [ ] call", "", "## Todo"];
    NeverHeld(lines, space);
  }

  lemma NeverHeld(lines: Lines, space: Space)
    requires FindHeading(lines, "Todo") == Some(|lines| - 1)
    ensures !Holds(Parse(lines, space).columns, "Todo", "call")
  {
    hide Holds, Parse, Parsed;
    ParsedNeedsRoom(lines, "Todo", "call", space);
    ParsedIsExact(lines, "Todo", "call", space);
  }

  lemma {:induction false} FindIsAt(lines: Lines, column: string, h: nat)
    requires h < |lines| && HeadingOf(lines[h], column) && forall i :: 0 <= i < h ==> !HeadingOf(lines[i], column)
    ensures FindHeading(lines, column) == Some(h)
  {
    hide HeadingOf;
    if h > 0 {
      FindIsAt(lines[1..], column, h - 1);
    }
  }

  /** A move to a column whose heading ends the note takes the card off the parsed board. */
  lemma MovingLosesCard(space: Space)
    requires forall c :: space(c) <==> IsBlank(c)
    ensures var lines := ["## Todo", "- [ ] call", "## Doing"];
            var moved := ["- [ ] call", "## Todo", "## Doing"];
            && MoveCard(lines, "call", "Todo", "Doing", None) == Ok((moved, true))
            && "call" in Texts(Parse(lines, space).columns) && "call" !in Texts(Parse(moved, space).columns)
  {
    hide HeadingName, HeadingOf, IsHeading, CardMatches, CardLine, CardOf, Parse, IsCard, Tidy;
    TodoHeading();
    DoingHeading();
    CallCard(space);
    var lines := ["## Todo", "- [ ] call", "## Doing"];
    assert FindHeading(lines, "Todo") == Some(0);
    assert SectionEnd(lines, 2) == 2 == SectionEnd(lines, 1);
    assert Locate(lines, "Todo", "call") == Some(1);
    var without := ["## Todo", "## Doing"];
    assert DropLine(lines, 1) == without;
    assert FindHeading(without, "Doing") == Some(1) by { FindIsAt(without, "Doing", 1); }
    assert InsertLine(without, 0, "- [ ] call") == ["- [ ] call", "## Todo", "## Doing"];
    TextsOfLoss(space);
  }

  lemma NoBoxes()
    ensures !IsBox("## Todo") && !IsBox("## Doing") && !IsBox("## ")
  {
    assert "## Todo"[..3][0] != "- ["[0] && "## Doing"[..3][0] != "- ["[0];
  }

  lemma TextsOfLoss(space: Space)
    requires forall c :: space(c) <==> IsBlank(c)
    ensures Texts(Parse(["## Todo", "- [ ] call", "## Doing"], space).columns) == multiset{"call"}
    ensures Texts(Parse(["- [ ] call", "## Todo", "## Doing"], space).columns) == multiset{}
  {
    hide HeadingName, HeadingOf, IsHeading, CardOf, IsCard, IsBox, Texts;
    TodoHeading();
    DoingHeading();
    CallCard(space);
    var doing, todo := ["## Doing"], ["- [ ] call", "## Doing"];
    var lines, moved, both := ["## Todo"] + todo, ["- [ ] call", "## Todo", "## Doing"], ["## Todo", "## Doing"];
    assert doing[1..] == [] && todo[1..] == doing && lines[1..] == todo && both[1..] == doing && moved[1..] == both;
    assert Parse(doing, space) == Board([], [Column("Doing", [])]);
    assert Parse(todo, space) == Board([Card("call", false)], [Column("Doing", [])]);
    assert Parse(lines, space).columns == [Column("Todo", [Card("call", false)]), Column("Doing", [])];
    assert Parse(both, space).columns == [Column("Todo", []), Column("Doing", [])] == Parse(moved, space).columns;
    assert lines == ["## Todo", "- [ ] call", "## Doing"];
    TextsOfTwo([Card("call", false)]);
    TextsOfTwo([]);
    assert [Card("call", false)][1..] == [];
  }

  lemma TextsOfTwo(cards: seq<Card>)
    ensures Texts([Column("Todo", cards), Column("Doing", [])]) == TextsOf(cards)
  {
    var columns := [Column("Todo", cards), Column("Doing", [])];
    var last := [Column("Doing", [])];
    assert columns[1..] == last && last[1..] == [];
    assert Texts(last) == multiset{} && Texts(columns) == TextsOf(cards) + Texts(last);
  }

  /** A board that is one heading, with no newline behind it, gets the card above that heading. */
  lemma AddingMissesLastHeading(card: Card, space: Space)
    requires Trimmed(card.text, space)
    ensures AddCard(["## Todo"], "Todo", card) == Ok([CardLine(card), "## Todo"])
    ensures Parse(["## Todo"], space) == Board([], [Column("Todo", [])])
    ensures Parse([CardLine(card), "## Todo"], space) == Board([card], [Column("Todo", [])])
  {
    hide Trim, CardOf, CardLine;
    var heading := "## Todo";
    assert IsHeading(heading) && heading[3..] == "Todo" && HeadingOf(heading, "Todo");
    assert HeadingName(heading) == "Todo" by { assert DropBlanks("Todo") == "Todo"; }
    CardLineParses(card, space);
    var edited := [CardLine(card), heading];
    assert InsertLine([heading], 0, CardLine(card)) == edited;
    assert edited[1..] == [heading] && [heading][1..] == [];
  }

  /** Deleting "call" from a column whose only card is "call Bob" leaves a line "Bob" and no card. */
  lemma DeletingOvershoots()
    ensures var lines := ["## Todo", "- [ ] call Bob"];
            && !HitsStray(lines, "call", Some("Todo")) && Overshoots(lines, "call", Some("Todo"))
            && DeleteCard(lines, "call", Some("Todo")) == (["## Todo", "Bob"], true)
  {
    var lines := ["## Todo", "- [ ] call Bob"];
    assert IsHeading(lines[0]);
    var heading := lines[0];
    assert heading[3..] == "Todo" && HeadingOf(heading, "Todo");
    var line := lines[1];
    assert line[6..] == "call Bob" && line[6..][4..] == " Bob" && " Bob"[1..] == "Bob" && line[..3] == "- [";
    assert !Blank(" Bob") by { assert !IsBlank(" Bob"[1]); }
    assert CardStartsWith(line, "call") && line[4..6] == "] ";
    assert FindPrefix(lines, "call", 1, 2) == Some(1);
    assert !("## " <= line) by { assert line[0] != "## "[0]; }
    assert SectionEnd(lines, 2) == 2 == SectionEnd(lines, 1);
    assert lines[1 := "Bob"] == ["## Todo", "Bob"];
  }

  /** Deleting "call" from anywhere hits a card above all columns, and says that it has deleted it. */
  lemma DeletingHitsStray(space: Space)
    requires forall c :: space(c) <==> IsBlank(c)
    ensures var lines := ["- [ ] call", "## Todo"];
            && HitsStray(lines, "call", None) && DeleteCard(lines, "call", None) == (["## Todo"], true)
            && !HoldsAnywhere(Parse(lines, space).columns, "call")
  {
    hide HeadingName, IsHeading, CardMatches, CardOf, IsCard, IsBox;
    TodoHeading();
    CallCard(space);
    var lines := ["- [ ] call", "## Todo"];
    MatchStartsWith(lines[0], "call");
    NothingLeftIsMatch(lines[0], "call");
    assert LocatePrefix(lines, "call", None) == Some(0);
    assert DropLine(lines, 0) == lines[1..];
    assert lines[1..] == ["## Todo"] && ["## Todo"][1..] == [];
    assert Parse(lines, space).columns == Parse(["## Todo"], space).columns == [Column("Todo", [])];
    assert [Column("Todo", [])][1..] == [];
  }

  lemma TodoHolds(line: string, space: Space)
    requires Carries(line, "call", space)
    ensures Parsed(["## Todo", line], "Todo", "call", space) == Some(1)
    ensures Parsed(["## Todo", "## ", line], "Todo", "call", space) == Some(2)
  {
    hide HeadingName, HeadingOf, Carries, IsCard, CardOf;
    TodoHeading();
    CarriesStartsNoSection(line, "call", space);
    BareIsNothing("call", space);
    assert FindHeading(["## Todo", line], "Todo") == Some(0) == FindHeading(["## Todo", "## ", line], "Todo");
    assert FirstCarrying(["## Todo", "## ", line], 2, "call", space) == Some(2);
  }

  lemma BareIsNothing(text: string, space: Space)
    ensures !IsHeading("## ") && !Carries("## ", text, space)
  {
    NoBoxes();
  }

  /**
   * A line of two hashes and a blank is no heading, yet the search ends there: a card below it is on the
   * parsed board, and no edit finds it in its column.
   */
  lemma BareLineCutsOff(space: Space)
    requires forall c :: space(c) <==> IsBlank(c)
    ensures var lines := ["## Todo", "## ", "- [ ] call"];
            && (forall i :: 0 <= i < 3 ==> Tidy(lines[i], space)) && CutOff(lines, "Todo", "call", space)
            && Holds(Parse(lines, space).columns, "Todo", "call")
            && MoveCard(lines, "call", "Todo", "Todo", None) == Ok((lines, false))
            && DeleteCard(lines, "call", Some("Todo")) == (lines, false)
  {
    hide HeadingName, HeadingOf, IsHeading, CardMatches, CardStartsWith, CardOf, IsCard, IsBox, Parse, Holds, Parsed;
    TodoHeading();
    CallCard(space);
    NoBoxes();
    TodoHolds("- [ ] call", space);
    var lines := ["## Todo", "## ", "- [ ] call"];
    TidyHeadings(space);
    ParsedIsExact(lines, "Todo", "call", space);
    assert FindHeading(lines, "Todo") == Some(0) && SectionEnd(lines, 1) == 1;
    assert Bare(lines[1]);
  }

  lemma TidyHeadings(space: Space)
    ensures Tidy("## Todo", space) && Tidy("## ", space)
  {
    NoBoxes();
  }

  /** A card with two blanks before its text is parsed without them, and no edit finds it. */
  lemma UntidyCardIsMissed(space: Space)
    requires forall c :: space(c) <==> IsBlank(c)
    ensures var lines := ["## Todo", "- [ ]  call"];
            && Holds(Parse(lines, space).columns, "Todo", "call")
            && MoveCard(lines, "call", "Todo", "Todo", None) == Ok((lines, false))
            && DeleteCard(lines, "call", Some("Todo")) == (lines, false)
  {
    hide HeadingName, HeadingOf, IsHeading, CardMatches, CardStartsWith, CardOf, IsCard, Parse, Holds, Parsed, Carries;
    TodoHeading();
    UntidyCard(space);
    var lines := ["## Todo", "- [ ]  call"];
    TodoHolds("- [ ]  call", space);
    ParsedIsExact(lines, "Todo", "call", space);
    assert FindHeading(lines, "Todo") == Some(0) && SectionEnd(lines, 2) == 2 == SectionEnd(lines, 1);
  }

  lemma UntidyCard(space: Space)
    requires forall c :: space(c) <==> IsBlank(c)
    ensures var line := "- [ ]  call";
            && Carries(line, "call", space) && !CardStartsWith(line, "call") && !CardMatches(line, "call")
            && !("## " <= line)
  {
    hide Trim;
    var line := "- [ ]  call";
    assert line[6..] == " call" && line[..3] == "- [" && line[4..6] == "] ";
    assert " call"[0] != "call"[0] && line[0] != "## "[0];
    assert Trimmed("call", space);
    TrimOfOneMore(' ', "call", space);
    assert [' '] + "call" == " call";
  }

  lemma TrimOfOneMore(c: char, text: string, space: Space)
    requires space(c) && Trimmed(text, space)
    ensures Trim([c] + text, space) == text
  {
    assert ([c] + text)[1..] == text;
    TrimOfTrimmed(text, space);
  }

  /** A cross of either case ticks the card, and blanks and tabs behind the text are no part of it. */
  lemma TicksAndBlanks(space: Space)
    requires forall c :: space(c) <==> IsBlank(c)
    ensures forall line :: line in {"- [x] call", "- [X] call", "- [X] call \t"} ==>
              CardMatches(line, "call") && IsCard(line) && CardOf(line, space) == Card("call", true)
  {
    hide DropBlanks, Trim;
    TickedCard("x", "", space);
    TickedCard("X", "", space);
    TickedCard("X", " \t", space);
    assert "- [" + "x" + "] call" + "" == "- [x] call" && "- [" + "X" + "] call" + "" == "- [X] call";
    assert "- [" + "X" + "] call" + " \t" == "- [X] call \t";
  }

  lemma TickedCard(cross: string, behind: string, space: Space)
    requires cross in {"x", "X"} && behind in {"", " \t"} && forall c :: space(c) <==> IsBlank(c)
    ensures var line := "- [" + cross + "] call" + behind;
            CardMatches(line, "call") && IsCard(line) && CardOf(line, space) == Card("call", true)
  {
    hide Trim;
    var line := "- [" + cross + "] call" + behind;
    assert line[..3] == "- [" && line[3] == cross[0] && line[4..6] == "] " && line[6..] == "call" + behind;
    assert ("call" + behind)[4..] == behind;
    assert Trimmed("call", space);
    MatchCarries(line, "call", space);
  }
}
