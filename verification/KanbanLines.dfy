/**
 * A board parsed line by line: what one line more or less does to the columns, and to the cards that stand
 * above all of them (src/obsidian_mcp/tools/kanban.py:229-260).
 */
module KanbanLines {
  import opened Text
  import opened Kanban
  import opened KanbanColumns

  lemma CardIsNoHeading(line: string)
    ensures !(IsCard(line) && IsHeading(line))
    ensures IsBox(line) ==> !("## " <= line)
  {
    if IsBox(line) {
      assert line[0] == line[..3][0] == '-';
    }
  }

  lemma OnTopDecides(line: string, a: Board, b: Board, space: Space)
    ensures OnTop(line, a, space) == OnTop(line, b, space) <==> a == b
  {
    var x, y := OnTop(line, a, space), OnTop(line, b, space);
    if x == y {
      if IsHeading(line) {
        assert x.columns[0].cards == a.stray && y.columns[0].cards == b.stray;
        assert x.columns[1..] == a.columns && y.columns[1..] == b.columns;
      } else if IsCard(line) {
        assert x.stray[1..] == a.stray && y.stray[1..] == b.stray;
      }
    }
  }

  /** What `str.strip` removes: blanks and tabs, but neither hashes nor dashes. */
  predicate Spaces(space: Space) {
    space(' ') && space('\t') && !space('#') && !space('-')
  }

  /** A column name as a heading can carry it. */
  predicate Name(column: string) {
    column != "" && !IsBlank(column[|column| - 1])
  }

  lemma NameOfHeading(line: string, column: string)
    requires Name(column)
    ensures HeadingOf(line, column) <==> IsHeading(line) && HeadingName(line) == column
  {
    if "## " <= line {
      TextThenBlanksMeaning(line[3..], column);
    }
  }

  /** The line is parsed to a card with this text. */
  predicate Carries(line: string, text: string, space: Space) {
    IsCard(line) && CardOf(line, space).text == text
  }

  // ---------------------------------------------------------------------------------------
  // One line more

  lemma TrimOfTrimmed(text: string, space: Space)
    requires Trimmed(text, space)
    ensures Trim(text, space) == text
  {
    assert TrimLeft(text, space) == text;
  }

  lemma CardLineParses(card: Card, space: Space)
    requires Trimmed(card.text, space)
    ensures IsCard(CardLine(card)) && !IsHeading(CardLine(card)) && CardOf(CardLine(card), space) == card
  {
    hide Trim;
    var line := CardLine(card);
    assert line[6..] == card.text && line[0] == '-';
    TrimOfTrimmed(card.text, space);
  }

  /** A card inserted right below the heading of a column becomes its first card. */
  lemma {:induction false} InsertRefines(lines: Lines, column: string, card: Card, space: Space)
    requires Name(column) && Trimmed(card.text, space) && FindHeading(lines, column).Some?
    ensures var board := Parse(lines, space);
            Parse(InsertLine(lines, FindHeading(lines, column).value + 1, CardLine(card)), space)
            == Board(board.stray, AddToFirst(board.columns, column, card))
  {
    hide HeadingName, CardLine, CardOf, HeadingOf, IsHeading, IsCard, Name, Trimmed;
    var line := CardLine(card);
    CardLineParses(card, space);
    NameOfHeading(lines[0], column);
    var h := FindHeading(lines, column).value;
    var edited := InsertLine(lines, h + 1, line);
    assert edited[0] == lines[0];
    if h == 0 {
      assert edited[1..] == [line] + lines[1..] && ([line] + lines[1..])[1..] == lines[1..];
    } else {
      assert edited[1..] == InsertLine(lines[1..], h, line);
      InsertRefines(lines[1..], column, card, space);
    }
  }

  lemma InsertOnTop(lines: Lines, card: Card, space: Space)
    requires Trimmed(card.text, space)
    ensures var board := Parse(lines, space);
            Parse(InsertLine(lines, 0, CardLine(card)), space) == Board([card] + board.stray, board.columns)
  {
    hide CardLine, IsCard, IsHeading, CardOf, HeadingName, Trimmed;
    CardLineParses(card, space);
    var edited := InsertLine(lines, 0, CardLine(card));
    assert edited == [CardLine(card)] + lines && edited[1..] == lines;
  }

  lemma {:induction false} ColumnAtHeading(lines: Lines, column: string, space: Space)
    requires Name(column)
    ensures FirstNamed(Parse(lines, space).columns, column)
            == match FindHeading(lines, column)
               case None => None
               case Some(h) => Some(Column(column, Parse(lines[h + 1..], space).stray))
  {
    hide HeadingName, HeadingOf, IsHeading, IsCard, CardOf, Name;
    if lines != [] {
      NameOfHeading(lines[0], column);
      ColumnAtHeading(lines[1..], column, space);
      var later := FindHeading(lines[1..], column);
      if later.Some? {
        assert lines[1..][later.value + 1..] == lines[later.value + 2..];
      }
    }
  }

  // ---------------------------------------------------------------------------------------
  // One line less

  lemma EmptyLineIsNothing(space: Space)
    ensures Parse([""], space) == NOTHING && !IsCard("")
  {
    assert [""][1..] == [];
  }

  lemma DropOfTail(lines: Lines, i: nat)
    requires 0 < i < |lines|
    ensures DropLine(lines, i) != [] && DropLine(lines, i)[0] == lines[0]
    ensures DropLine(lines, i)[1..] == DropLine(lines[1..], i - 1)
  {
    if i + 1 == |lines| {
      assert lines[1..][..i - 1] == lines[1..i];
    }
  }

  lemma ParseOfDrop(lines: Lines, i: nat, space: Space)
    requires i < |lines|
    ensures Parse(DropLine(lines, i), space)
            == if i == 0 then Parse(lines[1..], space)
               else OnTop(lines[0], Parse(DropLine(lines[1..], i - 1), space), space)
  {
    hide OnTop;
    if i > 0 {
      DropOfTail(lines, i);
    } else {
      EmptyLineIsNothing(space);
      assert DropLine(lines, 0) == if |lines| == 1 then [""] else lines[1..];
    }
  }

  /** Some heading stands above the line. */
  predicate Sheltered(lines: Lines, i: nat)
    requires i <= |lines|
  {
    exists j :: 0 <= j < i && IsHeading(lines[j])
  }

  lemma ShelteredBelow(lines: Lines, i: nat)
    requires 0 < i <= |lines|
    ensures Sheltered(lines, i) <==> IsHeading(lines[0]) || Sheltered(lines[1..], i - 1)
  {
    hide IsHeading;
    if Sheltered(lines, i) && !IsHeading(lines[0]) {
      var j :| 0 <= j < i && IsHeading(lines[j]);
      assert lines[1..][j - 1] == lines[j];
    }
    if Sheltered(lines[1..], i - 1) {
      var j :| 0 <= j < i - 1 && IsHeading(lines[1..][j]);
      assert lines[j + 1] == lines[1..][j];
    }
  }

  /** A line taken out changes the columns only below a heading, and the cards above them only elsewhere. */
  lemma {:induction false} DropStaysInPlace(lines: Lines, i: nat, space: Space)
    requires i < |lines| && !IsHeading(lines[i])
    ensures Sheltered(lines, i) ==> Parse(DropLine(lines, i), space).stray == Parse(lines, space).stray
    ensures !Sheltered(lines, i) ==> Parse(DropLine(lines, i), space).columns == Parse(lines, space).columns
  {
    hide IsHeading, IsCard, CardOf, HeadingName, Sheltered;
    ParseOfDrop(lines, i, space);
    if i == 0 {
      NotShelteredAtTop(lines);
    } else {
      ShelteredBelow(lines, i);
      DropStaysInPlace(lines[1..], i - 1, space);
    }
  }

  lemma NotShelteredAtTop(lines: Lines)
    ensures !Sheltered(lines, 0)
  {
  }

  /** A line that is neither heading nor card counts for nothing. */
  lemma {:induction false} ReplaceIsDrop(lines: Lines, i: nat, line: string, space: Space)
    requires i < |lines| && !IsHeading(line) && !IsCard(line)
    ensures Parse(lines[i := line], space) == Parse(DropLine(lines, i), space)
  {
    hide IsHeading, IsCard, CardOf, HeadingName;
    var edited := lines[i := line];
    ParseOfDrop(lines, i, space);
    if i == 0 {
      assert edited[1..] == lines[1..];
    } else {
      assert edited[0] == lines[0] && edited[1..] == lines[1..][i - 1 := line];
      ReplaceIsDrop(lines[1..], i - 1, line, space);
    }
  }

  /** Between the two lines there is no heading and no other card. */
  predicate Twins(lines: Lines, p: nat, i: nat, space: Space)
    requires p <= i < |lines| && IsCard(lines[i])
  {
    forall k :: p <= k <= i ==>
      !IsHeading(lines[k]) && (IsCard(lines[k]) ==> CardOf(lines[k], space) == CardOf(lines[i], space))
  }

  lemma TwinsBelow(lines: Lines, p: nat, i: nat, space: Space)
    requires 0 < p <= i < |lines| && IsCard(lines[i])
    ensures Twins(lines, p, i, space) <==> Twins(lines[1..], p - 1, i - 1, space)
  {
    hide IsHeading, IsCard, CardOf;
    var rest := lines[1..];
    assert forall k :: p <= k <= i ==> rest[k - 1] == lines[k];
    if Twins(rest, p - 1, i - 1, space) {
      forall k | p <= k <= i
        ensures !IsHeading(lines[k]) && (IsCard(lines[k]) ==> CardOf(lines[k], space) == CardOf(lines[i], space))
      {
        assert rest[k - 1] == lines[k];
      }
    }
    if Twins(lines, p, i, space) {
      assert forall k :: p - 1 <= k <= i - 1 ==> rest[k] == lines[k + 1];
    }
  }

  /** It does not matter which of two card lines is taken out exactly when they are twins. */
  lemma {:induction false} DropTwins(lines: Lines, p: nat, i: nat, space: Space)
    requires p <= i < |lines| && IsCard(lines[p]) && IsCard(lines[i])
    ensures Parse(DropLine(lines, p), space) == Parse(DropLine(lines, i), space) <==> Twins(lines, p, i, space)
    decreases |lines|
  {
    hide IsHeading, IsCard, CardOf, HeadingName, Twins, Parse, OnTop, DropLine;
    if p > 0 {
      ParseOfDrop(lines, p, space);
      ParseOfDrop(lines, i, space);
      OnTopDecides(
        lines[0], Parse(DropLine(lines[1..], p - 1), space), Parse(DropLine(lines[1..], i - 1), space), space);
      TwinsBelow(lines, p, i, space);
      DropTwins(lines[1..], p - 1, i - 1, space);
    } else if i == 0 {
      TwinOfItself(lines, i, space);
    } else {
      DropTopTwin(lines, i, space);
    }
  }

  lemma TwinOfItself(lines: Lines, i: nat, space: Space)
    requires i < |lines| && IsCard(lines[i])
    ensures Twins(lines, i, i, space)
  {
    CardIsNoHeading(lines[i]);
  }

  /** With the first card on line 0: the line below it decides, or is skipped. */
  lemma {:induction false} DropTopTwin(lines: Lines, i: nat, space: Space)
    requires 0 < i < |lines| && IsCard(lines[0]) && IsCard(lines[i])
    ensures Parse(lines[1..], space) == Parse(DropLine(lines, i), space) <==> Twins(lines, 0, i, space)
    ensures Parse(DropLine(lines, 0), space) == Parse(lines[1..], space)
    decreases |lines|
  {
    hide IsHeading, IsCard, CardOf, HeadingName, Twins, DropLine;
    var rest := lines[1..];
    var next, below := lines[1], lines[2..];
    assert rest[0] == next && rest[1..] == below;
    CardIsNoHeading(lines[0]);
    CardIsNoHeading(next);
    ParseOfDrop(lines, 0, space);
    ParseOfDrop(lines, i, space);
    ParseOfDrop(rest, i - 1, space);
    if i == 1 {
      TwinsOfTwo(lines, space);
      OnTopOfCards(lines[0], next, Parse(below, space), Parse(below, space), space);
    } else if IsHeading(next) {
      HeadingPartsTwins(lines, i, space);
    } else if IsCard(next) {
      DropTopTwin(rest, i - 1, space);
      TwinsStep(lines, i, space);
      OnTopOfCards(lines[0], next, Parse(DropLine(rest, i - 1), space), Parse(below, space), space);
    } else {
      var shorter := [lines[0]] + below;
      assert shorter[1..] == below && shorter[i - 1] == lines[i];
      DropTopTwin(shorter, i - 1, space);
      ParseOfDrop(shorter, i - 1, space);
      TwinsSkip(lines, i, space);
    }
  }

  /** Two card lines, each on top of what may be the other's. */
  lemma OnTopOfCards(a: string, b: string, x: Board, y: Board, space: Space)
    requires IsCard(a) && IsCard(b)
    ensures OnTop(b, y, space) == OnTop(a, x, space) <==>
              CardOf(a, space) == CardOf(b, space) && x == y
  {
    hide CardOf, IsCard, IsHeading;
    CardIsNoHeading(a);
    CardIsNoHeading(b);
    var u, v := OnTop(b, y, space), OnTop(a, x, space);
    if u == v {
      assert u.stray[0] == CardOf(b, space) && v.stray[0] == CardOf(a, space);
      assert u.stray[1..] == y.stray && v.stray[1..] == x.stray;
    }
  }

  lemma TwinsOfTwo(lines: Lines, space: Space)
    requires |lines| > 1 && IsCard(lines[0]) && IsCard(lines[1])
    ensures Twins(lines, 0, 1, space) <==> CardOf(lines[0], space) == CardOf(lines[1], space)
  {
    hide CardOf, IsCard, IsHeading;
    CardIsNoHeading(lines[0]);
    CardIsNoHeading(lines[1]);
  }

  lemma HeadingPartsTwins(lines: Lines, i: nat, space: Space)
    requires 1 < i < |lines| && IsCard(lines[i]) && IsHeading(lines[1])
    ensures !Twins(lines, 0, i, space)
  {
  }

  lemma TwinsStep(lines: Lines, i: nat, space: Space)
    requires 1 < i < |lines| && IsCard(lines[0]) && IsCard(lines[1]) && IsCard(lines[i])
    ensures Twins(lines, 0, i, space) <==>
              CardOf(lines[0], space) == CardOf(lines[1], space) && Twins(lines[1..], 0, i - 1, space)
  {
    hide CardOf, IsCard, IsHeading;
    CardIsNoHeading(lines[0]);
    var rest := lines[1..];
    assert forall k :: 0 <= k <= i - 1 ==> rest[k] == lines[k + 1];
    assert forall k :: 1 <= k <= i ==> lines[k] == rest[k - 1];
  }

  lemma TwinsSkip(lines: Lines, i: nat, space: Space)
    requires 1 < i < |lines| && IsCard(lines[0]) && IsCard(lines[i]) && !IsCard(lines[1]) && !IsHeading(lines[1])
    ensures Twins(lines, 0, i, space) <==> Twins([lines[0]] + lines[2..], 0, i - 1, space)
  {
    hide CardOf, IsCard, IsHeading;
    CardIsNoHeading(lines[0]);
    var shorter := [lines[0]] + lines[2..];
    if Twins(lines, 0, i, space) {
      forall k | 0 <= k <= i - 1
        ensures !IsHeading(shorter[k])
        ensures IsCard(shorter[k]) ==> CardOf(shorter[k], space) == CardOf(lines[i], space)
      {
        assert shorter[k] == if k == 0 then lines[0] else lines[k + 1];
      }
    }
    if Twins(shorter, 0, i - 1, space) {
      forall k | 0 <= k <= i
        ensures !IsHeading(lines[k])
        ensures IsCard(lines[k]) ==> CardOf(lines[k], space) == CardOf(lines[i], space)
      {
        assert k != 1 ==> lines[k] == shorter[if k == 0 then 0 else k - 1];
      }
    }
  }

  // ---------------------------------------------------------------------------------------
  // The first card with a text

  /** The first line at or after `from`, and above the next heading, that carries the text. */
  function FirstCarrying(lines: Lines, from: nat, text: string, space: Space): (r: Option<nat>)
    requires from <= |lines|
    ensures r.Some? ==> from <= r.value < |lines| && Carries(lines[r.value], text, space)
    decreases |lines| - from
  {
    if from == |lines| || IsHeading(lines[from]) then None
    else if Carries(lines[from], text, space) then Some(from)
    else FirstCarrying(lines, from + 1, text, space)
  }

  lemma {:induction false} FirstCarryingMeaning(lines: Lines, from: nat, text: string, space: Space)
    requires from <= |lines|
    ensures var r := FirstCarrying(lines, from, text, space);
            if r.Some? then FirstIn(lines, from, r.value, text, space) else NoneIn(lines, from, text, space)
    decreases |lines| - from
  {
    hide Carries, IsHeading;
    if from == |lines| || IsHeading(lines[from]) {
      assert NoneUntil(lines, from, from, text, space);
    } else if !Carries(lines[from], text, space) {
      FirstCarryingMeaning(lines, from + 1, text, space);
      if NoneIn(lines, from + 1, text, space) {
        var end: nat :| end <= |lines| && NoneUntil(lines, from + 1, end, text, space);
        assert NoneUntil(lines, from, end, text, space);
      }
    }
  }

  predicate FirstIn(lines: Lines, from: nat, p: nat, text: string, space: Space) {
    && from <= p < |lines| && Carries(lines[p], text, space)
    && forall k :: from <= k < p ==> !Carries(lines[k], text, space) && !IsHeading(lines[k])
  }

  predicate NoneUntil(lines: Lines, from: nat, end: nat, text: string, space: Space) {
    && from <= end <= |lines| && (end < |lines| ==> IsHeading(lines[end]))
    && forall k :: from <= k < end ==> !Carries(lines[k], text, space)
  }

  predicate NoneIn(lines: Lines, from: nat, text: string, space: Space) {
    exists end: nat :: end <= |lines| && NoneUntil(lines, from, end, text, space)
  }

  /** Dropping the first line that carries the text above the first heading. */
  lemma {:induction false} DropFirst(lines: Lines, i: nat, text: string, space: Space)
    requires FirstIn(lines, 0, i, text, space)
    ensures var board := Parse(lines, space);
            && Parse(DropLine(lines, i), space) == Board(Without(board.stray, text), board.columns)
            && HasText(board.stray, text) && FirstText(board.stray, text) == Some(CardOf(lines[i], space).done)
  {
    hide IsHeading, IsCard, CardOf, HeadingName, DropLine;
    CardIsNoHeading(lines[0]);
    ParseOfDrop(lines, i, space);
    var board, rest := Parse(lines, space), Parse(lines[1..], space);
    if i == 0 {
      assert board.stray[1..] == rest.stray;
    } else {
      var below := lines[1..];
      assert forall k :: 0 <= k < i ==> below[k] == lines[k + 1];
      DropFirst(below, i - 1, text, space);
      if IsCard(lines[0]) {
        assert board.stray[0] == CardOf(lines[0], space) && board.stray[1..] == rest.stray;
      }
    }
  }

  lemma {:induction false} NoneMeansNone(lines: Lines, text: string, space: Space)
    requires NoneIn(lines, 0, text, space)
    ensures !HasText(Parse(lines, space).stray, text)
  {
    hide IsHeading, IsCard, CardOf, HeadingName;
    if lines != [] && !IsHeading(lines[0]) {
      NoneInTail(lines, text, space);
      NoneMeansNone(lines[1..], text, space);
      var board, rest := Parse(lines, space), Parse(lines[1..], space);
      if IsCard(lines[0]) {
        assert board.stray[1..] == rest.stray;
      }
    }
  }

  lemma NoneInTail(lines: Lines, text: string, space: Space)
    requires lines != [] && !IsHeading(lines[0]) && NoneIn(lines, 0, text, space)
    ensures NoneIn(lines[1..], 0, text, space) && !Carries(lines[0], text, space)
  {
    hide IsHeading, Carries;
    var end: nat :| end <= |lines| && NoneUntil(lines, 0, end, text, space);
    assert NoneUntil(lines[1..], 0, end - 1, text, space);
  }

  /** Dropping the first such line below the heading of a column takes the card out of the column. */
  lemma {:induction false} DropRefines(lines: Lines, column: string, h: nat, i: nat, text: string, space: Space)
    requires Name(column) && FindHeading(lines, column) == Some(h) && FirstIn(lines, h + 1, i, text, space)
    ensures var board := Parse(lines, space);
            && Parse(DropLine(lines, i), space) == Board(board.stray, RemoveFromFirst(board.columns, column, text))
            && Holds(board.columns, column, text)
            && FirstText(FirstNamed(board.columns, column).value.cards, text) == Some(CardOf(lines[i], space).done)
  {
    hide HeadingName, HeadingOf, IsCard, IsHeading, CardOf, HasText, FirstText, DropLine, Without, Name;
    NameOfHeading(lines[0], column);
    ParseOfDrop(lines, i, space);
    var below := lines[1..];
    FirstInTail(lines, h + 1, i, text, space);
    if h == 0 {
      DropFirst(below, i - 1, text, space);
    } else {
      DropRefines(below, column, h - 1, i - 1, text, space);
    }
  }

  lemma FirstInTail(lines: Lines, from: nat, i: nat, text: string, space: Space)
    requires from > 0 && FirstIn(lines, from, i, text, space)
    ensures FirstIn(lines[1..], from - 1, i - 1, text, space)
  {
    hide IsHeading, Carries;
    assert forall k :: 0 <= k < i ==> lines[1..][k] == lines[k + 1];
  }

  lemma NoneBelowHeading(lines: Lines, column: string, h: nat, text: string, space: Space)
    requires Name(column) && FindHeading(lines, column) == Some(h) && NoneIn(lines, h + 1, text, space)
    ensures !Holds(Parse(lines, space).columns, column, text)
  {
    hide IsHeading, Carries, Name, HasText, Parse;
    ColumnAtHeading(lines, column, space);
    var below := lines[h + 1..];
    var end: nat :| end <= |lines| && NoneUntil(lines, h + 1, end, text, space);
    assert NoneUntil(below, 0, end - h - 1, text, space);
    NoneMeansNone(below, text, space);
  }

  /** Dropping the first such line below any heading takes the card out of whatever column has it first. */
  lemma {:induction false} DropAnywhere(lines: Lines, i: nat, text: string, space: Space)
    requires i < |lines| && Sheltered(lines, i) && Carries(lines[i], text, space)
    requires forall k :: 0 <= k < i && Sheltered(lines, k) ==> !Carries(lines[k], text, space)
    ensures var board := Parse(lines, space);
            && Parse(DropLine(lines, i), space) == Board(board.stray, RemoveAnywhere(board.columns, text))
            && HoldsAnywhere(board.columns, text)
  {
    hide IsHeading, IsCard, CardOf, HeadingName, DropLine, Without, HasText, Sheltered, FirstText;
    NotShelteredAtTop(lines);
    ParseOfDrop(lines, i, space);
    ShelteredBelow(lines, i);
    var below := lines[1..];
    forall k | 0 <= k < i - 1 && Sheltered(below, k) ensures !Carries(below[k], text, space) {
      ShelteredBelow(lines, k + 1);
      assert below[k] == lines[k + 1];
    }
    if IsHeading(lines[0]) {
      forall k | 0 <= k < i - 1 ensures !Carries(below[k], text, space) {
        ShelteredBelow(lines, k + 1);
        assert below[k] == lines[k + 1];
      }
      if Sheltered(below, i - 1) {
        EarlierHeading(below, i - 1, text, space);
        NoneMeansNone(below, text, space);
        DropAnywhere(below, i - 1, text, space);
      } else {
        NoEarlierHeading(below, i - 1, text, space);
        DropFirst(below, i - 1, text, space);
      }
    } else {
      DropAnywhere(below, i - 1, text, space);
    }
  }

  lemma EarlierHeading(lines: Lines, i: nat, text: string, space: Space)
    requires i <= |lines| && Sheltered(lines, i) && forall k :: 0 <= k < i ==> !Carries(lines[k], text, space)
    ensures NoneIn(lines, 0, text, space)
  {
    hide IsHeading, Carries;
    var j :| 0 <= j < i && IsHeading(lines[j]);
    assert NoneUntil(lines, 0, j, text, space);
  }

  lemma NoEarlierHeading(lines: Lines, i: nat, text: string, space: Space)
    requires i < |lines| && !Sheltered(lines, i) && Carries(lines[i], text, space)
    requires forall k :: 0 <= k < i ==> !Carries(lines[k], text, space)
    ensures FirstIn(lines, 0, i, text, space)
  {
    hide IsHeading, Carries;
  }

  lemma {:induction false} NoneAnywhere(lines: Lines, text: string, space: Space)
    requires forall k :: 0 <= k < |lines| && Sheltered(lines, k) ==> !Carries(lines[k], text, space)
    ensures !HoldsAnywhere(Parse(lines, space).columns, text)
  {
    hide IsHeading, IsCard, CardOf, HeadingName, Sheltered, HasText;
    if lines != [] {
      var below := lines[1..];
      forall k | 0 <= k < |below| && Sheltered(below, k) ensures !Carries(below[k], text, space) {
        ShelteredBelow(lines, k + 1);
        assert below[k] == lines[k + 1];
      }
      NoneAnywhere(below, text, space);
      if IsHeading(lines[0]) {
        forall k | 0 <= k < |below| ensures !Carries(below[k], text, space) {
          ShelteredBelow(lines, k + 1);
          assert below[k] == lines[k + 1];
        }
        assert NoneUntil(below, 0, |below|, text, space);
        NoneMeansNone(below, text, space);
      }
    }
  }

  // ---------------------------------------------------------------------------------------
  // The texts of a board are the texts of its card lines

  function LineTexts(line: string, space: Space): multiset<string> {
    if IsCard(line) then multiset{CardOf(line, space).text} else multiset{}
  }

  function CardTexts(lines: Lines, space: Space): multiset<string> {
    if lines == [] then multiset{} else LineTexts(lines[0], space) + CardTexts(lines[1..], space)
  }

  lemma {:induction false} TextsAreLines(lines: Lines, space: Space)
    ensures var board := Parse(lines, space);
            TextsOf(board.stray) + Texts(board.columns) == CardTexts(lines, space)
  {
    hide IsCard, IsHeading, HeadingName, CardOf;
    if lines != [] {
      CardIsNoHeading(lines[0]);
      TextsAreLines(lines[1..], space);
      var board, rest := Parse(lines, space), Parse(lines[1..], space);
      if IsHeading(lines[0]) {
        assert board.columns[1..] == rest.columns;
      } else if IsCard(lines[0]) {
        TextsOfMore(CardOf(lines[0], space), rest.stray);
      }
    }
  }

  lemma {:induction false} TextsAfterReplacing(lines: Lines, i: nat, line: string, space: Space)
    requires i < |lines|
    ensures CardTexts(lines[i := line], space) + LineTexts(lines[i], space)
            == CardTexts(lines, space) + LineTexts(line, space)
  {
    hide LineTexts;
    var edited := lines[i := line];
    if i == 0 {
      assert edited[1..] == lines[1..];
    } else {
      TextsAfterReplacing(lines[1..], i - 1, line, space);
      assert edited[0] == lines[0] && edited[1..] == lines[1..][i - 1 := line];
      var rest := CardTexts(lines[1..], space);
      assert LineTexts(lines[0], space) + (rest + LineTexts(line, space))
             == (LineTexts(lines[0], space) + rest) + LineTexts(line, space);
    }
  }

  /** A card line taken out takes one text with it, whether from the columns or from above them. */
  lemma TextsAfterDrop(lines: Lines, i: nat, space: Space)
    requires i < |lines| && IsCard(lines[i])
    ensures var before, after := Parse(lines, space), Parse(DropLine(lines, i), space);
            TextsOf(after.stray) + Texts(after.columns) + multiset{CardOf(lines[i], space).text}
            == TextsOf(before.stray) + Texts(before.columns)
  {
    hide IsHeading, CardOf, HeadingName, DropLine, Parse, Texts, TextsOf, CardTexts;
    EmptyLineIsNothing(space);
    EmptyIsNoHeading();
    ReplaceIsDrop(lines, i, "", space);
    TextsAreLines(lines, space);
    TextsAreLines(lines[i := ""], space);
    TextsAfterReplacing(lines, i, "", space);
  }

  lemma EmptyIsNoHeading()
    ensures !IsHeading("")
  {
  }
}
