/**
 * Deleting a card (src/obsidian_mcp/tools/kanban.py:313-331): the pattern has no end anchor, so the
 * first line it matches may carry a longer card, and the search may look above all columns. The
 * deletion is an edit of the columns exactly when that line lies below a heading and carries the card
 * that was asked for, and nothing tells it from the first such card.
 */
module KanbanDeletion {
  import opened Text
  import opened Kanban
  import opened KanbanColumns
  import opened KanbanLines
  import opened KanbanRefinement

  /** The edited lines parse to what should become of the columns, and the answer is the same. */
  predicate DeleteAgrees(lines: Lines, text: string, column: Option<string>, space: Space) {
    var columns := Parse(lines, space).columns;
    var (edited, found) := DeleteCard(lines, text, column);
    Parse(edited, space).columns == Removed(columns, text, column) && (found <==> HoldsIn(columns, text, column))
  }

  /** The first line in scope that starts with this card carries a longer one. */
  predicate Overshoots(lines: Lines, text: string, column: Option<string>) {
    var found := LocatePrefix(lines, text, column);
    found.Some? && !CardMatches(lines[found.value], text)
  }

  /** The first line in scope that starts with this card stands above all columns. */
  predicate HitsStray(lines: Lines, text: string, column: Option<string>) {
    var found := LocatePrefix(lines, text, column);
    found.Some? && !Sheltered(lines, found.value)
  }

  // ---------------------------------------------------------------------------------------
  // The card that parsing finds

  /** The first line at or after `from`, and below some heading, that carries the text. */
  function FirstSheltered(lines: Lines, from: nat, text: string, space: Space): (r: Option<nat>)
    requires from <= |lines|
    ensures r.Some? ==> from <= r.value < |lines| && Sheltered(lines, r.value) && Carries(lines[r.value], text, space)
    decreases |lines| - from
  {
    if from == |lines| then None
    else if Sheltered(lines, from) && Carries(lines[from], text, space) then Some(from)
    else FirstSheltered(lines, from + 1, text, space)
  }

  lemma {:induction false} NoneSheltersBefore(lines: Lines, from: nat, text: string, k: nat, space: Space)
    requires from <= k < |lines| && Sheltered(lines, k) && Carries(lines[k], text, space)
    ensures var r := FirstSheltered(lines, from, text, space);
            r.Some? && r.value <= k
    decreases k - from
  {
    hide Sheltered, Carries;
    if from < k {
      NoneSheltersBefore(lines, from + 1, text, k, space);
    }
  }

  /** The line of the first such card of the column, or of the board. */
  function ParsedIn(lines: Lines, text: string, column: Option<string>, space: Space): (r: Option<nat>)
    ensures r.Some? ==> r.value < |lines| && Carries(lines[r.value], text, space)
  {
    if column.Some? then Parsed(lines, column.value, text, space) else FirstSheltered(lines, 0, text, space)
  }

  lemma ParsedInIsExact(lines: Lines, text: string, column: Option<string>, space: Space)
    requires column.Some? ==> Name(column.value)
    ensures var board := Parse(lines, space);
            var parsed := ParsedIn(lines, text, column, space);
            && (parsed.Some? <==> HoldsIn(board.columns, text, column))
            && (parsed.Some? ==>
                  Parse(DropLine(lines, parsed.value), space)
                  == Board(board.stray, Removed(board.columns, text, column)))
  {
    hide Parse, Carries, Sheltered, DropLine, RemoveAnywhere, RemoveFromFirst, Holds, HoldsAnywhere, Parsed,
      FirstText, FirstNamed, Name;
    if column.Some? {
      ParsedIsExact(lines, column.value, text, space);
    } else {
      var first := FirstSheltered(lines, 0, text, space);
      forall k | 0 <= k < |lines| && Sheltered(lines, k) && Carries(lines[k], text, space)
        ensures first.Some? && first.value <= k
      {
        NoneSheltersBefore(lines, 0, text, k, space);
      }
      if first.Some? {
        DropAnywhere(lines, first.value, text, space);
      } else {
        NoneAnywhere(lines, text, space);
      }
    }
  }

  // ---------------------------------------------------------------------------------------
  // What is left of the line

  /** The rest of the line is blank exactly when the anchored pattern matches, too. */
  lemma NothingLeftIsMatch(line: string, text: string)
    requires CardStartsWith(line, text)
    ensures AfterMatch(line, text) == "" <==> CardMatches(line, text)
  {
  }

  lemma MatchStartsWith(line: string, text: string)
    ensures CardMatches(line, text) ==> CardStartsWith(line, text)
  {
  }

  /** What is left is a piece of the line, which ends with it. */
  lemma LeftoverIsSuffix(line: string, text: string)
    requires CardStartsWith(line, text)
    ensures var whole, rest := line[6..], AfterMatch(line, text);
            |rest| <= |whole| - |text| && rest == whole[|whole| - |rest|..]
  {
    hide SkipBlanks;
    var tail := line[6..][|text|..];
    SkipIsSuffix(tail);
  }

  /** Cutting off the front leaves a shorter text. */
  lemma SuffixIsShorter(s: string, k: nat, space: Space)
    requires 0 < k <= |s| && !space(s[0])
    ensures |Trim(s[k..], space)| < |Trim(s, space)|
  {
    hide TrimRight;
    assert TrimLeft(s, space) == s;
    hide TrimLeft;
    var whole := TrimRight(s, space);
    assert whole != "";
    var cut := TrimLeft(s[k..], space);
    var trimmed := TrimRight(cut, space);
    if trimmed != "" {
      var at := |s| - |cut| + |trimmed| - 1;
      assert s[at] == s[k..][at - k] == cut[|trimmed| - 1] == trimmed[|trimmed| - 1];
      assert !space(s[at]) && at < |whole|;
    }
  }

  /** A line that starts with the card carries it or a longer one; what is left of it carries neither. */
  lemma LeftoverIsAnotherCard(line: string, text: string, space: Space)
    requires Trimmed(text, space) && CardStartsWith(line, text)
    ensures IsCard(line)
    ensures var rest := AfterMatch(line, text);
            IsCard(rest) ==> |CardOf(rest, space).text| < |CardOf(line, space).text|
  {
    hide Trim, AfterMatch;
    LeftoverIsSuffix(line, text);
    var whole, rest := line[6..], AfterMatch(line, text);
    assert whole[0] == text[0];
    if IsCard(rest) {
      var k := |whole| - |rest| + 6;
      assert rest[6..] == whole[k..];
      SuffixIsShorter(whole, k, space);
    }
  }

  /** When the line carries just this card, what is left of it is neither card nor heading. */
  lemma LeftoverIsNothing(line: string, text: string, space: Space)
    requires Spaces(space) && Trimmed(text, space) && CardStartsWith(line, text) && Carries(line, text, space)
    ensures !IsHeading(AfterMatch(line, text)) && !IsCard(AfterMatch(line, text))
  {
    hide Trim, AfterMatch, IsHeading, Spaces, Trimmed;
    LeftoverIsSuffix(line, text);
    var whole, rest := line[6..], AfterMatch(line, text);
    assert Trim(whole, space) == text;
    TrimmedOff(whole, text, space);
    if rest != "" {
      assert rest[0] == whole[|whole| - |rest|];
    }
    SpaceFirstIsNothing(rest, space);
  }

  lemma TrimmedOff(whole: string, text: string, space: Space)
    requires Trimmed(text, space) && text <= whole && Trim(whole, space) == text
    ensures forall k :: |text| <= k < |whole| ==> space(whole[k])
  {
    assert whole[0] == text[0] && TrimLeft(whole, space) == whole;
  }

  lemma SpaceFirstIsNothing(line: string, space: Space)
    requires Spaces(space) && (line != "" ==> space(line[0]))
    ensures !IsHeading(line) && !IsCard(line)
  {
    if |line| >= 3 {
      assert line[..3][0] == line[0];
    }
  }

  /** A longer card leaves something, so its line is replaced. */
  lemma LongerCardLeavesSome(line: string, text: string, space: Space)
    requires Spaces(space) && Trimmed(text, space) && CardStartsWith(line, text) && !Carries(line, text, space)
    ensures AfterMatch(line, text) != ""
  {
    hide AfterMatch, Trimmed, Carries;
    NothingLeftIsMatch(line, text);
    if CardMatches(line, text) {
      MatchCarries(line, text, space);
    }
  }

  // ---------------------------------------------------------------------------------------
  // Where the deletion is exact

  /** A line below a heading is none of the cards above all columns. */
  lemma {:induction false} StrayIgnoresBelow(lines: Lines, i: nat, line: string, space: Space)
    requires i < |lines| && Sheltered(lines, i)
    ensures Parse(lines[i := line], space).stray == Parse(lines, space).stray
  {
    hide IsCard, IsHeading, CardOf, Sheltered;
    NotShelteredAtTop(lines);
    ShelteredBelow(lines, i);
    var edited := lines[i := line];
    assert edited[0] == lines[0];
    if !IsHeading(lines[0]) {
      assert edited[1..] == lines[1..][i - 1 := line];
      StrayIgnoresBelow(lines[1..], i - 1, line, space);
    }
  }

  /** Changing a line above all columns leaves them alone, or puts another one in front of them. */
  lemma {:induction false} ReplaceStray(lines: Lines, i: nat, line: string, space: Space)
    requires i < |lines| && !Sheltered(lines, i) && !IsHeading(lines[i])
    ensures var edited, columns := Parse(lines[i := line], space).columns, Parse(lines, space).columns;
            if IsHeading(line) then |edited| == |columns| + 1 else edited == columns
  {
    hide IsHeading, IsCard, CardOf, HeadingName, Sheltered;
    var edited := lines[i := line];
    if i == 0 {
      assert edited[1..] == lines[1..];
    } else {
      ShelteredBelow(lines, i);
      assert edited[0] == lines[0] && edited[1..] == lines[1..][i - 1 := line];
      ReplaceStray(lines[1..], i - 1, line, space);
    }
  }

  lemma BoxIsNoHeading(line: string, text: string)
    requires CardStartsWith(line, text)
    ensures !IsHeading(line)
  {
    assert line[0] == line[..3][0] == '-';
  }

  /** A hit above all columns is answered with yes, and does not do what that would mean. */
  lemma DeleteWhenStray(lines: Lines, text: string, column: Option<string>, space: Space)
    requires HitsStray(lines, text, column)
    ensures !DeleteAgrees(lines, text, column, space)
  {
    hide CardStartsWith, AfterMatch, IsHeading, DropLine, Parse, Removed, LocatePrefix, Texts, HoldsIn, Sheltered;
    var columns := Parse(lines, space).columns;
    var i := LocatePrefix(lines, text, column).value;
    BoxIsNoHeading(lines[i], text);
    TextsAfterRemoved(columns, text, column);
    RemovedKeepsLength(columns, text, column);
    DropStaysInPlace(lines, i, space);
    ReplaceStray(lines, i, AfterMatch(lines[i], text), space);
  }

  /** Below a heading, an overshooting match takes a longer card off the board. */
  lemma DeleteWhenOvershooting(lines: Lines, text: string, column: Option<string>, space: Space)
    requires Spaces(space) && Trimmed(text, space) && LocatePrefix(lines, text, column).Some?
    requires var i := LocatePrefix(lines, text, column).value;
             Sheltered(lines, i) && !Carries(lines[i], text, space)
    ensures Parse(DeleteCard(lines, text, column).0, space).columns
            != Removed(Parse(lines, space).columns, text, column)
  {
    hide CardStartsWith, AfterMatch, IsCard, CardOf, DropLine, Parse, Removed, Trimmed, LocatePrefix, Texts, TextsOf,
      CardTexts, HoldsIn, Sheltered;
    var i := LocatePrefix(lines, text, column).value;
    var rest := AfterMatch(lines[i], text);
    LongerCardLeavesSome(lines[i], text, space);
    LeftoverIsAnotherCard(lines[i], text, space);
    var edited := lines[i := rest];
    TextsAreLines(lines, space);
    TextsAreLines(edited, space);
    StrayIgnoresBelow(lines, i, rest, space);
    TextsAfterReplacing(lines, i, rest, space);
    TextsAfterRemoved(Parse(lines, space).columns, text, column);
    var gone := CardOf(lines[i], space).text;
    var before, after := Texts(Parse(lines, space).columns), Texts(Parse(edited, space).columns);
    var above := TextsOf(Parse(lines, space).stray);
    assert (above + after + LineTexts(lines[i], space))[gone] == above[gone] + after[gone] + 1;
    assert (above + before + LineTexts(rest, space))[gone] == above[gone] + before[gone];
  }

  /** A line that carries the card, below a heading, goes as if it had been taken out. */
  lemma DeleteIsDrop(lines: Lines, text: string, column: Option<string>, space: Space)
    requires Spaces(space) && Trimmed(text, space) && LocatePrefix(lines, text, column).Some?
    requires Carries(lines[LocatePrefix(lines, text, column).value], text, space)
    ensures var (edited, found) := DeleteCard(lines, text, column);
            found && Parse(edited, space) == Parse(DropLine(lines, LocatePrefix(lines, text, column).value), space)
  {
    hide CardStartsWith, AfterMatch, IsHeading, DropLine, Parse, LocatePrefix, Trimmed, IsCard;
    var i := LocatePrefix(lines, text, column).value;
    LeftoverIsNothing(lines[i], text, space);
    ReplaceIsDrop(lines, i, AfterMatch(lines[i], text), space);
  }

  /** Such a line is, or stands below, the one that parsing finds. */
  lemma FoundInScope(lines: Lines, text: string, column: Option<string>, space: Space)
    requires (column.Some? ==> Name(column.value)) && LocatePrefix(lines, text, column).Some?
    requires var i := LocatePrefix(lines, text, column).value;
             Sheltered(lines, i) && Carries(lines[i], text, space)
    ensures var parsed := ParsedIn(lines, text, column, space);
            parsed.Some? && parsed.value <= LocatePrefix(lines, text, column).value
  {
    hide Carries, Sheltered, CardStartsWith, Name, Parsed, FindHeading;
    var i := LocatePrefix(lines, text, column).value;
    if column.Some? {
      if HasRoom(lines, column.value) {
        FoundInColumn(lines, column.value, text, i, space);
      } else {
        FoundAbove(lines, i);
      }
    } else {
      NoneSheltersBefore(lines, 0, text, i, space);
    }
  }

  /**
   * Whether a deletion works on the columns can be told before: the line it finds lies below a heading and
   * carries the card, and is what parsing finds or a twin of it, or neither finds any.
   */
  predicate Deletes(lines: Lines, text: string, column: Option<string>, space: Space) {
    match (ParsedIn(lines, text, column, space), LocatePrefix(lines, text, column))
    case (None, None) => true
    case (Some(p), Some(i)) =>
      Sheltered(lines, i) && Carries(lines[i], text, space) && p <= i && Twins(lines, p, i, space)
    case _ => false
  }

  lemma DeleteWhenCarrying(lines: Lines, text: string, column: Option<string>, space: Space)
    requires Spaces(space) && Trimmed(text, space) && (column.Some? ==> Name(column.value))
    requires LocatePrefix(lines, text, column).Some?
    requires var i := LocatePrefix(lines, text, column).value;
             Sheltered(lines, i) && Carries(lines[i], text, space)
    ensures DeleteAgrees(lines, text, column, space) <==> Deletes(lines, text, column, space)
    ensures Parse(DeleteCard(lines, text, column).0, space).stray == Parse(lines, space).stray
  {
    hide CardStartsWith, DeleteCard, IsHeading, IsCard, CardOf, DropLine, Parse, LocatePrefix, Trimmed, Sheltered,
      Twins, Removed, HoldsIn, ParsedIn, Name;
    var i := LocatePrefix(lines, text, column).value;
    FoundInScope(lines, text, column, space);
    var p := ParsedIn(lines, text, column, space).value;
    ParsedInIsExact(lines, text, column, space);
    DeleteIsDrop(lines, text, column, space);
    CardIsNoHeading(lines[i]);
    DropStaysInPlace(lines, i, space);
    DropTwins(lines, p, i, space);
  }

  /**
   * A deletion, in a column or anywhere, removes the first card with that text and answers whether there
   * was one, if and only if the first line in scope that starts with the text lies below a heading and
   * carries no longer card, and can stand in for what parsing finds first.
   */
  lemma DeleteCardIsExact(lines: Lines, text: string, column: Option<string>, space: Space)
    requires Spaces(space) && Trimmed(text, space) && (column.Some? ==> Name(column.value))
    ensures var board := Parse(lines, space);
            var (edited, found) := DeleteCard(lines, text, column);
            && (DeleteAgrees(lines, text, column, space) <==> Deletes(lines, text, column, space))
            && (found <==> LocatePrefix(lines, text, column).Some?)
            && (!found ==> edited == lines)
            && (DeleteAgrees(lines, text, column, space) ==> Parse(edited, space).stray == board.stray)
  {
    hide CardStartsWith, Carries, DropLine, Parse, LocatePrefix, Trimmed, Sheltered, Twins, Removed, HoldsIn, ParsedIn,
      Name;
    var found := LocatePrefix(lines, text, column);
    if found.None? {
      ParsedInIsExact(lines, text, column, space);
      TextsAfterRemoved(Parse(lines, space).columns, text, column);
    } else if !Sheltered(lines, found.value) {
      DeleteWhenStray(lines, text, column, space);
    } else if Carries(lines[found.value], text, space) {
      DeleteWhenCarrying(lines, text, column, space);
    } else {
      DeleteWhenOvershooting(lines, text, column, space);
    }
  }

  /**
   * On a board of tidy lines a deletion works unless the line it finds carries a longer card or stands
   * above all columns, or a bare line cuts the card off.
   */
  lemma DeletesOnTidyBoard(lines: Lines, text: string, column: Option<string>, space: Space)
    requires Spaces(space) && Trimmed(text, space) && (column.Some? ==> Name(column.value))
    requires forall i :: 0 <= i < |lines| ==> Tidy(lines[i], space)
    ensures Deletes(lines, text, column, space) <==>
              && !Overshoots(lines, text, column) && !HitsStray(lines, text, column)
              && (column.Some? ==> !CutOff(lines, column.value, text, space))
  {
    hide Carries, CardMatches, CardStartsWith, Name, Trimmed, Parsed, Locate, CutOff, Twins, IsCard, Sheltered, Tidy,
      LocatePrefix, ParsedIn;
    var found, parsed := LocatePrefix(lines, text, column), ParsedIn(lines, text, column, space);
    if found.Some? {
      var i := found.value;
      MatchIsText(lines[i], text, space);
      if Sheltered(lines, i) && Carries(lines[i], text, space) {
        FoundInScope(lines, text, column, space);
        FoundIsParsed(lines, text, column, space);
        CarriesIsCard(lines[i], text, space);
        TwinOfItself(lines, i, space);
      }
    } else {
      NoneFound(lines, text, column, space);
    }
  }

  lemma StartsIfCarries(lines: Lines, text: string, k: nat, space: Space)
    requires Spaces(space) && Trimmed(text, space) && k < |lines| && Tidy(lines[k], space)
    ensures Carries(lines[k], text, space) ==> CardStartsWith(lines[k], text)
  {
    hide Tidy, Carries, Trimmed;
    MatchIsText(lines[k], text, space);
    MatchStartsWith(lines[k], text);
  }

  lemma FoundIsParsed(lines: Lines, text: string, column: Option<string>, space: Space)
    requires Spaces(space) && Trimmed(text, space) && (column.Some? ==> Name(column.value))
    requires forall i :: 0 <= i < |lines| ==> Tidy(lines[i], space)
    requires LocatePrefix(lines, text, column).Some?
    requires var i := LocatePrefix(lines, text, column).value;
             Sheltered(lines, i) && Carries(lines[i], text, space)
    ensures ParsedIn(lines, text, column, space) == LocatePrefix(lines, text, column)
    ensures column.Some? ==> !CutOff(lines, column.value, text, space)
  {
    hide Carries, CardStartsWith, Name, Trimmed, Tidy, Sheltered, IsHeading, FindHeading;
    var i := LocatePrefix(lines, text, column).value;
    FoundInScope(lines, text, column, space);
    var p := ParsedIn(lines, text, column, space).value;
    StartsIfCarries(lines, text, p, space);
    if column.Some? && !HasRoom(lines, column.value) {
      FoundAbove(lines, i);
    }
  }

  lemma NoneFound(lines: Lines, text: string, column: Option<string>, space: Space)
    requires Spaces(space) && Trimmed(text, space) && (column.Some? ==> Name(column.value))
    requires forall i :: 0 <= i < |lines| ==> Tidy(lines[i], space)
    requires LocatePrefix(lines, text, column).None?
    ensures ParsedIn(lines, text, column, space).Some? <==>
              column.Some? && CutOff(lines, column.value, text, space)
  {
    hide Carries, CardStartsWith, CardMatches, Name, Trimmed, Tidy, Sheltered, IsHeading, FindHeading;
    var parsed := ParsedIn(lines, text, column, space);
    if parsed.Some? {
      StartsIfCarries(lines, text, parsed.value, space);
    }
    forall k | 0 <= k < |lines| ensures CardMatches(lines[k], text) ==> CardStartsWith(lines[k], text) {
      MatchStartsWith(lines[k], text);
    }
    if column.Some? && HasRoom(lines, column.value) {
      LocateOnTidyBoard(lines, column.value, text, space);
    }
  }
}
