/**
 * The board edits as the source writes them, as slices of the text of the note
 * (src/obsidian_mcp/tools/kanban.py:247-331), and that they are the edits of its lines.
 */
module KanbanText {
  import opened Text
  import opened Kanban

  // ---------------------------------------------------------------------------------------
  // Lines and offsets

  /** The text in front of line `k`, with its last newline. */
  function Front(lines: Lines, k: nat): string
    requires k <= |lines|
  {
    if k == 0 then "" else Join(lines[..k], '\n') + "\n"
  }

  lemma FrontAndRest(lines: Lines, k: nat)
    requires k < |lines|
    ensures Join(lines, '\n') == Front(lines, k) + Join(lines[k..], '\n')
  {
    hide Join;
    if k == 0 {
      assert lines[0..] == lines;
    } else {
      JoinOfConcat(lines[..k], lines[k..], '\n');
      assert lines == lines[..k] + lines[k..];
    }
  }

  lemma RestUnfolds(lines: Lines, k: nat)
    requires k < |lines|
    ensures Join(lines[k..], '\n') == lines[k] + if k + 1 < |lines| then "\n" + Join(lines[k + 1..], '\n') else ""
  {
    assert lines[k..][1..] == lines[k + 1..];
  }

  lemma FrontGrows(lines: Lines, k: nat)
    requires k + 1 < |lines|
    ensures Front(lines, k + 1) == Front(lines, k) + lines[k] + "\n"
  {
    hide Join;
    JoinOfOne(lines[k]);
    assert lines[..k + 1] == lines[..k] + [lines[k]];
    if k == 0 {
      assert lines[..1] == [lines[0]] && "" + lines[0] + "\n" == lines[0] + "\n";
    } else {
      JoinOfConcat(lines[..k], [lines[k]], '\n');
      assert Join(lines[..k + 1], '\n') == Join(lines[..k], '\n') + "\n" + lines[k];
    }
  }

  lemma JoinOfOne(line: string)
    ensures Join([line], '\n') == line
  {
  }

  /** Lines that differ from line `k` on have the same text in front of it. */
  lemma SameFront(lines: Lines, other: Lines, k: nat)
    requires k <= |lines| && k <= |other| && lines[..k] == other[..k]
    ensures Front(lines, k) == Front(other, k)
  {
  }

  /** Where a line of the text starts and ends. */
  lemma LineFits(raw: string, k: nat)
    requires k < |Split(raw, '\n')|
    ensures var lines := Split(raw, '\n');
            var start := |Front(lines, k)|;
            && start + |lines[k]| <= |raw| && raw[..start] == Front(lines, k)
            && raw[start..start + |lines[k]|] == lines[k]
            && raw[start..] == Join(lines[k..], '\n')
            && (if k + 1 < |lines|
                then start + |lines[k]| < |raw| && raw[start + |lines[k]|] == '\n'
                     && start + |lines[k]| + 1 == |Front(lines, k + 1)|
                     && raw[start + |lines[k]| + 1..] == Join(lines[k + 1..], '\n')
                else start + |lines[k]| == |raw|)
  {
    hide Split, Front, Join;
    var lines := Split(raw, '\n');
    JoinOfSplit(raw, '\n');
    FrontAndRest(lines, k);
    RestUnfolds(lines, k);
    if k + 1 < |lines| {
      FrontGrows(lines, k);
    }
  }

  /** `raw.find("\n", from) + 1`. */
  function AfterNewline(raw: string, from: nat): (at: nat)
    requires from <= |raw|
    ensures at <= |raw|
    decreases |raw| - from
  {
    if from == |raw| then 0 else if raw[from] == '\n' then from + 1 else AfterNewline(raw, from + 1)
  }

  lemma {:induction false} AfterNewlineIs(raw: string, from: nat, end: nat)
    requires from <= end <= |raw| && (forall i :: from <= i < end ==> raw[i] != '\n')
    requires end < |raw| ==> raw[end] == '\n'
    ensures AfterNewline(raw, from) == if end < |raw| then end + 1 else 0
    decreases end - from
  {
    if from < end {
      AfterNewlineIs(raw, from + 1, end);
    }
  }

  /** The section of a column starts at line `SectionStart`, as an offset. */
  lemma SectionStartIsOffset(raw: string, h: nat)
    requires h < |Split(raw, '\n')|
    ensures var lines := Split(raw, '\n');
            && |Front(lines, h)| <= |raw| && SectionStart(lines, h) < |lines|
            && AfterNewline(raw, |Front(lines, h)|) == |Front(lines, SectionStart(lines, h))|
  {
    hide Split, Front, Join;
    var lines := Split(raw, '\n');
    LineFits(raw, h);
    var start := |Front(lines, h)|;
    assert lines[h] in lines;
    assert forall i :: start <= i < start + |lines[h]| ==> raw[i] == lines[h][i - start];
    AfterNewlineIs(raw, start, start + |lines[h]|);
    EmptyFront(lines);
  }

  lemma EmptyFront(lines: Lines)
    ensures Front(lines, 0) == ""
  {
  }

  // ---------------------------------------------------------------------------------------
  // The edits of the source

  /** `_add_card`. */
  function AddText(raw: string, column: string, card: Card): Result<string, EditError> {
    match FindHeading(Split(raw, '\n'), column)
    case None => Err(ColumnNotFound)
    case Some(h) =>
      SectionStartIsOffset(raw, h);
      var start := AfterNewline(raw, |Front(Split(raw, '\n'), h)|);
      Ok(raw[..start] + CardLine(card) + "\n" + raw[start..])
  }

  /** The text without what a pattern matched at `start`, and without the newline behind it. */
  function Cut(raw: string, start: nat, end: nat): string
    requires start <= end <= |raw|
  {
    raw[..start] + raw[if end < |raw| && raw[end] == '\n' then end + 1 else end..]
  }

  /** `_move_card`. */
  function MoveText(raw: string, text: string, source: string, target: string, done: Option<bool>)
    : Result<(string, bool), EditError>
  {
    var lines := Split(raw, '\n');
    match Locate(lines, source, text)
    case None => Ok((raw, false))
    case Some(i) =>
      LineFits(raw, i);
      var start := |Front(lines, i)|;
      var ticked := if done.Some? then done.value else lines[i][3] != ' ';
      match AddText(Cut(raw, start, start + |lines[i]|), target, Card(text, ticked))
      case Err(e) => Err(e)
      case Ok(moved) => Ok((moved, true))
  }

  /** `_delete_card`. */
  function DeleteText(raw: string, text: string, column: Option<string>): (string, bool) {
    var lines := Split(raw, '\n');
    match LocatePrefix(lines, text, column)
    case None => (raw, false)
    case Some(i) =>
      LineFits(raw, i);
      var start := |Front(lines, i)|;
      (Cut(raw, start, start + |lines[i]| - |AfterMatch(lines[i], text)|), true)
  }

  // ---------------------------------------------------------------------------------------
  // They are the edits of the lines

  lemma InsertIsSlice(raw: string, k: nat, line: string)
    requires k < |Split(raw, '\n')| && '\n' !in line
    ensures var lines := Split(raw, '\n');
            var at := |Front(lines, k)|;
            at <= |raw| && Split(raw[..at] + line + "\n" + raw[at..], '\n') == InsertLine(lines, k, line)
  {
    hide Split, Front, Join;
    var lines := Split(raw, '\n');
    var edited := InsertLine(lines, k, line);
    LineFits(raw, k);
    FrontAndRest(edited, k);
    RestUnfolds(edited, k);
    SameFront(lines, edited, k);
    assert edited[k + 1..] == lines[k..];
    SplitOfJoin(edited, '\n');
    var front, rest := Front(lines, k), Join(lines[k..], '\n');
    assert front + (line + ("\n" + rest)) == front + line + "\n" + rest;
  }

  lemma CutIsDrop(raw: string, i: nat)
    requires i < |Split(raw, '\n')|
    ensures var lines := Split(raw, '\n');
            var start := |Front(lines, i)|;
            start + |lines[i]| <= |raw| && Split(Cut(raw, start, start + |lines[i]|), '\n') == DropLine(lines, i)
  {
    hide Split, Front, Join;
    var lines := Split(raw, '\n');
    var edited := DropLine(lines, i);
    var start := |Front(lines, i)|;
    LineFits(raw, i);
    FrontAndRest(edited, i);
    SameFront(lines, edited, i);
    if i + 1 < |lines| {
      assert edited[i..] == lines[i + 1..];
    } else {
      assert edited[i..] == [""];
      JoinOfOne("");
      assert raw[start + |lines[i]|..] == "";
    }
    SplitOfJoin(edited, '\n');
  }

  lemma CutIsReplace(raw: string, i: nat, rest: string)
    requires i < |Split(raw, '\n')| && rest != "" && EndsWith(Split(raw, '\n')[i], rest)
    ensures var lines := Split(raw, '\n');
            var start := |Front(lines, i)|;
            start + |lines[i]| <= |raw| && Split(Cut(raw, start, start + |lines[i]| - |rest|), '\n') == lines[i := rest]
  {
    hide Split, Front, Join;
    var lines := Split(raw, '\n');
    var edited := lines[i := rest];
    LineFits(raw, i);
    FrontAndRest(edited, i);
    RestUnfolds(lines, i);
    RestUnfolds(edited, i);
    assert edited[..i] == lines[..i] && edited[i + 1..] == lines[i + 1..];
    SameFront(lines, edited, i);
    var start, end := |Front(lines, i)|, |Front(lines, i)| + |lines[i]| - |rest|;
    assert lines[i] in lines && forall c :: c in rest ==> c in lines[i];
    assert raw[end] == lines[i][end - start] == rest[0];
    assert raw[end..] == Join(lines[i..], '\n')[end - start..] == Join(edited[i..], '\n');
    SplitOfJoin(edited, '\n');
  }

  /** On the text as on the lines, for names and texts of one line. */
  lemma AddTextIsAddCard(raw: string, column: string, card: Card)
    requires '\n' !in card.text && '\n' !in column
    ensures var r, lines := AddText(raw, column, card), AddCard(Split(raw, '\n'), column, card);
            if lines.Ok? then r.Ok? && Split(r.value, '\n') == lines.value else r == Err(lines.error)
  {
    hide Split, Front, InsertLine;
    var lines := Split(raw, '\n');
    var heading := FindHeading(lines, column);
    if heading.Some? {
      SectionStartIsOffset(raw, heading.value);
      InsertIsSlice(raw, SectionStart(lines, heading.value), CardLine(card));
    }
  }

  lemma MoveTextIsMoveCard(raw: string, text: string, source: string, target: string, done: Option<bool>)
    requires '\n' !in text && '\n' !in source && '\n' !in target
    ensures var r, lines := MoveText(raw, text, source, target, done),
                            MoveCard(Split(raw, '\n'), text, source, target, done);
            if lines.Ok? then r.Ok? && Split(r.value.0, '\n') == lines.value.0 && r.value.1 == lines.value.1
            else r == Err(lines.error)
  {
    hide Split, Front, AddCard, AddText, Cut, DropLine, Locate, CardMatches;
    var lines := Split(raw, '\n');
    var found := Locate(lines, source, text);
    if found.Some? {
      var i := found.value;
      CutIsDrop(raw, i);
      var start := |Front(lines, i)|;
      MatchIsLong(lines[i], text);
      var ticked := if done.Some? then done.value else lines[i][3] != ' ';
      AddTextIsAddCard(Cut(raw, start, start + |lines[i]|), target, Card(text, ticked));
    }
  }

  lemma MatchIsLong(line: string, text: string)
    requires CardMatches(line, text)
    ensures |line| >= 6
  {
  }

  lemma DeleteTextIsDeleteCard(raw: string, text: string, column: Option<string>)
    requires '\n' !in text && (column.Some? ==> '\n' !in column.value)
    ensures var (edited, found) := DeleteText(raw, text, column);
            var (lines, also) := DeleteCard(Split(raw, '\n'), text, column);
            Split(edited, '\n') == lines && (found <==> also)
  {
    hide Split, Front, Cut, DropLine, LocatePrefix, CardStartsWith, AfterMatch;
    var lines := Split(raw, '\n');
    var found := LocatePrefix(lines, text, column);
    if found.Some? {
      var i := found.value;
      var rest := AfterMatch(lines[i], text);
      RestIsSuffix(lines[i], text);
      if rest == "" {
        CutIsDrop(raw, i);
      } else {
        CutIsReplace(raw, i, rest);
      }
    }
  }

  lemma RestIsSuffix(line: string, text: string)
    requires CardStartsWith(line, text)
    ensures EndsWith(line, AfterMatch(line, text))
  {
    var tail := line[6..][|text|..];
    SkipIsSuffix(tail);
    assert tail == line[6 + |text|..];
  }
}
