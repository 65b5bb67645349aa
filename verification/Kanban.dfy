/**
 * Kanban boards (src/obsidian_mcp/tools/kanban.py) as sequences of lines: the edits splice lines of the
 * note, and parsing the result is an edit of the parsed columns. The optional settings block at the end
 * of a note is not modelled.
 */
module Kanban {
  import opened Text

  type Lines = seq<string>

  datatype Card = Card(text: string, done: bool)

  datatype Column = Column(name: string, cards: seq<Card>)

  /** Dropping trailing blanks and tabs only. */
  function DropBlanks(s: string): (r: string)
    ensures r <= s && (r != "" ==> !IsBlank(r[|r| - 1]))
    ensures forall i :: |r| <= i < |s| ==> IsBlank(s[i])
  {
    if s != "" && IsBlank(s[|s| - 1]) then DropBlanks(s[..|s| - 1]) else s
  }

  /** The pattern matches exactly the lines that carry this text, once the blanks behind it are dropped. */
  lemma {:induction false} TextThenBlanksMeaning(rest: string, text: string)
    requires text != "" && !IsBlank(text[|text| - 1])
    ensures TextThenBlanks(rest, text) <==> DropBlanks(rest) == text
  {
    if rest != "" && IsBlank(rest[|rest| - 1]) {
      var shorter := rest[..|rest| - 1];
      TextThenBlanksMeaning(shorter, text);
      if TextThenBlanks(rest, text) {
        assert |text| < |rest| && text <= shorter;
        assert forall i :: 0 <= i < |shorter| - |text| ==> shorter[|text|..][i] == rest[|text|..][i];
      }
      if TextThenBlanks(shorter, text) {
        forall i | 0 <= i < |rest| - |text| ensures IsBlank(rest[|text|..][i]) {
          assert i < |shorter| - |text| ==> rest[|text|..][i] == shorter[|text|..][i];
        }
      }
    } else if |text| < |rest| {
      assert rest[|text|..][|rest| - 1 - |text|] == rest[|rest| - 1];
    }
  }

  lemma {:induction false} TrimRightIsDrop(s: string, space: Space)
    requires space(' ') && space('\t')
    requires DropBlanks(s) != "" && !space(DropBlanks(s)[|DropBlanks(s)| - 1])
    ensures TrimRight(s, space) == DropBlanks(s)
  {
    if s != "" && IsBlank(s[|s| - 1]) {
      TrimRightIsDrop(s[..|s| - 1], space);
    }
  }

  // ---------------------------------------------------------------------------------------
  // Lines

  /** A column heading: two hashes, a space and something more. */
  predicate IsHeading(line: string) {
    "## " <= line && |line| > 3
  }

  function HeadingName(line: string): string
    requires IsHeading(line)
  {
    var name := DropBlanks(line[3..]);
    if name == "" then line[3..4] else name
  }

  /** The heading of this very column, up to trailing blanks. */
  predicate HeadingOf(line: string, column: string) {
    "## " <= line && TextThenBlanks(line[3..], column)
  }

  /** A task box with something behind it. */
  predicate IsBox(line: string) {
    |line| >= 6 && line[..3] == "- [" && line[3] in {' ', 'x', 'X'} && line[4..6] == "] "
  }

  predicate IsCard(line: string) {
    IsBox(line) && |line| > 6
  }

  function CardOf(line: string, space: Space): Card
    requires IsCard(line)
  {
    Card(Trim(line[6..], space), line[3] != ' ')
  }

  /** The line the edits look for, anchored at both ends. */
  predicate CardMatches(line: string, text: string) {
    IsBox(line) && TextThenBlanks(line[6..], text)
  }

  /** The line the deletion looks for, anchored at the start only. */
  predicate CardStartsWith(line: string, text: string) {
    IsBox(line) && text <= line[6..]
  }

  function CardLine(card: Card): string {
    (if card.done then "- [x] " else "- [ ] ") + card.text
  }

  // ---------------------------------------------------------------------------------------
  // Parsing

  /** The cards above the first heading, which parsing ignores, and the columns. */
  datatype Board = Board(stray: seq<Card>, columns: seq<Column>)

  const NOTHING := Board([], [])

  /** The board from this line on, given the board below it: the cards below a heading are its column's. */
  function OnTop(line: string, board: Board, space: Space): Board {
    if IsHeading(line) then Board([], [Column(HeadingName(line), board.stray)] + board.columns)
    else if IsCard(line) then Board([CardOf(line, space)] + board.stray, board.columns)
    else board
  }

  function Parse(lines: Lines, space: Space): Board {
    if lines == [] then NOTHING else OnTop(lines[0], Parse(lines[1..], space), space)
  }

  /** The last column parsed so far gets more cards; before the first heading there is none to get them. */
  function WithMore(done: seq<Column>, cards: seq<Card>): seq<Column> {
    if done == [] then []
    else
      var last := done[|done| - 1];
      done[..|done| - 1] + [last.(cards := last.cards + cards)]
  }

  lemma WithMoreTwice(done: seq<Column>, a: seq<Card>, b: seq<Card>)
    ensures WithMore(WithMore(done, a), b) == WithMore(done, a + b)
    ensures WithMore(done, []) == done
  {
    if done != [] {
      var last := done[|done| - 1];
      assert last.cards + [] == last.cards && last.cards + (a + b) == (last.cards + a) + b;
      var mid := WithMore(done, a);
      assert mid[..|mid| - 1] == done[..|done| - 1];
      assert done == done[..|done| - 1] + [last];
    }
  }

  lemma WithMoreAfterHeading(done: seq<Column>, name: string, cards: seq<Card>)
    ensures WithMore(done + [Column(name, [])], cards) == done + [Column(name, cards)]
  {
    assert [] + cards == cards;
    assert (done + [Column(name, [])])[..|done|] == done;
  }

  lemma NoColumnYet(board: Board)
    ensures WithMore([], board.stray) + board.columns == board.columns
  {
  }

  /** The parsing loop, appending to a list of columns. */
  method ParseColumns(lines: Lines, space: Space) returns (columns: seq<Column>)
    ensures columns == Parse(lines, space).columns
  {
    hide HeadingName, IsHeading, IsCard, CardOf, WithMore;
    columns := [];
    WithMoreTwice([], [], []);
    NoColumnYet(Parse(lines, space));
    for i := 0 to |lines|
      invariant var rest := Parse(lines[i..], space);
                WithMore(columns, rest.stray) + rest.columns == Parse(lines, space).columns
    {
      ghost var rest := Parse(lines[i + 1..], space);
      assert lines[i..][0] == lines[i] && lines[i..][1..] == lines[i + 1..];
      if IsHeading(lines[i]) {
        WithMoreTwice(columns, [], []);
        WithMoreAfterHeading(columns, HeadingName(lines[i]), rest.stray);
        columns := columns + [Column(HeadingName(lines[i]), [])];
      } else if IsCard(lines[i]) {
        var card := CardOf(lines[i], space);
        WithMoreTwice(columns, [card], rest.stray);
        columns := WithMore(columns, [card]);
      }
    }
    WithMoreTwice(columns, [], []);
  }

  // ---------------------------------------------------------------------------------------
  // The edits

  /** The first heading line of the column. */
  function FindHeading(lines: Lines, column: string): (r: Option<nat>)
    ensures r.Some? ==> r.value < |lines| && HeadingOf(lines[r.value], column)
    ensures r.Some? ==> forall i :: 0 <= i < r.value ==> !HeadingOf(lines[i], column)
    ensures r.None? ==> forall i :: 0 <= i < |lines| ==> !HeadingOf(lines[i], column)
  {
    if lines == [] then None
    else if HeadingOf(lines[0], column) then Some(0)
    else match FindHeading(lines[1..], column)
      case None => None
      case Some(i) => Some(i + 1)
  }

  /** `raw.find("\n", ...) + 1`: the line after the heading, but line 0 when the heading ends the note. */
  function SectionStart(lines: Lines, heading: nat): nat {
    if heading + 1 < |lines| then heading + 1 else 0
  }

  /** The first line at or after `start` that begins with two hashes and a space. */
  function SectionEnd(lines: Lines, start: nat): (end: nat)
    requires start <= |lines|
    ensures start <= end <= |lines|
    ensures forall i :: start <= i < end ==> !("## " <= lines[i])
    ensures end < |lines| ==> "## " <= lines[end]
    decreases |lines| - start
  {
    if start == |lines| || "## " <= lines[start] then start else SectionEnd(lines, start + 1)
  }

  function InsertLine(lines: Lines, at: nat, line: string): Lines
    requires at <= |lines|
  {
    lines[..at] + [line] + lines[at..]
  }

  /** A line goes with its newline; the last line, which has none, leaves an empty line. */
  function DropLine(lines: Lines, at: nat): Lines
    requires at < |lines|
  {
    if at + 1 < |lines| then lines[..at] + lines[at + 1..] else lines[..at] + [""]
  }

  datatype EditError = ColumnNotFound

  /** `_add_card`. */
  function AddCard(lines: Lines, column: string, card: Card): Result<Lines, EditError> {
    match FindHeading(lines, column)
    case None => Err(ColumnNotFound)
    case Some(h) => Ok(InsertLine(lines, SectionStart(lines, h), CardLine(card)))
  }

  /** The first line in [lo, hi) that the pattern matches. */
  function FindCard(lines: Lines, text: string, lo: nat, hi: nat): (r: Option<nat>)
    requires lo <= hi <= |lines|
    ensures r.Some? ==> lo <= r.value < hi && CardMatches(lines[r.value], text)
    ensures r.Some? ==> forall i :: lo <= i < r.value ==> !CardMatches(lines[i], text)
    ensures r.None? ==> forall i :: lo <= i < hi ==> !CardMatches(lines[i], text)
    decreases hi - lo
  {
    if lo == hi then None
    else if CardMatches(lines[lo], text) then Some(lo)
    else FindCard(lines, text, lo + 1, hi)
  }

  function FindPrefix(lines: Lines, text: string, lo: nat, hi: nat): (r: Option<nat>)
    requires lo <= hi <= |lines|
    ensures r.Some? ==> lo <= r.value < hi && CardStartsWith(lines[r.value], text)
    ensures r.Some? ==> forall i :: lo <= i < r.value ==> !CardStartsWith(lines[i], text)
    ensures r.None? ==> forall i :: lo <= i < hi ==> !CardStartsWith(lines[i], text)
    decreases hi - lo
  {
    if lo == hi then None
    else if CardStartsWith(lines[lo], text) then Some(lo)
    else FindPrefix(lines, text, lo + 1, hi)
  }

  /** The first line of the column's section that carries this card. */
  function Locate(lines: Lines, column: string, text: string): (r: Option<nat>)
    ensures r.Some? ==> r.value < |lines| && CardMatches(lines[r.value], text)
  {
    match FindHeading(lines, column)
    case None => None
    case Some(h) =>
      var start := SectionStart(lines, h);
      FindCard(lines, text, start, SectionEnd(lines, start))
  }

  /** `_move_card`: the new lines and whether the card was found. */
  function MoveCard(lines: Lines, text: string, source: string, target: string, done: Option<bool>)
    : Result<(Lines, bool), EditError>
  {
    match Locate(lines, source, text)
    case None => Ok((lines, false))
    case Some(i) =>
      var ticked := if done.Some? then done.value else lines[i][3] != ' ';
      match AddCard(DropLine(lines, i), target, Card(text, ticked))
      case Err(e) => Err(e)
      case Ok(moved) => Ok((moved, true))
  }

  /** What is left of a line after the deletion's match: the text and the blanks behind it. */
  function AfterMatch(line: string, text: string): string
    requires CardStartsWith(line, text)
  {
    SkipBlanks(line[6..][|text|..])
  }

  function SkipBlanks(s: string): (r: string)
    ensures |r| <= |s|
    ensures r == "" <==> Blank(s)
  {
    if s != "" && IsBlank(s[0]) then
      assert Blank(s) ==> forall i :: 0 <= i < |s| - 1 ==> s[1..][i] == s[i + 1];
      assert forall i :: 1 <= i < |s| ==> s[i] == s[1..][i - 1];
      SkipBlanks(s[1..])
    else s
  }

  lemma {:induction false} SkipIsSuffix(s: string)
    ensures SkipBlanks(s) == s[|s| - |SkipBlanks(s)|..]
  {
    if s != "" && IsBlank(s[0]) {
      SkipIsSuffix(s[1..]);
    }
  }

  /** The lines a deletion searches: the column's section, or all of them. */
  function Scope(lines: Lines, column: Option<string>): (r: Option<(nat, nat)>)
    ensures r.Some? ==> r.value.0 <= r.value.1 <= |lines|
  {
    if column.None? then Some((0, |lines|))
    else match FindHeading(lines, column.value)
      case None => None
      case Some(h) => Some((SectionStart(lines, h), SectionEnd(lines, SectionStart(lines, h))))
  }

  /** The line a deletion works on: the first in its scope that starts with this card. */
  function LocatePrefix(lines: Lines, text: string, column: Option<string>): (r: Option<nat>)
    ensures r.Some? ==> r.value < |lines| && CardStartsWith(lines[r.value], text)
  {
    match Scope(lines, column)
    case None => None
    case Some((lo, hi)) => FindPrefix(lines, text, lo, hi)
  }

  /** `_delete_card`: no end anchor, so the match may stop inside a longer line. */
  function DeleteCard(lines: Lines, text: string, column: Option<string>): (Lines, bool) {
    match LocatePrefix(lines, text, column)
    case None => (lines, false)
    case Some(i) =>
      var rest := AfterMatch(lines[i], text);
      (if rest == "" then DropLine(lines, i) else lines[i := rest], true)
  }
}
