/** What the board edits of src/obsidian_mcp/tools/kanban.py should do to the parsed columns. */
module KanbanColumns {
  import opened Text
  import opened Kanban

  function AddToFirst(columns: seq<Column>, name: string, card: Card): seq<Column> {
    if columns == [] then []
    else if columns[0].name == name then [columns[0].(cards := [card] + columns[0].cards)] + columns[1..]
    else [columns[0]] + AddToFirst(columns[1..], name, card)
  }

  /** Without the first card with this text. */
  function Without(cards: seq<Card>, text: string): seq<Card> {
    if cards == [] then [] else if cards[0].text == text then cards[1..] else [cards[0]] + Without(cards[1..], text)
  }

  predicate HasText(cards: seq<Card>, text: string) {
    cards != [] && (cards[0].text == text || HasText(cards[1..], text))
  }

  /** The tick of the first card with this text. */
  function FirstText(cards: seq<Card>, text: string): Option<bool> {
    if cards == [] then None else if cards[0].text == text then Some(cards[0].done) else FirstText(cards[1..], text)
  }

  function RemoveFromFirst(columns: seq<Column>, name: string, text: string): seq<Column> {
    if columns == [] then []
    else if columns[0].name == name then [columns[0].(cards := Without(columns[0].cards, text))] + columns[1..]
    else [columns[0]] + RemoveFromFirst(columns[1..], name, text)
  }

  function FirstNamed(columns: seq<Column>, name: string): Option<Column> {
    if columns == [] then None
    else if columns[0].name == name then Some(columns[0])
    else FirstNamed(columns[1..], name)
  }

  /** The first column with this name has a card with this text. */
  predicate Holds(columns: seq<Column>, name: string, text: string) {
    FirstNamed(columns, name).Some? && HasText(FirstNamed(columns, name).value.cards, text)
  }

  /** Without the first card with this text, in whatever column it is. */
  function RemoveAnywhere(columns: seq<Column>, text: string): seq<Column> {
    if columns == [] then []
    else if HasText(columns[0].cards, text)
    then [columns[0].(cards := Without(columns[0].cards, text))] + columns[1..]
    else [columns[0]] + RemoveAnywhere(columns[1..], text)
  }

  predicate HoldsAnywhere(columns: seq<Column>, text: string) {
    columns != [] && (HasText(columns[0].cards, text) || HoldsAnywhere(columns[1..], text))
  }

  /** What a move should do, and answer. */
  function MoveInColumns(columns: seq<Column>, text: string, source: string, target: string, done: Option<bool>)
    : Result<(seq<Column>, bool), EditError>
  {
    if !Holds(columns, source, text) then Ok((columns, false))
    else
      var without := RemoveFromFirst(columns, source, text);
      var was := FirstText(FirstNamed(columns, source).value.cards, text) == Some(true);
      if FirstNamed(without, target).None? then Err(ColumnNotFound)
      else Ok((AddToFirst(without, target, Card(text, if done.Some? then done.value else was)), true))
  }

  /** What a deletion should do. */
  function Removed(columns: seq<Column>, text: string, column: Option<string>): seq<Column> {
    if column.Some? then RemoveFromFirst(columns, column.value, text) else RemoveAnywhere(columns, text)
  }

  /** What it should answer. */
  predicate HoldsIn(columns: seq<Column>, text: string, column: Option<string>) {
    if column.Some? then Holds(columns, column.value, text) else HoldsAnywhere(columns, text)
  }

  lemma {:induction false} AddingChanges(columns: seq<Column>, name: string, card: Card)
    requires FirstNamed(columns, name).Some?
    ensures AddToFirst(columns, name, card) != columns
  {
    var added := AddToFirst(columns, name, card);
    if columns[0].name == name {
      assert |added[0].cards| == |columns[0].cards| + 1;
    } else {
      AddingChanges(columns[1..], name, card);
      assert added[1..] == AddToFirst(columns[1..], name, card);
    }
  }

  lemma AddingToNone(columns: seq<Column>, name: string, card: Card)
    ensures FirstNamed(columns, name).None? ==> AddToFirst(columns, name, card) == columns
  {
  }

  /** From a column with a card added to it both the card and the rest can be told. */
  lemma {:induction false} AddingDecides(a: seq<Column>, b: seq<Column>, name: string, c: Card, d: Card)
    requires FirstNamed(a, name).Some? && FirstNamed(b, name).Some?
    ensures AddToFirst(a, name, c) == AddToFirst(b, name, d) <==> a == b && c == d
  {
    var more, others := AddToFirst(a, name, c), AddToFirst(b, name, d);
    if more == others {
      assert a[0].name == more[0].name == others[0].name == b[0].name;
      if a[0].name == name {
        assert more[0].cards == others[0].cards && more[1..] == others[1..];
        assert more[0].cards[0] == c && more[0].cards[1..] == a[0].cards;
        assert others[0].cards[0] == d && others[0].cards[1..] == b[0].cards;
        assert a == [a[0]] + a[1..] && b == [b[0]] + b[1..];
      } else {
        assert more[1..] == AddToFirst(a[1..], name, c) && others[1..] == AddToFirst(b[1..], name, d);
        AddingDecides(a[1..], b[1..], name, c, d);
        assert a == [a[0]] + a[1..] && b == [b[0]] + b[1..];
      }
    }
  }

  // ---------------------------------------------------------------------------------------
  // The texts of all cards

  function TextsOf(cards: seq<Card>): multiset<string> {
    if cards == [] then multiset{} else multiset{cards[0].text} + TextsOf(cards[1..])
  }

  /** The texts of all cards of a board. */
  function Texts(columns: seq<Column>): multiset<string> {
    if columns == [] then multiset{} else TextsOf(columns[0].cards) + Texts(columns[1..])
  }

  lemma TextsOfMore(card: Card, cards: seq<Card>)
    ensures TextsOf([card] + cards) == multiset{card.text} + TextsOf(cards)
  {
    assert ([card] + cards)[1..] == cards;
  }

  lemma {:induction false} TextsWithout(cards: seq<Card>, text: string)
    ensures if HasText(cards, text) then TextsOf(Without(cards, text)) + multiset{text} == TextsOf(cards)
            else Without(cards, text) == cards
  {
    if cards != [] && cards[0].text != text {
      TextsWithout(cards[1..], text);
      assert Without(cards, text)[1..] == Without(cards[1..], text);
    }
  }

  lemma {:induction false} TextsAfterRemoval(columns: seq<Column>, name: string, text: string)
    ensures var removed := RemoveFromFirst(columns, name, text);
            if Holds(columns, name, text) then Texts(removed) + multiset{text} == Texts(columns)
            else removed == columns
  {
    hide Without, HasText, TextsOf;
    if columns != [] {
      var removed := RemoveFromFirst(columns, name, text);
      if columns[0].name == name {
        TextsWithout(columns[0].cards, text);
        assert removed[1..] == columns[1..];
      } else {
        TextsAfterRemoval(columns[1..], name, text);
        assert removed[1..] == RemoveFromFirst(columns[1..], name, text);
      }
    }
  }

  lemma {:induction false} TextsAfterRemovalAnywhere(columns: seq<Column>, text: string)
    ensures var removed := RemoveAnywhere(columns, text);
            if HoldsAnywhere(columns, text) then Texts(removed) + multiset{text} == Texts(columns)
            else removed == columns
  {
    hide Without, HasText, TextsOf;
    if columns != [] {
      var removed := RemoveAnywhere(columns, text);
      TextsWithout(columns[0].cards, text);
      TextsAfterRemovalAnywhere(columns[1..], text);
      assert removed[1..]
             == if HasText(columns[0].cards, text) then columns[1..] else RemoveAnywhere(columns[1..], text);
    }
  }

  lemma TextsAfterRemoved(columns: seq<Column>, text: string, column: Option<string>)
    ensures var removed := Removed(columns, text, column);
            if HoldsIn(columns, text, column) then Texts(removed) + multiset{text} == Texts(columns)
            else removed == columns
  {
    hide RemoveFromFirst, RemoveAnywhere, Texts, Holds, HoldsAnywhere;
    TextsAfterRemovalAnywhere(columns, text);
    if column.Some? {
      TextsAfterRemoval(columns, column.value, text);
    }
  }

  lemma {:induction false} RemovedKeepsLength(columns: seq<Column>, text: string, column: Option<string>)
    ensures |Removed(columns, text, column)| == |columns|
  {
    hide Without, HasText;
    if columns != [] {
      RemovedKeepsLength(columns[1..], text, column);
    }
  }

  lemma {:induction false} TextsAfterAdding(columns: seq<Column>, name: string, card: Card)
    requires FirstNamed(columns, name).Some?
    ensures Texts(AddToFirst(columns, name, card)) == Texts(columns) + multiset{card.text}
  {
    hide TextsOf;
    var added := AddToFirst(columns, name, card);
    if columns[0].name == name {
      TextsOfMore(card, columns[0].cards);
      assert added[1..] == columns[1..];
    } else {
      TextsAfterAdding(columns[1..], name, card);
      assert added[1..] == AddToFirst(columns[1..], name, card);
    }
  }
}
