/** The board of the kanban widget: an ordered list of columns, each holding an ordered
    list of cards, and the pure column updates that the event handlers hand to
    `setColumns`. */
module Board {

  import opened Multisets

  /** A card `{id, label}`; `label` is a reserved word in Dafny, so the label is `text`. */
  datatype Card = Card(id: string, text: string)

  datatype Column = Column(name: string, columnId: string, cards: seq<Card>)

  /** The column that receives new cards ("Upcoming"). */
  const SourceColumnId: string := "column-a"

  /** The column whose cards can be deleted ("Finished"). */
  const SinkColumnId: string := "column-b"

  /** The board used when nothing was saved. */
  const InitialColumns: seq<Column> := [
    Column("Upcoming", "column-a", [Card("a", "Buy cat food"), Card("b", "File taxes")]),
    Column("Finished", "column-b", [Card("c", "Buy Amina's birthday present"),
                                    Card("d", "Schedule haircut")])
  ]

  // ---------------------------------------------------------------------------------------
  // Views of the board

  function Ids(cards: seq<Card>): seq<string> {
    seq(|cards|, k requires 0 <= k < |cards| => cards[k].id)
  }

  /** `cards.some(card => card.id === id)` */
  predicate HasCard(cards: seq<Card>, id: string) {
    id in Ids(cards)
  }

  function ColumnIds(col: Column): multiset<string> {
    multiset(Ids(col.cards))
  }

  /** The multiset of card ids across all columns. */
  function BoardIds(cols: seq<Column>): multiset<string> {
    if cols == [] then multiset{} else ColumnIds(cols[0]) + BoardIds(cols[1..])
  }

  /** Some column holds a card with this id. */
  predicate OnBoard(cols: seq<Column>, id: string) {
    exists i :: 0 <= i < |cols| && HasCard(cols[i].cards, id)
  }

  predicate HasColumn(cols: seq<Column>, columnId: string) {
    exists i :: 0 <= i < |cols| && cols[i].columnId == columnId
  }

  /** No card id occurs twice on the board. */
  ghost predicate UniqueIds(cols: seq<Column>) {
    forall x :: BoardIds(cols)[x] <= 1
  }

  predicate UniqueColumnIds(cols: seq<Column>) {
    forall i, j :: 0 <= i < j < |cols| ==> cols[i].columnId != cols[j].columnId
  }

  /** The board invariant: card ids and column ids are unique. */
  ghost predicate WellFormed(cols: seq<Column>) {
    UniqueIds(cols) && UniqueColumnIds(cols)
  }

  /** The card list with the card at position `k` taken out. */
  function RemoveAt(cards: seq<Card>, k: nat): seq<Card>
    requires k < |cards|
  {
    cards[..k] + cards[k + 1..]
  }

  // ---------------------------------------------------------------------------------------
  // The operations

  /** `cards.filter(card => card.id !== id)` */
  function WithoutCard(cards: seq<Card>, id: string): (r: seq<Card>)
    ensures |r| <= |cards|
    ensures forall k :: 0 <= k < |r| ==> r[k].id != id
  {
    if cards == [] then []
    else
      assert cards == [cards[0]] + cards[1..];
      (if cards[0].id == id then [] else [cards[0]]) + WithoutCard(cards[1..], id)
  }

  /** `prev.find(col => col.cards.some(card => card.id === id))`, as the index of the
      column found. */
  function SourceIndex(cols: seq<Column>, id: string): (s: nat)
    requires OnBoard(cols, id)
    ensures s < |cols| && HasCard(cols[s].cards, id)
    ensures forall j :: 0 <= j < s ==> !HasCard(cols[j].cards, id)
  {
    if HasCard(cols[0].cards, id) then 0
    else
      assert OnBoard(cols[1..], id) by {
        var i :| 0 <= i < |cols| && HasCard(cols[i].cards, id);
        assert cols[1..][i - 1] == cols[i];
      }
      1 + SourceIndex(cols[1..], id)
  }

  /** `cards.find(card => card.id === id)`: the first card with this id. */
  function FindCard(cards: seq<Card>, id: string): (c: Card)
    requires HasCard(cards, id)
    ensures c.id == id
    ensures exists k :: 0 <= k < |cards| && cards[k] == c
                     && forall j :: 0 <= j < k ==> cards[j].id != id
  {
    if cards[0].id == id then
      assert cards[0] in cards;
      cards[0]
    else
      assert HasCard(cards[1..], id) by {
        var k :| 0 <= k < |cards| && Ids(cards)[k] == id;
        assert Ids(cards[1..])[k - 1] == id;
      }
      var c := FindCard(cards[1..], id);
      ghost var k :| 0 <= k < |cards[1..]| && cards[1..][k] == c
                   && forall j :: 0 <= j < k ==> cards[1..][j].id != id;
      assert cards[k + 1] == c;
      assert forall j :: 0 <= j < k + 1 ==> cards[j].id != id by {
        forall j | 0 <= j < k + 1 ensures cards[j].id != id {
          if j > 0 { assert cards[j] == cards[1..][j - 1]; }
        }
      }
      c
  }

  /** The column update of `handleAddCard`: append `card` to every column whose id is
      `column-a`. */
  function AppendToSource(cols: seq<Column>, card: Card): (r: seq<Column>)
    ensures |r| == |cols|
    ensures forall i :: 0 <= i < |cols| ==>
              r[i].name == cols[i].name && r[i].columnId == cols[i].columnId
  {
    seq(|cols|, i requires 0 <= i < |cols| =>
      if cols[i].columnId == SourceColumnId then cols[i].(cards := cols[i].cards + [card])
      else cols[i])
  }

  /** The column update of `handleDeleteCard`: filter the id out of every column whose id is
      `column-b`. */
  function DeleteCard(cols: seq<Column>, id: string): (r: seq<Column>)
    ensures |r| == |cols|
    ensures forall i :: 0 <= i < |cols| ==>
              r[i].name == cols[i].name && r[i].columnId == cols[i].columnId
    ensures forall i :: 0 <= i < |cols| && cols[i].columnId != SinkColumnId ==> r[i] == cols[i]
    ensures forall i :: 0 <= i < |cols| && cols[i].columnId == SinkColumnId ==>
              !HasCard(r[i].cards, id) && |r[i].cards| <= |cols[i].cards|
  {
    seq(|cols|, i requires 0 <= i < |cols| =>
      if cols[i].columnId == SinkColumnId then cols[i].(cards := WithoutCard(cols[i].cards, id))
      else cols[i])
  }

  /** The column update of `handleMouseEnterColumn` while `id` is being dragged: find the
      column holding the card; if it is the target, keep the board; otherwise filter the
      card out of that column and append it to the target. The caller must make sure the
      card is on the board (the handler dereferences the column found). */
  function EnterColumn(cols: seq<Column>, id: string, target: string): (r: seq<Column>)
    requires OnBoard(cols, id)
    ensures |r| == |cols|
    ensures forall i :: 0 <= i < |cols| ==>
              r[i].name == cols[i].name && r[i].columnId == cols[i].columnId
  {
    var source := cols[SourceIndex(cols, id)];
    if source.columnId == target then cols
    else MoveCard(cols, id, source.columnId, target, FindCard(source.cards, id))
  }

  /** The `prev.map` of `handleMouseEnterColumn`: filter `id` out of the columns named
      `from` and append `moved` to the columns named `target`. */
  function MoveCard(cols: seq<Column>, id: string, from: string, target: string, moved: Card)
    : (r: seq<Column>)
    ensures |r| == |cols|
    ensures forall i :: 0 <= i < |cols| ==>
              r[i].name == cols[i].name && r[i].columnId == cols[i].columnId
  {
    seq(|cols|, i requires 0 <= i < |cols| =>
      if cols[i].columnId == from then cols[i].(cards := WithoutCard(cols[i].cards, id))
      else if cols[i].columnId == target then cols[i].(cards := cols[i].cards + [moved])
      else cols[i])
  }

  // ---------------------------------------------------------------------------------------
  // Filtering

  /** Filtering keeps exactly the cards whose id differs. */
  lemma {:induction false} WithoutCardMembers(cards: seq<Card>, id: string, c: Card)
    ensures c in WithoutCard(cards, id) <==> c in cards && c.id != id
  {
    if cards != [] {
      WithoutCardMembers(cards[1..], id, c);
      assert cards == [cards[0]] + cards[1..];
    }
  }

  /** Filtering distributes over concatenation, so it keeps the order of what it keeps. */
  lemma {:induction false} WithoutCardAppend(a: seq<Card>, b: seq<Card>, id: string)
    ensures WithoutCard(a + b, id) == WithoutCard(a, id) + WithoutCard(b, id)
  {
    if a != [] {
      var head := if a[0].id == id then [] else [a[0]];
      assert (a + b)[0] == a[0];
      assert (a + b)[1..] == a[1..] + b;
      WithoutCardAppend(a[1..], b, id);
      calc {
        WithoutCard(a + b, id);
        head + WithoutCard(a[1..] + b, id);
        head + (WithoutCard(a[1..], id) + WithoutCard(b, id));
        (head + WithoutCard(a[1..], id)) + WithoutCard(b, id);
        WithoutCard(a, id) + WithoutCard(b, id);
      }
    } else {
      assert a + b == b;
    }
  }

  /** Filtering an id that no card has changes nothing. */
  lemma {:induction false} WithoutCardAbsent(cards: seq<Card>, id: string)
    requires !HasCard(cards, id)
    ensures WithoutCard(cards, id) == cards
  {
    if cards != [] {
      assert cards[0].id == Ids(cards)[0];
      assert Ids(cards[1..]) == Ids(cards)[1..];
      WithoutCardAbsent(cards[1..], id);
      assert cards == [cards[0]] + cards[1..];
    }
  }

  /** Filtering removes every occurrence of the id and nothing else. */
  lemma {:induction false} WithoutCardIds(cards: seq<Card>, id: string)
    ensures multiset(Ids(WithoutCard(cards, id))) == multiset(Ids(cards))[id := 0]
  {
    if cards != [] {
      var rest := WithoutCard(cards[1..], id);
      var head := if cards[0].id == id then [] else [cards[0]];
      WithoutCardIds(cards[1..], id);
      IdsAppend([cards[0]], cards[1..]);
      IdsAppend(head, rest);
      ZeroUnion(multiset{cards[0].id}, multiset(Ids(cards[1..])), id);
      ZeroSingle(cards[0].id, id);
      assert cards == [cards[0]] + cards[1..];
      assert Ids([cards[0]]) == [cards[0].id];
      assert multiset(Ids(head)) == multiset{cards[0].id}[id := 0];
    }
  }

  lemma IdsAppend(a: seq<Card>, b: seq<Card>)
    ensures Ids(a + b) == Ids(a) + Ids(b)
  {
  }

  /** Appending a card adds its id once. */
  lemma IdsSnoc(cards: seq<Card>, c: Card)
    ensures multiset(Ids(cards + [c])) == multiset(Ids(cards)) + multiset{c.id}
  {
    IdsAppend(cards, [c]);
    assert Ids([c]) == [c.id];
  }

  /** Taking out the card at position `k` removes its id once. */
  lemma IdsRemoveAt(cards: seq<Card>, k: nat)
    requires k < |cards|
    ensures multiset(Ids(cards)) == multiset(Ids(RemoveAt(cards, k))) + multiset{cards[k].id}
  {
    assert cards == cards[..k] + [cards[k]] + cards[k + 1..];
    IdsAppend(cards[..k] + [cards[k]], cards[k + 1..]);
    IdsAppend(cards[..k], [cards[k]]);
    IdsAppend(cards[..k], cards[k + 1..]);
    assert Ids([cards[k]]) == [cards[k].id];
  }

  /** Two cards with the same id make that id's count at least two. */
  lemma SameIdTwice(cards: seq<Card>, j: nat, k: nat)
    requires j < k < |cards| && cards[j].id == cards[k].id
    ensures multiset(Ids(cards))[cards[k].id] >= 2
  {
    var s := Ids(cards);
    assert s == s[..k] + s[k..];
    assert s[j] in s[..k];
    assert s[k] == s[k..][0];
  }

  /** When the card at position `k` is the only one with its id, filtering that id out
      takes out exactly that card. */
  lemma {:induction false} WithoutCardAt(cards: seq<Card>, k: nat)
    requires k < |cards|
    requires forall j :: 0 <= j < |cards| && j != k ==> cards[j].id != cards[k].id
    ensures WithoutCard(cards, cards[k].id) == RemoveAt(cards, k)
  {
    var id := cards[k].id;
    var tail := cards[1..];
    assert WithoutCard(cards, id)
        == (if cards[0].id == id then [] else [cards[0]]) + WithoutCard(tail, id);
    if k == 0 {
      assert !HasCard(tail, id) by {
        forall j | 0 <= j < |tail| ensures Ids(tail)[j] != id {
          assert tail[j] == cards[j + 1];
        }
      }
      WithoutCardAbsent(tail, id);
      assert RemoveAt(cards, 0) == tail;
    } else {
      assert tail[k - 1] == cards[k];
      assert forall j :: 0 <= j < |tail| ==> tail[j] == cards[j + 1];
      WithoutCardAt(tail, k - 1);
      assert RemoveAt(cards, k) == [cards[0]] + RemoveAt(tail, k - 1);
    }
  }

  /** Under a count of one, filtering out the id of the card at position `k` removes exactly
      that card and keeps the others in order. */
  lemma WithoutUniqueCard(cards: seq<Card>, k: nat)
    requires k < |cards|
    requires multiset(Ids(cards))[cards[k].id] <= 1
    ensures WithoutCard(cards, cards[k].id) == RemoveAt(cards, k)
  {
    forall j | 0 <= j < |cards| && j != k ensures cards[j].id != cards[k].id {
      if cards[j].id == cards[k].id {
        if j < k { SameIdTwice(cards, j, k); } else { SameIdTwice(cards, k, j); }
      }
    }
    WithoutCardAt(cards, k);
  }

  // ---------------------------------------------------------------------------------------
  // Counting ids on the board

  /** Replacing one column changes the board's ids by exactly that column's ids. */
  lemma {:induction false} BoardIdsUpdate(cols: seq<Column>, i: nat, c: Column)
    requires i < |cols|
    ensures BoardIds(cols[i := c]) + ColumnIds(cols[i]) == BoardIds(cols) + ColumnIds(c)
  {
    var r := cols[i := c];
    if i == 0 {
      assert r[1..] == cols[1..];
      UnionSwap(ColumnIds(c), BoardIds(cols[1..]), ColumnIds(cols[0]));
    } else {
      var tail := cols[1..];
      assert r[0] == cols[0];
      assert tail[i - 1] == cols[i];
      assert r[1..] == tail[i - 1 := c];
      BoardIdsUpdate(tail, i - 1, c);
      UnionShift(ColumnIds(cols[0]), BoardIds(tail[i - 1 := c]), ColumnIds(cols[i]), BoardIds(tail), ColumnIds(c));
    }
  }

  /** Each column's ids are among the board's ids. */
  lemma {:induction false} ColumnIdsWithinBoard(cols: seq<Column>, i: nat)
    requires i < |cols|
    ensures ColumnIds(cols[i]) <= BoardIds(cols)
  {
    if i > 0 {
      ColumnIdsWithinBoard(cols[1..], i - 1);
    }
  }

  /** A card id is on the board exactly when some column holds it. */
  lemma {:induction false} OnBoardIffCounted(cols: seq<Column>, id: string)
    ensures OnBoard(cols, id) <==> id in BoardIds(cols)
  {
    if cols != [] {
      OnBoardIffCounted(cols[1..], id);
      if OnBoard(cols[1..], id) {
        var i :| 0 <= i < |cols| - 1 && HasCard(cols[1..][i].cards, id);
        assert HasCard(cols[i + 1].cards, id);
      }
      if OnBoard(cols, id) && !HasCard(cols[0].cards, id) {
        var i :| 0 <= i < |cols| && HasCard(cols[i].cards, id);
        assert HasCard(cols[1..][i - 1].cards, id);
      }
    }
  }

  /** Under the board invariant, the column at `s` holds the id of its card at position `k`
      at that position only. */
  lemma UniqueInColumn(cols: seq<Column>, s: nat, k: nat)
    requires UniqueIds(cols) && s < |cols| && k < |cols[s].cards|
    ensures multiset(Ids(cols[s].cards))[cols[s].cards[k].id] <= 1
  {
    ColumnIdsWithinBoard(cols, s);
    assert BoardIds(cols)[cols[s].cards[k].id] <= 1;
  }

  /** Under the board invariant, column `s` is the only column holding the id of its card
      at position `k`. */
  lemma SourceIsOnlyHolder(cols: seq<Column>, s: nat, k: nat)
    requires UniqueIds(cols) && s < |cols| && k < |cols[s].cards|
    ensures forall j :: 0 <= j < |cols| && j != s ==> !HasCard(cols[j].cards, cols[s].cards[k].id)
  {
    var id := cols[s].cards[k].id;
    var c := cols[s].(cards := []);
    var rest := cols[s := c];
    assert Ids(c.cards) == [];
    BoardIdsUpdate(cols, s, c);
    assert Ids(cols[s].cards)[k] == id;
    assert BoardIds(rest)[id] == 0 by {
      assert (BoardIds(rest) + ColumnIds(cols[s]))[id] == BoardIds(cols)[id];
    }
    forall j | 0 <= j < |cols| && j != s ensures !HasCard(cols[j].cards, id) {
      ColumnIdsWithinBoard(rest, j);
      assert rest[j] == cols[j];
    }
  }

  // ---------------------------------------------------------------------------------------
  // The seed board

  /** The seed board has the two columns `column-a` and `column-b` and four distinct card
      ids, so it satisfies the board invariant. */
  lemma InitialColumnsWellFormed()
    ensures |InitialColumns| == 2
    ensures InitialColumns[0].columnId == SourceColumnId
    ensures InitialColumns[1].columnId == SinkColumnId
    ensures BoardIds(InitialColumns) == multiset{"a", "b", "c", "d"}
    ensures WellFormed(InitialColumns)
  {
    var cols := InitialColumns;
    assert Ids(cols[0].cards) == ["a", "b"];
    assert Ids(cols[1].cards) == ["c", "d"];
    assert cols[1..][1..] == [];
    assert BoardIds(cols) == multiset{"a", "b"} + (multiset{"c", "d"} + multiset{});
  }

  // ---------------------------------------------------------------------------------------
  // Adding

  /** With one `column-a` column, adding appends the card to the end of that column,
      leaves every other column alone and adds exactly the new id to the board. */
  lemma AppendToSourceAppends(cols: seq<Column>, a: nat, card: Card)
    requires UniqueColumnIds(cols) && a < |cols| && cols[a].columnId == SourceColumnId
    ensures AppendToSource(cols, card) == cols[a := cols[a].(cards := cols[a].cards + [card])]
    ensures BoardIds(AppendToSource(cols, card)) == BoardIds(cols) + multiset{card.id}
  {
    var col := cols[a].(cards := cols[a].cards + [card]);
    var r := AppendToSource(cols, card);
    assert r == cols[a := col] by {
      forall i | 0 <= i < |cols| ensures r[i] == cols[a := col][i] {
        if i != a {
          assert cols[i].columnId != cols[a].columnId;
        }
      }
    }
    assert BoardIds(r) == BoardIds(cols) + multiset{card.id} by {
      BoardIdsUpdate(cols, a, col);
      IdsSnoc(cols[a].cards, card);
      CancelAdd(BoardIds(r), BoardIds(cols), ColumnIds(cols[a]), multiset{card.id});
    }
  }

  /** Adding a card with a fresh id keeps the board invariant. */
  lemma AppendToSourceKeepsInvariant(cols: seq<Column>, card: Card)
    requires WellFormed(cols) && card.id !in BoardIds(cols)
    ensures WellFormed(AppendToSource(cols, card))
  {
    var r := AppendToSource(cols, card);
    if a :| 0 <= a < |cols| && cols[a].columnId == SourceColumnId {
      AppendToSourceAppends(cols, a, card);
      forall x ensures BoardIds(r)[x] <= 1 {
        assert BoardIds(r)[x] == BoardIds(cols)[x] + multiset{card.id}[x];
      }
    } else {
      AppendToSourceWithoutSource(cols, card);
    }
    assert UniqueColumnIds(r) by {
      assert forall i :: 0 <= i < |cols| ==> r[i].columnId == cols[i].columnId;
    }
  }

  /** Without a `column-a` column, adding changes nothing. */
  lemma AppendToSourceWithoutSource(cols: seq<Column>, card: Card)
    requires !HasColumn(cols, SourceColumnId)
    ensures AppendToSource(cols, card) == cols
  {
  }

  // ---------------------------------------------------------------------------------------
  // Deleting

  /** Deleting an id that no `column-b` column holds changes nothing, so deleting a card
      that is only in `column-a` leaves the board as it is. */
  lemma DeleteAbsentIsNoop(cols: seq<Column>, id: string)
    requires forall i :: 0 <= i < |cols| && cols[i].columnId == SinkColumnId ==>
               !HasCard(cols[i].cards, id)
    ensures DeleteCard(cols, id) == cols
  {
    forall i | 0 <= i < |cols| && cols[i].columnId == SinkColumnId
      ensures WithoutCard(cols[i].cards, id) == cols[i].cards
    {
      WithoutCardAbsent(cols[i].cards, id);
    }
  }

  /** On a well-formed board whose `column-b` column holds the card at position `k`,
      deleting removes exactly that card, keeps the other cards of the column in order,
      leaves every other column alone and keeps the board invariant. */
  lemma DeleteCardRemovesOne(cols: seq<Column>, b: nat, k: nat)
    requires WellFormed(cols) && b < |cols| && cols[b].columnId == SinkColumnId
    requires k < |cols[b].cards|
    ensures DeleteCard(cols, cols[b].cards[k].id)
         == cols[b := cols[b].(cards := RemoveAt(cols[b].cards, k))]
    ensures BoardIds(DeleteCard(cols, cols[b].cards[k].id))
         == BoardIds(cols) - multiset{cols[b].cards[k].id}
    ensures WellFormed(DeleteCard(cols, cols[b].cards[k].id))
  {
    var id := cols[b].cards[k].id;
    var col := cols[b].(cards := RemoveAt(cols[b].cards, k));
    var r := DeleteCard(cols, id);
    UniqueInColumn(cols, b, k);
    WithoutUniqueCard(cols[b].cards, k);
    forall i | 0 <= i < |cols| ensures r[i] == cols[b := col][i] {
      if i != b {
        assert cols[i].columnId != cols[b].columnId;
      }
    }
    assert r == cols[b := col];
    BoardIdsUpdate(cols, b, col);
    IdsRemoveAt(cols[b].cards, k);
    CancelRemove(BoardIds(r), BoardIds(cols), ColumnIds(col), multiset{id});
    assert UniqueColumnIds(r) by {
      assert forall i :: 0 <= i < |cols| ==> r[i].columnId == cols[i].columnId;
    }
  }

  /** Deleting any id keeps the board invariant. */
  lemma DeleteCardKeepsInvariant(cols: seq<Column>, id: string)
    requires WellFormed(cols)
    ensures WellFormed(DeleteCard(cols, id))
  {
    if b :| 0 <= b < |cols| && cols[b].columnId == SinkColumnId && HasCard(cols[b].cards, id) {
      var k :| 0 <= k < |cols[b].cards| && Ids(cols[b].cards)[k] == id;
      DeleteCardRemovesOne(cols, b, k);
    } else {
      DeleteAbsentIsNoop(cols, id);
    }
  }

  // ---------------------------------------------------------------------------------------
  // Moving

  /** On a board with unique card ids, entering the column that already holds the dragged
      card keeps the board, however often it is entered. */
  lemma EnterHoldingColumnIsNoop(cols: seq<Column>, i: nat, k: nat)
    requires UniqueIds(cols) && i < |cols| && k < |cols[i].cards|
    ensures OnBoard(cols, cols[i].cards[k].id)
    ensures EnterColumn(cols, cols[i].cards[k].id, cols[i].columnId) == cols
  {
    var id := cols[i].cards[k].id;
    assert Ids(cols[i].cards)[k] == id;
    SourceIsOnlyHolder(cols, i, k);
    assert SourceIndex(cols, id) == i;
  }

  /** On a well-formed board, moving the card at position `k` of column `s` to a different
      existing column `t` takes it out of `s` (the other cards keep their order), makes it
      the last card of `t` and leaves every other column alone. */
  lemma EnterColumnMoves(cols: seq<Column>, s: nat, k: nat, t: nat)
    requires WellFormed(cols) && s < |cols| && k < |cols[s].cards| && t < |cols| && s != t
    ensures OnBoard(cols, cols[s].cards[k].id)
    ensures EnterColumn(cols, cols[s].cards[k].id, cols[t].columnId)
         == cols[s := cols[s].(cards := RemoveAt(cols[s].cards, k))]
                [t := cols[t].(cards := cols[t].cards + [cols[s].cards[k]])]
  {
    var cards := cols[s].cards;
    var id := cards[k].id;
    assert Ids(cards)[k] == id;
    assert OnBoard(cols, id);
    SourceIsOnlyHolder(cols, s, k);
    assert SourceIndex(cols, id) == s;
    UniqueInColumn(cols, s, k);
    WithoutUniqueCard(cards, k);
    var moved := FindCard(cards, id);
    assert moved == cards[k] by {
      var m :| 0 <= m < |cards| && cards[m] == moved;
      if m < k { SameIdTwice(cards, m, k); }
      if k < m { SameIdTwice(cards, k, m); }
    }
    var src := cols[s].(cards := RemoveAt(cards, k));
    var dst := cols[t].(cards := cols[t].cards + [moved]);
    var r := MoveCard(cols, id, cols[s].columnId, cols[t].columnId, moved);
    forall i | 0 <= i < |cols| ensures r[i] == cols[s := src][t := dst][i] {
      if i != s { assert cols[i].columnId != cols[s].columnId; }
      if i != t { assert cols[i].columnId != cols[t].columnId; }
    }
    assert r == cols[s := src][t := dst];
  }

  /** A move between two existing columns of a well-formed board keeps the multiset of card
      ids, and hence the board invariant: it never duplicates or drops a card. */
  lemma EnterColumnConserves(cols: seq<Column>, id: string, target: string)
    requires WellFormed(cols) && OnBoard(cols, id) && HasColumn(cols, target)
    ensures BoardIds(EnterColumn(cols, id, target)) == BoardIds(cols)
    ensures WellFormed(EnterColumn(cols, id, target))
  {
    var r := EnterColumn(cols, id, target);
    var s := SourceIndex(cols, id);
    var t :| 0 <= t < |cols| && cols[t].columnId == target;
    if s != t {
      var cards := cols[s].cards;
      var k :| 0 <= k < |cards| && Ids(cards)[k] == id;
      var src := cols[s].(cards := RemoveAt(cards, k));
      var dst := cols[t].(cards := cols[t].cards + [cards[k]]);
      var mid := cols[s := src];
      assert r == mid[t := dst] by {
        EnterColumnMoves(cols, s, k, t);
      }
      assert BoardIds(mid) == BoardIds(cols) - multiset{id} by {
        BoardIdsUpdate(cols, s, src);
        IdsRemoveAt(cards, k);
        CancelRemove(BoardIds(mid), BoardIds(cols), ColumnIds(src), multiset{id});
      }
      assert BoardIds(r) == BoardIds(mid) + multiset{id} by {
        BoardIdsUpdate(mid, t, dst);
        IdsSnoc(cols[t].cards, cards[k]);
        assert mid[t] == cols[t];
        CancelAdd(BoardIds(r), BoardIds(mid), ColumnIds(cols[t]), multiset{id});
      }
      assert multiset{id} <= BoardIds(cols) by {
        OnBoardIffCounted(cols, id);
      }
      RemoveAdd(BoardIds(cols), multiset{id});
      assert UniqueColumnIds(r) by {
        assert forall i :: 0 <= i < |cols| ==> r[i].columnId == cols[i].columnId;
      }
    }
  }

  /** Entering the same column twice gives the board that entering it once gives. */
  lemma EnterColumnIdempotent(cols: seq<Column>, id: string, target: string)
    requires WellFormed(cols) && OnBoard(cols, id) && HasColumn(cols, target)
    ensures OnBoard(EnterColumn(cols, id, target), id)
    ensures EnterColumn(EnterColumn(cols, id, target), id, target) == EnterColumn(cols, id, target)
  {
    var r := EnterColumn(cols, id, target);
    var s := SourceIndex(cols, id);
    var t :| 0 <= t < |cols| && cols[t].columnId == target;
    if s != t {
      var k :| 0 <= k < |cols[s].cards| && Ids(cols[s].cards)[k] == id;
      EnterColumnMoves(cols, s, k, t);
      EnterColumnConserves(cols, id, target);
      var n := |cols[t].cards|;
      assert r[t].cards[n] == cols[s].cards[k];
      assert Ids(r[t].cards)[n] == id;
      SourceIsOnlyHolder(r, t, n);
      assert SourceIndex(r, id) == t;
    }
  }

  /** As written, entering a column id that no column has filters the card out and appends
      it nowhere: the card is lost. */
  lemma EnterMissingColumnDropsCard(cols: seq<Column>, id: string, target: string)
    requires WellFormed(cols) && OnBoard(cols, id) && !HasColumn(cols, target)
    ensures BoardIds(EnterColumn(cols, id, target)) == BoardIds(cols) - multiset{id}
  {
    var s := SourceIndex(cols, id);
    var cards := cols[s].cards;
    var k :| 0 <= k < |cards| && Ids(cards)[k] == id;
    var src := cols[s].(cards := RemoveAt(cards, k));
    UniqueInColumn(cols, s, k);
    WithoutUniqueCard(cards, k);
    var r := EnterColumn(cols, id, target);
    forall i | 0 <= i < |cols| ensures r[i] == cols[s := src][i] {
      if i != s { assert cols[i].columnId != cols[s].columnId; }
    }
    assert r == cols[s := src];
    BoardIdsUpdate(cols, s, src);
    IdsRemoveAt(cards, k);
    CancelRemove(BoardIds(r), BoardIds(cols), ColumnIds(src), multiset{id});
  }

  /** On the seed board, dragging card "a" into `column-b` and entering `column-b` again
      leaves "a" exactly once, as the last card of `column-b`. */
  lemma SeedDragIntoFinished()
    ensures OnBoard(InitialColumns, "a")
    ensures OnBoard(EnterColumn(InitialColumns, "a", "column-b"), "a")
    ensures EnterColumn(InitialColumns, "a", "column-b")
         == [Column("Upcoming", "column-a", [Card("b", "File taxes")]),
             Column("Finished", "column-b", [Card("c", "Buy Amina's birthday present"),
                                             Card("d", "Schedule haircut"),
                                             Card("a", "Buy cat food")])]
    ensures EnterColumn(EnterColumn(InitialColumns, "a", "column-b"), "a", "column-b")
         == EnterColumn(InitialColumns, "a", "column-b")
  {
    var cols := InitialColumns;
    var src := cols[0].(cards := RemoveAt(cols[0].cards, 0));
    var dst := cols[1].(cards := cols[1].cards + [cols[0].cards[0]]);
    InitialColumnsWellFormed();
    assert EnterColumn(cols, "a", "column-b") == cols[0 := src][1 := dst] by {
      EnterColumnMoves(cols, 0, 0, 1);
    }
    assert src == Column("Upcoming", "column-a", [Card("b", "File taxes")]);
    assert dst.cards == [Card("c", "Buy Amina's birthday present"), Card("d", "Schedule haircut"),
                         Card("a", "Buy cat food")];
    assert cols[0 := src][1 := dst] == [src, dst];
    EnterColumnIdempotent(cols, "a", "column-b");
  }

  /** As written, a move does not conserve cards when ids repeat: both cards "x" leave
      `column-a`, and only the first reaches `column-b`. */
  lemma DuplicateIdsLoseCard()
    ensures var cols := [Column("Upcoming", "column-a", [Card("x", "p"), Card("x", "q")]),
                         Column("Finished", "column-b", [])];
            OnBoard(cols, "x")
            && EnterColumn(cols, "x", "column-b")
               == [Column("Upcoming", "column-a", []),
                   Column("Finished", "column-b", [Card("x", "p")])]
  {
    var cards := [Card("x", "p"), Card("x", "q")];
    var cols := [Column("Upcoming", "column-a", cards), Column("Finished", "column-b", [])];
    assert Ids(cards)[0] == "x";
    assert HasCard(cols[0].cards, "x");
    assert SourceIndex(cols, "x") == 0;
    assert FindCard(cards, "x") == Card("x", "p");
    assert WithoutCard(cards, "x") == [] by {
      assert cards[1..] == [Card("x", "q")];
      assert WithoutCard(cards[1..], "x") == [];
    }
    var r := EnterColumn(cols, "x", "column-b");
    assert r[0] == Column("Upcoming", "column-a", []);
    assert r[1] == Column("Finished", "column-b", [Card("x", "p")]);
  }
}
