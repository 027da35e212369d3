/** The `App` component: the state it keeps with `useState` and the event handlers that
    update it. Each handler is one atomic transition of that state. */
module Component {

  import opened Strings
  import opened Board

  datatype Option<T> = None | Some(value: T)

  /** A pointer position in client coordinates. */
  datatype Point = Point(x: int, y: int)

  class App {
    var columns: seq<Column>
    var draggingId: Option<string>
    var draggingLabel: Option<string>
    var mousePos: Point
    var newCardLabel: string

    /** The drag session invariant: a card id is being dragged exactly when a label is held
        for the floating copy of the card. */
    predicate Valid()
      reads this`draggingId, this`draggingLabel
    {
      draggingId.None? <==> draggingLabel.None?
    }

    /** The initial state: the saved board when there is one, otherwise the seed board; no
        drag, the pointer at the origin and an empty input. */
    constructor (saved: Option<seq<Column>>)
      ensures Valid() && draggingId == None && draggingLabel == None
      ensures columns == if saved.Some? then saved.value else InitialColumns
      ensures mousePos == Point(0, 0) && newCardLabel == ""
      ensures saved.None? ==> WellFormed(columns)
    {
      columns := if saved.Some? then saved.value else InitialColumns;
      draggingId, draggingLabel := None, None;
      mousePos := Point(0, 0);
      newCardLabel := "";
      InitialColumnsWellFormed();
    }

    /** The input's `onChange`: the buffer takes the typed text. */
    method SetNewCardLabel(text: string)
      modifies this`newCardLabel
      ensures newCardLabel == text
    {
      newCardLabel := text;
    }

    /** `handleAddCard`, with `freshId` standing for the id made from the clock. Blank input
        is ignored; otherwise the trimmed text becomes a new card at the end of `column-a` and
        the buffer is cleared. */
    method HandleAddCard(freshId: string)
      requires freshId !in BoardIds(columns)
      modifies this`columns, this`newCardLabel
      ensures Trim(old(newCardLabel)) == [] ==>
                columns == old(columns) && newCardLabel == old(newCardLabel)
      ensures Trim(old(newCardLabel)) != [] ==>
                columns == AppendToSource(old(columns), Card(freshId, Trim(old(newCardLabel))))
                && newCardLabel == ""
      ensures old(WellFormed(columns)) ==> WellFormed(columns)
    {
      var trimmed := Trim(newCardLabel);
      if trimmed == [] {
        return;
      }
      if WellFormed(columns) {
        AppendToSourceKeepsInvariant(columns, Card(freshId, trimmed));
      }
      columns := AppendToSource(columns, Card(freshId, trimmed));
      newCardLabel := "";
    }

    /** `handleDeleteCard`: the id is filtered out of `column-b`. */
    method HandleDeleteCard(cardId: string)
      modifies this`columns
      ensures columns == DeleteCard(old(columns), cardId)
      ensures old(WellFormed(columns)) ==> WellFormed(columns)
    {
      if WellFormed(columns) {
        DeleteCardKeepsInvariant(columns, cardId);
      }
      columns := DeleteCard(columns, cardId);
    }

    /** `handleMouseMove`: the pointer follows the mouse only while a card is dragged. */
    method HandleMouseMove(x: int, y: int)
      modifies this`mousePos
      ensures mousePos == if draggingId.Some? then Point(x, y) else old(mousePos)
    {
      if draggingId == None {
        return;
      }
      mousePos := Point(x, y);
    }

    /** `handleMouseDown`: a drag session starts on `card`, replacing any earlier one. */
    method HandleMouseDown(card: Card, x: int, y: int)
      modifies this`draggingId, this`draggingLabel, this`mousePos
      ensures Valid()
      ensures draggingId == Some(card.id) && draggingLabel == Some(card.text)
      ensures mousePos == Point(x, y)
    {
      draggingId := Some(card.id);
      draggingLabel := Some(card.text);
      mousePos := Point(x, y);
    }

    /** `handleMouseEnterColumn`: while a card is dragged, it moves to the entered column.
        The dragged card must be on the board (the handler dereferences the column holding
        it) and the target must be a column of the board (otherwise the card is dropped). */
    method HandleMouseEnterColumn(targetColumnId: string)
      requires draggingId.Some? ==>
                 OnBoard(columns, draggingId.value) && HasColumn(columns, targetColumnId)
      modifies this`columns
      ensures draggingId.None? ==> columns == old(columns)
      ensures draggingId.Some? ==>
                columns == EnterColumn(old(columns), draggingId.value, targetColumnId)
      ensures old(WellFormed(columns)) ==>
                WellFormed(columns) && BoardIds(columns) == old(BoardIds(columns))
    {
      if draggingId == None {
        return;
      }
      if WellFormed(columns) {
        EnterColumnConserves(columns, draggingId.value, targetColumnId);
      }
      columns := EnterColumn(columns, draggingId.value, targetColumnId);
    }

    /** `handleMouseUp`: the drag session ends, whether or not the card moved. */
    method HandleMouseUp()
      modifies this`draggingId, this`draggingLabel
      ensures Valid()
      ensures draggingId == None && draggingLabel == None
    {
      draggingId := None;
      draggingLabel := None;
    }
  }
}
