/**
 * The notebook jumper's `jump`: it picks the cell the click came from,
 * resolves the clicked token against the cells up to that one, and, when a
 * definition was found, activates its cell in edit mode with the cursor at
 * the definition's offset. The same steps make up the plugin's own `jump`
 * function in the extension's entry point.
 */
module Notebook {
  import opened Tokens
  import opened Jumper

  /**
   * What a jump starts from: the clicked token, the index of the cell whose
   * editor reported the click, and, when a mouse event came with it, the
   * index of the cell under the mouse.
   */
  datatype JumpRequest = JumpRequest(token: Token, originCell: int, mouseCell: Option<int>)

  /** The cell the resolver stops at: the one under the mouse when there is a mouse event, else the origin's cell. */
  function OriginCellIndex(request: JumpRequest): (index: int)
    ensures request.mouseCell.Some? ==> index == request.mouseCell.value
    ensures request.mouseCell.None? ==> index == request.originCell
  {
    match request.mouseCell
    case Some(cell) => cell
    case None => request.originCell
  }

  /**
   * A notebook as the jumper sees it: the tokens of each cell, the kernel
   * language, the active cell, whether the notebook is in edit mode, and the
   * offset the active cell's cursor is placed at.
   */
  class NotebookJumper {
    var cells: seq<seq<Token>>
    var language: string
    var activeCellIndex: int
    var editMode: bool
    var cursorOffset: int

    constructor(cells: seq<seq<Token>>, language: string)
      ensures this.cells == cells && this.language == language
      ensures activeCellIndex == 0 && !editMode && cursorOffset == 0
    {
      this.cells := cells;
      this.language := language;
      activeCellIndex := 0;
      editMode := false;
      cursorOffset := 0;
    }

    /**
     * `jump`: the resolver as written (whose second filter discards the
     * offset filter) runs up to the picked cell; when nothing is found the
     * notebook is left as it is; otherwise the cell of the definition
     * becomes active, in edit mode, with the cursor at the definition.
     */
    method Jump(request: JumpRequest)
      requires OriginCellIndex(request) < |cells|
      modifies this
      ensures cells == old(cells) && language == old(language)
      ensures var found := Resolve(cells, language, request.token, OriginCellIndex(request), false);
        if found.token.None? then
          activeCellIndex == old(activeCellIndex) && editMode == old(editMode) && cursorOffset == old(cursorOffset)
        else
          activeCellIndex == found.cellIndex.value && editMode && cursorOffset == found.token.value.offset
    {
      var index;
      if request.mouseCell.Some? {
        index := request.mouseCell.value;
      } else {
        index := request.originCell;
      }
      var found := FindLastDefinition(cells, language, request.token, index);
      if found.token.None? {
        return;
      }
      Show(found.cellIndex.value, found.token.value);
    }

    /** The deferred part of `jump`: activate cell `cellIndex` in edit mode and put the cursor at `token`. */
    method Show(cellIndex: int, token: Token)
      modifies this
      ensures cells == old(cells) && language == old(language)
      ensures activeCellIndex == cellIndex && editMode && cursorOffset == token.offset
    {
      activeCellIndex := cellIndex;
      editMode := true;
      cursorOffset := token.offset;
    }
  }

  /**
   * A jump never activates a cell after the one it started from, and what it
   * lands on carries the clicked name: the clicked token itself or a
   * definition in the activated cell.
   */
  lemma JumpStaysBehindOrigin(cells: seq<seq<Token>>, language: string, request: JumpRequest)
    requires 0 <= OriginCellIndex(request) < |cells|
    ensures var found := Resolve(cells, language, request.token, OriginCellIndex(request), false);
      && (found.cellIndex.Some? ==> 0 <= found.cellIndex.value <= OriginCellIndex(request))
      && (found.token.Some? ==> found.token.value.value == request.token.value)
      && (found.token.Some? ==> found.token.value == request.token
                                || found.token.value in CellDefinitions(cells[found.cellIndex.value], language, request.token.value))
  {
    FoundIsDefinitionOrOrigin(cells, language, request.token, OriginCellIndex(request), false);
  }

  /**
   * With the corrected resolver a jump inside the origin cell would also
   * never land after the clicked token; the jump as written can (see
   * `JumperExamples.ReadBeforeAssignmentAsWritten`).
   */
  lemma CorrectedJumpNeverLandsAfterClick(cells: seq<seq<Token>>, language: string, request: JumpRequest)
    requires 0 <= OriginCellIndex(request) < |cells|
    ensures var found := Resolve(cells, language, request.token, OriginCellIndex(request), true);
      && (found.cellIndex.Some? ==> 0 <= found.cellIndex.value <= OriginCellIndex(request))
      && (found.cellIndex == Some(OriginCellIndex(request)) ==> found.token.value.offset <= request.token.offset)
  {
    CorrectedNeverJumpsForward(cells, language, request.token, OriginCellIndex(request));
  }

  /** When no cell up to the origin's has a definition of the clicked name, the jump does nothing. */
  lemma NothingToJumpTo(cells: seq<seq<Token>>, language: string, request: JumpRequest)
    requires OriginCellIndex(request) < |cells|
    requires forall i :: 0 <= i <= OriginCellIndex(request) ==> CellDefinitions(cells[i], language, request.token.value) == []
    ensures Resolve(cells, language, request.token, OriginCellIndex(request), false).token.None?
  {
    NoDefinitionsNoResult(cells, language, request.token, OriginCellIndex(request), false);
  }
}
