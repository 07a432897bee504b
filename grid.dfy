/**
 * The cell table as a value: rows of cells, each cell None (never set) or a
 * text.  The functions here say what each table operation leaves behind; the
 * class in module Table performs the same operations step by step and is
 * proved to agree with them.
 */
module Grid {
  import opened Wrappers
  import opened Chunking

  type Cell = Option<string>
  type Cells = seq<seq<Cell>>

  /** insertData and insertQuestionmarks call setColumnCount(4); getCipher assumes 4 columns. */
  const Columns: nat := 4

  predicate Rectangular(cells: Cells, columns: nat) {
    forall i :: 0 <= i < |cells| ==> |cells[i]| == columns
  }

  /** QTableWidget.item(r, c): the cell, or None for a position outside the table. */
  function Lookup(cells: Cells, r: int, c: int): Cell {
    if 0 <= r < |cells| && 0 <= c < |cells[r]| then cells[r][c] else None
  }

  /** The text a cell contributes to a concatenation: nothing for None. */
  function Text(cell: Cell): string {
    match cell
    case None => ""
    case Some(t) => t
  }

  /**
   * A QTableWidgetSelectionRange: rows top..bottom and columns left..right,
   * both inclusive.  Qt never reports a negative top or left; bottom and right
   * are -1 in the range that covers a table with no rows or no columns.
   */
  datatype Range = Range(top: nat, left: nat, bottom: int, right: int)

  /** The range changeBlockSize and clearTable select: (0, 0, rowCount() - 1, columnCount() - 1). */
  function FullRange(cells: Cells, columns: nat): Range {
    Range(0, 0, |cells| - 1, columns - 1)
  }

  predicate InRange(sel: Range, r: int, c: int) {
    sel.top <= r <= sel.bottom && sel.left <= c <= sel.right
  }

  /** The texts of row r, columns left until colEnd, joined without a delimiter. */
  function RowText(cells: Cells, r: int, left: int, colEnd: int): string
    decreases colEnd - left
  {
    if colEnd <= left then ""
    else RowText(cells, r, left, colEnd - 1) + Text(Lookup(cells, r, colEnd - 1))
  }

  /** The texts of rows top until rowEnd, row-major, joined without a delimiter. */
  function RangeText(cells: Cells, top: int, rowEnd: int, left: int, colEnd: int): string
    decreases rowEnd - top
  {
    if rowEnd <= top then ""
    else RangeText(cells, top, rowEnd - 1, left, colEnd) + RowText(cells, rowEnd - 1, left, colEnd)
  }

  /** What copyData and extractData put on the clipboard for a selected range. */
  function Copied(cells: Cells, sel: Range): string {
    RangeText(cells, sel.top, sel.bottom + 1, sel.left, sel.right + 1)
  }

  /** The whole table's text, as the convertTo* loops and changeBlockSize collect it. */
  function AllText(cells: Cells, columns: nat): string {
    Copied(cells, FullRange(cells, columns))
  }

  /** setItem(i, j, QTableWidgetItem("")) on a cell that holds an item; None stays None. */
  function Emptied(cell: Cell): (e: Cell)
    ensures Text(e) == "" && (e.None? <==> cell.None?)
  {
    if cell.Some? then Some("") else None
  }

  /** The table after extractData: every item inside the range emptied. */
  function Extracted(cells: Cells, sel: Range): (g: Cells)
    ensures |g| == |cells|
    ensures forall i :: 0 <= i < |g| ==> |g[i]| == |cells[i]|
  {
    seq(|cells|, i requires 0 <= i < |cells| =>
      seq(|cells[i]|, j requires 0 <= j < |cells[i]| =>
        if InRange(sel, i, j) then Emptied(cells[i][j]) else cells[i][j]))
  }

  /**
   * The table part way through extractData's loops: the cells of the range
   * that come before (i, j) in row-major order are emptied.
   */
  function ExtractedBefore(cells: Cells, sel: Range, i: int, j: int): (g: Cells)
    ensures |g| == |cells|
    ensures forall r :: 0 <= r < |g| ==> |g[r]| == |cells[r]|
  {
    seq(|cells|, r requires 0 <= r < |cells| =>
      seq(|cells[r]|, c requires 0 <= c < |cells[r]| =>
        if InRange(sel, r, c) && (r < i || (r == i && c < j)) then Emptied(cells[r][c]) else cells[r][c]))
  }

  /** Before the first cell of the range nothing is emptied. */
  lemma ExtractedBeforeStart(cells: Cells, sel: Range)
    ensures ExtractedBefore(cells, sel, sel.top, sel.left) == cells
  {
    var g := ExtractedBefore(cells, sel, sel.top, sel.left);
    forall r | 0 <= r < |cells| ensures g[r] == cells[r] {
    }
  }

  /** Visiting cell (i, j) of the range empties it if it holds an item and changes nothing otherwise. */
  lemma ExtractedBeforeStep(cells: Cells, sel: Range, i: int, j: int)
    requires InRange(sel, i, j)
    ensures Lookup(cells, i, j).Some? ==>
              ExtractedBefore(cells, sel, i, j + 1) ==
              ExtractedBefore(cells, sel, i, j)[i := ExtractedBefore(cells, sel, i, j)[i][j := Some("")]]
    ensures Lookup(cells, i, j).None? ==> ExtractedBefore(cells, sel, i, j + 1) == ExtractedBefore(cells, sel, i, j)
  {
    var g, g' := ExtractedBefore(cells, sel, i, j), ExtractedBefore(cells, sel, i, j + 1);
    if Lookup(cells, i, j).Some? {
      var h := g[i := g[i][j := Some("")]];
      forall r | 0 <= r < |cells| ensures g'[r] == h[r] {
      }
    } else {
      forall r | 0 <= r < |cells| ensures g'[r] == g[r] {
      }
    }
  }

  /** Once row i is done up to the range's right edge, the next row starts. */
  lemma ExtractedBeforeNextRow(cells: Cells, sel: Range, i: int, j: int)
    requires sel.left <= j && (j == sel.right + 1 || (j == sel.left && sel.right + 1 <= sel.left))
    ensures ExtractedBefore(cells, sel, i, j) == ExtractedBefore(cells, sel, i + 1, sel.left)
  {
    var g, g' := ExtractedBefore(cells, sel, i, j), ExtractedBefore(cells, sel, i + 1, sel.left);
    forall r | 0 <= r < |cells| ensures g[r] == g'[r] {
    }
  }

  /** After the last row of the range the whole range is emptied. */
  lemma ExtractedBeforeEnd(cells: Cells, sel: Range, i: int)
    requires sel.top <= i && (i == sel.bottom + 1 || (i == sel.top && sel.bottom + 1 <= sel.top))
    ensures ExtractedBefore(cells, sel, i, sel.left) == Extracted(cells, sel)
  {
    var g, g' := ExtractedBefore(cells, sel, i, sel.left), Extracted(cells, sel);
    forall r | 0 <= r < |cells| ensures g[r] == g'[r] {
    }
  }

  /** The table after clearTable: every cell, set or not, holds "". */
  function Cleared(cells: Cells): (g: Cells)
    ensures |g| == |cells|
    ensures forall i :: 0 <= i < |g| ==> |g[i]| == |cells[i]|
  {
    seq(|cells|, i requires 0 <= i < |cells| => seq(|cells[i]|, _ => Some("")))
  }

  /** setColumnCount(columns) on one row: drop the cells past the end, or add unset ones. */
  function ResizedRow(row: seq<Cell>, columns: nat): seq<Cell> {
    if |row| >= columns then row[..columns] else row + seq(columns - |row|, _ => None)
  }

  /**
   * setColumnCount(columns) followed by setRowCount(rows): every cell that
   * is still inside the table keeps its item; the new cells are unset.
   */
  function Resized(cells: Cells, rows: nat, columns: nat): (g: Cells)
    ensures |g| == rows && Rectangular(g, columns)
    ensures forall i, j :: 0 <= i < rows && 0 <= j < columns ==> g[i][j] == Lookup(cells, i, j)
  {
    seq(rows, i requires 0 <= i < rows =>
      if i < |cells| then ResizedRow(cells[i], columns) else seq(columns, _ => None))
  }

  /** The row-major slot of cell (i, j) once insertData has made the table four columns wide: j + i * columnCount. */
  function Slot(i: int, j: int): int {
    j + 4 * i
  }

  /** The cells the placement loop of insertData writes to: at or after the origin, inside the loop's rows, with a piece for their slot. */
  predicate Writes(count: nat, top: nat, left: nat, rowEnd: int, i: int, j: int) {
    top <= i < rowEnd && left <= j < Columns && Slot(i, j) < count
  }

  /** The table after the placement loop: cell (i, j) gets piece j + 4*i where the loop writes. */
  function Placed(cells: Cells, data: seq<string>, top: nat, left: nat, rowEnd: int): Cells {
    seq(|cells|, i requires 0 <= i < |cells| =>
      seq(|cells[i]|, j requires 0 <= j < |cells[i]| =>
        if Writes(|data|, top, left, rowEnd, i, j) then Some(data[Slot(i, j)]) else cells[i][j]))
  }

  /** Rows insertData sets: setRowCount(len(data) / 4 + 1), with the division truncated. */
  function RowsFor(count: nat): nat {
    count / 4 + 1
  }

  /** The table after insertData(pasted) with the selection `sel`. */
  function Inserted(cells: Cells, pasted: string, width: nat, sel: Range): Cells
    requires width > 0
  {
    var data := Chunks(pasted, width);
    Placed(Resized(cells, RowsFor(|data|), Columns), data, sel.top, sel.left, sel.bottom + |data| / 4 + 1)
  }

  /**
   * The plaintext table after insertQuestionmarks(pasted) with the cipher
   * table's selection `cipherSel`: the loop over rows stops before
   * cipherSel.bottom + len(data) - 1.
   */
  function Questionmarked(cells: Cells, pasted: string, width: nat, cipherSel: Range): Cells
    requires width > 0
  {
    var data := Chunks(Placeholders(pasted), width);
    Placed(Resized(cells, RowsFor(|data|), Columns), data, cipherSel.top, cipherSel.left, cipherSel.bottom + |data| - 1)
  }

  /** The table after changeBlockSize: extract everything, then insert it again at (0, 0). */
  function Rechunked(cells: Cells, columns: nat, width: nat): Cells
    requires width > 0
  {
    var full := FullRange(cells, columns);
    Inserted(Extracted(cells, full), AllText(cells, columns), width, full)
  }

  /** The table after a successful convertTo*: cleared, then the re-encoded text inserted at (0, 0). */
  function Converted(cells: Cells, columns: nat, encoded: string, width: nat): Cells
    requires width > 0
  {
    Inserted(Cleared(cells), encoded, width, FullRange(cells, columns))
  }

  // ---------------------------------------------------------------------------
  // Placement

  /**
   * insertData writes piece j + 4*i into cell (i, j) exactly when that slot
   * has a piece and the cell is at or after the selection's top-left corner;
   * every other cell keeps what the resize left there.  The bound on the
   * row loop never cuts a piece off.
   */
  lemma InsertedCells(cells: Cells, pasted: string, width: nat, sel: Range)
    requires width > 0 && sel.top <= sel.bottom
    ensures var data := Chunks(pasted, width);
            var g := Inserted(cells, pasted, width, sel);
            |g| == RowsFor(|data|) && Rectangular(g, Columns) &&
            forall i, j :: 0 <= i < |g| && 0 <= j < Columns ==>
              g[i][j] == if sel.top <= i && sel.left <= j && Slot(i, j) < |data|
                         then Some(data[Slot(i, j)]) else Lookup(cells, i, j)
  {
  }

  /** One cell of the table after insertData. */
  lemma InsertedCell(cells: Cells, pasted: string, width: nat, sel: Range, i: nat, j: nat)
    requires width > 0 && sel.top <= sel.bottom
    requires i < RowsFor(|Chunks(pasted, width)|) && j < Columns
    ensures var data := Chunks(pasted, width);
            var g := Inserted(cells, pasted, width, sel);
            i < |g| && |g[i]| == Columns &&
            g[i][j] == if sel.top <= i && sel.left <= j && Slot(i, j) < |data|
                       then Some(data[Slot(i, j)]) else Lookup(cells, i, j)
  {
    InsertedCells(cells, pasted, width, sel);
  }

  /** Pasted at (0, 0), every piece lands in its row-major slot and the table has room for all of them. */
  lemma InsertedAtOrigin(cells: Cells, pasted: string, width: nat, bottom: nat, right: int)
    requires width > 0
    ensures var data := Chunks(pasted, width);
            var g := Inserted(cells, pasted, width, Range(0, 0, bottom, right));
            |data| < 4 * |g| &&
            forall k :: 0 <= k < |data| ==> g[k / 4][k % 4] == Some(data[k])
  {
    InsertedCells(cells, pasted, width, Range(0, 0, bottom, right));
  }

  /**
   * The loop bound of insertQuestionmarks skips the only placeholder piece
   * when the paste fits in one block and the cipher selection lies in row 0:
   * the plaintext table is resized and nothing is written into it.
   */
  lemma QuestionmarkedMissesSinglePiece(cells: Cells, pasted: string, width: nat, left: nat, right: int)
    requires width > 0 && 0 < |pasted| <= width
    ensures Chunks(Placeholders(pasted), width) == [Placeholders(pasted)]
    ensures Questionmarked(cells, pasted, width, Range(0, left, 0, right)) == Resized(cells, 1, Columns)
  {
    var q := Placeholders(pasted);
    assert q[..|q|] == q && q[|q|..] == [];
    assert Chunks(q, width) == [q] + Chunks([], width);
    var g0 := Resized(cells, 1, Columns);
    var g := Questionmarked(cells, pasted, width, Range(0, left, 0, right));
    forall i | 0 <= i < |g| ensures g[i] == g0[i] {
      assert |g[i]| == |g0[i]|;
    }
  }

  /**
   * Apart from that case, insertQuestionmarks places the placeholder pieces
   * exactly as insertData would place them.
   */
  lemma QuestionmarkedAsInserted(cells: Cells, pasted: string, width: nat, sel: Range)
    requires width > 0 && sel.top <= sel.bottom
    requires |Chunks(Placeholders(pasted), width)| != 1 || sel.bottom > 0
    ensures Questionmarked(cells, pasted, width, sel) == Inserted(cells, Placeholders(pasted), width, sel)
  {
    var data := Chunks(Placeholders(pasted), width);
    var g0 := Resized(cells, RowsFor(|data|), Columns);
    var a := Questionmarked(cells, pasted, width, sel);
    var b := Inserted(cells, Placeholders(pasted), width, sel);
    var asWritten, intended := sel.bottom + |data| - 1, sel.bottom + |data| / 4 + 1;
    forall i, j | 0 <= i < |g0| && 0 <= j < |g0[i]|
      ensures Writes(|data|, sel.top, sel.left, asWritten, i, j) == Writes(|data|, sel.top, sel.left, intended, i, j)
    {
    }
    assert |a| == |b|;
    forall i | 0 <= i < |a| ensures a[i] == b[i] {
      assert |a[i]| == |b[i]|;
    }
  }

  /**
   * The intended behaviour, insertData applied to the placeholder text at
   * the cipher selection: from (0, 0) every piece of the paste has a
   * placeholder of the same length in the same cell.
   */
  lemma PlaceholdersAllPlaced(cells: Cells, pasted: string, width: nat, bottom: nat, right: int)
    requires width > 0
    ensures var data := Chunks(pasted, width);
            var g := Inserted(cells, Placeholders(pasted), width, Range(0, 0, bottom, right));
            forall k :: 0 <= k < |data| ==>
              k / 4 < |g| && g[k / 4][k % 4].Some? &&
              |g[k / 4][k % 4].value| == |data[k]| &&
              AllQuestionmarks(g[k / 4][k % 4].value)
  {
    PlaceholderChunks(pasted, width);
    InsertedAtOrigin(cells, Placeholders(pasted), width, bottom, right);
  }

  // ---------------------------------------------------------------------------
  // Concatenation

  /** Cell (i, j) of a 4-column table shows piece j + 4*i, or nothing once the pieces run out. */
  predicate Holds(g: Cells, data: seq<string>) {
    Rectangular(g, Columns) && |data| <= 4 * |g| &&
    forall i, j :: 0 <= i < |g| && 0 <= j < Columns ==>
      Text(g[i][j]) == if Slot(i, j) < |data| then data[Slot(i, j)] else ""
  }

  function Min(a: int, b: int): int { if a < b then a else b }

  lemma ConcatSnoc(data: seq<string>, k: nat)
    requires k < |data|
    ensures Concat(data[..k + 1]) == Concat(data[..k]) + data[k]
  {
    assert data[..k + 1][..k] == data[..k];
  }

  lemma {:induction false} HoldsPrefix(g: Cells, data: seq<string>, i: nat, j: nat)
    requires Holds(g, data) && i <= |g| && j <= Columns && (i == |g| ==> j == 0)
    ensures RangeText(g, 0, i, 0, Columns) + RowText(g, i, 0, j) == Concat(data[..Min(Slot(i, j), |data|)])
    decreases 5 * i + j
  {
    if j > 0 {
      HoldsPrefix(g, data, i, j - 1);
      var k := Slot(i, j - 1);
      assert Text(g[i][j - 1]) == if k < |data| then data[k] else "";
      HoldsStep(g, data, i, j - 1);
    } else if i > 0 {
      HoldsPrefix(g, data, i - 1, Columns);
      RowBoundary(g, i);
    } else {
      assert data[..0] == [];
    }
  }

  /** Row i starts where row i - 1 ends. */
  lemma RowBoundary(g: Cells, i: nat)
    requires i > 0
    ensures RangeText(g, 0, i, 0, Columns) + RowText(g, i, 0, 0) ==
            RangeText(g, 0, i - 1, 0, Columns) + RowText(g, i - 1, 0, Columns)
    ensures Slot(i, 0) == Slot(i - 1, Columns)
  {
  }

  lemma HoldsStep(g: Cells, data: seq<string>, i: nat, j: nat)
    requires i < |g| && j < |g[i]|
    requires Text(g[i][j]) == if Slot(i, j) < |data| then data[Slot(i, j)] else ""
    requires RangeText(g, 0, i, 0, Columns) + RowText(g, i, 0, j) == Concat(data[..Min(Slot(i, j), |data|)])
    ensures RangeText(g, 0, i, 0, Columns) + RowText(g, i, 0, j + 1) == Concat(data[..Min(Slot(i, j + 1), |data|)])
  {
    var k := Slot(i, j);
    var pre, row, t := RangeText(g, 0, i, 0, Columns), RowText(g, i, 0, j), Text(g[i][j]);
    RowTextSnoc(g, i, j);
    if k < |data| {
      ConcatSnoc(data, k);
      AppendStep(pre, row, t, Concat(data[..k]), Concat(data[..k + 1]));
    } else {
      AppendStep(pre, row, t, Concat(data[..|data|]), Concat(data[..|data|]));
    }
  }

  /** One more column of a row's text. */
  lemma RowTextAppend(cells: Cells, r: int, left: int, j: int)
    requires left <= j
    ensures RowText(cells, r, left, j + 1) == RowText(cells, r, left, j) + Text(Lookup(cells, r, j))
  {
  }

  /** One more row of a range's text. */
  lemma RangeTextAppend(cells: Cells, top: int, i: int, left: int, colEnd: int)
    requires top <= i
    ensures RangeText(cells, top, i + 1, left, colEnd) == RangeText(cells, top, i, left, colEnd) + RowText(cells, i, left, colEnd)
  {
  }

  lemma RowTextSnoc(g: Cells, i: nat, j: nat)
    requires i < |g| && j < |g[i]|
    ensures RowText(g, i, 0, j + 1) == RowText(g, i, 0, j) + Text(g[i][j])
  {
  }

  lemma AppendStep(pre: string, row: string, t: string, before: string, after: string)
    requires pre + row == before && after == before + t
    ensures pre + (row + t) == after
  {
  }

  /** A table that holds the pieces from (0, 0) on shows exactly their concatenation. */
  lemma AllTextOfHolds(g: Cells, data: seq<string>)
    requires Holds(g, data)
    ensures AllText(g, Columns) == Concat(data)
  {
    HoldsPrefix(g, data, |g|, 0);
    assert data[..|data|] == data;
  }

  /** Inserting at (0, 0) into a table whose cells are all unset or empty leaves a table that holds the pieces. */
  lemma InsertedIntoBlankHolds(g0: Cells, text: string, width: nat, bottom: nat, right: int)
    requires width > 0
    requires forall i, j :: 0 <= i < |g0| && 0 <= j < |g0[i]| ==> Text(g0[i][j]) == ""
    ensures Holds(Inserted(g0, text, width, Range(0, 0, bottom, right)), Chunks(text, width))
  {
    InsertedCells(g0, text, width, Range(0, 0, bottom, right));
  }

  /** After changeBlockSize the table's text is the text it had before. */
  lemma RechunkedText(cells: Cells, columns: nat, width: nat)
    requires width > 0 && Rectangular(cells, columns) && |cells| > 0 && columns > 0
    ensures AllText(Rechunked(cells, columns, width), Columns) == AllText(cells, columns)
  {
    var full := FullRange(cells, columns);
    var g0 := Extracted(cells, full);
    var text := AllText(cells, columns);
    InsertedIntoBlankHolds(g0, text, width, |cells| - 1, columns - 1);
    AllTextOfHolds(Rechunked(cells, columns, width), Chunks(text, width));
    ChunksConcat(text, width);
  }

  /**
   * After changeBlockSize the cells that show any text are exactly the
   * row-major slots of the pieces of the table's text, each showing its piece.
   */
  lemma RechunkedCells(cells: Cells, columns: nat, width: nat)
    requires width > 0 && Rectangular(cells, columns) && |cells| > 0 && columns > 0
    ensures var data := Chunks(AllText(cells, columns), width);
            var g := Rechunked(cells, columns, width);
            Rectangular(g, Columns) && |g| == RowsFor(|data|) &&
            forall i, j :: 0 <= i < |g| && 0 <= j < Columns ==>
              (Text(g[i][j]) != "" <==> Slot(i, j) < |data|) &&
              (Slot(i, j) < |data| ==> g[i][j] == Some(data[Slot(i, j)]))
  {
    var full := FullRange(cells, columns);
    InsertedCells(Extracted(cells, full), AllText(cells, columns), width, full);
  }

  /** changeBlockSize twice with the same block size leaves the table of a single call. */
  lemma RechunkedIdempotent(cells: Cells, columns: nat, width: nat)
    requires width > 0 && Rectangular(cells, columns) && |cells| > 0 && columns > 0
    ensures Rechunked(Rechunked(cells, columns, width), Columns, width) == Rechunked(cells, columns, width)
  {
    var g1 := Rechunked(cells, columns, width);
    var g2 := Rechunked(g1, Columns, width);
    RechunkedShape(cells, columns, width);
    forall i | 0 <= i < |g1| ensures g2[i] == g1[i] {
      forall j | 0 <= j < Columns ensures g2[i][j] == g1[i][j] {
        RechunkedTwiceCell(cells, columns, width, i, j);
      }
    }
  }

  /** Both tables of changeBlockSize run twice have the same shape. */
  lemma RechunkedShape(cells: Cells, columns: nat, width: nat)
    requires width > 0 && Rectangular(cells, columns) && |cells| > 0 && columns > 0
    ensures var g1 := Rechunked(cells, columns, width);
            var g2 := Rechunked(g1, Columns, width);
            |g1| > 0 && |g2| == |g1| && Rectangular(g1, Columns) && Rectangular(g2, Columns)
  {
    var text := AllText(cells, columns);
    var g1 := Rechunked(cells, columns, width);
    InsertedCells(Extracted(cells, FullRange(cells, columns)), text, width, FullRange(cells, columns));
    RechunkedText(cells, columns, width);
    InsertedCells(Extracted(g1, FullRange(g1, Columns)), text, width, FullRange(g1, Columns));
  }

  /** One cell of the table after changeBlockSize run twice equals that cell after one run. */
  lemma RechunkedTwiceCell(cells: Cells, columns: nat, width: nat, i: nat, j: nat)
    requires width > 0 && Rectangular(cells, columns) && |cells| > 0 && columns > 0
    requires i < |Rechunked(cells, columns, width)| && j < Columns
    ensures var g1 := Rechunked(cells, columns, width);
            var g2 := Rechunked(g1, Columns, width);
            i < |g2| && j < |g1[i]| && j < |g2[i]| && g2[i][j] == g1[i][j]
  {
    var full := FullRange(cells, columns);
    var text := AllText(cells, columns);
    var data := Chunks(text, width);
    var g1 := Rechunked(cells, columns, width);
    RechunkedShape(cells, columns, width);
    RechunkedText(cells, columns, width);
    InsertedCell(Extracted(cells, full), text, width, full, i, j);
    var full1 := FullRange(g1, Columns);
    var e1 := Extracted(g1, full1);
    InsertedCell(e1, text, width, full1, i, j);
    if !(Slot(i, j) < |data|) {
      assert Lookup(e1, i, j) == Emptied(g1[i][j]);
    }
  }

  /** After a successful convertTo* the table shows exactly the re-encoded text. */
  lemma ConvertedText(cells: Cells, columns: nat, encoded: string, width: nat)
    requires width > 0 && |cells| > 0 && columns > 0
    ensures AllText(Converted(cells, columns, encoded, width), Columns) == encoded
  {
    InsertedIntoBlankHolds(Cleared(cells), encoded, width, |cells| - 1, columns - 1);
    AllTextOfHolds(Converted(cells, columns, encoded, width), Chunks(encoded, width));
    ChunksConcat(encoded, width);
  }

  /** Copying a range right after extracting it yields nothing: extract empties everything it took. */
  lemma ExtractedRangeEmpty(cells: Cells, sel: Range)
    ensures Copied(Extracted(cells, sel), sel) == ""
  {
    var g := Extracted(cells, sel);
    RangeTextEmpty(g, sel, sel.top, sel.bottom + 1);
  }

  lemma {:induction false} RowTextEmpty(g: Cells, sel: Range, r: int, colEnd: int)
    requires sel.top <= r <= sel.bottom && colEnd <= sel.right + 1
    requires forall j :: sel.left <= j <= sel.right && 0 <= r < |g| && 0 <= j < |g[r]| ==> Text(g[r][j]) == ""
    ensures RowText(g, r, sel.left, colEnd) == ""
    decreases colEnd - sel.left
  {
    if colEnd > sel.left {
      RowTextEmpty(g, sel, r, colEnd - 1);
    }
  }

  lemma {:induction false} RangeTextEmpty(g: Cells, sel: Range, top: int, rowEnd: int)
    requires sel.top <= top
    requires forall i, j :: InRange(sel, i, j) && 0 <= i < |g| && 0 <= j < |g[i]| ==> Text(g[i][j]) == ""
    requires rowEnd <= sel.bottom + 1
    ensures RangeText(g, top, rowEnd, sel.left, sel.right + 1) == ""
    decreases rowEnd - top
  {
    if rowEnd > top {
      RangeTextEmpty(g, sel, top, rowEnd - 1);
      RowTextEmpty(g, sel, rowEnd - 1, sel.right + 1);
    }
  }
  // ---------------------------------------------------------------------------
  // The known-plaintext scan of getKnownPlain

  /** A cell that holds an item whose text has no '?' in it. */
  predicate Known(cell: Cell) {
    cell.Some? && '?' !in cell.value
  }

  /** The column at which the inner loop of getKnownPlain breaks, if it does. */
  function FirstKnown(row: seq<Cell>): (r: Option<nat>)
    ensures r.Some? ==> r.value < |row| && Known(row[r.value]) &&
                        forall c :: 0 <= c < r.value ==> !Known(row[c])
    ensures r.None? ==> forall c :: 0 <= c < |row| ==> !Known(row[c])
  {
    if row == [] then None
    else if Known(row[0]) then Some(0)
    else
      match FirstKnown(row[1..])
      case None => None
      case Some(c) => Some(c + 1)
  }

  /**
   * The text getKnownPlain holds after scanning the first n rows: the break
   * leaves only the inner loop, so every row that has a known cell
   * overwrites what earlier rows found.
   */
  function ScanText(cells: Cells, n: nat): string
    requires n <= |cells|
  {
    if n == 0 then ""
    else
      match FirstKnown(cells[n - 1])
      case Some(c) => cells[n - 1][c].value
      case None => ScanText(cells, n - 1)
  }

  /** The column getKnownPlain returns for its last row: where the inner loop broke, or the last column. */
  function ScanColumn(row: seq<Cell>, columns: nat): (c: nat)
    requires columns > 0
    ensures |row| == columns ==> c < columns
  {
    match FirstKnown(row)
    case Some(c) => c
    case None => columns - 1
  }

  /** Without a known cell in the first n rows the scan finds the empty text. */
  lemma {:induction false} ScanTextNone(cells: Cells, n: nat)
    requires n <= |cells|
    requires forall r, c :: 0 <= r < n && 0 <= c < |cells[r]| ==> !Known(cells[r][c])
    ensures ScanText(cells, n) == ""
  {
    if n > 0 {
      ScanTextNone(cells, n - 1);
    }
  }

  /**
   * The scan's text is the first known cell of the last row that has one:
   * if (r, c) is the first known cell of its row and no later row has a
   * known cell, the scan ends with the text of (r, c).
   */
  lemma {:induction false} ScanTextLastRow(cells: Cells, n: nat, r: nat, c: nat)
    requires r < n <= |cells| && c < |cells[r]|
    requires Known(cells[r][c]) && forall c' :: 0 <= c' < c ==> !Known(cells[r][c'])
    requires forall r', c' :: r < r' < n && 0 <= c' < |cells[r']| ==> !Known(cells[r'][c'])
    ensures ScanText(cells, n) == cells[r][c].value
  {
    if n - 1 == r {
      assert FirstKnown(cells[r]) == Some(c);
    } else {
      ScanTextLastRow(cells, n - 1, r, c);
    }
  }
}
