/**
 * CustomTableWidget: a Qt table of text cells that carries the name of the
 * encoding its text is in.  The class updates its cells in place, loop by
 * loop as the widget does; each method is proved to leave the table the
 * corresponding function of module Grid describes.  The system clipboard is
 * an argument (what a method pastes) or a result (what it copies).
 */
module Table {
  import opened Wrappers
  import opened Codec
  import opened Chunking
  import opened Grid

  /** What getKnownPlain returns: the decoded text and the row and column its loops ended on. */
  datatype KnownPlain = KnownPlain(plain: seq<byte>, row: nat, column: nat)

  /**
   * getKnownPlain as a value: the text of the scan, decoded, with the last
   * row and the column the last row's inner loop ended on.  A table without
   * rows or columns leaves a loop variable unbound, which Python reports
   * only at the return, after decode has run.
   */
  function KnownPlainOf(cells: Cells, columns: nat, enc: Encoding, lib: Library): (r: Result<KnownPlain, Error>)
    requires Rectangular(cells, columns)
    ensures r.Success? ==> |cells| > 0 && columns > 0 && r.value.row == |cells| - 1 && r.value.column < columns
    ensures r.Failure? ==> Decode(enc, lib, ScanText(cells, |cells|)).Failure? || |cells| == 0 || columns == 0
  {
    match Decode(enc, lib, ScanText(cells, |cells|))
    case Failure(e) => Failure(e)
    case Success(b) =>
      if |cells| == 0 || columns == 0 then Failure(UnboundLocal)
      else Success(KnownPlain(b, |cells| - 1, ScanColumn(cells[|cells| - 1], columns)))
  }

  /**
   * The known plaintext is the first known cell of the last row that has a
   * known cell, decoded; the coordinates are those of the table's last row.
   */
  lemma KnownPlainFromLastRow(cells: Cells, columns: nat, enc: Encoding, lib: Library, r: nat, c: nat)
    requires Rectangular(cells, columns) && r < |cells| && c < columns
    requires Known(cells[r][c]) && forall c' :: 0 <= c' < c ==> !Known(cells[r][c'])
    requires forall r', c' :: r < r' < |cells| && 0 <= c' < columns ==> !Known(cells[r'][c'])
    ensures var k := KnownPlainOf(cells, columns, enc, lib);
            (k.Success? <==> Decode(enc, lib, cells[r][c].value).Success?) &&
            (k.Success? ==> k.value.plain == Decode(enc, lib, cells[r][c].value).value &&
                            k.value.row == |cells| - 1 &&
                            k.value.column == (if r == |cells| - 1 then c else columns - 1))
  {
    ScanTextLastRow(cells, |cells|, r, c);
    if r == |cells| - 1 {
      assert FirstKnown(cells[r]) == Some(c);
    } else {
      assert FirstKnown(cells[|cells| - 1]) == None;
    }
  }

  /** With no known cell anywhere the text is empty and the column is the last one. */
  lemma KnownPlainNothingKnown(cells: Cells, columns: nat, enc: Encoding, lib: Library)
    requires Rectangular(cells, columns) && |cells| > 0 && columns > 0
    requires forall r, c :: 0 <= r < |cells| && 0 <= c < columns ==> !Known(cells[r][c])
    ensures var k := KnownPlainOf(cells, columns, enc, lib);
            (k.Success? <==> Decode(enc, lib, "").Success?) &&
            (k.Success? ==> k.value.plain == Decode(enc, lib, "").value &&
                            k.value.row == |cells| - 1 && k.value.column == columns - 1)
  {
    ScanTextNone(cells, |cells|);
  }

  /**
   * Because the break leaves only the inner loop, the coordinates need not
   * locate the text: here the text comes from (0, 0) while the coordinates
   * name (1, 3), a cell without an item.
   */
  lemma KnownPlainCoordinatesMiss(lib: Library)
    ensures var cells: Cells := [[Some("ab"), None, None, None], [None, None, None, None]];
            KnownPlainOf(cells, 4, Utf8, lib) == Success(KnownPlain(lib.utf8Encode("ab"), 1, 3)) &&
            Lookup(cells, 1, 3).None?
  {
    var cells: Cells := [[Some("ab"), None, None, None], [None, None, None, None]];
    assert Known(cells[0][0]);
    KnownPlainFromLastRow(cells, 4, Utf8, lib, 0, 0);
  }

  /** The bytes of the item getCipher reads, or NoItem when there is no item to call text() on. */
  function ItemBytes(cell: Cell, enc: Encoding, lib: Library): (r: Result<seq<byte>, Error>)
    ensures r == Failure(NoItem) <==> cell.None?
    ensures r.Success? ==> cell.Some? && r == Decode(enc, lib, cell.value)
    ensures cell.Some? && enc == Utf8 ==> r == Success(lib.utf8Encode(cell.value))
  {
    match cell
    case None => Failure(NoItem)
    case Some(t) => Decode(enc, lib, t)
  }

  class CellTable {
    var cells: Cells
    var columnCount: nat
    var encoding: Encoding

    /** Every row has columnCount cells. */
    ghost predicate Valid()
      reads this
    {
      Rectangular(cells, columnCount)
    }

    /** A new widget: no rows, no columns, encoding 'UTF-8'. */
    constructor ()
      ensures Valid() && cells == [] && columnCount == 0 && encoding == Utf8
    {
      cells := [];
      columnCount := 0;
      encoding := Utf8;
    }

    /** setColumnCount(columns) then setRowCount(rows). */
    method Resize(rows: nat, columns: nat)
      modifies this
      ensures Valid() && encoding == old(encoding)
      ensures cells == Resized(old(cells), rows, columns) && columnCount == columns
    {
      cells := Resized(cells, rows, columns);
      columnCount := columns;
    }

    /** setItem(r, c, item): Qt ignores a position outside the table. */
    method SetItem(r: int, c: int, item: Cell)
      modifies this
      ensures columnCount == old(columnCount) && encoding == old(encoding)
      ensures cells == if 0 <= r < |old(cells)| && 0 <= c < |old(cells)[r]|
                       then old(cells)[r := old(cells)[r][c := item]]
                       else old(cells)
    {
      if 0 <= r < |cells| && 0 <= c < |cells[r]| {
        cells := cells[r := cells[r][c := item]];
      }
    }

    /**
     * The placement loop shared by insertData and insertQuestionmarks: rows
     * top until rowEnd, columns left until the column count, piece
     * j + i * columnCount into cell (i, j) while there is such a piece.
     */
    method Place(data: seq<string>, top: nat, left: nat, rowEnd: int)
      requires Rectangular(cells, Columns) && columnCount == Columns
      modifies this
      ensures Rectangular(cells, Columns) && columnCount == Columns && encoding == old(encoding)
      ensures cells == Placed(old(cells), data, top, left, rowEnd)
    {
      ghost var c0 := cells;
      var i: int := top;
      while i < rowEnd
        invariant top <= i && (i <= rowEnd || i == top)
        invariant |cells| == |c0| && Rectangular(cells, Columns) && columnCount == Columns
        invariant encoding == old(encoding)
        invariant forall r, c :: 0 <= r < |cells| && 0 <= c < Columns ==>
                    cells[r][c] == if Writes(|data|, top, left, i, r, c) then Some(data[Slot(r, c)]) else c0[r][c]
      {
        var j: int := left;
        while j < columnCount
          invariant left <= j && (j <= Columns || j == left)
          invariant |cells| == |c0| && Rectangular(cells, Columns) && columnCount == Columns
          invariant encoding == old(encoding)
          invariant forall r, c :: 0 <= r < |cells| && 0 <= c < Columns ==>
                      cells[r][c] == if Writes(|data|, top, left, i, r, c) || (r == i && left <= c < j && Slot(r, c) < |data|)
                                     then Some(data[Slot(r, c)]) else c0[r][c]
        {
          if j + i * columnCount < |data| {
            var index := j + i * columnCount;
            SetItem(i, j, Some(data[index]));
          }
          j := j + 1;
        }
        i := i + 1;
      }
      assert forall r, c :: Writes(|data|, top, left, i, r, c) == Writes(|data|, top, left, rowEnd, r, c);
      forall r | 0 <= r < |cells| ensures cells[r] == Placed(c0, data, top, left, rowEnd)[r] {
      }
    }

    /**
     * insertData: cut the pasted text into pieces of PieceWidth(blockSize)
     * characters, make the table four columns wide and len(data) / 4 + 1
     * rows high, and place the pieces from the selection's top-left corner.
     */
    method InsertData(pasted: string, blockSize: nat, sel: Range)
      requires blockSize >= 8
      modifies this
      ensures Valid() && columnCount == Columns && encoding == old(encoding)
      ensures cells == Inserted(old(cells), pasted, PieceWidth(blockSize), sel)
    {
      var data := Chunk(pasted, PieceWidth(blockSize));
      Resize(|data| / 4 + 1, Columns);
      Place(data, sel.top, sel.left, sel.bottom + |data| / 4 + 1);
    }

    /**
     * insertQuestionmarks, as written: the pasted text replaced by as many
     * '?' and placed from the cipher table's selection, with the loop over
     * rows stopping before cipherSel.bottom + len(data) - 1.
     */
    method InsertQuestionmarks(pasted: string, blockSize: nat, cipherSel: Range)
      requires blockSize >= 8
      modifies this
      ensures Valid() && columnCount == Columns && encoding == old(encoding)
      ensures cells == Questionmarked(old(cells), pasted, PieceWidth(blockSize), cipherSel)
    {
      var s := Placeholders(pasted);
      var data := Chunk(s, PieceWidth(blockSize));
      Resize(|data| / 4 + 1, Columns);
      Place(data, cipherSel.top, cipherSel.left, cipherSel.bottom + |data| - 1);
    }

    /**
     * insertQuestionmarks as evidently intended: the placeholders placed
     * exactly as insertData places the pasted text itself.
     */
    method InsertPlaceholders(pasted: string, blockSize: nat, cipherSel: Range)
      requires blockSize >= 8
      modifies this
      ensures Valid() && columnCount == Columns && encoding == old(encoding)
      ensures cells == Inserted(old(cells), Placeholders(pasted), PieceWidth(blockSize), cipherSel)
    {
      InsertData(Placeholders(pasted), blockSize, cipherSel);
    }

    /** copyData: the texts of the items in the range, row by row, with no delimiter. */
    method CopyData(sel: Range) returns (text: string)
      ensures text == Copied(cells, sel)
    {
      text := "";
      var i: int := sel.top;
      while i < sel.bottom + 1
        invariant sel.top <= i && (i <= sel.bottom + 1 || i == sel.top)
        invariant text == RangeText(cells, sel.top, i, sel.left, sel.right + 1)
      {
        var j: int := sel.left;
        while j < sel.right + 1
          invariant sel.left <= j && (j <= sel.right + 1 || j == sel.left)
          invariant text == RangeText(cells, sel.top, i, sel.left, sel.right + 1) + RowText(cells, i, sel.left, j)
        {
          var item := Lookup(cells, i, j);
          RowTextAppend(cells, i, sel.left, j);
          ghost var before := text;
          if item.Some? {
            text := text + item.value;
          }
          AppendStep(RangeText(cells, sel.top, i, sel.left, sel.right + 1), RowText(cells, i, sel.left, j),
                     Text(item), before, text);
          j := j + 1;
        }
        assert RowText(cells, i, sel.left, j) == RowText(cells, i, sel.left, sel.right + 1);
        RangeTextAppend(cells, sel.top, i, sel.left, sel.right + 1);
        i := i + 1;
      }
    }

    /** extractData: copy the range's text and leave an empty item in every cell of it that had one. */
    method ExtractData(sel: Range) returns (text: string)
      modifies this
      ensures columnCount == old(columnCount) && encoding == old(encoding)
      ensures text == Copied(old(cells), sel)
      ensures cells == Extracted(old(cells), sel)
    {
      ghost var c0 := cells;
      ExtractedBeforeStart(c0, sel);
      text := "";
      var i: int := sel.top;
      while i < sel.bottom + 1
        invariant sel.top <= i && (i <= sel.bottom + 1 || i == sel.top)
        invariant columnCount == old(columnCount) && encoding == old(encoding)
        invariant text == RangeText(c0, sel.top, i, sel.left, sel.right + 1)
        invariant cells == ExtractedBefore(c0, sel, i, sel.left)
      {
        var rowText := ExtractRow(sel, i, c0);
        text := text + rowText;
        i := i + 1;
      }
      ExtractedBeforeEnd(c0, sel, i);
    }

    /** One pass of extractData's inner loop: row i of the range, from its left to its right column. */
    method ExtractRow(sel: Range, i: int, ghost c0: Cells) returns (rowText: string)
      requires sel.top <= i <= sel.bottom
      requires cells == ExtractedBefore(c0, sel, i, sel.left)
      modifies this
      ensures columnCount == old(columnCount) && encoding == old(encoding)
      ensures rowText == RowText(c0, i, sel.left, sel.right + 1)
      ensures cells == ExtractedBefore(c0, sel, i + 1, sel.left)
    {
      rowText := "";
      var j: int := sel.left;
      while j < sel.right + 1
        invariant sel.left <= j && (j <= sel.right + 1 || j == sel.left)
        invariant columnCount == old(columnCount) && encoding == old(encoding)
        invariant rowText == RowText(c0, i, sel.left, j)
        invariant cells == ExtractedBefore(c0, sel, i, j)
      {
        ExtractedBeforeStep(c0, sel, i, j);
        var item := Lookup(cells, i, j);
        assert item == Lookup(c0, i, j);
        if item.Some? {
          rowText := rowText + item.value;
          SetItem(i, j, Some(""));
        }
        j := j + 1;
      }
      ExtractedBeforeNextRow(c0, sel, i, j);
    }

    /** clearTable: select the whole table and put an empty item into every cell of it. */
    method ClearTable()
      requires Valid() && |cells| > 0 && columnCount > 0
      modifies this
      ensures Valid() && columnCount == old(columnCount) && encoding == old(encoding)
      ensures cells == Cleared(old(cells))
    {
      ghost var c0 := cells;
      var sel := FullRange(cells, columnCount);
      var i: int := sel.top;
      while i < sel.bottom + 1
        invariant 0 <= i <= |cells| && |cells| == |c0| && Valid()
        invariant columnCount == old(columnCount) && encoding == old(encoding)
        invariant forall r, c :: 0 <= r < |cells| && 0 <= c < columnCount ==>
                    cells[r][c] == if r < i then Some("") else c0[r][c]
      {
        var j: int := sel.left;
        while j < sel.right + 1
          invariant 0 <= j <= columnCount && |cells| == |c0| && Valid()
          invariant columnCount == old(columnCount) && encoding == old(encoding)
          invariant forall r, c :: 0 <= r < |cells| && 0 <= c < columnCount ==>
                      cells[r][c] == if r < i || (r == i && c < j) then Some("") else c0[r][c]
        {
          SetItem(i, j, Some(""));
          j := j + 1;
        }
        i := i + 1;
      }
      forall r | 0 <= r < |cells| ensures cells[r] == Cleared(c0)[r] {
      }
    }

    /**
     * changeBlockSize: select the whole table, extract it to the clipboard
     * and insert the clipboard again in pieces of the new block size.  The
     * result is what the clipboard holds afterwards.
     */
    method ChangeBlockSize(blockSize: nat) returns (clip: string)
      requires Valid() && blockSize >= 8 && |cells| > 0 && columnCount > 0
      modifies this
      ensures Valid() && columnCount == Columns && encoding == old(encoding)
      ensures clip == AllText(old(cells), old(columnCount))
      ensures cells == Rechunked(old(cells), old(columnCount), PieceWidth(blockSize))
    {
      var full := FullRange(cells, columnCount);
      clip := ExtractData(full);
      InsertData(clip, blockSize, full);
    }

    /**
     * convertToASCII, convertToHex, convertToBase32 and convertToBase64 in
     * one: unless the table is already in the target encoding, collect every
     * item's text, decode it under the table's encoding, encode the bytes
     * under the target, put that on the clipboard, clear the table and
     * insert the clipboard.  Success(Some(t)) is the clipboard's new
     * content; Success(None) is the case with nothing to do.  The table's
     * encoding tag is not changed.
     */
    method ConvertTo(target: Encoding, blockSize: nat, lib: Library) returns (r: Result<Option<string>, Error>)
      requires Valid() && blockSize >= 8
      requires encoding != target ==> |cells| > 0 && columnCount > 0
      modifies this
      ensures encoding == old(encoding)
      ensures old(encoding) == target ==> r == Success(None) && cells == old(cells) && columnCount == old(columnCount)
      ensures old(encoding) != target ==>
                match Reencode(AllText(old(cells), old(columnCount)), old(encoding), target, lib)
                case Failure(e) => r == Failure(e) && cells == old(cells) && columnCount == old(columnCount)
                case Success(t) => r == Success(Some(t)) && Valid() && columnCount == Columns &&
                                   cells == Converted(old(cells), old(columnCount), t, PieceWidth(blockSize))
    {
      if encoding == target {
        return Success(None);
      }
      var full := FullRange(cells, columnCount);
      var data := CopyData(full);
      var binaryData := Decode(encoding, lib, data);
      if binaryData.Failure? {
        return Failure(binaryData.error);
      }
      var encoded := Encode(target, lib, binaryData.value);
      if encoded.Failure? {
        return Failure(encoded.error);
      }
      ClearTable();
      InsertData(encoded.value, blockSize, full);
      r := Success(Some(encoded.value));
    }

    /**
     * getKnownPlain: scan the rows; in each row take the first item whose
     * text has no '?' and leave that row.  The last row that had such an
     * item decides the text, while the row and column returned are where
     * the loops ended.
     */
    method GetKnownPlain(lib: Library) returns (r: Result<KnownPlain, Error>)
      requires Valid()
      ensures r == KnownPlainOf(cells, columnCount, encoding, lib)
    {
      var data := "";
      var rowNumber: Option<nat> := None;     // unbound until the first iteration
      var columnNumber: Option<nat> := None;
      var i := 0;
      while i < |cells|
        invariant 0 <= i <= |cells|
        invariant data == ScanText(cells, i)
        invariant rowNumber == if i == 0 then None else Some(i - 1)
        invariant columnNumber == if i == 0 || columnCount == 0 then None else Some(ScanColumn(cells[i - 1], columnCount))
      {
        rowNumber := Some(i);
        ghost var before := columnNumber;
        var j := 0;
        while j < columnCount
          invariant 0 <= j <= columnCount
          invariant data == ScanText(cells, i)
          invariant forall c :: 0 <= c < j ==> !Known(cells[i][c])
          invariant columnNumber == if j == 0 then before else Some(j - 1)
        {
          columnNumber := Some(j);
          var item := Lookup(cells, i, j);
          if item.Some? && '?' !in item.value {
            assert FirstKnown(cells[i]) == Some(j);
            data := item.value;
            break;
          }
          j := j + 1;
        }
        i := i + 1;
      }
      var binaryData := Decode(encoding, lib, data);
      if binaryData.Failure? {
        return Failure(binaryData.error);
      }
      if rowNumber.None? || columnNumber.None? {
        return Failure(UnboundLocal);
      }
      r := Success(KnownPlain(binaryData.value, rowNumber.value, columnNumber.value));
    }

    /**
     * getCipher: the bytes of the cell before (rowNumber, columnNumber) in
     * row-major order of a four-column table; column 0 steps back to column
     * 3 of the row above, whatever the table's width.
     */
    function GetCipher(rowNumber: int, columnNumber: int, lib: Library): (r: Result<seq<byte>, Error>)
      reads this
      ensures rowNumber == 0 && columnNumber == 0 ==> r == Failure(NoItem)
      ensures 0 <= columnNumber < Columns && 0 < Slot(rowNumber, columnNumber) ==>
                var k := Slot(rowNumber, columnNumber) - 1;
                r == ItemBytes(Lookup(cells, k / 4, k % 4), encoding, lib)
    {
      var row := if columnNumber == 0 then rowNumber - 1 else rowNumber;
      var column := if columnNumber == 0 then columnNumber + 4 else columnNumber;
      ItemBytes(Lookup(cells, row, column - 1), encoding, lib)
    }
  }
}
