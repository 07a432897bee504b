# sfc cell tables and known-plaintext search, in Dafny

This project models the analysis core of `app.py` from the sfc block-cipher
workbench. Its `CustomTableWidget` shows a ciphertext or a plaintext as a
table of text cells, one block per cell, four cells per row. The text is in
one of four encodings: UTF-8, Hex, Base32 or Base64. The model covers these
operations:

- pasting text as blocks (`insertData`);
- filling the plaintext table with `?` placeholders shaped like the pasted
  ciphertext (`insertQuestionmarks`);
- copying and extracting a selected range (`copyData`, `extractData`);
- clearing the table (`clearTable`);
- re-cutting all text to a new block size (`changeBlockSize`);
- re-encoding the whole table (`convertToASCII/Hex/Base32/Base64`);
- decoding text to bytes (`decode`).

On the main window (`App`) it covers the first step of the gadget search:

- find a known plaintext block (`getKnownPlain`);
- find the ciphertext block before it (`getCipher`);
- XOR the two as integers in the machine's byte order (`encrypt`,
  `searchGadget`).

The files are:

- `wrappers.dfy`: `Option`, `Result` and one `Error` per Python exception
  that can reach the caller.
- `codec.dfy`: the four encodings.
  - Hexadecimal is modelled concretely. It is Base16 from section 8 of
    RFC 4648: `bytes.hex()` writes lower case and `binascii.unhexlify`
    accepts either case.
  - The UTF-8, Base32 (RFC 4648 section 6) and Base64 (RFC 4648 section 4)
    library codecs are function values in a `Library` argument. Each of
    their decoders may reject its input.
- `chunking.dfy`: the `while s:` loop that cuts pasted text into pieces of
  `blockSize / 8` characters.
- `grid.dfy`: the table as a value.
  - The table is a sequence of rows of cells. A cell is `None` (no item) or
    a text.
  - One function per operation gives the table the operation leaves behind.
  - Lemmas state what those tables satisfy.
- `table.dfy`: `class CellTable`, which is the widget. Its methods run the
  source's nested loops over the cells. Each method is proved to leave the
  table that the matching `Grid` function describes.
- `gadget.dfy`: Python's `^`, `int.from_bytes`, `int.to_bytes`, `encrypt`,
  and `class App` with `SearchGadget`.

The clipboard is modelled as values. Each pasting method takes the pasted
text as an argument. Each copying method returns what it puts on the
clipboard. Qt's selection is an explicit `Range`. `item(r, c)` is `Lookup`,
which gives `None` outside the table. `setRowCount` and `setColumnCount` are
`Resized`: cells that stay inside the table keep their items, and new cells
are empty.

## Model

| member | source | states |
|---|---|---|
| Codec.EncodeHex | app.py:86 | `bytes.hex()` writes two lower-case hexadecimal digits per byte |
| Codec.DecodeHex | app.py:286-287 | `unhexlify` succeeds exactly on text of even length made only of hexadecimal digits in either case, gives half as many bytes as characters, and otherwise fails with `binascii.Error` |
| Codec.HexRoundTrip | app.py:286-287 | decoding what `.hex()` wrote gives the bytes back |
| Codec.HexCanonical | app.py:86 | every even-length lower-case hexadecimal text is exactly what `.hex()` writes for the bytes it decodes to |
| Codec.Decode | app.py:283-294 | `decode`: UTF-8 never fails; Hex succeeds exactly on hexadecimal text; Base32 and Base64 succeed exactly when the library decoder accepts the text; Base64 passes the text on with every `=` still in it; a failure carries the decoder's exception |
| Codec.Reencode | app.py:67-68 | the decode-then-encode step of `convertTo*` (also app.py:85-86, 103-104, 121-122): a failed decode fails with the decoder's exception; with a target other than UTF-8 it fails only then; any other failure is invalid UTF-8; a Hex target gives lower-case text that decodes to the same bytes as the input |
| Codec.HexToHexUnchanged | app.py:85-86 | converting lower-case hex text from Hex to Hex gives the same text back |
| Codec.Encode | app.py:56-125 | the target side of `convertTo*`: only the UTF-8 target can fail (invalid UTF-8), and a Hex result is lower-case text that decodes back to the same bytes |
| Chunking.Chunks | app.py:183-186 | the pieces of the paste: none for empty text, every piece 1..n characters long, every piece but the last exactly n |
| Chunking.Chunk | app.py:183-186 | the `while s:` loop appends exactly those pieces |
| Chunking.PieceWidth | app.py:185-186 | `int(blockSize / 8)`: positive exactly when the block size is at least 8 bits, and the whole number of bytes in the block |
| Chunking.ZeroWidthNeverEnds | app.py:184-186 | as written, reached from the View menu (app.py:510-511, 516-517): with the piece length of `checked = False`, any number of passes leaves a non-empty paste unchanged and adds only empty pieces, so `while s:` never ends |
| Chunking.PassesEndWithChunks | app.py:184-186 | corrected: with a positive piece length, the loop ends within `len(s)` passes holding exactly the pieces `Chunks` describes |
| Chunking.ChunksConcat | app.py:183-186 | the pieces joined together give the pasted text back |
| Chunking.Placeholders | app.py:239 | `"?" * len(s)`: as long as the paste, every character `?` |
| Chunking.PlaceholderChunks | app.py:239-243 | the placeholder text cuts into as many pieces as the paste, each all `?` and as long as the paste's piece |
| Grid.Resized | app.py:192-193 | `setColumnCount`/`setRowCount`: the new dimensions, every surviving cell unchanged, every new cell without an item |
| Grid.InsertedCells | app.py:209-216 | the placement loop writes piece `j + 4*i` into cell (i, j) exactly when that piece exists and the cell is at or after the selection's top-left corner; every other cell is as the resize left it |
| Grid.InsertedAtOrigin | app.py:192-216 | pasted at (0, 0), the `len(data)/4 + 1` rows have room for every piece, and piece k lands in cell (k div 4, k mod 4) |
| Grid.Extracted | app.py:165-173 | after `extractData`, rows and row lengths are unchanged |
| Grid.ExtractedRangeEmpty | app.py:165-173 | copying a range right after extracting it gives the empty text |
| Grid.Cleared | app.py:229-234 | after `clearTable`, rows and row lengths are unchanged |
| Grid.RechunkedText | app.py:218-221 | `changeBlockSize` keeps the row-major concatenation of all cell texts |
| Grid.RechunkedCells | app.py:218-221 | after `changeBlockSize`, the cells that show text are exactly the slots of the pieces of that concatenation, each showing its piece |
| Grid.RechunkedIdempotent | app.py:218-221 | `changeBlockSize` twice with one block size gives the table of a single call |
| Grid.ConvertedText | app.py:56-125 | after a successful `convertTo*`, the concatenation of all cell texts is exactly the re-encoded text |
| Grid.QuestionmarkedMissesSinglePiece | app.py:248-255 | as written: a paste of one block with the cipher selection in row 0 makes one piece, and the placeholder loop writes nothing |
| Grid.QuestionmarkedAsInserted | app.py:245-255 | in every other case, the placeholder loop places the placeholders exactly as `insertData` would |
| Grid.PlaceholdersAllPlaced | app.py:238-255 | corrected: placing the placeholders as `insertData` does puts, in the slot of every piece of the paste, an all-`?` text of that piece's length |
| Grid.FirstKnown | app.py:264-268 | the column where the inner loop breaks: the first cell that has an item without `?`, or none when no cell of the row has one |
| Grid.ScanTextNone | app.py:262-268 | with no known cell in the table, the scan's text stays `""` |
| Grid.ScanTextLastRow | app.py:262-268 | the scan's text is the first known cell of the last row that has a known cell |
| Table.KnownPlainOf | app.py:262-270 | `getKnownPlain` as a value: on success the row is always the last row and the column is inside the table; a failure comes from decoding or from an empty table |
| Table.KnownPlainFromLastRow | app.py:262-270 | the result is the decoded text of the first known cell of the last row that has one; the column is that cell's column when it is in the last row, otherwise the last column |
| Table.KnownPlainNothingKnown | app.py:262-270 | without any known cell, the text is the decoding of `""` and the coordinates are the last row and the last column |
| Table.KnownPlainCoordinatesMiss | app.py:262-270 | the returned coordinates need not hold the returned text: an example in which the text is from (0, 0) and the coordinates are (1, 3), a cell without an item |
| Table.ItemBytes | app.py:279-280 | `.text()` then `decode` on the cell `getCipher` reads: `NoItem` exactly when the cell has no item; otherwise the decoding of its text, which never fails under UTF-8 |
| Table.CellTable.constructor | app.py:12-14 | a new widget has no cells and encoding UTF-8 |
| Table.CellTable.Resize | app.py:192-193 | the table becomes `Resized` of the old one, with the new column count |
| Table.CellTable.SetItem | app.py:172 | `setItem` replaces one cell and nothing else; a position outside the table changes nothing |
| Table.CellTable.Place | app.py:209-216 | the nested placement loop leaves exactly the `Placed` table |
| Table.CellTable.InsertData | app.py:175-216 | `insertData` leaves a four-column table equal to `Inserted` of the old table, pasted text and selection |
| Table.CellTable.InsertQuestionmarks | app.py:236-255 | `insertQuestionmarks` as written leaves the `Questionmarked` table |
| Table.CellTable.InsertPlaceholders | app.py:236-255 | corrected `insertQuestionmarks`: the placeholders inserted as `insertData` inserts the paste |
| Table.CellTable.CopyData | app.py:147-156 | the result is the row-major concatenation of the item texts in the range, with no delimiter; no cell changes |
| Table.CellTable.ExtractData | app.py:165-173 | the same text as `copyData` of the old table; each item in the range becomes `""`; cells without an item and cells outside the range keep their contents |
| Table.CellTable.ExtractRow | app.py:168-172 | one pass of the inner loop collects the row's text inside the range and empties its items |
| Table.CellTable.ClearTable | app.py:229-234 | every cell, with or without an item, ends up holding `""` |
| Table.CellTable.ChangeBlockSize | app.py:218-221 | the clipboard ends with the old table's whole text, and the table becomes `Rechunked`: extracted, then that text re-inserted at (0, 0) |
| Table.CellTable.ConvertTo | app.py:56-125 | nothing happens when the table is already in the target encoding; a failed decode or UTF-8 encode leaves the table unchanged and reports the exception; otherwise the clipboard gets the re-encoded text and the table becomes `Converted` |
| Table.CellTable.GetKnownPlain | app.py:257-270 | the nested scan with its `break` returns exactly `KnownPlainOf` of the table |
| Table.CellTable.GetCipher | app.py:272-281 | fails at (0, 0); for columns 0 to 3, decodes the cell just before (row, column) in row-major order of a four-column table; `NoItem` when that cell has no item |
| Gadget.Xor | app.py:633 | Python's `^` on non-negative integers, defined bit by bit; it never exceeds the sum of its operands |
| Gadget.XorShift | app.py:633 | `^` works digit by digit in base 2^k |
| Gadget.XorBelow | app.py:633 | the `^` of two k-bit numbers has k bits |
| Gadget.XorCancel | app.py:633 | `(a ^ b) ^ b == a` |
| Gadget.ToBytes | app.py:634 | `to_bytes(len, order)` succeeds exactly when the number fits in len bytes, and then reads back as the number; otherwise `OverflowError` |
| Gadget.FromBytes | app.py:631-632 | `int.from_bytes(b, order)`: in either byte order, the value of n bytes is below 256^n |
| Gadget.FromLittleBound | app.py:631-632 | `from_bytes` of n bytes is below 256^n |
| Gadget.FromLittleRoundTrip | app.py:631-634 | writing the value of n bytes back into n bytes gives the bytes |
| Gadget.FromLittleXor | app.py:631-633 | `^` of the values of two equal-length byte strings is the value of their bytewise XOR |
| Gadget.Encrypt | app.py:630-634 | `encrypt` returns `len(plain)` bytes or fails with `OverflowError` |
| Gadget.EncryptBytewise | app.py:630-634 | for equal lengths, byte k of the result is `plain[k] ^ cipher[k]` in either byte order, and there is no overflow |
| Gadget.EncryptShortKey | app.py:630-634 | a shorter key counts as zero-padded at its most significant end: after the key for little-endian, before it for big-endian |
| Gadget.EncryptLongKey | app.py:630-634 | a key longer than the plaintext raises `OverflowError` exactly when its extra bytes, at the most significant end for the byte order, are not all zero; otherwise the result is the bytewise XOR with the remaining bytes of the key |
| Gadget.EncryptInvolution | app.py:630-634 | `encrypt(encrypt(p, c), c) == p` for equal lengths |
| Gadget.EncryptRecoversKey | app.py:630-634 | `encrypt(p, encrypt(p, c)) == c` for equal lengths |
| Gadget.EncryptSelf | app.py:630-634 | `encrypt(p, p)` is all zero bytes |
| Gadget.Gadget | app.py:623-628 | the search's result has the known plaintext's length, and it fails whenever getting the known plaintext fails |
| Gadget.GadgetBytewise | app.py:623-634 | when the known plaintext and the ciphertext block before it have one length, the search's result is their bytewise XOR, in either byte order |
| Gadget.App.constructor | app.py:311-319 | both tables start 5 rows by 4 columns in UTF-8, and `x` starts empty |
| Gadget.App.SearchGadget | app.py:618-628 | `searchGadget` returns exactly `Gadget` of the plaintext table's `getKnownPlain`, the ciphertext table and the byte order; `x` takes the result on success and is unchanged on failure |

## Left out

- The PyQt user interface is not modelled: menus, shortcuts, focus dispatch, combo boxes, colour dialog and layout. `App.onSelectEncoding` is UI, and it is the only code that changes a table's encoding tag, so `ConvertTo` leaves the tag unchanged.
- The clipboard is not modelled as a device. Pasted text is an argument, and copied text is a result.
- Loading and saving files and the file dialogs are not modelled: they are I/O.
- Adding and removing rows and columns is not modelled. These are direct Qt calls with no logic of their own.
- The internals of the UTF-8, Base32 and Base64 codecs are not modelled. They are foreign library functions, passed in as a `Library`.
- `sys.byteorder` is a `ByteOrder` parameter.
- The `print` calls in `searchGadget` are not modelled.
- Qt's bookkeeping of earlier selections is not modelled. `changeBlockSize`, `clearTable` and `convertTo*` select the whole table, and the model takes that whole-table range to be the first selected range.
- Table.CellTable.ClearTable: requires at least one row and one column. A table with no rows or no columns has nothing selected, so `selectedRanges().pop(0)` raises `IndexError` in the source; the model does not include that error.
- Table.CellTable.ChangeBlockSize: requires at least one row and one column, for the same reason as ClearTable: on an empty table the source raises `IndexError` from `selectedRanges().pop(0)`, which the model does not include.
- Table.CellTable.ConvertTo: requires at least one row and one column whenever the table is not already in the target encoding; on an empty table the source's `clearTable` raises `IndexError`, which the model does not include.
- Table.CellTable.InsertData: requires a block size of at least 8 bits. With a smaller size, `int(blockSize / 8)` is 0 and the `while s:` loop never ends on a non-empty paste. The window's own calls pass `self.blockSize`, at least 64, but the View menu's "Convert to ASCII" and "Convert to HEX" pass `False`, which gives 0; see Findings.
- Table.CellTable.InsertQuestionmarks: requires a block size of at least 8 bits, as InsertData does.
- Table.CellTable.InsertPlaceholders: requires a block size of at least 8 bits, as InsertData does.
- Table.CellTable.ChangeBlockSize: requires a block size of at least 8 bits, as InsertData does.
- Table.CellTable.ConvertTo: requires a block size of at least 8 bits, as InsertData does; the View menu's calls with `False` are the hang recorded under Findings.
- Table.CellTable.CopyData: assumes a selected range exists. With nothing selected, `selectedRanges().pop(0)` raises `IndexError` in the source (app.py:148), an error path the model does not include.
- Table.CellTable.ExtractData: assumes a selected range exists. With nothing selected the source raises `IndexError` (app.py:166).
- Table.CellTable.InsertData: assumes a selected range exists when the placement loop reads it (app.py:209), and that it survives the resize. With nothing selected, or when `setRowCount` (app.py:193) has removed the rows the selection was in, the source raises `IndexError`, and `App.insertData` then never reaches `insertQuestionmarks`. The model does not include that error.
- Table.CellTable.InsertQuestionmarks: assumes the ciphertext table has a selected range (app.py:248); with none the source raises `IndexError`.
- Table.CellTable.InsertPlaceholders: assumes a selected range exists, as InsertQuestionmarks does.
- Table.CellTable.InsertData: `setRowCount` gets the float `len(data) / 4 + 1`. The model uses the whole-number quotient, as Qt's integer parameter does.
- Table.CellTable.GetCipher: its contract speaks of columns 0 to 3 only. A column of 4 or more reads the cell to its left, as the code does, but no property is stated about it.
- Table.CellTable.ExtractData: the source's nested loop is one method in the source. In the model, the inner loop is the helper `ExtractRow`.

## Findings

| source | as written | input that shows it | evidently intended | confidence | as-written member | corrected member |
|---|---|---|---|---|---|---|
| app.py:510-511 | the View menu's "Convert to ASCII" and "Convert to HEX" actions (also app.py:516-517) connect `triggered`, which passes `checked = False`, to `convertToASCII(blockSize)` and `convertToHex(blockSize)`, so `int(blockSize / 8)` is 0 | converting a non-empty table that is not already in the target encoding from the View menu: `insertData(False)` appends `s[:0]` and keeps `s[0:]` forever, and the `while s:` loop at app.py:184-186 never ends | pass the window's block size, `self.blockSize` (64 to 512 bits), as `onSelectEncoding` does at app.py:452-461 | not executed | Chunking.ZeroWidthNeverEnds | Chunking.PassesEndWithChunks |
| app.py:248-249 | the row loop of `insertQuestionmarks` stops before `bottomRow + len(data) - 1` | a paste of at most one block (`len(data) == 1`) while the ciphertext selection is in row 0: the range is `range(0, 0)`, so no placeholder is written | place the placeholders as `insertData` places the ciphertext, with bound `bottomRow + len(data) / 4 + 1` | not executed | Grid.QuestionmarkedMissesSinglePiece | Grid.PlaceholdersAllPlaced |
