# excelfileconverter: the layout and style engine

excelfileconverter turns the HTML tables of a document into a styled spreadsheet.
Its engine is `convert_to_excel` with the helper `html_color_to_openpyxl_argb`. The two
exist twice, in `final.py` (the Flask service) and in `newfile.py` (the Streamlit app),
almost line for line. This project models that engine once, and the table below cites
both copies.

The model has three layers:

- **Input.** The parsed document, as plain records. Tables hold their `<col>` elements and
  rows. Rows hold a style and their cells. A cell holds its text, style, `bgcolor`, parsed
  colspan, tag, and whether it holds `<b>` or `<i>`.
- **Pure functions.** The regular-expression searches over `cell_style + row_style`
  (`Patterns`, `Styles`). The colour normalisation (`Colors`). The column geometry
  (`Layout`): the master layout, a cell's target width and its greedy colspan.
- **Imperative code.** The code that works step by step is written as methods with loops,
  proved against the functions above:
  - the layout scans `ResolveMasterLayout` and `ParseLayout`;
  - the summation and colspan loops `ComputeTargetWidth` and `GreedyColspan`;
  - the placement loops `PlaceCells`, `PlaceRows`, `PlaceTable` and `PlaceTables`, with
    their row and column cursors;
  - the worksheet, a class whose fields the methods update (`Sheet.Worksheet`): cell
    writes, merges, borders, column widths, and the row-height pass.

`Converter.Convert` states what a whole conversion does: the "Content" column when there is
no table, the fallback branch when there is no master layout, an uncaught exception, or the
saved sheet. `Converter.ConvertToExcel` computes the same thing imperatively.

Modules follow the engine's parts:

| module | what it holds |
|---|---|
| `Wrappers` | `Option` |
| `Text` | `strip` and `lstrip` over Python's whitespace, substring tests, `split`, and `lower` and `upper` on ASCII letters |
| `Html` | the parsed document |
| `Patterns` | `re.search` for the three pattern shapes the engine uses |
| `Colors` | `html_color_to_openpyxl_argb` |
| `Styles` | the per-cell style reading, the font and the fill |
| `Layout` | `<col>` widths, master layout, target width, greedy colspan |
| `Sheet` | the worksheet state, the writer, the row-height pass |
| `Converter` | the cell, row and table loops and the whole conversion |

## Model

| member | source | states |
|---|---|---|
| `Colors.Double` | final.py:266-267 | The shorthand expansion writes every character twice: result twice as long, character `i` is input character `i / 2` (section 4.2.1 of CSS Color Module Level 3). |
| `Colors.ArgbOfDigits` | newfile.py:45-50 | A code is produced exactly when there are 3 or 6 digits; it is 8 characters long and starts with "FF". |
| `Colors.HtmlColorToArgb` | newfile.py:36-52 | A falsy colour gives no code; every code is 8 characters long and starts with "FF" (also final.py:254-275). |
| `Colors.ArgbDependsOnNormalForm` | newfile.py:39 | Two non-empty tokens with the same stripped, lower-cased form give the same result. |
| `Colors.UnknownNameGivesNone` | newfile.py:43-52 | A name that the colour table rejects (the `ValueError`) gives no code instead of an exception. |
| `Colors.KnownNameGivesArgb` | final.py:263-270 | A name that the colour table maps to "#rrggbb" gives "FF" followed by RRGGBB in upper case. |
| `Colors.FullHexGivesArgb` | final.py:261-270 | "#rrggbb" gives "FFRRGGBB". |
| `Colors.ShorthandExpands` | final.py:266-270 | "#rgb" gives the same code as "#rrggbb". |
| `Colors.HashTokenAcceptedIffLength` | newfile.py:45-50 | After the `#`, only the length is tested: a code exists iff 3 or 6 characters follow, hex digits or not. |
| `Colors.ArgbHexIffHexDigits` | final.py:199-202 | A code passes openpyxl's colour test iff the digits it came from are all hex digits. |
| `Text.JoinSplitLines` | final.py:90 | Joining the pieces of `split('\n')` with newlines gives the text back. |
| `Text.StripLowerCommute` | final.py:258 | `lower().strip()` equals `strip().lower()`. |
| `Text.UpTo` | final.py:164 | `split(',')[0]` is a prefix without the separator, followed by the separator or the end. |
| `Patterns.FindFrom` | final.py:143 | The leftmost index at which the pattern matches; no match at any earlier index; no result iff it matches nowhere. |
| `Patterns.SearchIsLeftmost` | newfile.py:104 | The search returns the group of the leftmost match. |
| `Patterns.DeclarationCapture` | final.py:143 | The group of `([^;]+)` is non-empty and holds no `;`. |
| `Patterns.DeclarationCaptureStrip` | final.py:144 | The stripped group is the stripped text up to the next `;`, with or without backtracking of `\s*`. |
| `Patterns.DeclarationFound` | final.py:146 | At the leftmost match the property name is present, not after the excluded prefix, and a character other than `;` follows. |
| `Patterns.CellDeclarationFirst` | final.py:139 | When the cell's style declares the property, the search over `cell_style + row_style` stops at the cell's own declaration. |
| `Patterns.CellDeclarationWins` | newfile.py:101 | ... and when that declaration is closed by a `;`, the group is the cell's own, whatever the row's style says. |
| `Patterns.DigitsCapture` | final.py:109-111 | The group of `width:\s*(\d+)` is a non-empty run of digits. |
| `Patterns.PixelsCapture` | final.py:166-167 | The group of `font-size:\s*([\d.]+)px` is a non-empty run of digits and dots. |
| `Styles.AlignOf` | final.py:148-151 | The alignment is not "general" iff the stripped, lower-cased value is one of center, left, right, justify; it is then that word. |
| `Styles.AlignNameRoundTrip` | newfile.py:109-112 | Every alignment other than "general" is read back from its own name. |
| `Styles.Alignment` | final.py:149-151 | No `text-align` declaration gives "general". |
| `Styles.FamilyOf` | final.py:164 | The first family holds no comma and neither starts nor ends with a quote. |
| `Styles.FamilyOfListed` | newfile.py:121 | A family written plainly before a comma is read as itself. |
| `Styles.FamilyOfQuoted` | final.py:164 | The quotes around a family name are removed. |
| `Styles.Family` | final.py:162-164 | A family, when there is one, is non-empty and holds no comma. |
| `Styles.Background` | final.py:141-144 | A truthy `bgcolor` wins; with no `background-color` declaration the attribute is kept as it was. |
| `Styles.BackgroundFromStyle` | newfile.py:102-105 | Otherwise the background is the stripped text of the leftmost `background-color:` declaration up to the next `;`, and it holds no `;`. |
| `Styles.ForegroundFromStyle` | newfile.py:106-108 | The font colour is read from the leftmost `color:` not preceded by `background-`, so `border-color:` also matches; its value is the stripped text up to the next `;`. |
| `Styles.SizePx` | final.py:166-167 | The font size read is a non-empty run of digits and dots. |
| `Styles.ExtractStyle` | final.py:139-169 | Truthy `bgcolor` is the background. `<b>` or `th` gives bold, and `<i>` gives italic. These substrings in either style set the flags: "font-weight: bold", "font-style: italic", underline, line-through. A family is non-empty without commas (also newfile.py:101-124). |
| `Styles.BoldAcrossTheJoin` | final.py:152 | The styles are joined without a separator, so "font-weight:" in the cell and " bold" in the row together make the cell bold. |
| `Styles.CellFamilyWins` | final.py:162 | A cell's own `;`-closed `font-family` wins over the row's. |
| `Styles.CellAlignmentWins` | final.py:150 | A cell's own `;`-closed `text-align` wins over the row's. |
| `Styles.CellFontColorWins` | final.py:146 | A cell's own `;`-closed `color` wins over the row's. |
| `Styles.CellBackgroundWins` | final.py:143 | A cell's own `;`-closed `background-color` wins over the row's. |
| `Styles.Fill` | final.py:198-202 | The background's code is the fill exactly when it passes openpyxl's colour test; a failing code is caught and gives no fill, and no code gives no fill. |
| `Styles.RenderCell` | final.py:166-208 | The written cell holds the text as openpyxl stores it, the extracted alignment, the font built from the extracted family, size (only when it reads as non-zero), bold, italic, underline, strike and colour code, and the fill. Rendering fails iff the size is not a float literal, the font colour's code fails openpyxl's test, or the stored text holds an illegal control character (newfile.py:139-158). |
| `Styles.StoredText` | final.py:205 | `cell.value = text` keeps the text when it has at most 32767 characters and otherwise its first 32767 characters. |
| `Styles.RenderPlainCell` | final.py:138-208 | A cell without a style, a truthy `bgcolor` or an illegal character, in a row without a style, is written with its text, the default alignment, no fill, and a font that only `<b>`, `th` and `<i>` change. |
| `Layout.DigitsValueLeadingZero` | final.py:111 | `int` of a digit run ignores leading zeros. |
| `Layout.WidthsOfCols` | final.py:107-111 | Cols without a `width:` are skipped, and none declaring one gives an empty layout. When all declare one, the layout is their widths, in order. |
| `Layout.WidthsAppend` | newfile.py:74-78 | The layout of two runs of cols is the first's followed by the second's. |
| `Layout.ParseLayout` | final.py:124-130 | The col loop computes the widths of the cols (also newfile.py:88-94). |
| `Layout.MasterScan` | newfile.py:67-78 | The count kept is the largest number of cols of any table. |
| `Layout.ResolveMasterLayout` | final.py:100-111 | The table loop computes the master layout of the tables. |
| `Layout.TieKeepsEarlier` | final.py:104 | A later table with no more cols than the widest earlier one never replaces the layout. |
| `Layout.FirstWidestIsMaster` | newfile.py:69-78 | The master layout is the widths of the first table with the largest number of cols. |
| `Layout.NoWidthsNoMaster` | final.py:113 | When no col declares a width, there is no master layout, even with cols. |
| `Layout.NoColsNoMaster` | newfile.py:79 | With no cols at all, there is no master layout and the largest count is 0. |
| `Layout.ComputeTargetWidth` | final.py:173-177 | The summation loop computes the target width: local widths from the cell's index over `colspan` entries, those inside the local layout only, 0 without a local layout (also newfile.py:126-130). |
| `Layout.TargetWidthCut` | newfile.py:128-130 | A colspan reaching past the local layout counts only the columns up to its end. |
| `Layout.TargetWidthSingle` | final.py:175-177 | A one-column cell has the local width at its own index. |
| `Layout.TargetWidthNoSpan` | final.py:175 | A colspan of zero or less gives target width 0. |
| `Layout.GreedyFrom` | final.py:183-185 | The loop count never falls below its start, and a count past its start stays within the master layout. |
| `Layout.EffectiveColspan` | final.py:179-186 | The colspan is at least 1, exactly 1 for target 0 or a start at or past the end, and at most `max(1, len(master) - start)`. |
| `Layout.ColspanIsLeastCover` | final.py:181-186 | With a positive target and columns left, the colspan is the least count whose master widths reach 90% of the target, or the count reaching the end of the grid. |
| `Layout.GreedyColspan` | newfile.py:131-138 | The `while` loop and the `max(1, ...)` compute the effective colspan. |
| `Sheet.Span` | final.py:213-215 | The spanned positions are exactly columns `col` to `col + span - 1` of the row. |
| `Sheet.StampEffects` | newfile.py:154-166 | Writing a cell sets the anchor, borders the spanned columns, and adds a merge only for a span above 1. Cells outside the span are kept. Nothing new appears but the anchor. |
| `Sheet.StampCells` | final.py:210-212 | Merging keeps the anchor and every cell outside the span. |
| `Sheet.FirstMergeAt` | final.py:231-236 | The range found holds the cell and is one of the merges; none found means no merge holds it. |
| `Sheet.FirstMergeOfDisjoint` | newfile.py:177-182 | With non-overlapping merges, the first range holding a cell is simply the range holding it. |
| `Sheet.CeilBounds` | final.py:244 | `ceil(x)` is at least `x` and less than `x + 1`. |
| `Sheet.CellLines` | final.py:240-246 | A cell's line count is the larger of its newline count plus one and its wrap estimate. |
| `Sheet.WrapLinesBounds` | final.py:241-244 | With a positive width `w`, the wrap count is the fewest lines of `w / 1.1` characters that hold the text: that many lines hold it and one fewer does not. Without a positive width it is 1. |
| `Sheet.RowLinesIsMax` | final.py:225-248 | A row's line count is at least 1 and every truthy cell's count, and equals 1 or one of them. |
| `Sheet.RowHeights` | final.py:224 | The pass sets heights on exactly rows 1 to `max_row`. |
| `Sheet.HeightsAreLineMultiples` | newfile.py:170-193 | Every row up to `max_row` gets a height that is a positive multiple of 15 points; nothing else changes. |
| `Sheet.Worksheet.constructor` | final.py:94-95 | A new worksheet is empty. |
| `Sheet.Worksheet.SetColumnWidth` | final.py:119-120 | Setting a width changes that column's width only. |
| `Sheet.Worksheet.WriteCell` | final.py:204-217 | Writing a cell makes the new sheet state the result of writing that cell on the old one. |
| `Sheet.Worksheet.BorderSpan` | final.py:213-215 | The border loop adds the spanned positions and changes nothing else. |
| `Sheet.Worksheet.EffectiveWidth` | final.py:229-238 | The scan over merges with its `break` computes the cell's effective width. |
| `Sheet.Worksheet.RowLinesOf` | newfile.py:172-192 | The loop over a row's cells computes its line count. |
| `Sheet.Worksheet.SetRowHeights` | final.py:223-250 | The height pass sets 15 points per line on rows 1 to `max_row` and changes nothing else. |
| `Converter.NonEmpty` | newfile.py:60 | The kept lines are non-empty lines of the input. |
| `Converter.ContentLines` | final.py:88-92 | Without tables, every row of the "Content" column is a non-empty line without a newline. |
| `Converter.ContentLinesAtNewline` | newfile.py:58-62 | A text split at a newline gives the lines of the first part followed by those of the second, in order. |
| `Converter.ContentLinesOfLine` | final.py:90 | A text without a newline gives itself, or nothing when empty. |
| `Converter.CellPlacements` | final.py:137-219 | A row from cell `idx` on gives one placement per remaining cell, on the cursor's row, each spanning at least 1 column, at or right of the cursor. |
| `Converter.RowPlacements` | final.py:133-220 | Each row's cells go on the rows below the cursor, one Excel row per `<tr>`, each spanning at least 1 column. |
| `Converter.TablePlacements` | final.py:122-221 | Every placement of the tables is on or below the cursor's row. |
| `Converter.CellPlacementAt` | final.py:171-186 | The `i`-th placement is cell `idx + i` with its row's style, spanning the greedy colspan for the target width at that cell's index, from the cursor's column. |
| `Converter.CellPlacementNext` | final.py:219 | The next placement starts right after the columns the previous one spans. |
| `Converter.CellPlacementsCells` | newfile.py:126-138 | Every cell of the row is placed in order with its greedy colspan. |
| `Converter.CellPlacementsColumns` | newfile.py:98-167 | The first cell is at the cursor's column, restarted at 1 per row, and each next cell sits right after the previous one's span. |
| `Converter.RowPlacementsRows` | final.py:133-220 | Every placement on Excel row `q` comes from `<tr>` number `q - r`, placed with the column cursor back at 1. |
| `Converter.BlankRowAfterTable` | final.py:221 | Nothing is placed on the row after a table's last row. |
| `Converter.CellPlacementsOrdered` | newfile.py:167 | A row's cells are placed left to right without overlapping. |
| `Converter.RowPlacementsOrdered` | newfile.py:168 | A table's rows are placed top to bottom. |
| `Converter.TablePlacementsOrdered` | newfile.py:169 | The tables are placed one below the other. |
| `Converter.ApplyRaises` | final.py:169-205 | Writing the placements raises iff some placement fails to render: a font size that is not a float literal, a font colour whose code fails the aRGB test, or an illegal control character in the stored value. |
| `Converter.ApplyKeeps` | final.py:210-215 | A cell that no later placement spans keeps its value and style. |
| `Converter.ApplyWritesAnchors` | final.py:204-208 | When ordered placements are written, every anchor holds its own rendered cell. |
| `Converter.ApplyKeepsWidths` | newfile.py:154-166 | Writing cells leaves the column widths unchanged. |
| `Converter.UnitWidthsAre` | final.py:118-120 | Columns 1 to `n` get the master widths over 8.43, and only those columns. |
| `Converter.PlaceCells` | final.py:137-219 | The cell loop writes the row's placements in order, or stops at the first that raises. |
| `Converter.PlaceRows` | final.py:133-220 | The row loop writes the table's placements, or stops when a row raises. |
| `Converter.PlaceTable` | final.py:124-133 | One table is written with its own local layout. |
| `Converter.PlaceTables` | final.py:122-221 | The table loop writes all placements, with a blank row after each table. |
| `Converter.ConvertToExcel` | final.py:79-252 | The method computes the conversion `Convert` specifies (also newfile.py:54-195). |
| `Converter.NoWidthsFallsBack` | final.py:113-116 | Tables without any declared col width take the fallback branch. |
| `Converter.ConvertRaises` | newfile.py:122-155 | With a master layout, the conversion raises iff some placed cell fails to render: a font size that is not a float literal, a font colour whose code fails the aRGB test, or an illegal control character in the stored value. |
| `Converter.ConvertMergesDisjoint` | final.py:210-212 | No two ranges the converter merges share a cell. |
| `Converter.ApplyMergesDisjoint` | final.py:210-218 | Writing placements in order, each to the right of or below the earlier ones, keeps the merged ranges disjoint. |
| `Converter.ConvertSaved` | final.py:118-250 | A saved sheet has every placed cell's rendering at its anchor, heights that are positive multiples of 15 up to `max_row`, and the master widths over 8.43 on columns 1 to `len(master)`. |

## Left out

- Flask routes, uploads and security headers; the Streamlit UI; reading and writing
  files; `workbook.save` and `output_stream.seek`. These are I/O and transport.
- BeautifulSoup. The parsed document is an input record. The cell text is given already
  stripped; `find('b')`, `find('i')` and the tag name are given as flags.
- The `int(cell.get('colspan', 1))` parse. The colspan is a given integer; a value `int`
  rejects is not modelled.
- The no-master-layout branch `pd.read_html(...).to_excel(...)`. It is a foreign call, and
  it is kept as the outcome `ReadHtmlFallback` without further detail. `read_html` returns
  a list of frames, so calling `.to_excel` on its result is not modelled either.
- The pandas "Content" frame. Only its rows are modelled, as the lines kept.
- `webcolors.name_to_hex` is a parameter `names`. It gives "#rrggbb" or `None` for the
  `ValueError`.
- openpyxl's default width of a column that was never set is the parameter `dflt`.
- Floating point:
  - widths are `px / 8.43` over exact reals;
  - the wrap estimate `ceil(len / (w / 1.1))` is computed over exact reals, an
    approximation of IEEE arithmetic;
  - the font size stays the pixel string matched, instead of `float(...) / 1.33`.
- Layout.EffectiveColspan: the test `covered < target * 0.9` is stated exactly as
  `10 * covered < 9 * target` over integer pixels. The floating-point product can round
  differently near the boundary.
- Styles.RenderCell: `float` is modelled only on the strings `[\d.]+` can match: at most
  one dot and a digit. A number that reads as zero gives no size, as `size if size else
  None` does. The value check of `cell.value = text` is modelled: the text is cut to 32767
  characters, and a control character of openpyxl's `ILLEGAL_CHARACTERS_RE` left in it
  raises.
- Converter.ConvertRaises: its "iff" covers the exceptions of rendering a cell only.
  `get_column_letter` raises `ValueError` past column 18278 ("ZZZ"), when a master layout
  has more columns or a merged range reaches further. This limit is not modelled.
- Styles.ExtractStyle: states each flag only in the direction from a declaration, tag or
  element to the flag. The converse over the joined style string is the definition
  itself. `BoldAcrossTheJoin` shows a flag that neither style string sets alone.
- `Alignment(vertical='center', wrap_text=True)` and the thin black border are constants.
  The model records only the horizontal alignment and the set of bordered positions.
- Whitespace is Python's full `str.isspace` set, which `strip` and `\s` share. Case
  mapping covers ASCII letters only: `lower` and `upper` leave every other character as
  it is, so there is no Unicode case mapping.
- Digits are ASCII only. Python's `\d`, `int` and `float` also accept other Unicode
  decimal digits, such as Arabic-Indic ones; a width, colspan or size written with them is
  not modelled.
- Logging.
- The placement loops take the rendering of a cell as a function parameter `render`.
  `ConvertToExcel` passes `Rendering(names)`, which is `RenderCell`. The source computes
  the style inline in the same loop; the model computes it in a separate function.
- The worksheet keeps the merged ranges in the order they were made. openpyxl's
  `merged_cells.ranges` is a set; the height pass uses the first range holding a cell.
  `FirstMergeOfDisjoint` shows that the order does not matter when no two ranges overlap,
  and `ConvertMergesDisjoint` shows that the converter's ranges never do.
