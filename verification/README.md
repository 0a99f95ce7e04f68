# Verified models of the userland browser, editor and build tools

A Dafny model of the parts of the system whose correctness is not visible from one function: the
style sheet engine, the document tree and its tag-soup parser, the JPEG and PNG decoders, the
editor's undo history and incremental highlighting, and four of the build tools. Code that changes
things in place is a class or a method over arrays, proved against functions on values; what the
system relies on is proved about those functions, for all inputs and all runs.

`dafny verify dfyconfig.toml` checks everything.

| files | what they model |
|---|---|
| `EditHistory`, `Editor` | the editor's buffer, its undo and redo stacks, typing that merges into one operation, the clipboard |
| `Highlight`, `HighlightColours` | syntax colouring line by line against the whole-file comment scan, and what each colour means |
| `JpegBits`, `JpegHuffman`, `JpegBlocks`, `Jpeg` | the entropy-coded segment of a baseline JPEG, from bytes to dequantised blocks |
| `JpegPixels` | the whole way from pixels to a file and back |
| `Idct`, `IdctCosines`, `IdctInverts` | the fixed-point inverse cosine transform: bounds, rounding, the table as cosines, and how close it comes to undoing the forward one |
| `Png` | row filters |
| `CssNames`, `CssSelector`, `CssSpecificity`, `CssCascade`, `StyleSheet` | words of a class list, selector matching, what a compound matches, specificity in one number, the cascade by packed weight, the bucketed rule index |
| `CssIntern`, `CssVars` | the string-intern table inside a byte buffer; custom properties in an open-addressing table over an arena |
| `DomTree`, `DomEdit`, `Dom`, `DomOrder` | the index-linked document tree, the operations scripts use, document order |
| `DomSoup`, `DomParse`, `DomRoundTrip` | the tag-soup parser on values, its in-place form, and markup written and parsed back |
| `DomAttributes`, `DomFind`, `DomText` | reading and rewriting the raw attribute text of an element; looking an element up by its id; its text |
| `Sha512` | streaming SHA-512 and SHA-384 |
| `FloodFill` | clearing the paper around an icon |
| `Dechunk` | joining a chunked body |
| `FontCoverage` | character ranges from a format-4 or format-12 `cmap`, and the second reading of format 4 |
| `Bytes` | bytes and the name hash, for the others |

## Where the code does less than one would expect

The models follow the code. In these places a property one would like is false, and the project
proves exactly when it holds.

- Undo restores a deletion exactly when one operation of `OP_TEXT_MAX` bytes holds all of it
  (`DeleteThenUndo`), and an insertion under the condition that `InsertThenUndo` spells out. Cutting
  a longer selection and undoing the cut loses text: `LongCutIsNotUndone`. Undoing a paste restores
  the text exactly when the clipboard fitted the buffer or went to the end of the text:
  `PasteThenUndo`; else it also takes bytes that were there before: `OverfullPasteIsNotUndone`. An undo after that can
  write past the end of the text, which nothing tests for: `UndoPastTheEnd`; runs of edits that fit
  never do: `HistoryIsSound`.
- The packed weight puts importance above specificity exactly while no specificity reaches across
  the million that importance adds: `PackedOrder`. One id written 101 times beats `!important`:
  `ManyIdsBeatImportant`. Specificity itself, one number for three counts, orders as the standard
  does exactly while classes, attributes and pseudo-classes stay under a hundred: `HundredsPack`;
  a hundred attributes weigh as much as an id: `HundredAttributes`. Of several ids, attributes or
  pseudo-classes in one compound only the last is matched: `CompoundMatches`, `OverruledIsIgnored`.
- Fields that share a weight (box, width, border) may keep what a losing rule left behind:
  `LoserIsLeftBehind`, `LosersDependOnOrder`. What is there is exactly what the records among the visits set, a record
  being a contender heavier than all before it: `RecordsRemain`. So a group has the winner's own
  fields and no others exactly when no record sets one the winner leaves alone: `OnlyTheWinners`,
  `BucketsLeave`.
- Clearing the children of a node leaves them naming a parent that does not list them. Detaching such
  a node keeps the links sound exactly when it has no next sibling left over (`DetachIsSound`,
  `ClearedThenDetached`), and appending it exactly when it has none or goes back to that parent. For
  every node and every new parent, `AppendIsSound` says when the links can be read as child lists,
  and that there is then a cycle exactly when the node was above its new parent. A former child
  appended elsewhere can make a loop of two other nodes: `FormerChildMakesLoop`. Of all five
  operations, `StepIsSound`: the document is sound afterwards exactly when the step was legal.
- The length field of SHA-512 is 64 bits wide, not 128; the padding is that of the standard exactly
  for messages under 2^61 bytes: `PadsAsTheStandard`. The comment beside the code says 2^64 bytes.
- Colouring forgets an open string at the end of the line and the whole-file scan does not, and it
  reads only the first `2 * MAXCOLS` bytes of a line: `OpenQuoteMisleads`. The carried flag is right
  at every line exactly when each line that starts inside a literal or is longer than that opens
  and closes the same comments, read either way: `CarriedFlagIsTheAnswer`. No line starts inside a
  literal exactly when all literals close on their own lines: `TidyExactly`.
- `dom_set_attr` never ends on a text in which a `>` is met outside a value, and ends on every other:
  `EndsExactly`. The parser hands it such texts: `OrdinaryMarkupHangs`.
- The attributes of an element read back as they were rewritten exactly when the name set can be
  read, no value has a double quote in it, and no value without a name comes to stand behind a name
  without a value: `SetThenTokenise`, `RemoveThenTokenise`, `QuoteBreaks`, `RunsTogether`. Reading by name is misled exactly by a value that contains text looking like
  the attribute: `SetThenRaw`, `LookAlikeMisleads`.
- The two readings of a format-4 table agree on a character other than U+FFFF, which the index
  leaves out, exactly when no earlier segment overrules the one that has it: `ReadingsAgree`, `OverruledTable`.

## Model

| member | source | states |
|---|---|---|
| `EditHistory.HistoryIsSound` | userland/edit.c:55-191 | over every run of insertions, deletions, closings, undos and redos from a loaded file, whose edits one operation holds and the buffer takes: no position ever leaves the text, replaying the undo stack backwards and the redo stack forwards is possible at every step, the stacks never overflow, and every text they lead to was on the screen |
| `EditHistory.RunKeepsSound` | userland/edit.c:55-191 | the same from any sound state |
| `EditHistory.StepKeepsSound` | userland/edit.c:138-191 | each single command keeps the history sound and can be carried out |
| `EditHistory.MergePreservesMeaning` | userland/edit.c:95-118 | an operation that swallowed a second edit undoes both at once: running it back from the new text gives the text before the first |
| `EditHistory.TypingIsOneUndo` | userland/edit.c:95-142 | any run of adjoining insertions of at most `OP_TEXT_MAX` bytes together, behind a closed operation, inserts all of them in one place, adds one operation, and one undo restores the text before the run |
| `EditHistory.BackspacesAreOneUndo` | userland/edit.c:107-149 | likewise any run of backspaces: the operation holds what they took, in the order of the text, and one undo puts it back |
| `EditHistory.BackwardForward` | userland/edit.c:155-173 | undoing an operation makes it redoable, and redoing it restores the text |
| `EditHistory.ForwardBackward` | userland/edit.c:155-173 | redoing an operation makes it undoable, and undoing it restores the text |
| `EditHistory.UndosThenRedos` | userland/edit.c:177-191 | k undos and k redos are the identity on the text and both stacks, but that the operations that travelled no longer merge |
| `EditHistory.UndoneTextsWereSeen` | userland/edit.c:177-183 | every text that k undos lead to was on the screen before |
| `EditHistory.StacksFit` | userland/edit.c:73-191 | over every run whose positions stay inside the text, long edits and full buffers included, both stacks together hold at most `UNDO_MAX` operations, so undo and redo never push one out |
| `EditHistory.InsertThenUndo` | userland/edit.c:73-142 | an insertion of any size into any buffer is undone exactly when the bytes the buffer took are at most `OP_TEXT_MAX` and are all that were given, or exactly `OP_TEXT_MAX`, or stand at the end of the text |
| `EditHistory.DeleteThenUndo` | userland/edit.c:73-149 | a deletion is undone exactly when it is at most `OP_TEXT_MAX` bytes; of a longer one exactly the first `OP_TEXT_MAX` come back |
| `EditHistory.LongCutIsNotUndone` | userland/edit.c:292-308 | cutting 65 bytes and undoing does not bring them back |
| `EditHistory.PasteInserts` | userland/edit.c:314-326 | pasting in pieces inserts the clipboard, or as much of it as the buffer takes, in one place and leaves one operation a piece; positions past the end are asked for only of a full buffer |
| `EditHistory.PasteThenUndo` | userland/edit.c:314-326 | a full clipboard is exactly a full stack of operations; undoing them all restores the text exactly when the clipboard fitted or went to the end of the text |
| `EditHistory.PasteOpsDelete` | userland/edit.c:155-183 | undoing the operations of a paste deletes as many bytes as the clipboard had, from its place on |
| `EditHistory.OverfullPasteIsNotUndone` | userland/edit.c:314-326 | 64 bytes pasted into a text of 65530 and undone is not the text |
| `EditHistory.UndoPastTheEnd` | userland/edit.c:121-183 | a byte deleted at the end of a near-full buffer, an overfull paste, and two undos: the second inserts past the end of the text |
| `EditBuffer.PushOp` | userland/edit.c:73-88 | the array holds the newest `UNDO_MAX` operations, each cut to `OP_TEXT_MAX` bytes |
| `EditBuffer.Editor.InsertRaw` | userland/edit.c:121-127 | in-place shifting splices the bytes in, or does nothing when they do not fit |
| `EditBuffer.Editor.DeleteRaw` | userland/edit.c:129-136 | in-place shifting cuts the bytes out, clipped to the text |
| `EditBuffer.Editor.RecordEdit` | userland/edit.c:95-118 | the edit is merged into the last operation or pushed, and the redo stack is dropped |
| `EditBuffer.Editor.Insert` | userland/edit.c:138-142 | the arrays do what the history's insert command does |
| `EditBuffer.Editor.Delete` | userland/edit.c:144-149 | the arrays do what the history's delete command does, for a range inside the text |
| `EditBuffer.Editor.Close` | userland/edit.c:90-93 | no further typing merges into the last operation |
| `EditBuffer.Editor.UndoOne` | userland/edit.c:155-183 | the arrays do what the history's undo does, and the cursor goes where the change was |
| `EditBuffer.Editor.RedoOne` | userland/edit.c:166-191 | the arrays do what the history's redo does, and the cursor goes where the change was |
| `EditBuffer.Editor.Paste` | userland/edit.c:314-328 | the loop over pieces, whether they fit or not, is the run of insertions the undo theorem speaks of; the cursor moves on by the whole clipboard |
| `Highlight.InBlockCommentAt` | userland/edit.c:371-393 | the scan from the start of the file answers whether an offset is inside a block comment, by a three-state lexer |
| `Highlight.LineScan` | userland/edit.c:371-458 | over a line whose literals close, the lexer of the whole file and the flag the colouring carries stay together |
| `Highlight.CarriedFlagIsTheAnswer` | userland/edit.c:484-534 | for every text: from every top line the flag carried line by line equals the whole-file answer at every later line start, exactly when every line that starts inside a literal or is too long to be coloured whole opens and closes the same comments read either way |
| `Highlight.ThroughStarts` | userland/edit.c:371-393 | the whole-file scan passes through every line start, whatever it is in |
| `Highlight.LexStep` | userland/edit.c:371-393 | what the scan makes of a line, from what the line starts in |
| `Highlight.TidyIsRight` | userland/edit.c:484-534 | the carried flag is right on every text whose literals close on their own lines and whose lines are not too long |
| `Highlight.TidyExactly` | userland/edit.c:371-458 | all literals close on their own lines exactly when no line starts inside one |
| `Highlight.OpenQuoteMisleads` | userland/edit.c:371-458 | a quote left open makes the two differ |
| `Highlight.HighlightLine` | userland/edit.c:395-458 | every cell of the line is coloured, none beyond it, and the flag comes out as carried |
| `Highlight.ColourToken` | userland/edit.c:406-457 | each turn of the loop colours at least one cell and moves on |
| `HighlightColours.ColoursAreRight` | userland/edit.c:371-458 | every character of every line that does not start inside a literal has the comment colour, or the string colour, exactly when the lexer of the whole file is in a comment, or a literal, there; and in code the colour of the number, keyword, type name, other word or mark it is part of, by what stands around it |
| `HighlightColours.ScreenIsRight` | userland/edit.c:484-534 | from whatever line the screen starts, with the flag carried down, on every text whose literals close on their own lines and whose lines are not too long |
| `HighlightColours.LineColours` | userland/edit.c:371-458 | the agreement on comments and literals from any place of a line on, literals left open included |
| `HighlightColours.CodeColours` | userland/edit.c:395-458 | numbers run from a digit with no word character before it over word characters and dots; words are whole words |
| `HighlightColours.LiteralEndsAt` | userland/edit.c:430-441 | a literal ends with the first quote of its kind that has an even number of backslashes before it, else with the line |
| `JpegBits.BitReader.Next` | userland/img.h:343-357 | one bit of the payload, stuffed zeros skipped; zeros for ever after a marker or the end |
| `JpegBits.BitReader.Fill` | userland/img.h:344-353 | the next payload byte is buffered, a stuffed zero skipped; at a marker or the end nothing remains, and nothing ever will |
| `JpegBits.BitReader.Receive` | userland/img.h:359-363 | n bits, most significant first |
| `JpegBits.PackedBits` | userland/img.h:343-357 | bits packed into bytes come out in order |
| `JpegBits.PayloadOfStuffed` | userland/img.h:343-357 | what the reader takes for payload is exactly what was there before FF bytes were stuffed |
| `JpegBits.SegmentDelivers` | userland/img.h:343-357 | a packed and stuffed segment anywhere in a file delivers its bits, its padding, and then what follows |
| `JpegBits.ValueOfBits` | userland/img.h:359-363 | the first bits of a written number are its high part |
| `JpegBits.BitsOfValue` | userland/img.h:359-363 | writing a number that was read gives its bits back |
| `JpegHuffman.IndexStaysInside` | userland/img.h:391-399 | the index a code leads to lies among the symbols of its length, and so inside `vals` |
| `JpegHuffman.CanonicalCode` | userland/img.h:377-389 | the arrays describe the code of Annex C of ITU-T T.81 |
| `JpegHuffman.DecodesItsCode` | userland/img.h:377-399 | a symbol's code followed by anything decodes to that symbol and takes exactly its bits |
| `JpegHuffman.HuffTable.Build` | userland/img.h:377-389 | the loop fills the arrays with least code, greatest code and first symbol of every length |
| `JpegHuffman.HuffTable.Decode` | userland/img.h:391-399 | the loop returns the symbol of the code that comes next, or 0 after 16 bits without one |
| `JpegBlocks.JzInjective` | userland/img.h:303-307 | the zig-zag order visits no place twice |
| `JpegBlocks.JzWalks` | userland/img.h:303-307 | it is the walk of Figure A.6 of ITU-T T.81: from the corner, up and to the right on even diagonals and down and to the left on odd ones, one place along the edge where a diagonal ends |
| `JpegBlocks.ExtendMagnitude` | userland/img.h:366-368 | the magnitude bits of a value of either sign extend to that value |
| `JpegBlocks.ReadsAc` | userland/img.h:586-598 | run lengths, ZRL and EOB written for the coefficients from k on are read back to their natural places, times their quantisers |
| `JpegBlocks.ReadsBlock` | userland/img.h:578-598 | a block coded against a predictor is read back whole, and leaves the predictor |
| `JpegBlocks.ReadsScan` | userland/img.h:575-598 | so is any interleaving of blocks of several components |
| `JpegBlocks.DecodingInvertsCoding` | userland/img.h:343-598 | coded, packed, stuffed and put anywhere in a file, all blocks are read back dequantised, and exactly their bits are used up |
| `JpegDecoder.DecodeDc` | userland/img.h:581-584 | the DC difference the bits stand for |
| `JpegDecoder.DecodeAc` | userland/img.h:586-598 | the AC loop over the block array computes what the theorem reads |
| `JpegDecoder.DecodeBlock` | userland/img.h:578-598 | one block and the predictor it leaves |
| `JpegDecoder.DecodeNext` | userland/img.h:575-598 | one block of a scan, the predictor of its component updated |
| `JpegDecoder.DecodeScan` | userland/img.h:575-598 | all blocks of a scan, from predictors of zero |
| `IdctCosines.EntriesAreRounded` | userland/img.h:285-301 | every entry of the table is a cosine of an odd sixteenth, eighth or quarter of a half turn, by its row, rounded to the nearest 4096th: doubling the angle as often as its row says changes sign between half a unit below and half a unit above |
| `IdctCosines.RowsAreMultiples` | userland/img.h:285-301 | which cosine: row u is that of u times the angle of row 1, by the product rule, to two units; and eight times that angle is an odd number of right angles |
| `IdctCosines.AnglesGrow` | userland/img.h:285-301 | the angles of row 1 grow from column to column, mirrored about the middle |
| `IdctCosines.OneWave` | userland/img.h:313-333 | a block with one coefficient, at column u of row v, comes out as that much of the wave of u half turns across and v down, to 0.57 of a pixel value |
| `Idct.RoundingIsSmall` | userland/img.h:313-333 | on every block both roundings together are within 0.5625 of the exact double sum over the table |
| `Idct.RowBound` | userland/img.h:309-322 | for coefficients up to 2047*255 every row result is below 2^26 |
| `Idct.FlatBlock` | userland/img.h:313-333 | a block with only a DC term d gives 64 equal pixels within 1 of 128 + d/8 clamped |
| `Idct.WeighedSum` | userland/img.h:319-326 | no product or partial sum leaves 64 bits |
| `Idct.Rows` | userland/img.h:315-322 | every result of the first pass fits 32 bits and is the rounded sum |
| `Idct.OnePixel` | userland/img.h:323-332 | every unclamped pixel fits 32 bits and is the rounded sum |
| `Idct.Transform` | userland/img.h:313-333 | the 64 clamped pixels come to stand at their place in the plane, and nothing else changes |
| `IdctInverts.OverlapIsSmall` | userland/img.h:292-301 | the weights of two positions cancel, and those of one add up to 2^26, but for at most 7925: the table is orthogonal |
| `IdctInverts.ForwardAndBack` | userland/img.h:292-322 | eight values transformed with the table and transformed back are 2^26 times themselves, within the table's rounding |
| `IdctInverts.ExactBack` | userland/img.h:292-333 | so are 64, by rows and columns |
| `IdctInverts.DecodedIsClose` | userland/img.h:292-333 | any coefficients within half a step q of the exact ones decode to pixels within 3.5 q + 1 of the original |
| `IdctInverts.CodedAndDecoded` | userland/img.h:292-333 | for every block of pixels and every quantiser table, coding and decoding moves no pixel by more than 3.5 q + 1 |
| `JpegPixels.DequantisedIsClose` | userland/img.h:578-598 | what the block loop leaves of quantised coefficients is, at every natural place, within half a step of the exact ones |
| `JpegPixels.PixelsComeBack` | userland/img.h:292-598 | pixels transformed, quantised by steps of at most m, coded, packed and stuffed anywhere in a file: every pixel the decoder reads back is within 3.5 m + 1 of the original, and with 8-bit quantisers every block is one the 64-bit transform can take |
| `Png.Paeth` | userland/img.h:220-227 | the neighbour nearest to left + up - corner, left before up before corner among equals |
| `Png.RowByFilter` | userland/img.h:203-231 | by row and column, what each of the five filters restores: the bytes sent, plus the byte to the left, the one above, half of both together, or the Paeth neighbour, modulo 256; an unknown filter adds nothing |
| `Png.SubSums` | userland/img.h:209-217 | a row of filter 1 is restored to running sums, a pixel apart, modulo 256 |
| `Png.FilteredIsRestored` | userland/img.h:201-232 | an image satisfies the decoder's recurrence on its own filtered rows, for every choice of filters |
| `Png.RestoredOnce` | userland/img.h:201-232 | one image only satisfies it |
| `Png.UnfilteringInverts` | userland/img.h:201-232 | so unfiltering filtered rows gives the image, and no other bytes, for every shape, filter unit and choice of filters |
| `Png.FilteringInverts` | userland/img.h:201-232 | filtering what was restored gives back the bytes that were sent |
| `Png.UnfilterRow` | userland/img.h:203-231 | one row of the loop restores its bytes from those before |
| `Png.Unfilter` | userland/img.h:201-232 | the loop's array satisfies the recurrence throughout |
| `CssNames.InListFinds` | userland/css.h:254-268 | a word is found exactly when it is not empty and stands in the list, in any case: no space inside, a space or an end of the list on either side |
| `CssNames.SpansAreWords` | userland/css.h:257-260 | the words of a list are exactly those stretches, each once, in order |
| `CssNames.WordsOfSpans` | userland/css.h:257-260 | what is compared is what stands there |
| `CssSelector.MatchIsPlacement` | userland/css.h:1536-1560 | the backtracking matcher says yes exactly when the parts can be placed on rising chain positions, the last on the element, child combinators on adjacent ones |
| `CssSpecificity.SpecificityCounts` | userland/css.h:979-1084 | a compound weighs 10000 for each id, 100 for each class, attribute and pseudo-class and 1 for a tag, each counted as often as it is written |
| `CssSpecificity.HundredsPack` | userland/css.h:979-1084 | the one number orders selectors as section 6.4.3 of CSS 2.1 does, for all with fewer than n classes, attributes and pseudo-classes and at most four tags, exactly when n is at most 100 |
| `CssSpecificity.HundredAttributes` | userland/css.h:1015-1050 | a compound of a hundred attributes weighs as much as one of an id, which is the more specific |
| `CssSpecificity.RepeatedId` | userland/css.h:999-1005 | an id written n times is one id to match and n to weigh |
| `CssSpecificity.CompoundMatches` | userland/css.h:979-1548 | a compound as parsed matches exactly the elements that have its tag, every class written, and the last id, the last attribute and the last pseudo-class written |
| `CssSpecificity.OverruledIsIgnored` | userland/css.h:999-1084 | so one that is followed by another of its kind asks for nothing: `[a][b]` matches an element without the first attribute |
| `CssCascade.PackedOrder` | userland/css.h:1573-1584 | comparing packed weights is comparing importance, specificity and source position, exactly while no specificity reaches across a million |
| `CssCascade.ManyIdsBeatImportant` | userland/css.h:1573-1584 | for an element with that id, under any visits: the important rule of `#a` should decide the colour, and the rule of `#a` written 101 times sets it |
| `CssCascade.TryAllKeepsGroup` | userland/css.h:1573-1660 | whatever is visited, in any order and however often, a group holds the fields of a rule that no visited contender outweighs |
| `CssCascade.CascadeDecides` | userland/css.h:1573-1660 | for visits that miss no matching rule: a group nobody sets is unset; else one rule decides it and all its fields survive, and a field is there exactly when some record sets it |
| `CssCascade.RecordsRemain` | userland/css.h:1573-1660 | for any visits in any order: a field is in the style exactly when a record, a contender heavier than all visited before, sets it, and has the value of the last record that does |
| `CssCascade.OnlyTheWinners` | userland/css.h:1634-1660 | a group has the fields of the deciding rule and no others exactly when no record sets one that rule leaves alone |
| `CssCascade.SingleFieldValue` | userland/css.h:1573-1633 | a property with a field of its own is exactly that of the greatest matching rule by importance, specificity and position |
| `CssCascade.DecidesOnce` | userland/css.h:1573-1584 | that rule is unique |
| `CssCascade.LosersDependOnOrder` | userland/css.h:1634-1660 | two rules of equal weight, visited in either order, leave different margins |
| `CssIndex.FiledIsIndexed` | userland/css.h:1123-1136 | filing a rule by id, class or tag keeps every bucket the descending list of the rules that belong there |
| `CssIndex.VisitsCover` | userland/css.h:1664-1705 | the buckets visited for an element miss no rule that matches it, whatever the collisions |
| `CssIndex.BucketsDecide` | userland/css.h:1123-1705 | the style out of the buckets is the style of the cascade over all rules |
| `CssIndex.BucketsLeave` | userland/css.h:1634-1705 | the same exact account of what remains in a shared group, for the visits the buckets make |
| `CssIndex.LoserIsLeftBehind` | userland/css.h:1634-1705 | `* { margin-left: 1 }` and `p { padding-top: 2 }`: the second decides the box of a paragraph, and the margin of the first stays |
| `CssIndex.StyleSheet.AddRule` | userland/css.h:1123-1138 | a rule is stored last and filed, or refused when the table is full |
| `CssIndex.StyleSheet.TryList` | userland/css.h:1664-1705 | following a chain tries each of its rules once and ends |
| `CssIndex.StyleSheet.TryClasses` | userland/css.h:1664-1705 | every word of the class attribute has its bucket tried |
| `CssIndex.StyleSheet.MatchChain` | userland/css.h:1664-1705 | an empty chain has no style; else the style is that of the visits above |
| `CssIntern.StepKeepsTidy` | userland/css.h:936-958 | interning keeps the entries apart, lowercased and without repeats |
| `CssIntern.RunNames` | userland/css.h:936-958 | over every run each offset handed out keeps its name to the end |
| `CssIntern.SameOffsetSameName` | userland/css.h:936-958 | over every run two names have the same nonzero offset exactly when equal but for case |
| `CssIntern.NameTable.Search` | userland/css.h:936-947 | each chain strictly descends in offset, so the walk ends, and finds the name if it is there |
| `CssIntern.NameTable.Append` | userland/css.h:948-958 | a new name goes behind all others and changes none of them |
| `CssIntern.NameTable.Intern` | userland/css.h:936-958 | the byte buffer and its chains do what the entry list does; a full table returns 0 and changes nothing |
| `CssIntern.NameTable.NamesReadBack` | userland/css.h:183-183 | the text at every offset is the lowercased name |
| `CssVars.EmptyMeansAbsent` | userland/css.h:556-564 | an empty slot on the way of a key means the key is nowhere |
| `CssVars.ProbingEnds` | userland/css.h:524-564 | the three-quarter cap leaves an empty slot on the way of every key |
| `CssVars.StoreKeepsSound` | userland/css.h:524-554 | writing a key where its probing ended keeps all keys reachable |
| `CssVars.VarTable.FindSlot` | userland/css.h:524-564 | probing ends at the key's own slot or an empty one, all before it taken by others |
| `CssVars.VarTable.Get` | userland/css.h:556-564 | the value a case-insensitive map has |
| `CssVars.VarTable.Set` | userland/css.h:524-554 | the map updated, or unchanged when refused; text stored before is never overwritten |
| `CssVars.VarTable.Define` | userland/css.h:533-543 | a first definition adds the key |
| `CssVars.VarTable.Redefine` | userland/css.h:545-552 | a later definition replaces the value |
| `DomTree.LinkedLastRepresents` | userland/dom.h:137-141 | linking a free node at the end of a child list changes that list and no other |
| `DomTree.UnlinkedRepresents` | userland/dom.h:482-496 | unlinking a listed node takes it out of its list, the others keeping their order |
| `DomEdit.DetachUnlisted` | userland/dom.h:147-150 | detaching a node its parent does not list keeps the links sound exactly when it has no next sibling |
| `DomEdit.DetachIsSound` | userland/dom.h:482-496 | for every node: the document is sound after detaching it exactly when its parent lists it, or it has none, or no next sibling |
| `DomEdit.ClearedThenDetached` | userland/dom.h:147-496 | a root with two children, cleared, and one of them detached: a first child and no last one |
| `DomEdit.LiftedRanks` | userland/dom.h:498-506 | hanging a node under one that is not below it makes no cycle |
| `DomEdit.AppendIsSound` | userland/dom.h:482-506 | for every node and every other node as its new parent: the links can be read as child lists exactly when it relinks (its parent lists it; or it has none, no next sibling, or goes back to it; or it is the root, in no list or before the end of that one), and then there is no cycle exactly when it was not above its new parent |
| `DomEdit.CycleIsMade` | userland/dom.h:498-506 | lists that have a node under one below it are not acyclic |
| `DomEdit.LeftBroken` | userland/dom.h:482-506 | a former child with a next sibling, appended elsewhere, leaves links that no child lists fit |
| `DomEdit.BackHome` | userland/dom.h:482-506 | appended to the parent it names, it leaves the links as if it had not been detached |
| `DomEdit.FormerChildMakesLoop` | userland/dom.h:482-506 | four nodes, one of them cleared: appending its former child to the root makes the other two each the first child of the other |
| `DomTree.AddIsSound` | userland/dom.h:129-143 | a new node, under its parent or under none, keeps the document sound |
| `DomEdit.StepIsSound` | userland/dom.h:129-506 | each of create, add, append, detach and clear, on any nodes: the links can be read as a sound document afterwards exactly when the step was legal |
| `DomEdit.RunIsSound` | userland/dom.h:129-506 | every run of legal steps keeps child lists acyclic, duplicate-free and linked both ways |
| `DomEdit.ClearIsSound` | userland/dom.h:147-150 | clearing the children of a node keeps the document sound |
| `DomTree.KidsAreUnique` | userland/dom.h:36-43 | links can be read as child lists in one way at most |
| `DomTree.ListsAreDisjoint` | userland/dom.h:129-143 | no node is in two child lists |
| `Dom.Document.Add` | userland/dom.h:129-158 | a node is added at the end of its parent's list, or -1 and nothing changed when the array is full |
| `Dom.Document.LinkLast` | userland/dom.h:137-141 | the links written for a last child |
| `Dom.Document.FindBefore` | userland/dom.h:486-490 | the walk along a child list ends, at the node before |
| `Dom.Document.Detach` | userland/dom.h:482-496 | the links the code writes for any node, and whether the document is sound after it |
| `Dom.Document.Unlink` | userland/dom.h:491-495 | the links written for that |
| `Dom.Document.AppendChild` | userland/dom.h:498-506 | the links the code writes for any two nodes, and whether the document is sound after it |
| `Dom.Document.Link` | userland/dom.h:501-505 | the parent, next sibling and last child written for a node at the end of a list |
| `Dom.Document.ClearChildren` | userland/dom.h:147-150 | the node has no children, and they are told nothing |
| `DomOrder.GrownNested` | userland/dom.h:165-309 | a node added under the innermost open element keeps subtrees contiguous in the array |
| `DomOrder.GrownEdge` | userland/dom.h:165-309 | the open elements stay a path from the root along last children |
| `DomOrder.WalkIsRange` | userland/dom.h:129-309 | the walk from a node visits exactly the indices of its subtree in order |
| `DomOrder.DocumentOrder` | userland/dom.h:129-309 | the walk from the root visits all nodes in index order |
| `DomParser.Parser.AddNode` | userland/dom.h:129-158 | a node under the innermost open element keeps document order, the open path and the order of text slices |
| `DomParser.Parser.FlushText` | userland/dom.h:185-189 | the text that ran up to here becomes one node, its slice behind all earlier ones |
| `DomParser.Parser.CloseElement` | userland/dom.h:239-245 | an end tag closes the innermost open element of that name, never the root |
| `DomParser.Parser.CloseImplied` | userland/dom.h:269-270 | elements the new one ends are closed |
| `DomParser.Parser.RawText` | userland/dom.h:279-299 | content that is not markup becomes one text node up to the end tag |
| `DomParser.Parser.Enter` | userland/dom.h:272-304 | past a start tag: raw text, nothing for a void or self-closing element or at the depth limit, else into the element |
| `DomParser.Parser.OpenElement` | userland/dom.h:269-304 | an element is added and opened, or the document is full |
| `DomParser.Parser.NamedTag` | userland/dom.h:202-304 | a start or end tag does what the parser on values does |
| `DomParser.Parser.Tag` | userland/dom.h:185-304 | one tag, comment or declaration does what the parser on values does |
| `DomParser.Parser.Parse` | userland/dom.h:165-309 | on every input the nodes are those of the parser on values, linked as one tree in document order, text nodes being disjoint, increasing slices of the source |
| `DomFind.FindId` | userland/dom.h:350-366 | the lowest-numbered element whose raw attribute text has that id, or -1 if none has |
| `DomFind.LowestIsFirst` | userland/dom.h:360-366 | in a document in order that is the first node of the walk that has it |
| `DomFind.ParseAndFind` | userland/dom.h:165-366 | any text parsed and searched: the node found is the first in document order whose attributes give the id, and -1 means that none does |
| `DomText.TextInto` | userland/dom.h:386-402 | the text of the subtree, drawings left out, as far as the buffer goes |
| `DomText.TextIsShown` | userland/dom.h:386-402 | in a parsed document that is the text slices of the nodes numbered after the element up to its end, in order, the subtrees of drawings stepped over |
| `DomSoup.EndTagCuts` | userland/dom.h:239-245 | an end tag cuts the open elements at the innermost of its name, root excepted, and changes nothing when there is none |
| `DomSoup.ImpliedPops` | userland/dom.h:269-270 | a start tag ends the innermost elements it can end, as many as follow one another, and stops at the first it cannot |
| `DomSoup.CommentGoesTo` | userland/dom.h:191-196 | a comment goes to the first `-->`, or to the end |
| `DomRoundTrip.ParsesBack` | userland/dom.h:165-309 | markup written out from any tree in which no element ends its parent parses to that tree: same nodes, tags, attributes, texts and parents; whatever end tags are left out that an outer end tag, the next element or the end of the text makes up for, and however the names are spelt in capitals |
| `DomRoundTrip.MarkupIsUnique` | userland/dom.h:165-309 | two such trees with the same markup, each written in any of these ways, are the same tree |
| `DomRoundTrip.StyleIsNothing` | userland/dom.h:202-270 | leaving such end tags out, and capitals, change nothing in the document |
| `DomRoundTrip.SoupIsRead` | userland/dom.h:239-245 | in particular of an inner element before the end tag of an outer one: the text behind is beside the outer element |
| `DomRoundTrip.SoupIsWritten` | userland/dom.h:239-245 | the markup in question, as in `<div><b>x</div>y` |
| `DomRoundTrip.OpenDrops` | userland/dom.h:269-270 | elements left open make no difference at a start tag that ends them all |
| `DomRoundTrip.EndDrops` | userland/dom.h:239-245 | nor at the end tag of the element they are in, if none of them has its name |
| `DomRoundTrip.RunComment` | userland/dom.h:191-196 | a comment is passed over, whatever it says |
| `DomRoundTrip.RunDeclaration` | userland/dom.h:197-201 | so is a declaration |
| `DomRoundTrip.RunTemplate` | userland/dom.h:247-267 | so is a template with its content |
| `DomRoundTrip.ToldOnce` | userland/dom.h:36-43 | the nodes in document order with their parents determine the tree |
| `DomRoundTrip.RunForest` | userland/dom.h:178-309 | from any state, markup of a forest adds exactly its nodes under the innermost open element, and leaves open besides exactly the elements at its end whose end tags were left out |
| `DomRoundTrip.RunRaw` | userland/dom.h:279-299 | a raw-text element keeps its content whole |
| `DomRoundTrip.EndCloses` | userland/dom.h:239-245 | the end tag of the innermost element closes it and nothing else |
| `DomRoundTrip.TagEndAt` | userland/dom.h:218-233 | a '>' inside a quoted value does not end the tag |
| `DomAttributes.StandsStill` | userland/dom.h:423-443 | at a place where an attribute is looked for, the loop fails to advance exactly on a bare `>` |
| `DomAttributes.EndsExactly` | userland/dom.h:423-449 | the loop gets to the end of a text exactly when, reading it once, no `>` is met outside a value |
| `DomAttributes.OrdinaryMarkupHangs` | userland/dom.h:218-443 | `<p a"b>c">` is one tag to the parser, and the text it stores for it is one on which the loop never ends |
| `DomAttributes.NamesAreGood` | userland/dom.h:423-443 | every name it reads is one it will read again, unless it is empty |
| `DomAttributes.ReadsBack` | userland/dom.h:423-460 | a written list reads back exactly when no value has a double quote and no value without a name stands behind a name without a value |
| `DomAttributes.SetAttr` | userland/dom.h:412-470 | for every text on which the loop ends, exactly what the buffer holds, cut off or not |
| `DomAttributes.RewrittenIsWhole` | userland/dom.h:412-470 | what the buffer holds is the old list without the name, and the new value at its end, exactly when that fits |
| `DomAttributes.SetThenTokenise` | userland/dom.h:412-470 | for every text, name and value: re-tokenising what was written gives the changed list exactly when the name can be read, neither the value nor those kept have a double quote, and no value without a name stands behind a bare name |
| `DomAttributes.RemoveThenTokenise` | userland/dom.h:412-470 | for every text: removing an attribute leaves the others under the same conditions |
| `DomAttributes.AttrRaw` | userland/dom.h:316-348 | the value behind the first word that spells the name and has an equals sign behind it |
| `DomAttributes.SetThenRaw` | userland/dom.h:316-470 | after setting, the name is found with its new value; it is what is found first exactly when no other value contains text that looks like it |
| `DomAttributes.QuoteBreaks` | userland/dom.h:453-458 | a value with a double quote reads back as something else |
| `DomAttributes.RunsTogether` | userland/dom.h:423-460 | `c id="1" ="v"` with its id set reads back with the value given to c |
| `DomAttributes.LookAlikeMisleads` | userland/dom.h:316-470 | after `title="see id=x"`, setting the id to y and reading it gives `x"` |
| `Sha512.HashedInTwo` | tools/gensha512.py:102-113 | hashing a message of whole blocks and then more is hashing both together |
| `Sha512.PadsAsTheStandard` | tools/gensha512.py:115-126 | what is appended is the padding of section 5.1.2 of FIPS 180-4 exactly for messages under 2^61 bytes |
| `Sha512.DigestSaysWords` | tools/gensha512.py:128-130 | read back as numbers, most significant byte first, each eight bytes of the digest are the word of the state |
| `Sha512.DigestIsCut` | tools/gensha512.py:128-130 | a shorter digest is the front of the whole one |
| `Sha512.NumberOfBigEndian` | tools/gensha512.py:123-126 | what is written in n bytes reads back modulo 256^n |
| `Sha512.FractionsOf512` | tools/gensha512.py:16-25 | the starting words are the first 64 bits behind the point of the square roots of the first eight primes |
| `Sha512.FractionsOf384` | tools/gensha512.py:16-25 | and of the next eight |
| `Sha512.Stream.Update` | tools/gensha512.py:102-113 | however a message is cut into updates, the state is the fold over its whole blocks with the rest in the buffer |
| `Sha512.Stream.Feed` | tools/gensha512.py:105-112 | each turn of the loop absorbs what it steps over |
| `Sha512.Stream.FillZeros` | tools/gensha512.py:121-122 | zeros up to byte 112 are as many as the padding wants |
| `Sha512.Stream.Final` | tools/gensha512.py:115-130 | the padded message is hashed whole, the buffer ends empty, the digest is the state |
| `Sha512.Stream.WriteDigest` | tools/gensha512.py:128-130 | the first bytes of the state, each word from its most significant byte on; see `DigestSaysWords` |
| `Sha512.Hash512` | tools/gensha512.py:133-138 | SHA-512 of a buffer is the digest of the message padded as the standard says |
| `Sha512.Hash384` | tools/gensha512.py:140-145 | likewise SHA-384, 48 bytes |
| `FloodFill.PaperIsCaught` | tools/mkicons.py:41-65 | a set closed under white neighbours that has the white border has every pixel joined to it |
| `FloodFill.AllCaught` | tools/mkicons.py:53-65 | when the worklist is empty, what was seen is exactly the near-white pixels joined to the border |
| `FloodFill.Marked` | tools/mkicons.py:62-65 | marking a white pixel and pushing its neighbours keeps the invariant |
| `FloodFill.Dropped` | tools/mkicons.py:54-61 | so does dropping one that is outside, seen or not white |
| `FloodFill.BorderPixels` | tools/mkicons.py:47-51 | the worklist starts with the border and nothing else |
| `FloodFill.Visit` | tools/mkicons.py:53-65 | each turn marks a pixel or shortens the worklist, so the fill ends |
| `FloodFill.StripPaper` | tools/mkicons.py:41-65 | exactly the near-white pixels joined to the border by 4-connected near-white ones become transparent |
| `Dechunk.Join` | tools/chunkcheck.py:40-88 | the walk ends on every input, with the pieces, their count and the reason for stopping |
| `Dechunk.ReadLine` | tools/chunkcheck.py:46-53 | the size line up to its LF, or the end of the bytes |
| `Dechunk.ReadSize` | tools/chunkcheck.py:55-68 | the hexadecimal number its digits of either case spell |
| `Dechunk.PrefixOfStream` | tools/chunkcheck.py:40-88 | any stream cut off anywhere gives a prefix of what the whole gives |
| `Dechunk.DechunkingInverts` | tools/chunkcheck.py:40-88 | any pieces framed as section 7.1 of RFC 9112 says, with extensions, come back as their concatenation |
| `Dechunk.HexSpells` | tools/chunkcheck.py:55-68 | every size can be written so, in small letters or in capitals |
| `FontCoverage.Merge` | tools/fontindex.py:91-97 | the merged ranges are sorted, have gaps between them and cover exactly the characters given |
| `FontCoverage.CanonicalIsUnique` | tools/fontindex.py:91-97 | there is only one such list |
| `FontCoverage.Format4` | tools/fontindex.py:51-72 | exactly the characters some segment draws, but U+FFFF |
| `FontCoverage.Gid` | tools/cmap.py:51-62 | the glyph the first segment with the character gives |
| `FontCoverage.ReadingsAgree` | tools/fontindex.py:51-72 | the two readings agree on a character exactly when no earlier segment overrules it; with disjoint segments always |
| `FontCoverage.OverruledTable` | tools/cmap.py:51-62 | a table with two segments for a character, on which the readings differ |
| `FontCoverage.Coverage4` | tools/fontindex.py:75-98 | the whole entry of a format-4 font: sorted ranges with gaps that have a character exactly when it is not U+FFFF and, unless overruled, gid finds a glyph |
| `FontCoverage.Format12` | tools/fontindex.py:41-48 | exactly the characters some group gives a glyph other than the box |
| `FontCoverage.Coverage12` | tools/fontindex.py:75-98 | the same as sorted ranges with gaps |

## Left out

- The kernel, the C library, TLS, the rasteriser and the script engine; the drivers and test scripts under `tools/`; the window system and the small command-line programs.
- Editor: an operation's bytes are a sequence inside the operation, so shifting bytes within one operation is not modelled in place; files, the saved and modified flags, the selection around a paste, and everything drawn on the terminal.
- EditHistory.HistoryIsSound: leaves out edits longer than an operation and insertions the buffer cuts off, as do RunKeepsSound and StepKeepsSound; undo does not restore those, see InsertThenUndo, DeleteThenUndo and PasteThenUndo.
- CSS: the characters of declarations and selectors (a compound selector is a tag and a list of qualifiers), media queries, colours; attribute selectors are any predicate on the raw attributes; names in rules are strings, which the intern table's own theorems justify while it has room; names are at most as long as the buffers they are copied into.
- CssIntern.NameTable.Intern: leaves out names with a zero byte, as do Search, Append, StepKeepsTidy, RunNames and SameOffsetSameName; the search stops at the zero, so such a name is never found again and is stored anew each time.
- EditBuffer.Editor.UndoOne: leaves out an undo past the end of the text, which overruns the buffer (UndoPastTheEnd), as does Delete a range past it.
- DomAttributes.SetThenRaw: takes names without quotes and values without double quotes.
- CssIndex.StyleSheet.AddRule: takes the parsed rule, because parsing the selector text is not part of this model.
- JPEG: marker segments, restart intervals, 16-bit quantisers, upsampling and colour conversion; coefficients and predictors are unbounded integers up to the inverse transform, where 32 and 64 bits are modelled.
- IdctInverts: the forward transform uses the decoder's integer table in place of real cosines; `IdctCosines` says how near the two are.
- PNG: inflating, chunks and CRCs, palettes, unpacking of samples and alpha.
- DOM: innerHTML in both directions, class lookup, the edit buffer's capacity.
- DomAttributes.SetAttr: excludes the texts on which the loop does not end, by the condition of EndsExactly.
- DomSoup: a NUL byte ends a tag name in the C code; the model keeps it in the name.
- DomRoundTrip.ParsesBack: says nothing of trees that cannot be written down, such as a paragraph inside a paragraph, two texts side by side or more than 95 open elements, nor of what comes of leaving out an end tag that is missed.
- SHA-512: the compression function is any function of state and block; the round arithmetic plays no part in streaming and padding.
- Icons: softening of the rim, scaling and the file format.
- Fonts: the choice among subtables; any sort stands for Python's `sorted`.
- Allocation failure everywhere.
