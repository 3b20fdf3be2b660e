# tekst text buffers in Dafny

tekst is a small terminal text editor. It keeps the file being edited in a
*text buffer* that offers `getLine`, `insertChar`, `delChar` and `save`. There
are two interchangeable storage strategies:

- `ArrayBuffer` holds the whole file as one contiguous string. Line boundaries
  are found on demand by scanning for line-feeds.
- `ArrayArrayBuffer` holds a vector of lines. Each line keeps its own
  terminator, and there is one empty, editable line at the end.

This project models both buffers, the clean-length helper and the
buffer-type name mapping. It then proves what each operation does to the text.

- `Native`: C++ integer behaviour the buffers rely on. It has 32-bit `int` and
  `uint` parameters, `size_t` arithmetic modulo 2^64, and `std::string::npos`.
- `Lines`: what a line is (text ending in its only line-feed), how lines are
  written out one after another, and how an edit inside one line shows in
  that text.
- `Reading`: what `getline` yields from a text. It proves that reading a
  text that ends in a line-feed and normalizing its lines drops each carriage
  return directly before a line-feed and changes nothing else. So reading back
  the text of complete lines gives those lines when no carriage return
  precedes a line-feed.
- `Utils`: `getCleanStrLen`.
- `BufferTypes`: `bufferTypeToString` and `bufferTypeFromString`.
- `ArrayBufferModel`: the contiguous buffer, as a class with a `string`
  field. Its loops (the reading loop and the do-while of `getLineBounds`) are
  proved against functions. Its invariant, kept by loading and by every edit,
  is that the text is empty or ends in a line-feed.
- `ArrayArrayBufferModel`: the vector buffer, as a class with a `seq<string>`
  field. Its methods are proved against functions. It also proves that every
  line but the last ends in its only terminator, and that `delChar` keeps
  this shape.
- `Agreement`: the two buffers side by side. Written out, the vector's lines
  are the contiguous text. When the first line is not blank, the two agree on
  loading, on `getLine` and on every edit inside the clean length of a
  terminated line, that is, of every line but the vector's last. They part
  ways on a blank first line, on a line's terminator and on the vector's
  last line.

The proofs bring out these behaviours of the code:

- `ArrayBuffer::getLineBounds` tells its first pass from later ones by
  `end > 0`. When the text starts with an empty line, every line number
  resolves to line 0 (`LeadingNewlineQuirk`). The vector buffer still
  reaches every line, so there `getLine` and the edits of the two buffers
  part ways (`LeadingBlankLineDiffers`).
- `ArrayBuffer::delChar` leaves a line's terminator in place. The vector
  buffer joins the next line on instead (`DeleteTerminatorDiffers`). So the
  insert-then-delete round trip holds for a line-feed only in the vector
  buffer.
- `ArrayArrayBuffer::insertChar` accepts a column one past a line's
  terminator. A character inserted there lands after the terminator, so the
  lines are no longer well formed (`InsertedShaped`, `InsertPastTerminator`).
- The vector's empty last line takes characters, but the contiguous buffer
  has no such line: there `begin + col` reaches the text's length and the
  call does nothing. The contiguous buffer can never type into the last line,
  and one loaded from an empty file cannot be edited at all
  (`LastLineInsertDiffers`).
- `ArrayArrayBuffer::delChar` on a line-feed of the last line would erase
  past the end of the vector. This cannot happen on loaded lines, after any
  sequence of insertions and deletions. The reason is that each prefix of
  the text up to a line break holds at least as many line-feeds as there
  are breaks, and the whole text holds one line-feed per break. Every edit
  keeps this, even one past a terminator that breaks the stricter shape
  (`ShapedBalanced`, `InsertedBalanced`, `DeletedBalanced`,
  `BalancedErasesInside`).

Where the two buffers differ from each other or from their headers, the
model follows the .cpp code:

- `ArrayBuffer::getLine` returns a plain string, and the empty string past
  the end, rather than an optional.
- `ArrayBuffer::delChar` does not merge lines.
- `ArrayBuffer` throws when the file is missing, while `ArrayArrayBuffer`
  starts empty.
- Buffer.h declares a one-value `BufferType` enum, but Buffer.cpp uses two
  values. The model follows Buffer.cpp.

## Model

| member | source | states |
|---|---|---|
| Utils.CleanLen | Utils.cpp:3-10 | the length without one trailing line-feed: one less than the length when `s` ends in one, the length otherwise, 0 for the empty string |
| Utils.CleanPrefix | Utils.cpp:3-10 | what the clean length drops is exactly the terminator: `s` is its first `CleanLen(s)` characters followed by nothing or one line-feed |
| BufferTypes.ToString | Buffer.cpp:19-26 | the contiguous buffer is named "ArrayBuffer" and the vector buffer "ArrayArrayBuffer" |
| BufferTypes.FromString | Buffer.cpp:28-32 | the vector buffer exactly for the string "ArrayArrayBuffer"; every other string, unknown ones included, gives the contiguous buffer |
| BufferTypes.NameRoundTrip | Buffer.cpp:19-32 | naming a type and reading the name back gives the type, so distinct types have distinct names |
| Lines.NormalizeLine | ArrayArrayBuffer.cpp:17-19 | a stored line is what `getline` gave, with one trailing carriage return dropped and a line-feed added; text free of line-feeds becomes one complete line |
| Reading.ReadText | ArrayArrayBuffer.cpp:15-21 | reading a text that ends in a line-feed and normalizing every line written out gives the text with each carriage return directly before a line-feed dropped, the independent `DropCrBeforeLf` |
| Reading.ReadLines | ArrayArrayBuffer.cpp:15-21 | reading the written-out text of complete lines with no carriage return before a line-feed, and normalizing, gives back exactly those lines |
| ArrayBufferModel.Find | ArrayBuffer.cpp:51 | `find('\n', from)` gives `npos` or a line-feed position at or after `from` |
| ArrayBufferModel.FindFirst | ArrayBuffer.cpp:51 | no line-feed lies between `from` and the position `find` returns |
| ArrayBufferModel.Scan | ArrayBuffer.cpp:47-62 | the do-while ends with `begin` inside the text and `end` either `npos` or the first line-feed at or after `begin` |
| ArrayBufferModel.LineBounds | ArrayBuffer.cpp:42-66 | `getLineBounds` gives a `begin` inside the text and an `end` that is `npos` or the first line-feed at or after `begin` |
| ArrayBufferModel.ArrayBuffer.GetLineBounds | ArrayBuffer.cpp:42-66 | the do-while loop computes exactly `LineBounds` of the current text |
| ArrayBufferModel.ArrayBuffer.GetLine | ArrayBuffer.cpp:68-79 | the substring from `begin` through `end`, with `size_t` wrap-around, is `LineAt` of the current text |
| ArrayBufferModel.EditPos | ArrayBuffer.cpp:96-98 | the range test passes only for a position inside the text that lies in the addressed line, at most at its terminator, `col` characters after the line's start |
| ArrayBufferModel.Inserted | ArrayBuffer.cpp:107-116 | `insertChar` leaves the text unchanged or adds one character, and a text ending in a line-feed still ends in one |
| ArrayBufferModel.Deleted | ArrayBuffer.cpp:91-105 | `delChar` leaves the text unchanged or removes one character, and a text ending in a line-feed still ends in one |
| ArrayBufferModel.EditsCountLines | ArrayBuffer.cpp:91-116 | an insertion that takes effect adds a line exactly when it inserts a line-feed; a deletion never changes the number of line-feeds |
| ArrayBufferModel.ArrayBuffer.InsertChar | ArrayBuffer.cpp:107-116 | the new text is `Inserted` of the old |
| ArrayBufferModel.ArrayBuffer.DelChar | ArrayBuffer.cpp:91-105 | the new text is `Deleted` of the old |
| ArrayBufferModel.Load | ArrayBuffer.cpp:28-35 | the loaded text is empty or ends in a line-feed |
| ArrayBufferModel.StripStep | ArrayBuffer.cpp:30-34 | appending a line and dropping a trailing carriage return of the whole text touches only the new line, because the text so far ends in a line-feed |
| ArrayBufferModel.ArrayBuffer.constructor | ArrayBuffer.cpp:6-38 | the reading loop builds `Load` of the lines `getline` yields |
| ArrayBufferModel.SplitLines | ArrayBuffer.cpp:40-41 | a text ending in a line-feed is cut into complete lines whose concatenation is the text, one line per line-feed |
| ArrayBufferModel.SaveOpenRoundTrip | ArrayBuffer.cpp:82-89 | a saved text that ends in a line-feed and has no carriage return before a line-feed loads back unchanged |
| ArrayBufferModel.LoadNormalizes | ArrayBuffer.cpp:28-35 | loading a file gives its text with each carriage return before a line-feed dropped, a line-feed added when the file does not end in one, and nothing else changed |
| ArrayBufferModel.ScanLines | ArrayBuffer.cpp:47-62 | on a text made of complete lines, the first not a bare line-feed, each pass of the scan moves from the start of line `k` to the start of line `k + 1`, until the requested line or the end |
| ArrayBufferModel.LineBoundsOfLines | ArrayBuffer.cpp:42-66 | line `n` of complete lines, the first not a bare line-feed, lies from its start offset to its own terminator; past the last line `begin` is the text's length and `end` is `npos` |
| ArrayBufferModel.GetLineOfLines | ArrayBuffer.cpp:68-79 | on such lines `getLine(i)` is line `i` with its terminator, or the empty string past the last line |
| ArrayBufferModel.GetLineOfContent | ArrayBuffer.cpp:68-79 | on a text with `n` line-feeds that does not start with one, lines below `n` are complete lines and every later line is empty |
| ArrayBufferModel.GetLineAfterLoad | ArrayBuffer.cpp:68-79 | when the first line read is not blank, after loading the text has one line-feed per line read, and line `i` is the `i`-th line read, normalized |
| ArrayBufferModel.EditPosOfLines | ArrayBuffer.cpp:112-113 | on such lines the range test passes exactly for an existing line (a negative `line` read as `uint`) and a column from 0 through its clean length, at the line's start plus the column |
| ArrayBufferModel.InsertedLines | ArrayBuffer.cpp:107-116 | an in-range insertion puts the character at the column of the addressed line and changes no other line |
| ArrayBufferModel.DeletedLines | ArrayBuffer.cpp:91-105 | an in-range deletion removes the character at the column of the addressed line, except a terminator, which stays |
| ArrayBufferModel.EditOutOfRange | ArrayBuffer.cpp:96-97 | an edit of a missing line or past a line's clean length changes nothing |
| ArrayBufferModel.InsertDeleteLines | ArrayBuffer.cpp:91-116 | on complete lines, inserting a character other than a line-feed and deleting at the same place restores the text |
| ArrayBufferModel.InsertDeleteRoundTrip | ArrayBuffer.cpp:91-116 | the same round trip for any text that ends in a line-feed and does not start with one |
| ArrayBufferModel.LeadingNewlineQuirk | ArrayBuffer.cpp:49 | when the text starts with a line-feed, every line number resolves to bounds (0, 0), so `getLine` gives that empty line for every index |
| ArrayArrayBufferModel.Load | ArrayArrayBuffer.cpp:6-26 | an unopened file gives no lines; otherwise one line per line read, then an empty last line |
| ArrayArrayBufferModel.ArrayArrayBuffer.constructor | ArrayArrayBuffer.cpp:6-26 | the reading loop builds `Load` of the file |
| ArrayArrayBufferModel.LineAt | ArrayArrayBuffer.cpp:28-33 | `getLine` gives a line exactly when the index is below the number of lines |
| ArrayArrayBufferModel.ArrayArrayBuffer.GetLine | ArrayArrayBuffer.cpp:28-33 | the method gives `LineAt` of the current lines |
| ArrayArrayBufferModel.ArrayArrayBuffer.Save | ArrayArrayBuffer.cpp:36-45 | the loop writes out the lines one after another, in order |
| ArrayArrayBufferModel.Inserted | ArrayArrayBuffer.cpp:69-86 | out of range nothing changes; otherwise a line-feed adds one line and any other character none, and the lines before and after the edited one stay |
| ArrayArrayBufferModel.ArrayArrayBuffer.InsertChar | ArrayArrayBuffer.cpp:69-86 | the new lines are `Inserted` of the old |
| ArrayArrayBufferModel.Deleted | ArrayArrayBuffer.cpp:47-67 | out of range nothing changes; otherwise deleting a line-feed removes one line and any other character none, and the lines before and after stay |
| ArrayArrayBufferModel.ArrayArrayBuffer.DelChar | ArrayArrayBuffer.cpp:47-67 | the new lines are `Deleted` of the old, for any call that does not erase past the end of the vector |
| ArrayArrayBufferModel.LoadShaped | ArrayArrayBuffer.cpp:15-22 | loaded lines are complete except the last, which has no line-feed |
| ArrayArrayBufferModel.ShapedErasesInside | ArrayArrayBuffer.cpp:62 | on well-formed lines `delChar` never erases past the end of the vector |
| ArrayArrayBufferModel.ShapedCount | ArrayArrayBuffer.cpp:22 | well-formed lines hold one line-feed fewer than there are lines |
| ArrayArrayBufferModel.InsertedShaped | ArrayArrayBuffer.cpp:69-86 | an insertion keeps the lines well formed exactly when it does not land one past a terminator |
| ArrayArrayBufferModel.InsertPastTerminator | ArrayArrayBuffer.cpp:71-72 | an insertion one past a terminator breaks the shape |
| ArrayArrayBufferModel.DeletedShaped | ArrayArrayBuffer.cpp:47-67 | every deletion on well-formed lines is defined and keeps them well formed |
| ArrayArrayBufferModel.ShapedBalanced | ArrayArrayBuffer.cpp:15-22 | well-formed lines, and so loaded ones, have up to each line break at least as many line-feeds as breaks, and one line-feed per break in all |
| ArrayArrayBufferModel.BalancedErasesInside | ArrayArrayBuffer.cpp:62 | on balanced lines `delChar` never erases past the end of the vector |
| ArrayArrayBufferModel.InsertedBalanced | ArrayArrayBuffer.cpp:69-86 | every insertion keeps the lines balanced, one past a terminator included |
| ArrayArrayBufferModel.DeletedBalanced | ArrayArrayBuffer.cpp:47-67 | every deletion on balanced lines is defined and keeps them balanced |
| ArrayArrayBufferModel.InsertDeleteRoundTrip | ArrayArrayBuffer.cpp:47-86 | deleting at the place of any insertion, a line-feed included, restores the lines |
| ArrayArrayBufferModel.DeleteInsertRoundTrip | ArrayArrayBuffer.cpp:47-86 | on well-formed lines, putting a deleted character back where it was restores the lines, splitting a joined line again |
| ArrayArrayBufferModel.SavedInsert | ArrayArrayBuffer.cpp:74-84 | the saved text after an insertion is the old text with the character added at the offset of (`line`, `col`) |
| ArrayArrayBufferModel.SavedDelete | ArrayArrayBuffer.cpp:52-65 | the saved text after a deletion is the old text without the character at the offset of (`line`, `col`) |
| ArrayArrayBufferModel.LoadNormalizes | ArrayArrayBuffer.cpp:15-22 | the lines loaded from a file write out to its text with each carriage return before a line-feed dropped and a line-feed added when the file does not end in one |
| ArrayArrayBufferModel.SaveOpenRoundTrip | ArrayArrayBuffer.cpp:36-45 | saving well-formed lines with an empty last line and no carriage return before a line-feed, then loading, gives back the same lines |
| Agreement.LoadAgrees | ArrayArrayBuffer.cpp:15-22 | from the same lines read, the vector's lines written out are the contiguous buffer's text |
| Agreement.LoadMatching | ArrayArrayBuffer.cpp:6-26 | when the first line read is not blank, the loaded vector is complete lines plus an empty last line |
| Agreement.GetLineAgrees | ArrayArrayBuffer.cpp:28-33 | on such lines both `getLine`s give the same line, the contiguous buffer giving the empty string where the vector has none |
| Agreement.EditPosAgrees | ArrayBuffer.cpp:112-113 | both buffers address (`line`, `col`) at the same offset of the text |
| Agreement.InsertAgrees | ArrayArrayBuffer.cpp:69-86 | inside a line's clean length, both insertions, a line-feed included, give the same text |
| Agreement.DeleteAgrees | ArrayArrayBuffer.cpp:47-67 | before a line's terminator, both deletions give the same text |
| Agreement.DeleteTerminatorDiffers | ArrayBuffer.cpp:100-102 | on a terminator the contiguous buffer keeps the text, while the vector buffer's text loses one character |
| Agreement.LeadingBlankLineDiffers | ArrayBuffer.cpp:49 | when the first line is blank, the contiguous buffer gives that line for every later index and inserts at the text's start, while the vector gives the line asked for and inserts at its offset |
| Agreement.LastLineInsertDiffers | ArrayBuffer.cpp:112-113 | at column 0 of the vector's empty last line the contiguous buffer ignores an insertion, while the vector's text gains the character at its end |

## Left out

- File I/O: the constructors take the lines `getline` yields, and `save`
  gives the text it writes. Opening, `seekg`/`tellg`, `reserve` and the file
  stream are outside the model.
- The exceptions thrown when a file cannot be opened for reading
  (`ArrayBuffer`) or for writing (both `save`s) are left out. Those paths
  involve only I/O.
- `Buffer::createBuffer`, the debug log and the editor's terminal interface
  in tekst.cpp are not part of this model. The interface does not call the
  buffers.
- `.back()` on an empty string while loading is undefined in C++. The model
  strips nothing there.
- Utils.CleanLen: the source stores the length in an `int`. The model does
  not model truncation for strings of 2^31 characters or more.
- ArrayBufferModel.ArrayBuffer.constructor and
  ArrayBufferModel.ArrayBuffer.InsertChar: the text is bounded by 2^63 - 1
  characters (`MAX_STRING`), a bound that no real `max_size()` reaches.
  Growth beyond it is not modelled.
- ArrayArrayBufferModel.ArrayArrayBuffer.DelChar: the call that deletes the
  last line's line-feed erases past the end of the vector, which is undefined
  in C++. The model requires that this call is not made, and
  `BalancedErasesInside` shows it cannot happen on lines reached by loading
  and any edits.
- The `line + 1` overflow in `ArrayArrayBuffer` for a line index of 2^31 - 1
  is not modelled: the vector index is unbounded.
- The single-value `BufferType` enum declared in Buffer.h is replaced by the
  two values Buffer.cpp switches on.
