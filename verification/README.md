# Line editor, command-line scanner and property dumps of fep_control

A Dafny model of the parts of the fep_control tool that do the work between a
key press and a command, with proofs of what they promise.

- **Characters** (`Codec`, `Text`): the UTF-8 functions of `utf8.c` and the
  one-byte macros that replace them. Every definition takes the build as a
  parameter; the tool itself is compiled as the one-byte build. UTF-8 is the form
  of section 3 of RFC 3629 up to three bytes. The decoder takes overlong forms and
  surrogates as well, and nothing here says otherwise.
- **The line buffer** (`Line`, `LineBuffer`): `struct current` as a class with a
  byte array and three counts, in both builds, against a pure line of characters.
  "Always null terminated" needs a stronger invariant in the one-byte build: every
  byte from `len` on is zero. In the UTF-8 build it does not hold, because inserting
  does not move the terminator, and is not claimed.
- **The history** (`History`, `HistoryFile`, `SavedHistory`): the array of owned
  strings, with a ghost set of the strings allocated and not yet released, the file
  format, and what comes back of a saved history.
- **The editor** (`Editing`, `Editor`, `EditingLaws`, `RunLaws`, `KeyLaws`,
  `RecallLaws`): the key loop on bytes and array, step by step the pure editor, for
  every input; and the laws of the pure editor. `KeyLaws` and `RecallLaws` say what
  every key does, in texts, cursors and history lines alone. The input is the sequence of values that `fd_read` and
  `check_special` return, in the order of the calls.
- **The scanner and its printer** (`Lexer`, `RoundTrip`, `LexerLaws`,
  `Completion`): words, quoting, unescaping, and the exact condition under which a
  printed line is read back.
- **The prompt loop** (`ReadLoop`): what the history keeps over many prompts.
- **Property dumps** (`PropertyTree`, `Json`, `Traversal`, `Dumps`, `Listing`): the
  recursion by path against the tree, its JSON and text forms, and when a tree can be
  read back from the characters of the text. `PropertyTree` holds the
  contract assumed of the remote configuration: lookup of a path in a tree whose
  sibling names are distinct, not empty and free of slashes; empty parts of a path
  do not count.
- **The screen** (`Screen`): `refreshLine` against a picture of the line on a row
  of `cols` columns, and the two shortcuts that avoid it. `Editor` draws as the key
  loop does, and its methods say when the row is in step with the line: it shows the
  picture of the line and nothing but blanks behind it.

## Where the code does not do what it seems to

Each of these is proved, with the exact condition.

- ^T loses a character on a line of one character and on a line that fills the
  buffer (`EditingLaws.TransposeIsSwap`). Typing stops one character short of that,
  but a history line can fill it (`EditingLaws.FullLineTransposed`).
- ^Y after a cut does not restore a line that filled the buffer, nor text with a
  quoted NUL (`EditingLaws.CutThenYank`). A NUL typed after ^V is accepted although
  the comment in the source excludes it; the line returned then ends at it
  (`RunLaws.ApplyNul`, `Editor.Linenoise`).
- Backspace after a refused character deletes an older one
  (`EditingLaws.TypeThenErase`).
- A quoted name is not always read back (`RoundTrip.LineRoundTrip`). A wrapped name
  fails if a backslash stands directly in front of a double quote. A bare name fails
  if it starts with an apostrophe. In front of another name it also fails if it
  leaves a quoted run open; a run opened by an apostrophe is closed by the next
  apostrophe, one opened by a double quote by the next double quote with a
  backslash directly in front.
- The shortcuts of `insert_char` and `remove_char` count a control character as one
  column. The one can draw a line that a redraw would have scrolled, the other leave
  a line scrolled that a redraw would not (`Screen.InsertGuardFails`,
  `Screen.RemoveGuardFails`).
  A run that leaves the row out of step is given (`Editor.RowSlips`).
- A completion can change an argument typed before it: one typed with escaped
  apostrophes around it is printed without the escapes and loses the apostrophes when
  the line is read (`Completion.CompletionChangesArgument`).
- A saved history cannot always be loaded: a line longer than a chunk may be cut
  inside an escape, and the decoding loop would then read behind the terminator
  (`HistoryFile.SavedLoadable`, `HistoryFile.BackslashesNotLoadable`). One that can be
  loaded need not come back as it was (`SavedHistory.SavedComesBack`).
- Every prompt puts an empty line into the history, so a full history keeps one
  line less than its maximum (`ReadLoop.HistoryAcrossPrompts`). A read that fails
  with a command half-typed leaves that line in the history
  (`ReadLoop.FailedReadBreaks`).
- A property asked for by a path whose last slash is its first or last character, or
  that has no slash, is not shown itself. In text mode only what is below it appears;
  in JSON mode it is given the path for its name, the type "node" and an empty value,
  whatever it has (`Dumps.FormatPath`, `Dumps.FormatPathJson`).
- Different property trees can print the same text, as a name or a value may contain
  the separator (`Listing.TextCollides`, `Listing.TextReadBack`). No dump of more than
  one property tells the tree on its own (`Listing.TwoPropertiesMistakable`).

## Model

| member | source | states |
|---|---|---|
| Codec.EncodeForm | src/fep_control_tool/linenoise/utf8.c:16-33 | one byte below 0x80, two below 0x800, else three, with the lead and continuation bytes of RFC 3629; their low bits are the character |
| Codec.DecodeEncode | src/fep_control_tool/linenoise/utf8.c:16-113 | decoding the bytes of any character 0..0xFFFF gives that character and consumes exactly its bytes |
| Codec.EncodeMasks | src/fep_control_tool/linenoise/utf8.c:16-33 | the masks and shifts of the encoder are the divisions and remainders of the model |
| Codec.DecodeMasks | src/fep_control_tool/linenoise/utf8.c:93-107 | the same for the masks and shifts of the decoder |
| Codec.ReadEncoded | src/fep_control_tool/linenoise/linenoise.c:357-380 | reading a typed UTF-8 character by the length its first byte announces gives that character and leaves the bytes behind it |
| Text.Utf8Index | src/fep_control_tool/linenoise/utf8.c:69-77 | the loop returns the size of the given number of decoding steps |
| Text.Utf8StrLen | src/fep_control_tool/linenoise/utf8.c:53-67 | the loop counts the decoding steps that tile the given number of bytes |
| Text.StringTiles | src/fep_control_tool/linenoise/utf8.c:53-113 | for any NUL-terminated bytes, well-formed or not, no decoding step passes the terminator, so the count ends |
| Text.StringIndexOfStrLen | src/fep_control_tool/linenoise/utf8.c:53-77 | for every C string, stepping over as many characters as it has arrives at its terminator |
| Text.DecodeInText | src/fep_control_tool/linenoise/utf8.c:89-113 | decoding at the offset of character k of an encoded text gives character k |
| Text.IndexInText | src/fep_control_tool/linenoise/utf8.c:69-77 | over encoded text utf8_index is the size of the characters passed, from any character on |
| Text.CountInText | src/fep_control_tool/linenoise/utf8.c:53-67 | over encoded text utf8_strlen is the number of characters |
| Text.EncodeInjective | src/fep_control_tool/linenoise/utf8.c:16-33 | two texts with the same bytes are the same text |
| Text.EncodeStrLen | src/fep_control_tool/linenoise/utf8.c:16-33 | a zero byte in encoded text is a NUL character: strlen of the bytes cuts where the text has its first NUL |
| LineBuffer.Current.SetCurrent | src/fep_control_tool/linenoise/linenoise.c:909-915 | the buffer holds the C string, cut to bufmax - 1 bytes, then zeros; the counts are those of its decoding steps, the cursor goes to the end; whatever text the string encodes is then the text of the buffer |
| LineBuffer.Current.GetChar | src/fep_control_tool/linenoise/linenoise.c:798-807 | the character at a position, -1 outside the text |
| LineBuffer.Current.RemoveChar | src/fep_control_tool/linenoise/linenoise.c:928-957 | exactly the character at the position leaves the text, the bytes stay its encoding, cursor and counts follow; 0, 1 or 2 is returned as the source decides |
| LineBuffer.Current.InsertChar | src/fep_control_tool/linenoise/linenoise.c:965-997 | the character enters the text at the position exactly if the position exists and a byte stays free; otherwise nothing changes |
| LineBuffer.Current.CaptureChars | src/fep_control_tool/linenoise/linenoise.c:1004-1018 | the cut buffer becomes the encoding of the characters named, or stays |
| LineBuffer.Current.RemoveChars | src/fep_control_tool/linenoise/linenoise.c:1025-1036 | removal of a range one character at a time, with the cut buffer holding what was removed |
| LineBuffer.Current.InsertChars | src/fep_control_tool/linenoise/linenoise.c:1042-1057 | insertion of a C string until its end or the first refusal |
| LineBuffer.RemoveBytes | src/fep_control_tool/linenoise/linenoise.c:946-948 | moving the bytes behind a character over it leaves the encoding of the shorter text and, in the one-byte build, a zero tail |
| LineBuffer.InsertBytes | src/fep_control_tool/linenoise/linenoise.c:986-988 | opening a gap and filling it leaves the encoding of the longer text; a zero tail stays one although the terminator is not moved |
| Line.RemoveManyIsCut | src/fep_control_tool/linenoise/linenoise.c:1025-1036 | removing n characters one by one is cutting the range out, with the cursor pulled back accordingly |
| Line.InsertManyIsSplice | src/fep_control_tool/linenoise/linenoise.c:1042-1057 | inserting one by one is splicing in the accepted prefix, with the cursor behind it |
| Line.AcceptedIsLongest | src/fep_control_tool/linenoise/linenoise.c:917-920 | the accepted prefix is the longest that leaves a byte free |
| Line.FittingIsLongest | src/fep_control_tool/linenoise/linenoise.c:909-915 | what fits of a string is the longest front of its C string that leaves a byte for the terminator |
| History.History.constructor | src/fep_control_tool/linenoise/linenoise.c:160-162 | an empty history of maximum 100 that owns no string |
| History.History.Add | src/fep_control_tool/linenoise/linenoise.c:1499-1524 | the new lines are the old ones with the line added: repeats of the newest dropped, the oldest evicted when full; live strings are exactly the slots; true is returned exactly if the line was added |
| History.History.SetMaxLen | src/fep_control_tool/linenoise/linenoise.c:1530-1556 | the newest lines up to the new maximum stay, the others are released, the array has the new capacity; values below 1 are refused |
| History.History.DropLast | src/fep_control_tool/linenoise/linenoise.c:1182-1183 | the newest line is released and gone |
| History.History.Replace | src/fep_control_tool/linenoise/linenoise.c:1389-1390 | one line is released and replaced by a copy of the given string |
| History.History.FreeAll | src/fep_control_tool/linenoise/linenoise.c:188-198 | every string is released once and no line is left |
| History.AddedAllIsDedup | src/fep_control_tool/linenoise/linenoise.c:1499-1524 | adding any lines to an empty history of maximum M keeps the last M of them after removal of adjacent repeats |
| History.DedupIdentity | src/fep_control_tool/linenoise/linenoise.c:1509-1512 | removal of adjacent repeats changes exactly the lists that have one |
| Editor.Strstr | src/fep_control_tool/linenoise/linenoise.c:1297 | the first position at which the needle occurs, if it occurs |
| Editor.Editor.EditKey | src/fep_control_tool/linenoise/linenoise.c:1188-1443 | backspace, delete, cursor keys and typed characters act on the buffer as on the pure line, for which `KeyLaws` says key by key what they do; the row stays in step exactly if no shortcut is taken where it should not |
| Editor.Editor.TypeChar | src/fep_control_tool/linenoise/linenoise.c:1435-1442 | a typed character goes in as in the pure line; written directly or redrawn, the row stays in step exactly if the direct write left a column free |
| Editor.Editor.EraseChar | src/fep_control_tool/linenoise/linenoise.c:1188-1206 | the same for a character deleted, erased directly or redrawn: in step exactly if the shorter line is scrolled as far |
| Editor.Editor.TransposeChars | src/fep_control_tool/linenoise/linenoise.c:1331-1340 | ^T on the buffer is the pure transposition |
| Editor.Editor.CutText | src/fep_control_tool/linenoise/linenoise.c:1212-1229 | ^W, ^U and ^K cut on the buffer what they cut on the pure line |
| Editor.Editor.BackOverWord | src/fep_control_tool/linenoise/linenoise.c:1215-1223 | the two loops of ^W stop at the start of the word in front of the trailing blanks |
| Editor.Editor.YankText | src/fep_control_tool/linenoise/linenoise.c:1424-1428 | ^Y on the buffer is the pure yank |
| Editor.Editor.QuoteKey | src/fep_control_tool/linenoise/linenoise.c:1341-1358 | inserting ^V, taking it out and inserting the next key amounts to inserting that key, for every next key |
| Editor.Editor.NavigateHistory | src/fep_control_tool/linenoise/linenoise.c:1373-1403 | a navigation key on buffer and history array is the pure step on text and history list, for which `RecallLaws.NavigationKeys` says which line it shows; and the row shows the line |
| Editor.Editor.ReverseSearch | src/fep_control_tool/linenoise/linenoise.c:1230-1328 | the search loop on the buffer gives the line, the ending key and the input left of the pure search, for which `RecallLaws` says which line is found; and then the row shows the line |
| Editor.Editor.Contents | src/fep_control_tool/linenoise/linenoise.c:1080-1080 | reading the buffer to its first zero byte, without its length, gives the C string of the text |
| Editor.Editor.CompleteLine | src/fep_control_tool/linenoise/linenoise.c:1076-1128 | the completion loop gives line, key and input of the pure one; the row then shows the line taken, if no completion is longer than the buffer |
| Editor.Editor.ProcessKey | src/fep_control_tool/linenoise/linenoise.c:1173-1443 | one pass through the switch with its jumps back is one step of the pure editor |
| Editor.Editor.TakeTurn | src/fep_control_tool/linenoise/linenoise.c:1156-1171 | reading one key, completion first, is one turn of the pure editor; it keeps the row in step with the line exactly if no key acted on slips |
| Editor.Editor.Edit | src/fep_control_tool/linenoise/linenoise.c:1146-1446 | for every input the whole key loop on bytes and array ends with the outcome, text, cursor, cut buffer, history and unread input of the pure editor; and the row shows the line, if no key acted on put it out of step and all completions fit |
| Editor.RowSlips | src/fep_control_tool/linenoise/linenoise.c:977-984 | a run in which a key puts the row out of step: two quoted control characters and a letter on ten columns |
| Editor.Linenoise | src/fep_control_tool/linenoise/linenoise.c:1457-1496 | the line returned is the C string of the pure editor's text, none after Ctrl-C or end-of-file, and the history is the pure one |
| Editing.RunOk | src/fep_control_tool/linenoise/linenoise.c:1146-1446 | after every run the cursor is inside the text, the text is shorter than the buffer and every history line is a C string that fits it |
| Editing.NavigateOk | src/fep_control_tool/linenoise/linenoise.c:1392-1399 | history_index stays inside the history, whose length stays |
| RunLaws.RunNul | src/fep_control_tool/linenoise/linenoise.c:1346-1354 | if no NUL is typed directly behind a ^V, the text never holds one and the returned C string is the whole text |
| RunLaws.ApplyNul | src/fep_control_tool/linenoise/linenoise.c:1341-1358 | a key brings a NUL into the text exactly if it is ^V with room left and the next key is a NUL byte |
| RunLaws.RunKeepsHistory | src/fep_control_tool/linenoise/linenoise.c:1151-1199 | a session in which no navigation key is acted on leaves the history it started with, less its own empty line after Enter and end-of-file; navigation keys inside a search or behind ^V do not count |
| RunLaws.NavigatesOnKey | src/fep_control_tool/linenoise/linenoise.c:1373-1403 | a session navigates only if a navigation key is typed |
| EditingLaws.TransposeIsSwap | src/fep_control_tool/linenoise/linenoise.c:1331-1340 | ^T keeps the length exactly if there are two characters and len <= bufmax - 2; then it swaps the two neighbours and places the cursor behind them, otherwise one character is lost |
| EditingLaws.TypeThenErase | src/fep_control_tool/linenoise/linenoise.c:1188-1192 | backspace undoes typing a character exactly if there was room for it or the cursor was at the start |
| EditingLaws.TabCycles | src/fep_control_tool/linenoise/linenoise.c:1086-1123 | after n further tabs the offer is number n modulo one more than the completions, and any key but escape takes it |
| EditingLaws.CutThenYank | src/fep_control_tool/linenoise/linenoise.c:1020-1057 | cutting at the cursor and yanking restores the text exactly if len <= bufmax - 2 and no NUL was cut; both builds |
| EditingLaws.CutKeyThenYank | src/fep_control_tool/linenoise/linenoise.c:1414-1428 | the same for the keys ^W, ^U, ^K followed by ^Y |
| EditingLaws.FullLineTransposed | src/fep_control_tool/linenoise/linenoise.c:1331-1403 | a run that calls up a history line filling the buffer and then types ^T loses its last character |
| EditingLaws.FullLineCutAndYanked | src/fep_control_tool/linenoise/linenoise.c:1373-1428 | on such a line ^U and ^Y do not give it back |
| EditingLaws.WordCut | src/fep_control_tool/linenoise/linenoise.c:1212-1223 | ^W takes the blanks left of the cursor and the whole word in front of them and nothing more |
| EditingLaws.NavigateKeepsDocument | src/fep_control_tool/linenoise/linenoise.c:1373-1403 | history plus edited line is unchanged by a navigation key exactly if the line shown next fits the buffer |
| EditingLaws.WalkKeepsDocument | src/fep_control_tool/linenoise/linenoise.c:1373-1403 | any sequence of navigation keys keeps every edit, for histories whose lines fit |
| EditingLaws.SearchFinds | src/fep_control_tool/linenoise/linenoise.c:1297 | a match is found exactly if the query occurs, and then its first occurrence |
| EditingLaws.ScanIsNearest | src/fep_control_tool/linenoise/linenoise.c:1296-1309 | the scan stops at the first match in its direction or beyond the history |
| EditingLaws.SearchLandsNearest | src/fep_control_tool/linenoise/linenoise.c:1262-1315 | a search key shows the nearest line in its direction that contains the query (and differs from the shown one for repeats) with the cursor at its first occurrence, or changes neither line nor query |
| KeyLaws.ControlCodes | src/fep_control_tool/linenoise/linenoise.c:1173-1443 | each key code is the letter it is typed with, less 64 |
| KeyLaws.HomeKey | src/fep_control_tool/linenoise/linenoise.c:1404-1408 | ^A and Home put the cursor in front of the text and change nothing else, whatever is typed next |
| KeyLaws.EndKey | src/fep_control_tool/linenoise/linenoise.c:1409-1413 | ^E and End put it behind the text |
| KeyLaws.LeftKey | src/fep_control_tool/linenoise/linenoise.c:1359-1365 | ^B and Left move it one back, at the start not at all |
| KeyLaws.RightKey | src/fep_control_tool/linenoise/linenoise.c:1366-1372 | ^F and Right move it one on, at the end not at all |
| KeyLaws.LeftKeys | src/fep_control_tool/linenoise/linenoise.c:1359-1365 | n times Left move it n back, as far as there is text |
| KeyLaws.LeftThenRight | src/fep_control_tool/linenoise/linenoise.c:1359-1372 | Left and Right undo each other but at the ends of the line |
| KeyLaws.CharKey | src/fep_control_tool/linenoise/linenoise.c:1435-1442 | a printable character goes in at the cursor if the text is shorter than bufmax - 2, and is dropped otherwise |
| KeyLaws.TypeText | src/fep_control_tool/linenoise/linenoise.c:1435-1442 | printable text that fits goes in at the cursor |
| KeyLaws.BackspaceKey | src/fep_control_tool/linenoise/linenoise.c:1188-1193 | ^H and backspace take out the character in front of the cursor |
| KeyLaws.DeleteKey | src/fep_control_tool/linenoise/linenoise.c:1194-1206 | Delete, and ^D on a line with text, take out the character at the cursor |
| KeyLaws.TransposeKey | src/fep_control_tool/linenoise/linenoise.c:1331-1340 | ^T swaps the characters around the cursor, at the end the last two, on lines that do not fill the buffer |
| KeyLaws.CutToStart | src/fep_control_tool/linenoise/linenoise.c:1414-1418 | ^U leaves the text from the cursor on and keeps the rest in the cut buffer, unless it is nothing |
| KeyLaws.CutToEnd | src/fep_control_tool/linenoise/linenoise.c:1419-1423 | ^K leaves the text in front of the cursor, likewise |
| KeyLaws.CutWord | src/fep_control_tool/linenoise/linenoise.c:1212-1229 | ^W takes out the blanks in front of the cursor with the word in front of them, likewise |
| KeyLaws.YankKey | src/fep_control_tool/linenoise/linenoise.c:1424-1428 | ^Y puts in as much of the cut buffer, up to a NUL, as leaves a byte to spare, and the cursor behind it |
| KeyLaws.QuoteKey | src/fep_control_tool/linenoise/linenoise.c:1341-1358 | the key behind ^V goes in as a character; without room for three bytes ^V is ignored |
| KeyLaws.EscapeSequence | src/fep_control_tool/linenoise/linenoise.c:1176-1178 | an escape sequence is the key it stands for |
| KeyLaws.IdleKey | src/fep_control_tool/linenoise/linenoise.c:1435-1442 | every other key below the blank does nothing |
| KeyLaws.TabTyped | src/fep_control_tool/linenoise/linenoise.c:1156-1171 | a tab is typed like a character away from the end of the line and without completions |
| KeyLaws.TabDropped | src/fep_control_tool/linenoise/linenoise.c:1080-1084 | a tab at the end of a line that nothing completes is dropped |
| KeyLaws.TabCompletes | src/fep_control_tool/linenoise/linenoise.c:1076-1128 | a tab and n more offer completion n modulo one more than there are; the next key takes it and does what it does, escape does not take it |
| KeyLaws.SessionEnds | src/fep_control_tool/linenoise/linenoise.c:1173-1200 | Enter, Ctrl-C, a failed read, and ^D on an empty line end the session; Enter and ^D drop its own history line |
| KeyLaws.TypedLine | src/fep_control_tool/linenoise/linenoise.c:1146-1446 | text typed and Enter: the line returned is the text |
| KeyLaws.TypedAtHome | src/fep_control_tool/linenoise/linenoise.c:1404-1408 | text, Home, more text and Enter: the later text comes first |
| KeyLaws.TypedAtEnd | src/fep_control_tool/linenoise/linenoise.c:1404-1413 | text, Home, End, more text and Enter: the later text comes last |
| KeyLaws.TypedInside | src/fep_control_tool/linenoise/linenoise.c:1359-1365 | text, n times Left, more text and Enter: the later text stands in front of the last n characters |
| KeyLaws.NothingToYank | src/fep_control_tool/linenoise/linenoise.c:1424-1428 | a session starts with nothing to yank |
| RecallLaws.NavigationKeys | src/fep_control_tool/linenoise/linenoise.c:1373-1403 | with a history, Up shows the line in front of the one shown, Down the one behind it, Page Up the first and Page Down the last, each with the cursor at its end and the line left kept; at the ends nothing moves |
| RecallLaws.UpsAndDowns | src/fep_control_tool/linenoise/linenoise.c:1373-1403 | n times Up, m times Down and Enter return the history line n - m from the end |
| RecallLaws.PagesUpAndDown | src/fep_control_tool/linenoise/linenoise.c:1373-1403 | Page Up and Enter return the first line; with Page Down in between the empty one |
| RecallLaws.SearchTyped | src/fep_control_tool/linenoise/linenoise.c:1287-1309 | a typed character finds the newest line of the whole history that contains the longer query and shows it with the cursor at its first occurrence; if there is none, line and query stay |
| RecallLaws.SearchOlder | src/fep_control_tool/linenoise/linenoise.c:1262-1315 | Up finds the nearest line in front of the one it stands at that contains the query and differs from the one shown; if there is none, line and query stay |
| RecallLaws.SearchNewer | src/fep_control_tool/linenoise/linenoise.c:1262-1315 | Down finds the nearest such line behind it |
| RecallLaws.SearchText | src/fep_control_tool/linenoise/linenoise.c:1287-1309 | a query typed, some line containing it, ends at the newest such line |
| RecallLaws.SearchAndEnter | src/fep_control_tool/linenoise/linenoise.c:1230-1328 | ^R, a text and Enter return the newest history line that contains the text |
| RecallLaws.SearchEnds | src/fep_control_tool/linenoise/linenoise.c:1317-1328 | ^J ends the search with the line shown, ^G and ^C with an empty one, and other keys with the line shown, to be processed then |
| RecallLaws.SearchErases | src/fep_control_tool/linenoise/linenoise.c:1249-1256 | backspace takes the last character off the query and moves nothing |
| RecallLaws.SearchEscape | src/fep_control_tool/linenoise/linenoise.c:1257-1261 | an escape sequence in a search is the key it stands for |
| RecallLaws.SearchUpAtOnce | src/fep_control_tool/linenoise/linenoise.c:1230-1328 | ^R, Up and Enter return the newest line |
| Lexer.SkipWhitespaces | src/fep_control_tool/helper.cpp:29-44 | the pointer advances over exactly the blanks |
| Lexer.GetNextWord | src/fep_control_tool/helper.cpp:46-112 | the word found, its end, and failure exactly at the end of the C string |
| Lexer.ParseLine | src/fep_control_tool/helper.cpp:139-155 | the loop yields the unescaped words and the empty word asked for |
| Lexer.UnEscape | src/fep_control_tool/control_tool_common_helper.h:49-70 | the flag-driven loop is the recursive unescaping |
| Lexer.QuoteNameIfNecessary | src/fep_control_tool/control_tool_common_helper.h:25-47 | the loop yields the quoted form, including the unchanged one |
| RoundTrip.UnescapeEscaped | src/fep_control_tool/control_tool_common_helper.h:34-70 | unescaping undoes escaping, whatever follows |
| RoundTrip.RunOverEscaped | src/fep_control_tool/helper.cpp:70-74 | how far the quoted-run scanner gets over an escaped name, in terms of the name |
| RoundTrip.BareOverEscaped | src/fep_control_tool/helper.cpp:86-97 | the bare-word scanner stops at the end of a printed name exactly if the name closes its own quotes or ends the line |
| RoundTrip.WrappedHead | src/fep_control_tool/helper.cpp:66-80 | a wrapped name is read back exactly if no backslash stands directly in front of a double quote in it |
| RoundTrip.HeadWord | src/fep_control_tool/helper.cpp:46-112 | the first word of a printed line is the first name exactly if that name is printable in its place; then the rest of the line is what was printed behind it |
| RoundTrip.LineRoundTrip | src/fep_control_tool/helper.cpp:139-155 | the words of the joined quoted names are those names exactly if every name is printable in its place |
| RoundTrip.ParseRoundTrip | src/fep_control_tool/helper.cpp:139-155 | the same for parseLine, with or without the extra empty word |
| RoundTrip.Unprintable | src/fep_control_tool/control_tool_common_helper.h:25-47 | three concrete lists that are not read back |
| LexerLaws.UnquotedIsSplit | src/fep_control_tool/helper.cpp:82-99 | a line without quotes and backslashes is split at its blanks |
| LexerLaws.SegmentedWordVerbatim | src/fep_control_tool/helper.cpp:86-97 | a word with balanced backslash-free quoted segments is one verbatim word, inner blanks included |
| LexerLaws.UnquotedTrailingBlank | src/fep_control_tool/helper.cpp:150-153 | the extra empty word appears exactly if the line ends in a blank |
| LexerLaws.Separators | src/fep_control_tool/helper.cpp:29-44 | blank, tab, line feed, vertical tab, form feed and carriage return separate words, and no other character but quotes, backslash and NUL does anything |
| LexerLaws.NoWords | src/fep_control_tool/helper.cpp:139-155 | a line has no words exactly if it is blank |
| LexerLaws.UnescapeAny | src/fep_control_tool/control_tool_common_helper.h:49-70 | a backslash in front of any character is dropped, one at the end stays |
| LexerLaws.QuotedForms | src/fep_control_tool/control_tool_common_helper.h:25-47 | a name without quotes and backslashes is printed as it is, in double quotes if it is empty or holds a blank; double quotes and backslashes get a backslash |
| Completion.CommandNameCompletion | src/fep_control_tool/fep_control_commandline.cpp:38-49 | the command names with the prefix, in the order of the table |
| Completion.CommandCompletion | src/fep_control_tool/fep_control_commandline.cpp:51-84 | with one word the matching command names; with more the printed earlier words with, in place of the last, each word that the first command of that name has its completer for this argument offer, and nothing for an unknown name or an argument too many |
| Completion.EmptyLineHasNoWords | src/fep_control_tool/fep_control_commandline.cpp:53-60 | there is no first word exactly on an empty line |
| Completion.FindsFirst | src/fep_control_tool/fep_control.cpp:1615-1622 | the command found is the first of that name, none exactly if there is none |
| Completion.WithPrefixOrder | src/fep_control_tool/fep_control_commandline.cpp:38-49 | every command with the prefix is offered in its place in the table |
| Completion.CompletionReparses | src/fep_control_tool/fep_control_commandline.cpp:68-76 | a completion offered is read back as the words with the last one completed exactly if these are printable in their places |
| Completion.CompletionChangesArgument | src/fep_control_tool/fep_control_commandline.cpp:68-76 | an argument typed as a word between escaped apostrophes loses them when a later argument is completed |
| Completion.CommandNameReparses | src/fep_control_tool/fep_control_commandline.cpp:38-49 | a plain command name offered is read back as itself |
| HistoryFile.Save | src/fep_control_tool/linenoise/linenoise.c:1560-1588 | the file is the escaped lines, each with its line feed |
| HistoryFile.DecodeInPlace | src/fep_control_tool/linenoise/linenoise.c:1605-1620 | the two-pointer loop leaves the decoded line in the same buffer, and passes the terminator exactly if the line ends inside an escape |
| HistoryFile.Load | src/fep_control_tool/linenoise/linenoise.c:1595-1631 | the lines of the file are added one by one, exactly for files of which no chunk ends in an odd number of backslashes |
| HistoryFile.DecodeDefined | src/fep_control_tool/linenoise/linenoise.c:1605-1620 | a chunk can be decoded exactly if it ends in an even number of backslashes |
| HistoryFile.SavedLoadable | src/fep_control_tool/linenoise/linenoise.c:1560-1631 | a saved history can be loaded exactly if no chunk of an escaped line ends inside an escape |
| HistoryFile.BackslashesNotLoadable | src/fep_control_tool/linenoise/linenoise.c:1560-1620 | a line of 2048 or more backslashes cannot be loaded again |
| HistoryFile.LoadedOk | src/fep_control_tool/linenoise/linenoise.c:1595-1631 | what is loaded fits the line buffer, so the editor can start with it |
| HistoryFile.DecodeEncoded | src/fep_control_tool/linenoise/linenoise.c:1568-1620 | decoding undoes escaping of every line, with backslash, CR and LF |
| HistoryFile.FileReadBack | src/fep_control_tool/linenoise/linenoise.c:1560-1631 | a saved file is read as the lines written exactly if every escaped line has at most 4094 bytes |
| HistoryFile.EscapedForms | src/fep_control_tool/linenoise/linenoise.c:1566-1583 | the three escapes of the format in bytes |
| HistoryFile.EscapesRead | src/fep_control_tool/linenoise/linenoise.c:1605-1620 | a backslash with n or r behind it is read as line feed or carriage return, with any other character as that character; nothing is read of one alone |
| HistoryFile.PlainFile | src/fep_control_tool/linenoise/linenoise.c:1566-1585 | a line without backslash, line feed and carriage return is written as it is and ended by byte 10 |
| HistoryFile.RawLineRead | src/fep_control_tool/linenoise/linenoise.c:1595-1631 | a line without backslash that fits a chunk is read up to its byte 10; a last line without one is read too, less one carriage return at its end |
| HistoryFile.SaveThenLoad | src/fep_control_tool/linenoise/linenoise.c:1560-1631 | saving such lines and loading them into an empty history gives the last M without adjacent repeats, so the same history exactly if there are at most M and no repeats |
| SavedHistory.SavedThenLoaded | src/fep_control_tool/linenoise/linenoise.c:1560-1631 | any saved history that can be loaded comes back as the last M pieces of its lines without adjacent repeats |
| SavedHistory.SavedComesBack | src/fep_control_tool/linenoise/linenoise.c:1560-1631 | it comes back unchanged exactly if there are at most M lines and no adjacent repeats, and every escaped line is shorter than a chunk, or fills one, ends in no line end and stands in front of an empty line |
| ReadLoop.ReadInputFromSource | src/fep_control_tool/fep_control_commandline.cpp:95-111 | the prompt loop on buffer and history array is the pure sequence of prompts |
| ReadLoop.StartHistory | src/fep_control_tool/linenoise/linenoise.c:1149-1151 | starting a prompt reuses a leftover empty line and otherwise may push out the oldest |
| ReadLoop.HistoryAcrossPrompts | src/fep_control_tool/fep_control_commandline.cpp:95-111 | over any number of prompts at which no navigation key is acted on and no read fails with a command half-typed, the history, less a leftover empty line, is a suffix of the lines without adjacent repeats; at most M entries, at least M - 1 if there are as many |
| ReadLoop.TypedPrompt | src/fep_control_tool/fep_control_commandline.cpp:95-111 | printable text and Enter at a prompt run that text, unless it is blank, and the prompts go on with what is left of the input |
| ReadLoop.TypedLines | src/fep_control_tool/fep_control_commandline.cpp:95-111 | lines of printable text typed one after the other are run in that order, but those that are blank |
| ReadLoop.InterruptedPrompt | src/fep_control_tool/linenoise_wrapper.cpp:29-48 | text left with Ctrl-C is not run |
| ReadLoop.EndOfInput | src/fep_control_tool/fep_control_commandline.cpp:95-111 | ^D on an empty line ends the program, whatever follows; the history loses an empty line at its end, and its oldest if it was full |
| ReadLoop.FailedReadBreaks | src/fep_control_tool/linenoise_wrapper.cpp:29-48 | a read that fails with a command half-typed leaves an empty line in the history for good |
| ReadLoop.HalfTyped | src/fep_control_tool/linenoise_wrapper.cpp:29-48 | such a run: one letter typed and a read that fails |
| PropertyTree.ExtendedNames | src/fep_control_tool/fep_control.cpp:1040-1045 | the path built for a property names one property more, whatever slashes the node ends in |
| PropertyTree.ExtendedJoined | src/fep_control_tool/fep_control.cpp:1040-1045 | from the root down the paths built are the slash-joined names |
| PropertyTree.SplitPathNames | src/fep_control_tool/fep_control.cpp:1116-1123 | splitting a path and building it again names the same property |
| PropertyTree.JoinedNames | src/fep_control_tool/fep_control.cpp:1040-1045 | slash-joined names are a path of exactly these names |
| PropertyTree.SplitAtLast | src/fep_control_tool/fep_control.cpp:1116-1123 | a path is split at its last slash; without one it is all node |
| Traversal.NextNode | src/fep_control_tool/fep_control.cpp:1040-1045 | the comparison of find_last_of with length() - 1, npos included, adds a slash exactly where one is missing |
| Traversal.Renderer.Callback | src/fep_control_tool/fep_control.cpp:1064-1082 | one callback: the fields written or the object appended and its pointer, or one indented line |
| Traversal.Traverse | src/fep_control_tool/fep_control.cpp:1020-1050 | the path-addressed recursion visits the structural preorder once, with true depth and path, and builds the JSON subtree or the text of those visits |
| Dumps.FormatPropertyJson | src/fep_control_tool/fep_control.cpp:1052-1091 | the result is the JSON form of the forest, of the property, or of an object without fields for a top-level path |
| Dumps.FormatProperty | src/fep_control_tool/fep_control.cpp:1093-1114 | the text of the visits, up to a NUL |
| Dumps.FormatPath | src/fep_control_tool/fep_control.cpp:1258-1287 | in text mode a path shows the properties below the one it names, and that one itself exactly if the last slash is neither first nor last |
| Dumps.FormatPathJson | src/fep_control_tool/fep_control.cpp:1258-1285 | in JSON mode the same, where a property not shown gets the path for its name, the type node and no value |
| Dumps.JsonRoundTrip | src/fep_control_tool/fep_control.cpp:1064-1091 | the forest can be read back from its JSON form |
| Dumps.TextIsJsonPreorder | src/fep_control_tool/fep_control.cpp:1052-1114 | the lines of the text are the preorder of the JSON form with its depths |
| Dumps.ListingRebuilds | src/fep_control_tool/fep_control.cpp:1093-1114 | the forest, types aside, is rebuilt from the depths, names and values listed |
| Dumps.ListingUnique | src/fep_control_tool/fep_control.cpp:1093-1114 | equal lists of depth, name and value come from equal forests, types aside |
| Listing.LineForms | src/fep_control_tool/fep_control.cpp:1108 | two blanks for each level, the name, a separator, the value |
| Listing.LineReadBack | src/fep_control_tool/fep_control.cpp:1108 | a printed line is read back exactly if its name is not empty, starts with no blank, and has no blank and colon that a blank or its end follows |
| Listing.TextReadBack | src/fep_control_tool/fep_control.cpp:1093-1114 | a printed text is read back as its depths, names and values exactly if every name is of that kind and there is no line feed in a name or value |
| Listing.TextRebuilds | src/fep_control_tool/fep_control.cpp:1093-1114 | the forest, types aside, is rebuilt from the characters of such a dump |
| Listing.TextUnique | src/fep_control_tool/fep_control.cpp:1093-1114 | of the forests of that kind, those that print the same characters are the same, types aside |
| Listing.TextCollides | src/fep_control_tool/fep_control.cpp:1108 | two forests with a separator in name or value that print the same |
| Listing.TwoPropertiesMistakable | src/fep_control_tool/fep_control.cpp:1093-1114 | a dump of more than one property is also the dump of another tree, whose only value holds the rest of the text |
| Listing.OneProperty | src/fep_control_tool/fep_control.cpp:1093-1114 | a dump of a single property in one line is the dump of no other tree exactly if every further separator has a slash in front |
| Dumps.PathsAreTrue | src/fep_control_tool/fep_control.cpp:1045-1049 | every node is queried by the slash-joined names of its ancestors |
| Screen.CountColorControlChars | src/fep_control_tool/linenoise/linenoise.c:386-436 | the loop is the state machine over the C string |
| Screen.PromptColumns | src/fep_control_tool/linenoise/linenoise.c:825-831 | for a prompt of visible bytes and complete color sequences the columns reckoned with are the visible bytes |
| Screen.NotAColor | src/fep_control_tool/linenoise/linenoise.c:405-433 | an escape character that starts no color sequence counts nothing, and neither does a sequence broken off or ended by another character |
| Screen.ScrollLeft | src/fep_control_tool/linenoise/linenoise.c:837-866 | the two loops scroll off exactly the characters of the specification |
| Screen.ScrolledFits | src/fep_control_tool/linenoise/linenoise.c:857-866 | scrolling stops at the first place where the demanded columns fit, or at the cursor |
| Screen.DrawBuffer | src/fep_control_tool/linenoise/linenoise.c:872-902 | the batched writes draw the same cells as character by character, up to the last that fits |
| Screen.RefreshLine | src/fep_control_tool/linenoise/linenoise.c:809-907 | whatever it showed before, the row ends up as prompt and display form of a stretch of the text that holds the cursor, the cursor in its column; nothing is scrolled off that need not be, and right of the cursor the text is shown to its end or as far as it fits; if the prompt leaves a column free, the cursor never goes past the last column on the way, so nothing is written there |
| Screen.PictureShows | src/fep_control_tool/linenoise/linenoise.c:833-906 | the picture is such a row: the shortest front is scrolled off that leaves the demanded columns, and the longest stretch from there that fits is drawn |
| Screen.ShownWhole | src/fep_control_tool/linenoise/linenoise.c:833-906 | a line that fits with a column to spare is shown whole, wherever the cursor is |
| Screen.ControlShown | src/fep_control_tool/linenoise/linenoise.c:878-890 | a control character is shown as a caret and the character typed with Ctrl |
| Screen.PictureFits | src/fep_control_tool/linenoise/linenoise.c:849-906 | no cell lies at or past cols, the cursor column is below cols, and the cells left of it are the prompt and the display form of the unscrolled text left of the cursor |
| Screen.InsertShortcut | src/fep_control_tool/linenoise/linenoise.c:977-984 | writing the typed character directly gives the redrawn picture exactly if a column stays free |
| Screen.InsertGuard | src/fep_control_tool/linenoise/linenoise.c:979 | the guard of the shortcut ensures that on lines without control characters |
| Screen.InsertGuardFails | src/fep_control_tool/linenoise/linenoise.c:979 | with control characters it does not: a concrete line on which the shortcut and a redraw differ |
| Screen.RemoveShortcut | src/fep_control_tool/linenoise/linenoise.c:937-943 | erasing the last character directly gives the redrawn picture and a blank exactly if the scrolling would not change |
| Screen.RemoveGuard | src/fep_control_tool/linenoise/linenoise.c:939 | the guard of the shortcut ensures that on lines without control characters |
| Screen.RemoveGuardFails | src/fep_control_tool/linenoise/linenoise.c:939 | with control characters it does not: a concrete line |
| Screen.InsertInStep | src/fep_control_tool/linenoise/linenoise.c:977-984 | a character written directly, over blanks left by earlier erasures too, keeps a row in step exactly if a column stays free |
| Screen.RemoveInStep | src/fep_control_tool/linenoise/linenoise.c:937-943 | a character erased directly keeps a row in step exactly if the shorter line is scrolled as far |
| Screen.PlainNeverSlips | src/fep_control_tool/linenoise/linenoise.c:937-984 | on a line without control characters both shortcuts keep the row in step |

## Left out

- Terminal plumbing: raw mode, `poll` and `read`, escape-sequence decoding in `check_special`, window size queries, clearing the screen, and all Windows console code. Decoded values and a number of columns are given.
- What the row shows during a search, whose prompts quote the query: only the redraw at its end is followed. Between two redraws, the direct writes that `insert_char` and `remove_char` make on the way of ^T, ^V, ^W, ^U, ^K and ^Y are not followed either, as a redraw covers them.
- A change of the number of columns during a session.
- `Editor.Editor.Edit`: says nothing about the row after a failed read, which may leave a completion on the screen, nothing once a key has put it out of step, until the next session, and nothing if a completion is longer than the buffer.
- `Screen.Apply`: `SetCursor(0)` places the cursor in column 0; a terminal takes a move by 0 as a move by 1, which matters only for an empty prompt.
- `Screen.PromptColumns`: one-byte build only, and for prompts in which every escape character starts a complete color sequence; what the terminal shows for other prompts is a parameter of `Screen.RefreshLine`.
- `LineBuffer.Current.SetCurrent`: says only what bytes and counts are where, in the UTF-8 build, the string encodes no text or the cut splits a character; what the other functions do on such a buffer is not modelled.
- The key loop in the UTF-8 build, and with it the completion preview, which sets the cursor in bytes.
- The size of the search query buffer and its guard: the query is a string without bound.
- The reading of lines without a terminal (`fgets` in `linenoise`), failure of `malloc`, `strdup` and `fopen`, and signals.
- `HistoryFile.Load`: what happens once the loop has passed the terminator; the method then stops and returns false.
- `HistoryFile.SaveThenLoad`: for histories of short lines; the other histories are those of `SavedHistory.SavedThenLoaded`.
- `Listing.OneProperty`: for a name and a value without line feeds.
- `ReadLoop.ReadInputFromSource`: ends when nothing is left to read, where the program would prompt and fail to read for ever.
- `Completion.CommandCompletion`: the command table and the completion functions of its arguments are parameters; the empty line, on which the code would look for a first word that is not there, is excluded.
- Paths that name no property, for which the remote proxy is dereferenced without a check.
- `getNextWord` with an additional separator, which no caller uses.
- The command table, state changes, notes and errors of `fep_control.cpp`, the websocket server, the monitor and option parsing: thin or outside the source.
