# A verified model of GNU Readline 7.0, the fifteen puzzle and PocketDB

This project models the parts of the C-Programs repository that decide something hard, and proves
what they are for. Most of it is the bundled GNU Readline: binding key sequences and dispatching
keys, printing and listing bindings, the screen update, the history list and its file, history
substitution and tokenizing, the conditionals of the init file, and the parser of `LS_COLORS`. Two
smaller programs come beside it: the fifteen puzzle and PocketDB, a small key-row store.

Code that works by changing things in place is modelled by classes, arrays and loops, each method
proved against a specification function; what the repository promises is then proved of the
specification. So that a specification cannot be wrong together with the code that it is compared to, what
notations, words, tests and lines stand for is also stated by the codes of their characters.
`dafny verify dfyconfig.toml` checks everything.

| file | what it models |
|---|---|
| `Chars.dfy` | bytes, C strings, character classes |
| `Keymaps.dfy` | the trie of keymaps, read as a map from key sequences to bindings, and `rl_generic_bind` |
| `KeySequences.dfy`, `KeyNotation.dfy` | the escape syntax of key sequences, read and printed, and what each notation stands for |
| `KeyNames.dfy` | the listing of the sequences bound to a function |
| `InputRing.dfy` | the ring buffer of typed-ahead keys |
| `DispatchSpec.dfy`, `Dispatching.dfy` | dispatching a key by recursion, and by the chain of contexts of callback mode |
| `Layout.dfy` | laying prompt and text out into screen rows |
| `ScreenUpdate.dfy` | a terminal row, and the commands that turn an old row into a new one |
| `Redisplay.dfy` | the rows of the layout meet what the screen update asks for |
| `HistoryList.dfy`, `HistoryFile.dfy` | the history list, and writing, reading and truncating its file |
| `HistoryExact.dfy`, `HistorySession.dfy` | exactly which lists survive being written and read back, and the whole of doing so |
| `HistoryTruncation.dfy` | truncating a history file that holds time stamps |
| `Substitution.dfy` | `:s`, `:gs`, `:&` and `^old^new^` |
| `Tokenizer.dfy`, `Words.dfy` | splitting a history line into words, and what keeps a word together |
| `Conditionals.dfy`, `InitFile.dfy` | `$if`, `$else`, `$endif`, and the text of an init file |
| `LsColors.dfy`, `ColorNotation.dfy` | the two nested state machines of `LS_COLORS`, a value for any settings, and what each notation stands for |
| `Puzzle15.dfy` | the fifteen puzzle |
| `PuzzleComplete.dfy` | exactly which of its boards can be solved |
| `PocketDB.dfy` | rows as bytes, the search tree, and runs of puts |

Facts about the code that the proofs bring out:

- `rl_generic_bind` is a one-key update of the meaning of a keymap exactly when no proper prefix of
  the keys is bound, outside a keymap, to `rl_do_lowercase_version`, whose binding is dropped: binding
  `a b` where `a` is bound to it leaves `a` unbound. A null function bound over a keymap becomes
  `_rl_null_function`.
- The context chain and the recursion differ in one case only: a top keymap that itself binds
  ANYOTHERKEY, a first key that leads to a keymap, and no bound prefix. The recursion then pushes the
  keys back and the chain aborts. An abort loses the keys that were read, those that led to keymaps and
  the one that did not, and leaves the rest in order.
- A macro survives printing and reading exactly when every backslash that a control-backslash leaves
  behind does no harm: it stands at the end, or before a backslash, which takes its place and leaves
  another, or before a character that it quotes and that `\c` reads as `c`. So control-backslash survives
  alone and before `z`, and not before `n`.
- Reading a key sequence steps over its terminator exactly when the last thing that is read is `\C-`,
  `\M-` or `\M-\C-` with nothing after it.
- A listed name misreads exactly when the keys hold control-backslash followed by `M-`, and the listing of a
  function gives its sequences back exactly when no listed sequence does.
- The layout is exact from a screen width of 5 on, and only from there. The room for row breaks, which the
  loop over the prompt does not look at, suffices for the prompt exactly when it has fewer than 256 times
  as many characters as the screen has columns.
- Opening spaces works on every row exactly when the capability that is chosen is not an empty string
  and insert mode can be left again; deleting does exactly when one of its capabilities works, and clearing
  exactly when its capability is not an empty string. `update_line` asks only whether some of them are
  present: on three columns or more, every update shows its new line exactly when every capability that is
  found present works. With a deletion capability that is present and empty, `ab` turned to `b` is left as
  `bb`.
- `stifle_history` assigns `history_base`, so the numbers of the entries survive it exactly when the
  base was 0 or nothing was dropped. Of three lines stifled to one, the third becomes number 2.
- Reading a history file appends a line to an entry that there is not exactly when lines are joined, the
  list is empty, and the file does not start with a time stamp; a list that can hold no entries needs a
  time stamp before every line.
- A history list written with time stamps comes back in multi-line mode exactly when every entry has a
  time stamp of one line, and every physical line is non-empty, free of terminators, does not look like a
  time stamp and does not end in a carriage return.
- Truncating a history file keeps exactly the last lines, unless the file starts with an empty line and
  has one line too many: of an empty line and the line `a`, truncated to one line, both are kept.
- Truncating a history file with time stamps keeps exactly the last physical lines of its entries and the
  time stamps between them. The time stamp of the oldest line that is kept is always cut off, even when the
  file had just that many lines, so that entry comes back with the time of reading it; and as the file no
  longer starts with a time stamp, lines are no longer joined to entries.
- A pattern with quoted delimiters is read back exactly when it does not end in a backslash.
- With no pattern remembered and nothing searched for, an empty pattern and an unquoted `&` in the
  replacement (`^^&^`) copy from a null pointer, and nothing else does. The block for a replacement with
  `&` that is no longer than pattern and replacement text together is one byte too small exactly when it is
  just as long and does not end in an unquoted `&`: for `xy` and `&&a` it is too small.
- The tokenizer steps over the terminator exactly when the last word ends in a backslash that is neither
  quoted nor itself escaped. `LS_COLORS` does exactly when reading stops at a known indicator whose sequence
  runs up to such a backslash, so never for a value that does not end in one.
- `^?` in `LS_COLORS` yields DEL and then `?`, because the question mark is not passed over. A string is
  decoded as it is meant exactly when no `^?` is met on the way.
- The boards that the fifteen puzzle reaches are exactly the proper boards of odd parity, and
  each of them can be solved. A new game starts with the blank on one of eight fields, because 1000 is
  even.
- Every PocketDB row is written one byte past the block allocated for it: the zero after the last value
  has the index that is the length of the block. Where that byte can be written, a row comes back from the
  store exactly when none of its names and none of its values but the last is empty.

## Model

| member | source | states |
|---|---|---|
| Keymaps.ReachInjective | readline/bind.c:393-463 | in a trie of unshared keymaps, a keymap is reached along one key path only |
| Keymaps.MeaningCons | readline/bind.c:393-463 | the meaning of a longer sequence is the meaning of its rest in the keymap that its first key leads to |
| Keymaps.SetEntryMeaning | readline/bind.c:441-460 | setting an entry rebinds exactly the sequence of that entry, ANYOTHERKEY standing for the keymap's own prefix |
| Keymaps.AddKeymapMeaning | readline/bind.c:412-440 | putting a new keymap in the place of an entry changes the meaning of no sequence but the one it is linked at |
| Keymaps.BindEntry | readline/bind.c:441-460 | binding at an entry that is not a keymap rebinds the sequence and nothing else |
| Keymaps.BindShadow | readline/bind.c:441-460 | binding a sequence that leads to a keymap binds that keymap's ANYOTHERKEY entry, and longer sequences keep their meaning |
| Keymaps.BindIsUpdate | readline/bind.c:393-463 | the whole operation is a one-key update of the meaning if and only if no proper prefix loses a lowercase binding |
| Keymaps.RunOfBinds | readline/bind.c:359-466 | after any run of bindings every sequence means what it was bound to last, and all others what they meant before |
| Keymaps.KeymapStore.Descend | readline/bind.c:412-440 | one step of the walk keeps every meaning, making a keymap that shadows the old binding where there is none |
| Keymaps.KeymapStore.BindIn | readline/bind.c:441-460 | the last key is bound in place, or in the ANYOTHERKEY entry of the keymap it leads to |
| Keymaps.KeymapStore.GenericBind | readline/bind.c:359-466 | after `rl_generic_bind` the keymaps are still a trie and every other sequence, shorter, longer or unrelated, keeps its meaning; it is a one-key update if and only if no proper prefix loses a lowercase binding |
| Keymaps.LowercaseIsLost | readline/bind.c:424-439 | a keymap in which binding `a b` leaves `a` unbound |
| KeySequences.ShowReadsBack | readline/bind.c:684-739 | what is printed for a byte is read back as that byte whatever follows, if and only if it is not control-backslash |
| KeySequences.RoundTrip | readline/bind.c:472-596 | reading undoes printing, for every string and both values of `use_escapes`, if and only if no backslash left by a control-backslash does harm |
| KeySequences.PlainMacroSurvives | readline/bind.c:684-739 | so it does for every string without control-backslash |
| KeySequences.SeparatorExamples | readline/bind.c:684-739 | control-backslash survives alone, before `z` and before a backslash; before `n` it gives a newline |
| KeySequences.NeverAhead | readline/bind.c:565-583 | what is printed for a macro is never read as that macro with digits before it, so digits that a stray backslash makes a number do not come back |
| KeySequences.PastEndIff | readline/bind.c:487-529 | a string has no value if and only if the last thing that is read of it is `\C-`, `\M-` or `\M-\C-` with nothing after it |
| KeySequences.PastEndExamples | readline/bind.c:487-529 | `\C-` has none; with its backslash quoted it has |
| KeyNotation.MetaReads | readline/bind.c:512-519 | `\M-c` reads as the byte 128 more than `c`, unless it starts `\M-\C-` |
| KeyNotation.ControlReads | readline/bind.c:521-526 | `\C-c` reads as the control character of a letter in either case, of a character beside the letters, or as DEL for `?`, unless it starts `\C-\M-` |
| KeyNotation.MetaControlReads | readline/bind.c:506-511 | `\M-\C-c` reads as 128 more than `\C-c` |
| KeyNotation.ControlMetaReads | readline/bind.c:490-498 | `\C-\M-c` reads as ESC and `\C-c` |
| KeyNotation.OctalReads | readline/bind.c:565-572 | a backslash and three octal digits read as the byte that they spell |
| KeyNotation.ShortOctalReads | readline/bind.c:565-572 | so do one or two where no octal digit follows |
| KeyNotation.HexReads | readline/bind.c:574-582 | `\x` and two hexadecimal digits, in either case, read as the byte that they spell |
| KeyNotation.ShortHexReads | readline/bind.c:574-582 | so does one where none follows, and `\x` without one reads as `x` |
| KeyNotation.LetterReads | readline/bind.c:534-564 | the bytes of `\a`, `\b`, `\d`, `\e`, `\f`, `\n`, `\r`, `\t` and `\v` |
| KeyNotation.OtherReads | readline/bind.c:583-592 | any other character reads as itself, after a backslash or without one |
| KeyNotation.ShownAs | readline/bind.c:684-739 | the text that is printed for every byte, with escapes and without |
| KeySequences.TranslateKeyseq | readline/bind.c:472-596 | the loop computes the keys that the string stands for, within a buffer of 2n+1 bytes, or steps over the terminator exactly in that case |
| KeySequences.UntranslateMacroValue | readline/bind.c:684-739 | the loop prints every character in turn, within the 7n+1 bytes that it allocates |
| KeyNames.NameReadsBack | readline/bind.c:2163-2234 | the name of a bound sequence is read back as its keys, if and only if they hold no control-backslash followed by `M-` |
| KeyNames.NamedAs | readline/bind.c:2163-2234 | the text of every key name |
| KeyNames.InvokingKeyseqs | readline/bind.c:2239-2343 | the listing names every sequence bound to the function, shadowed ones included, each once and nothing else |
| KeyNames.ClashReadsLess | readline/bind.c:2163-2234 | a name that misreads is read as keys that come before its own at the first difference |
| KeyNames.ListingReadsBack | readline/bind.c:2139-2142 | the listing, read back in, gives exactly the set of sequences bound to the function, if and only if none of them holds control-backslash followed by `M-` |
| InputRing.Ring.Space | readline/input.c:141-149 | the room left in the ring buffer |
| InputRing.Ring.GetChar | readline/input.c:153-170 | takes the oldest key of the queue, or nothing when it is empty |
| InputRing.Ring.UngetChar | readline/input.c:174-186 | puts a key back at the front of the queue when there is room |
| InputRing.Ring.StuffChar | readline/input.c:392-414 | appends a key to the queue when there is room; the end of the file becomes a newline with the end of the file pending |
| DispatchSpec.BestIsLongest | readline/readline.c:806-1084 | no bound prefix of the stream is longer than the one found by walking down and back up |
| DispatchSpec.RunsLongestPrefix | readline/readline.c:806-1084 | both dispatchers run the binding of the longest bound prefix, a command with the last key of that prefix and a macro as input, and leave the later keys in order |
| DispatchSpec.RunsNothing | readline/readline.c:871-901 | when no prefix is bound, neither dispatcher runs anything: each gives the keys back or loses those that were read, and when it does which |
| DispatchSpec.WalkedKeys | readline/readline.c:905-985 | an abort leaves the stream after the longest path of keymaps and the key that left it |
| DispatchSpec.ChainIsRecursion | readline/readline.c:745-790 | the chain does what the recursion does, if and only if the one case of a shadowing top keymap does not apply |
| DispatchSpec.ChainDiffers | readline/readline.c:745-790 | keymaps in which the recursion gives the keys `a b` back and the chain loses them |
| DispatchSpec.DispatchedChild | readline/readline.c:1017-1084 | what a keymap's activation returns follows from what the keymap below it returned |
| DispatchSpec.StreamPast | readline/readline.c:905-985 | the best prefix past a path of keymaps is the deeper one, or the last shadowed binding on the path |
| DispatchSpec.ChainBacksUp | readline/readline.c:745-790 | after an unbound key the chain runs the last shadowed binding on its path |
| Dispatching.Dispatcher.DispatchLeaf | readline/readline.c:839-903 | an entry that is not a keymap runs, or pushes back, or aborts, with the queue that is left |
| Dispatching.Dispatcher.SubseqResult | readline/readline.c:1017-1084 | goes on from the result of the keymap below: runs the shadowed binding, pushes the key back, or passes the result up |
| Dispatching.Dispatcher.RunShadow | readline/readline.c:1038-1058 | runs the shadowed function through a temporary binding and restores the keymap |
| Dispatching.Dispatcher.DispatchSubseq | readline/readline.c:806-1013 | recursive dispatch into a keymap returns, leaves and runs what the specification says |
| Dispatching.Dispatcher.Dispatch | readline/readline.c:797-803 | from a top keymap: the outcome of the specification, the queue it leaves on every outcome, aborts included, and the keymaps unchanged; the command of the longest bound prefix is called with the last key of it |
| Dispatching.Dispatcher.DispatchSubseqCallback | readline/readline.c:942-962 | in callback mode a keymap is put on the chain instead |
| Dispatching.Dispatcher.ReturnTop | readline/readline.c:770-790 | the result of the top context goes to the one below it, or ends the sequence |
| Dispatching.Dispatcher.Unwind | readline/callback.c:231-241 | the loop of the reader unwinds the chain to the outcome of the specification |
| Dispatching.Dispatcher.ReadChar | readline/callback.c:231-241 | serving one key either ends the sequence with that outcome or extends the chain by one context |
| Dispatching.Dispatcher.DispatchByCallbacks | readline/callback.c:231-241 | a whole sequence served key by key: the outcome of the chain's specification, with the keymaps unchanged; the command of the longest bound prefix is called with the last key of it |
| Layout.CharAddsCells | readline/display.c:896-966 | what each character adds to the buffer: three octal digits that spell it, blanks up to the next multiple of eight, a caret and a character, or itself |
| Layout.PutTextRows | readline/display.c:857-1026 | cell by cell, row breaks strictly increase, no row is wider than the screen, and a row is exactly full unless it is last or a newline ended it |
| Layout.DrawIsPut | readline/display.c:896-966 | on a screen of five columns or more, drawing a whole character, with its one row break, is drawing its cells one by one |
| Layout.WidthFive | readline/display.c:924-950 | and that holds for every character and column if and only if the screen has at least five columns |
| Layout.DrawTextIsPutText | readline/display.c:857-1026 | so the drawing loop lays a text out cell by cell |
| Layout.LayPrompt | readline/display.c:743-832 | the loop over the prompt breaks it where cell by cell layout breaks it; the first 256 places for row breaks suffice if and only if the prompt is shorter than 256 rows |
| Layout.DrawLine | readline/display.c:857-1026 | the loop draws the text after the prompt, notes where the cursor is, and never writes past the room it allocates |
| Layout.DrawnRows | readline/display.c:743-1026 | the rows are in order, concatenate to the rendered text, and the cursor lies in the row noted for it |
| Redisplay.RowsCanBeShown | readline/display.c:1385-1390 | every row of the layout meets the conditions of the screen update |
| ScreenUpdate.OpensSpaces | readline/display.c:2695-2730 | opening spaces moves the rest of every row and changes nothing else, if and only if the chosen capability works and insert mode can be left |
| ScreenUpdate.DeletesChars | readline/display.c:2732-2752 | deleting moves the rest of every row left and changes nothing else, if and only if one of the two capabilities works |
| ScreenUpdate.ClearsRest | readline/display.c:2641-2654 | clearing blanks the rest of every row, if and only if the capability is missing or works |
| ScreenUpdate.UsableIff | readline/display.c:1385-2015 | on three columns or more, every update shows the new line if and only if every capability that is found present works |
| ScreenUpdate.DeleteFails | readline/display.c:1936-1961 | with a deletion capability present and none that works, `ab` turned to `b` is left as `bb` |
| ScreenUpdate.InsertFails | readline/display.c:1849-1855 | where nothing is opened, or insert mode is not left, `bc` does not become `abc` |
| ScreenUpdate.ClearFails | readline/display.c:1973-2013 | where nothing is cleared, an emptied line stays |
| ScreenUpdate.FirstDifference | readline/display.c:1527-1530 | the loop finds the first index where the rows differ, or where the old row ends |
| ScreenUpdate.SamesGoBack | readline/display.c:1595-1636 | the agreement at the ends goes as far back as the rows agree, short of the first difference, unless only blanks agree |
| ScreenUpdate.LastSame | readline/display.c:1595-1636 | the backward loop finds the two indices from which the rows agree to their ends, not counting trailing blanks |
| ScreenUpdate.InsertShows | readline/display.c:1849-1855 | opening spaces and writing the difference turns the old row into the new one |
| ScreenUpdate.DeleteShows | readline/display.c:1936-1961 | so does deleting and overwriting |
| ScreenUpdate.ClearShows | readline/display.c:1973-2013 | so does overwriting and clearing to the end |
| ScreenUpdate.Display.MoveCursorRelative | readline/display.c:2158-2313 | the cursor gets to the column asked for, nothing on the row changes, and `_rl_last_c_pos` is the real column |
| ScreenUpdate.Display.OpenSomeSpaces | readline/display.c:2695-2730 | the commands sent open the spaces with whatever insert capability there is |
| ScreenUpdate.Display.DeleteChars | readline/display.c:2732-2752 | the commands sent delete the characters, at once or one by one |
| ScreenUpdate.Display.ClearEol | readline/display.c:2641-2654 | the capability is sent, or blanks are written where there is none; one that is empty does nothing |
| ScreenUpdate.Display.Lengthen | readline/display.c:1801-1913 | the branch for a line that gets longer, with whatever capabilities there are, leaves the row that the specification says |
| ScreenUpdate.Display.Shorten | readline/display.c:1915-2013 | the same for the branch for a line that does not get longer |
| ScreenUpdate.Display.UpdateLine | readline/display.c:1385-2015 | on a row that shows `old`, the commands leave the row that the specification says, whatever the capabilities do; when those that are present work, it shows exactly `new` and blanks; `_rl_last_c_pos` is the real cursor column |
| HistorySpec.EntriesAfter | readline/history.c:278-547 | what adding, removing, replacing, stifling and unstifling do to the list, entry by entry |
| HistorySpec.StifledIsBounded | readline/history.c:278-334 | on every run of operations a stifled list holds at most its maximum |
| HistorySpec.NumbersAreStable | readline/history.c:211-220 | over runs of adds a number names the same entry until that entry is evicted |
| HistorySpec.StifleNumbering | readline/history.c:506-532 | stifling keeps the numbers of the entries if and only if the base was 0 or nothing is dropped |
| HistorySpec.StifleRenumbers | readline/history.c:506-532 | of three lines stifled to one, the third is number 2 afterwards |
| HistoryList.History.AddHistory | readline/history.c:278-334 | the null-terminated array refines a sequence: an add appends, and a full stifled list drops its oldest entry |
| HistoryList.History.RemoveHistory | readline/history.c:485-502 | one entry goes, the others keep their order; nothing happens out of range |
| HistoryList.History.ReplaceHistoryEntry | readline/history.c:391-410 | line and data are replaced, the time stamp stays |
| HistoryList.History.StifleHistory | readline/history.c:506-532 | the last `max` entries are kept |
| HistoryList.History.UnstifleHistory | readline/history.c:535-547 | the limit is lifted and comes back, negative if there was none |
| HistoryList.History.HistoryGet | readline/history.c:211-220 | the entry with that number, or nothing |
| HistoryList.History.AddHistoryTime | readline/history.c:338-348 | stamps the last entry |
| HistoryList.History.AppendHistoryLine | readline/history.c:416-434 | adds a line to an entry |
| HistoryFileSpec.StampReads | readline/histfile.c:384-392 | a line that starts with the comment character and a digit is kept as the time stamp of the next entry |
| HistoryFileSpec.LineReads | readline/histfile.c:384-407 | any other line becomes an entry with that time stamp or the time of reading, or is joined to the entry before it |
| HistoryFileSpec.WritesAndGuesses | readline/histfile.c:349-372 | the text that is written for an entry, and the comment character and the mode that are guessed from it |
| HistoryFileSpec.SplitConcat | readline/histfile.c:375-411 | the lines of a file are the lines of its parts, where the first part ends in a newline |
| HistoryFileSpec.GluePhysical | readline/histfile.c:384-407 | an entry is its physical lines put together again |
| HistoryFileSpec.RoundTrip | readline/histfile.c:349-411 | reading what was written into an unstifled list adds every entry with its time stamp and all its lines |
| HistoryFileSpec.WriteThenRead | readline/histfile.c:349-411 | the same, with the comment character and the multi-line mode that reading works out from the file |
| HistoryFileSpec.WrittenIsSafe | readline/histfile.c:384-407 | reading a file of writable entries never appends to an empty list |
| HistoryFileSpec.WriteThenReadIsSafe | readline/histfile.c:349-411 | the same, with the comment character and the mode that reading works out from the file |
| HistorySession.ComesBackIff | readline/histfile.c:349-411 | in multi-line mode, a file is read without appending to an empty list and gives its entries back, if and only if all of them are writable |
| HistorySession.SaveAndLoad | readline/histfile.c:344-729 | the writer's buffer, given to the reader with a new list, fills it with the entries written, if they are writable; in multi-line mode only then |
| HistoryExact.OnlyWritable | readline/histfile.c:376-407 | what does not meet those conditions is changed or lost: a line adds at most its own length to the list, and less if it is not plain |
| HistoryExact.RoundTripIffWritable | readline/histfile.c:349-411 | in multi-line mode, entries come back from their file if and only if all of them are writable |
| HistoryFileSpec.SafeIff | readline/histfile.c:384-407 | reading never appends to an empty list, for a list that can hold entries, if and only if lines are not joined, or there is an entry, or a time stamp comes first |
| HistoryFileSpec.SafeFile | readline/histfile.c:344-407 | the same for a file, with the comment character and the mode that reading works out from it |
| HistoryFileSpec.SafeIffNoRoom | readline/histfile.c:384-407 | for a list that can hold no entries, if and only if lines are not joined or each has a time stamp before it |
| HistoryFileSpec.UnsafeExample | readline/histfile.c:384-407 | the file `a`, read into an empty list after an earlier file has turned the joining of lines on, appends to an entry that there is not |
| HistoryFileSpec.TruncationKeepsLastLines | readline/histfile.c:544-579 | without time stamps the truncated file has exactly the last lines, or all of them, if and only if it does not start with an empty line while having one line too many |
| HistoryFileSpec.EmptyLineIsKept | readline/histfile.c:544-579 | of an empty line and the line `a`, truncated to one line, both are kept |
| HistoryFileSpec.TruncateThenRead | readline/histfile.c:544-579 | truncating a file of plain lines and reading it adds exactly its last lines |
| HistoryTruncation.KeptEnds | readline/histfile.c:544-569 | of a file with time stamps, truncation counts exactly the physical lines |
| HistoryTruncation.CountIsLines | readline/histfile.c:376-411 | of a file of writable entries, reading reports the physical lines |
| HistoryTruncation.StampedTruncation | readline/histfile.c:544-579 | truncating a file of writable entries keeps exactly the last physical lines with the time stamps between them, without the time stamp of the oldest; a file with fewer lines stays whole |
| HistoryTruncation.TruncateStampedThenRead | readline/histfile.c:349-579 | reading that file makes the lines left of the oldest entry entries of this moment, and gives the first line of each later entry its time stamp |
| HistoryTruncation.OldestLosesStamp | readline/histfile.c:349-579 | for entries of one line, these are the last entries, the oldest with the time of reading |
| HistoryFile.BufferSize | readline/histfile.c:677-687 | the size computed beforehand is the number of bytes of the text |
| HistoryFile.DoWrite | readline/histfile.c:666-729 | the buffer of that size is filled with exactly the text of the last entries |
| HistoryFile.EndLine | readline/histfile.c:378-383 | the newline, or the carriage return before it, becomes a terminator, and the line is a C string |
| HistoryFile.GobbleLine | readline/histfile.c:376-407 | a line is skipped, kept as a time stamp, appended or added, or there is no entry to append it to; the pointer to the time stamp still points to it |
| HistoryFile.ReadHistory | readline/histfile.c:344-411 | the scan over the buffer adds what the lines of the file stand for and counts them without the time stamps, or appends to an empty list exactly when the specification says so |
| HistoryFile.TruncateFrom | readline/histfile.c:544-569 | the two backward scans find the place after the line end that leaves the number of lines asked for, or the start; and the count of lines that it reports |
| SubstitutionSpec.PiecesMakeUpText | readline/histexpand.c:775-823 | the pieces between the occurrences, with the pattern between them, are the text |
| SubstitutionSpec.PiecesAreLeftmost | readline/histexpand.c:775-823 | each piece ends at the first occurrence that is left, and the last holds none |
| SubstitutionSpec.QuotedReadsBack | readline/histexpand.c:452-482 | a pattern whose delimiters are quoted is read back if and only if it does not end in a backslash |
| SubstitutionSpec.QuotedAmpersand | readline/histexpand.c:492-522 | a quoted `&` in the replacement stands for itself |
| SubstitutionSpec.AmpersandIsPattern | readline/histexpand.c:492-522 | an `&` is replaced by the pattern where it stands, and one after a backslash by itself |
| SubstitutionSpec.PatternComesFrom | readline/histexpand.c:708-733 | a pattern that is given is taken, otherwise the one that is remembered, and only then what was last searched for |
| Substitution.GetSubstPattern | readline/histexpand.c:435-490 | the pattern up to the next unquoted delimiter, nothing if it is empty on the left, and the index after it |
| SubstitutionSpec.InterpolateLength | readline/histexpand.c:492-522 | each unquoted `&` puts the pattern in once |
| SubstitutionSpec.BlockHolds | readline/histexpand.c:498-518 | the block, as it grows, holds the replacement, so the zero after it is at most one byte outside |
| SubstitutionSpec.RoomWhenShort | readline/histexpand.c:498-518 | the zero is inside when the replacement is shorter than both strings together, and so for no more than one `&` |
| SubstitutionSpec.RoomIff | readline/histexpand.c:498-518 | for a replacement no longer than both strings together, the zero is inside if and only if it is shorter or ends in an unquoted `&` |
| SubstitutionSpec.NoRoomExample | readline/histexpand.c:498-518 | for `xy` and `&&a` it is outside |
| SubstitutionSpec.NullPatternIff | readline/histexpand.c:708-738 | a null pattern is copied if and only if the pattern is left empty, none is remembered, nothing was searched for, and an `&` is unquoted |
| SubstitutionSpec.NullPatternExample | readline/histexpand.c:708-738 | it is for `^^&^`, and not for `^^\&^` |
| Substitution.PostprocRhs | readline/histexpand.c:492-522 | `&` becomes the pattern, or a null pattern is copied; every write of the loop is inside the block, and the last one is if and only if there is room |
| Substitution.SubstLoop | readline/histexpand.c:775-823 | fails if and only if the pattern does not occur; otherwise the first occurrence is replaced, or with `:g` every one from left to right without rescanning; it ends although the text may grow |
| Substitution.Expander.Modify | readline/histexpand.c:688-838 | the remembered pattern and replacement, and the outcome of `:s` and `:&` with its errors and the null dereference |
| Substitution.Expander.QuickSubstitution | readline/histexpand.c:958-967 | `^old^new^` is `!!:s^old^new^` on the last history line; no event if there is none |
| Substitution.QuickExample | readline/histexpand.c:958-967 | `^a^b^` asks for the first `a` to become `b` |
| Substitution.QuickSubstitutionMeans | readline/histexpand.c:958-967 | for plain `old` and `new` the outcome is that line with its first `old` replaced, or the failure, and all of the text is used |
| TokenSpec.TokensCover | readline/histexpand.c:1592-1642 | the words are non-empty slices in order, with only spaces and tabs between them, up to the end or a comment character |
| TokenSpec.WordPastEnd | readline/histexpand.c:1526-1570 | a word ends behind the terminator if and only if it ends escaped, read character by character |
| TokenSpec.InsideIff | readline/histexpand.c:1592-1642 | a line is scanned inside if and only if its last word does not end escaped |
| TokenSpec.InsideUnlessBackslash | readline/histexpand.c:1592-1642 | a line that does not end in a backslash is scanned inside |
| TokenSpec.PastEndExamples | readline/histexpand.c:1526-1570 | a last backslash that is escaped or in single quotes does no harm, one that has nothing to escape does |
| TokenSpec.CoversInOrder | readline/histexpand.c:1592-1642 | an index lies in at most one word |
| Words.WordIsToken | readline/histexpand.c:1505-1570 | characters, strings in any of the three quotes, characters after a backslash, and a balanced parenthesis after `$`, `<`, `>` or a glob character make one token, whatever delimiters are inside |
| Words.PassQuoted | readline/histexpand.c:1523-1567 | what stands between quotes is passed over |
| Words.PassParen | readline/histexpand.c:1541-1557 | so is what stands in balanced parentheses |
| Words.TokensOfJoin | readline/histexpand.c:1592-1642 | such words joined by spaces are found again |
| Words.QuotedExample | readline/histexpand.c:1523-1567 | `"a b"` is one word |
| Words.OperatorReads | readline/histexpand.c:1431-1503 | the tokens that parentheses, newlines, `;`, `&`, pipes, `<` and `>` make, alone and in pairs |
| Words.RedirectionExamples | readline/histexpand.c:1437-1474 | `2>&1-` and `12<` are one token each |
| TokenSpec.OperatorIsLongest | readline/histexpand.c:1453-1503 | outside process substitution, an operator token is the longest shell operator that the text starts with |
| Tokenizer.GetWord | readline/histexpand.c:1520-1570 | the scan that passes over quoted pairs ends at the first delimiter that a character by character reading finds unquoted, or one behind the terminator when that reading ends escaped |
| Tokenizer.TokenizeWord | readline/histexpand.c:1421-1570 | the end of the token that starts at an index |
| Tokenizer.TokenizeInternal | readline/histexpand.c:1592-1642 | the words of the line, and the number of the one that holds an index; or that the terminator is stepped over |
| Tokenizer.FindWord | readline/histexpand.c:1669-1690 | the word that holds an index, nothing if no word does |
| ConditionalSpec.ItemsMean | readline/bind.c:1058-1170 | closed items leave the open blocks as they were, and add the commands that they mean, or none inside a section that is not selected |
| Conditionals.NestedBlocksMean | readline/bind.c:1058-1170 | a file of nested blocks executes exactly what the blocks mean and leaves none open |
| Conditionals.Evaluate | readline/bind.c:1079-1124 | the test of `$if`: terminal name in its long or short form, editing mode, or program name |
| InitFile.ModeSelects | readline/bind.c:1106-1116 | `mode=emacs` selects if and only if the mode is emacs, `mode=vi` if and only if it is vi, in any case of letters, and any other mode in neither |
| InitFile.TermSelects | readline/bind.c:1085-1105 | `term=t` selects if and only if `t` is the name of the terminal or its part before the first dash |
| InitFile.ProgramSelects | readline/bind.c:1117-1124 | any other word selects if and only if it is the name of the program |
| InitFile.DirectiveReads | readline/bind.c:1213-1243 | `$if`, `$else` and `$endif` are known in any case of letters, and `$if` has the text after it |
| InitFile.TextsRead | readline/bind.c:1285-1308 | the lines of a file that holds nested blocks are read as those blocks |
| InitFile.ReadBlocks | readline/bind.c:963-990 | reading such a file executes exactly what the blocks mean and leaves none open |
| InitFile.EmacsOnly | readline/bind.c:963-990 | the lines `$if mode=emacs`, a command and `$endif` execute the command if and only if the mode is emacs |
| Conditionals.ToggleTracks | readline/bind.c:1141-1157 | inverting the flag unless the stack holds a 1 is inverting the innermost section |
| Conditionals.Parser.ParserIf | readline/bind.c:1058-1126 | pushes the flag and sets it; the flag and the stack say which enclosing sections are selected |
| Conditionals.Parser.ParserElse | readline/bind.c:1130-1158 | the same after `$else`, which without an open block changes nothing |
| Conditionals.Parser.ParserEndif | readline/bind.c:1161-1170 | the same after `$endif` |
| Conditionals.Parser.HandleDirective | readline/bind.c:1213-1243 | the directive, in any case, and its arguments |
| Conditionals.Parser.ParseAndBind | readline/bind.c:1285-1308 | after any lines, the commands executed are exactly those whose enclosing sections are all selected |
| Conditionals.Parser.ReadInitFile | readline/bind.c:963-990 | the same for the lines of a file |
| ColorSpec.EncodedReadsBack | readline/parse-colors.c:119-296 | any bytes at all can be written so that they are read back, wherever they stand |
| ColorText.ValueReadsBack | readline/parse-colors.c:326-419 | any settings of extensions and indicators can be written as a value that is parsed back to them, the last entry winning |
| ColorText.AnySettingsCanBeWritten | readline/parse-colors.c:326-419 | so there is a value, a C string, for any tables that settings make |
| ColorSpec.DecodesAsMeant | readline/parse-colors.c:268-282 | a string is decoded like one whose `^?` is passed over whole, if and only if `^?` is not met on the way |
| ColorSpec.DeleteExample | readline/parse-colors.c:268-282 | `^?` alone is DEL and a question mark |
| ColorSpec.PastEndIff | readline/parse-colors.c:202-216 | the terminator is stepped over if and only if the string runs up to a last backslash that no escape has taken |
| ColorSpec.ParsePastEndIff | readline/parse-colors.c:326-419 | reading a value goes past its end if and only if it stops at a known indicator whose sequence does that |
| ColorSpec.InsideUnlessBackslash | readline/parse-colors.c:326-419 | so a value that does not end in a backslash is read inside |
| ColorSpec.PastEndExample | readline/parse-colors.c:202-216 | reading goes past the end for the directory colour that is one backslash, and not for an escaped one |
| ColorNotation.OctalReads | readline/parse-colors.c:218-227 | a backslash and three octal digits are the byte that they spell, where no octal digit follows |
| ColorNotation.HexReads | readline/parse-colors.c:229-266 | a backslash, `x` or `X` and two hexadecimal digits are the byte that they spell, where none follows |
| ColorNotation.NumbersReadBack | readline/parse-colors.c:119-296 | any bytes written as such numbers are read back, wherever they stand |
| ColorNotation.LetterReads | readline/parse-colors.c:153-216 | the bytes of the other characters after a backslash |
| ColorNotation.CaretReads | readline/parse-colors.c:268-274 | a caret and a character from `@` to `~` are its control character |
| ColorNotation.NamesAre | readline/parse-colors.h:36-41 | the names of the indicators in order |
| ColorNotation.ValueExample | readline/parse-colors.c:326-419 | what `*.c=01:di=34` sets |
| LsColors.Step | readline/parse-colors.c:122-289 | one turn of the inner machine, with the byte it writes; when it reads nothing its state gets smaller |
| LsColors.NumberEnds | readline/parse-colors.c:219-264 | the number added up digit by digit is the value of the digits modulo 256 |
| LsColors.GetFunkyString | readline/parse-colors.c:103-297 | the inner machine ends, writes what the string stands for, writes no more than it reads, and leaves the buffer before it alone |
| LsColors.ColorTable.StartExtension | readline/parse-colors.c:338-352 | an extension is decoded into the buffer |
| LsColors.ColorTable.FinishExtension | readline/parse-colors.c:405-417 | its sequence too, and the new entry comes first |
| LsColors.ColorTable.SetIndicator | readline/parse-colors.c:376-404 | an indicator is set, or the entry is skipped up to the next colon, or the terminator has been stepped over |
| LsColors.ColorTable.ParseColors | readline/parse-colors.c:300-438 | the outer machine ends, the copy-sized buffer suffices, and the tables point to the decoded strings of the entries; a value that cannot be parsed leaves no extensions; for any value at all, unless it stops at an indicator that runs over its end |
| Permutations.SwapChangesParity | 15-puzzle-1.cpp:45-60 | exchanging two elements of a permutation changes its parity |
| PuzzleSpec.SlideStaysValid | 15-puzzle-1.cpp:45-60 | after a legal move every number from 0 to 15 still stands once on the board, with the blank in its place |
| PuzzleSpec.Undo | 15-puzzle-1.cpp:45-60 | the opposite move is legal and takes the board back |
| PuzzleSpec.SlideKeepsParity | 15-puzzle-1.cpp:45-60 | a move keeps the parity of the permutation tied to the parity of the blank's place |
| PuzzleSpec.RunBackwards | 15-puzzle-1.cpp:29-67 | every legal run can be undone by legal moves |
| PuzzleSpec.ReachableIsSolvable | 15-puzzle-1.cpp:29-43 | every board that play reaches is a permutation of odd parity and can be solved |
| PuzzleSpec.ExchangeIsUnreachable | 15-puzzle-1.cpp:29-67 | a reachable board with two tiles exchanged, such as the solved one, is a proper board that play cannot reach |
| PuzzleComplete.JumpRotates | 15-puzzle-1.cpp:45-60 | along a snake through the board, a move off it rotates the tiles that it passes |
| PuzzleComplete.RotateThree | 15-puzzle-1.cpp:45-60 | any three neighbours on the snake can be rotated by legal moves |
| PuzzleComplete.SortTo | 15-puzzle-1.cpp:45-60 | so all tiles but the last two can be brought into any order |
| PuzzleComplete.ReachableIffOdd | 15-puzzle-1.cpp:29-67 | a board can be reached from the solved one, and solved, if and only if it is a proper board of odd parity |
| PuzzleSpec.RunColours | 15-puzzle-1.cpp:45-60 | the blank changes the colour of its field with every move |
| Puzzle.P15.CreateBoard | 15-puzzle-1.cpp:29-43 | whatever the random numbers are, the board is reached by exactly 1000 legal moves, so the blank is on a field of the colour that it starts on |
| Puzzle.P15.Move | 15-puzzle-1.cpp:45-60 | the move in place |
| Puzzle.P15.GetMove | 15-puzzle-1.cpp:87-108 | a tile beside the blank slides into it, any other number is refused and changes nothing |
| Puzzle.P15.GetTiles | 15-puzzle-1.cpp:110-121 | the tiles that the moves would slide |
| Puzzle.P15.IsDone | 15-puzzle-1.cpp:123-128 | the fifteen comparisons hold if and only if the board is the solved one |
| RowSpec.CompactReadsBack | pocketDB/output.c:9-58 | the bytes of a row read back as the row |
| RowSpec.WritesPastBlock | pocketDB/input.c:174-202 | for every row, the highest index written is the length of the block |
| RowSpec.WritesPastBlockOfOne | pocketDB/input.c:174-202 | for a cell named `a` that holds `b`, six bytes are allocated and byte 6 is written |
| RowSpec.StoredReadsBack | pocketDB/treemap.c:69-74 | what `strdup` keeps of the bytes reads back as the row, if no name and no value but the last is empty, and otherwise reading goes past its end |
| RowSpec.EmptyValueExamples | pocketDB/treemap.c:69-74 | a row of one cell with an empty value comes back, and with a cell after it does not |
| PocketDB.LinkedList | pocketDB/input.c:112-127 | the new cell hangs at the end of the list |
| PocketDB.RowLength | pocketDB/input.c:134-150 | the length counted beforehand is the number of bytes |
| PocketDB.DataCompact | pocketDB/input.c:159-214 | the loop fills a block of the length of the row with its bytes, and leaves a zero behind them if and only if a byte behind the block can be written |
| PocketDB.DataExpand | pocketDB/output.c:9-58 | the loop builds a list of the cells of the row, or goes past the end of the array exactly when that holds no whole row |
| PocketDB.StrCmp | pocketDB/treemap.c:73-78 | the order of `strcmp` |
| TreeSpec.BeforeIff | pocketDB/treemap.c:73-78 | that order is the order at the first byte that differs, the end coming before every byte |
| TreeSpec.InsertUpdates | pocketDB/treemap.c:59-81 | inserting keeps the search order and updates the mapping at one key |
| TreeSpec.InOrderAscends | pocketDB/treemap.c:86-93 | the visit meets every key once, in strictly ascending order |
| TreeSpec.VisitShowsLastRows | pocketDB/treemap.c:36-93 | after any puts the visit shows exactly the keys that were put, each with what comes back of the row put last under it |
| TreeSpec.ReadableAfter | pocketDB/treemap.c:86-93 | and nothing is read past its end if and only if every row that is still there comes back |
| PocketDB.NewNode | pocketDB/treemap.c:59-81 | the recursive insertion into heap nodes refines insertion into a tree |
| PocketDB.TreeGetAll | pocketDB/treemap.c:86-93 | the recursion over the heap nodes displays the entries in order, decoded, or reads a row past its end |
| PocketDB.TreeMap.TreePut | pocketDB/treemap.c:36-50 | the map holds the puts so far and this one, if and only if the byte behind the block can be written |
| PocketDB.TreeMap.GetAll | pocketDB/treemap.c:86-93 | each key once, in strictly ascending order, with the row put last under it, if and only if all those rows come back |

## Left out

- Multibyte characters: everything is modelled in byte-oriented mode.
- Invisible prompt characters, horizontal scrolling, vertical motion and the repair after automatic wrapping in `display.c`.
- The line break arrays: row breaks are a sequence, and of their sizes only the first one is looked at, for the prompt.
- Terminal, file, signal and environment calls: buffers, key streams, the clock, random numbers and the environment are parameters.
- `rl_do_lowercase_version` in dispatch, converting meta keys, macro definitions, timeouts of key sequences, the vi special cases, and commands that return something else than 0.
- The contexts that stay on the chain when the input ends in the middle of a sequence.
- `history_expand` apart from quick substitution, the other modifiers, the word-wise `:G`, and word designators.
- The sizes of the blocks that `history_tokenize_internal` allocates.
- `$include`: it changes neither the flag nor the stack here.
- `set editing-mode` in the init file: the mode that `$if mode=` asks for is the same for all lines.
- Backup files and the system calls around writing and truncating; writing to a mapped file.
- Completion, the kill ring, incremental search, undo and the other parts of Readline.
- The other programs of the repository, including `my-15-puzzle.cpp`.
- PocketDB cells that are numbers, the size counter, `get_node`, `tree_get` and `tree_get_in_range`.
- Keymaps.KeymapStore.GenericBind: takes the translated key sequence; allocation failure is not modelled.
- KeySequences.TranslateKeyseq: convert-meta is off.
- Dispatching.Dispatcher.Dispatch: asks for room in the ring buffer for the keys that can be pushed back, and for keymaps without `rl_do_lowercase_version`.
- Dispatching.Dispatcher.DispatchByCallbacks: asks for the same, and for an empty chain at the start.
- ScreenUpdate.Display.UpdateLine: the cursor is already on the row, and rows fit the screen.
- HistoryFile.ReadHistory: reads the whole file; bytes behind the end of a file of fewer than two bytes count as terminators; the list after a line has been appended to an entry that there is not is not stated.
- Substitution.Expander.QuickSubstitution: goes as far as the first modifier; text after the third delimiter is not expanded further.
- LsColors.ColorTable.ParseColors: starts from empty tables; what the indicators hold after a failure is not stated.
- Conditionals.Parser.HandleDirective: the directives are `$if`, `$else` and `$endif`; any other is passed over.
- Conditionals.Parser.ParseAndBind: commands that are executed do not change the editing mode that later tests read.
- Conditionals.Parser.ReadInitFile: takes the lines of the file already split.
- PocketDB.DataExpand: an array with a cell that is not a string counts as going past the end.
- PocketDB.TreeMap.TreePut: rows of 1 to 255 string cells, with names and values of at most 254 bytes.
