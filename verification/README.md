# multifast, modelled in Dafny

multifast is a command-line tool. It loads a file of patterns into an Aho-Corasick automaton and then does one of two things:

- searches input files for the patterns and prints one report line per match;
- in replace mode, writes a substituted copy of each input file under an output directory.

This project models the logic the repository implements itself, around the automaton library, which is not shown:

- **String arena** (`multifast/strmm.c`), module `Arena`.
  - An append-only store of NUL-terminated entries, kept in 4096-byte chunks.
  - It has a cursor (`last_chunk`, `last_pos`) and a chunk directory that grows 40 slots at a time.
  - `StringArena` is a class over a sequence of arrays; a C pointer into the arena is a handle (chunk, offset, length).
  - `Place` is the value-level specification of where an add puts its entry. `PlaceAllDisjoint` proves that any run of adds hands out disjoint entries.
- **Pattern catalog** (`multifast/pattern.c`), module `Catalog`.
  - `pattern_load` is a state machine over the tokens of the pattern file. It is specified by `Step` and `Run` over a value `LoadState`: the statics `last_type` and `last_pattern`, the id counter of `pattern_genrep`, the records offered to the automaton and the strings copied into the arena.
  - `PatternLoader` is the imperative loader: a class whose fields are those statics plus the arena and the trie. Each of its methods is proved to move its `Snapshot()` exactly as `Step` or `Run` say.
  - The ids `pattern_genrep` prints (`GenId`) come with a read-back round trip.
  - `pattern_print`'s display form (`Display`) comes with exact plain and hex layouts.
- **Case folding** (`lower_case`), module `Case`: in place on an array, against the pure `LowerAll`.
- **Driver** (`multifast/multifast.c`):
  - module `Driver`: the start-up checks and toggle normalisation of `main`, and `match_handler` with its unsigned 64-bit counters and start-position arithmetic;
  - module `OutputPath`: `mkpath` over an abstract file system, and `get_outfile_name` with its growable buffer;
  - module `Streaming`: the window loops of `search_file` and `replace_file`, with the automaton seen as a log of the calls it receives.

The tokenizer, the Aho-Corasick trie and the replacement engine are parameters:

- the pattern file arrives as a sequence of tokens;
- `ac_trie_add` is a recorder whose answer comes from a given function;
- search and replace calls are logged, and whether a call stops the loop is a given function of the calls before it.

POSIX calls become small classes:

- an input's successive `read` results;
- a set of existing directories plus a set of paths whose `mkdir` fails;
- a list of opened output files.

The code behaves as follows in places where a reader might expect otherwise, and the model does the same:

- An id is generated when an empty id token arrives, or when a pattern token arrives with no id pending. It is not generated when the entry is committed.
- A separator clears only the pending id. The replacement text of one entry therefore stays pending into the next (`Catalog.ReplacementCarriesOver`).
- The loop of `replace_file` runs until a read returns no bytes, not until a short read.
- `get_outfile_name` ignores the result of `mkpath`. A directory that cannot be created does not stop the file.
- An absolute input path whose only `/` is its first character keeps that `/`, so the name holds `//` (`OutputPath.OutfileRootFile`).
- The match parameters hold no last match position.

## Model

| member | source | states |
|---|---|---|
| Common.ByteStrlen | multifast/strmm.c:91 | `strlen`: the index of the first 0 byte (or the whole length), with no 0 before it |
| Case.ToLower | multifast/multifast.c:375 | only `A`..`Z` change, each to the letter 32 above it |
| Case.LowerAllAt | multifast/multifast.c:371-376 | folding keeps the length and maps every byte independently with `ToLower` |
| Case.LowerAllHasNoUpper | multifast/multifast.c:371-376 | no upper-case letter is left after folding |
| Case.LowerAllIdempotent | multifast/multifast.c:371-376 | folding twice is the same as folding once |
| Case.LowerAllAppend | multifast/multifast.c:371-376 | folding distributes over concatenation, so folding window by window folds the whole input |
| Case.LowerCase | multifast/multifast.c:371-376 | the first `l` bytes become their folded form in place; the rest of the buffer is untouched |
| Arena.Place | multifast/strmm.c:53-82 | refused iff `len + 1 > 4096`; an entry that fits goes at the old cursor, which moves by `len + 1`; otherwise it goes at offset 0 of exactly one new chunk; the directory grows by 40 only when full; the cursor invariant holds; filled entries stay filled and are disjoint from the new one |
| Arena.PlaceAllDisjoint | multifast/strmm.c:53-82 | over any run of adds, exactly the oversized ones are refused; the handed-out entries are pairwise disjoint, lie in the filled part and never overlap what was filled before |
| Arena.StringArena.constructor | multifast/strmm.c:38-47 | one chunk; cursor at chunk 0, offset 0; directory capacity 40; no entries |
| Arena.StringArena.Add | multifast/strmm.c:53-82 | NULL iff `len + 1 > 4096`, and then nothing changes; otherwise the entry is where `Place` says, holds the bytes and a 0 terminator, and every earlier entry keeps its bytes; chunks never move |
| Arena.StringArena.OpenChunk | multifast/strmm.c:62-71 | `last_chunk` rises by one, `last_pos` is 0, a fresh chunk is appended, `max_chunk` grows by 40 exactly when the directory was full |
| Arena.StringArena.CopyAtCursor | multifast/strmm.c:74-80 | the bytes and a 0 go at the cursor, which moves by `len + 1`; earlier entries keep their bytes |
| Arena.StringArena.AddStrId | multifast/strmm.c:88-116 | the placement and failure rules of `Add`, with `strlen` of the id as the length |
| Arena.StringArena.Release | multifast/strmm.c:122-129 | no chunk and no entry remain |
| Catalog.Digits | multifast/pattern.c:268 | `%d` of the counter gives at least one byte, all decimal digits |
| Catalog.GenId | multifast/pattern.c:268 | the id is `p` followed by at least six digits, none of them a 0 byte |
| Catalog.GenIdRoundTrip | multifast/pattern.c:266-268 | the counter value can be read back from the id it produced |
| Catalog.GenIdInjective | multifast/pattern.c:266-268 | different counter values give different ids |
| Catalog.GenIdLength | multifast/pattern.c:268 | up to 999999 every id is exactly seven bytes |
| Catalog.Hex2 | multifast/pattern.c:244-245 | `%02x` gives exactly two characters, both lower-case hex digits (`0`-`9`, `a`-`f`), which denote the byte |
| Catalog.DisplayPlain | multifast/pattern.c:228-257 | with no unprintable byte among the first 80: braces around the first min(len, 80) bytes verbatim, then `...` iff the length exceeds 80 |
| Catalog.DisplayHex | multifast/pattern.c:228-257 | with an unprintable byte among the first 80: braces around the body; each shown byte as two lower-case hex digits that denote it, single spaces between the pairs, and `...` iff the length exceeds 80 |
| Catalog.GeneratedId | multifast/pattern.c:263-270 | the counter rises by one; the pending id is `GenId` of the old counter, copied into the arena, or NULL when the arena refuses it; nothing else changes |
| Catalog.StepEffect | multifast/pattern.c:77-135 | a record is offered iff a separator or EOF follows a pattern or a replacement; loading halts iff error or EOF; it exits iff a pattern or replacement text does not fit a chunk; `last_type` follows every token but end-of-buffer; the arena is append-only |
| Catalog.StepPending | multifast/pattern.c:82-116 | a separator clears only the id; the counter rises, and the id is `GenId` of the old counter, iff the id token is empty or a pattern arrives with no id; a non-empty id is kept up to its NUL; pattern text is folded in case-insensitive mode and replacement text never is; no other token touches the texts |
| Catalog.Run | multifast/pattern.c:71-148 | the load succeeds iff the last token processed was EOF (when it did not exit); records and copies are only appended; the counter never decreases |
| Catalog.RunAt | multifast/pattern.c:77-135 | the load from a token on goes on as the load after that token's step, or ends there with the step's state, as the step says |
| Catalog.ErrorEndsLoad | multifast/pattern.c:118-148 | tokens after an error token are never read, and the load fails |
| Catalog.EntryStep | multifast/pattern.c:82-109 | a pattern with no pending id, then a separator: one record is offered, with the generated id and the stored text |
| Catalog.SequentialIds | multifast/pattern.c:89-100 | entries that give only a pattern get the ids of successive counter values in file order, each with its own text, and the load succeeds |
| Catalog.FoldedPatterns | multifast/pattern.c:102-108 | in case-insensitive mode every offered record has pattern text without upper-case letters |
| Catalog.StepFolded | multifast/pattern.c:82-109 | one case-insensitive step keeps the pending pattern text folded and offers only folded records |
| Catalog.ReplacementCarriesOver | multifast/pattern.c:82-87 | an entry without a replacement is offered with the replacement of the entry before it |
| Catalog.Trie.constructor | multifast/pattern.c:68 | an empty, unfinalised trie |
| Catalog.Trie.Add | multifast/pattern.c:182 | the record is logged and the answer comes from the verdict function |
| Catalog.Trie.Finalize | multifast/pattern.c:151 | the trie is finalised; the records stay as they are |
| Catalog.PatternLoader.constructor | multifast/pattern.c:55-56 | `last_type` is ENTOK_NONE, `last_pattern` is zeroed and the id counter starts at 1 |
| Catalog.PatternLoader.GenRep | multifast/pattern.c:263-270 | the loader state moves as `WithGeneratedId` says |
| Catalog.PatternLoader.SetId | multifast/pattern.c:93-94 | the id is copied into the arena up to its NUL and becomes the pending id, or the pending id is NULL when the arena refuses it; nothing else changes |
| Catalog.PatternLoader.MakeACopy | multifast/pattern.c:165-173 | the text is copied into the arena, or the program exits iff it does not fit a chunk |
| Catalog.PatternLoader.AddToAc | multifast/pattern.c:179-212 | returns 0 whatever the trie answers; the record is offered; the diagnostic matches the answer |
| Catalog.PatternLoader.Consume | multifast/pattern.c:77-135 | one token moves the loader state as `Step` says and reports how the loop goes on |
| Catalog.PatternLoader.ConsumeCommit | multifast/pattern.c:82-87 | separator or EOF: the pending record is offered if complete; `Step`'s state |
| Catalog.PatternLoader.ConsumeId | multifast/pattern.c:89-96 | id token: generated when empty, copied otherwise; `Step`'s state |
| Catalog.PatternLoader.ConsumePattern | multifast/pattern.c:98-109 | pattern token: `Step`'s state and progress |
| Catalog.PatternLoader.ConsumeReplacement | multifast/pattern.c:111-116 | replacement token: `Step`'s state and progress |
| Catalog.PatternLoader.Load | multifast/pattern.c:49-159 | an unreadable file fails and changes nothing; otherwise the loader ends in `Run`'s state from fresh arena and trie (the statics kept), with `Run`'s status, and the trie is finalised iff the load succeeded |
| Catalog.PatternLoader.Init | multifast/pattern.c:64-68 | a fresh arena and trie; the statics are kept |
| Catalog.PatternLoader.Advance | multifast/pattern.c:77-135 | one pass of the loop: the rest of the load from the new state, or its end, is what the load from the old state says |
| Catalog.PatternLoader.Feed | multifast/pattern.c:71-148 | the token loop and the final check end in `Run`'s state and status |
| Catalog.Folded | multifast/pattern.c:102-103 | the text folded in a buffer is `LowerAll` of the token |
| Driver.Normalize | multifast/multifast.c:120-126 | at least one field is shown; chosen toggles stay as they are; with none chosen, exactly decimal start and pattern are shown |
| Driver.Start | multifast/multifast.c:57-133 | usage exit iff fewer than 4 words, no pattern file or no input; the `-l` exit iff lazy replace outside replace mode; otherwise the normalised configuration |
| Driver.StartOffset | multifast/multifast.c:519 | `position - length + 1` modulo 2^64; the plain difference whenever it is not negative |
| Driver.AsLong | multifast/multifast.c:519 | the `%ld` reading is the signed 64-bit value congruent to the unsigned one |
| Driver.DecimalStart | multifast/multifast.c:518-519 | the start position when it is in range; -1 when the pattern is one longer than the text read so far |
| Driver.HexStart | multifast/multifast.c:521-523 | the start position modulo 2^32 |
| Driver.LineFor | multifast/multifast.c:512-529 | each field is present iff its toggle is on: the file name, the item number, the decimal and hex start position of the pattern ending at the match position (`DecimalStart`, `HexStart`), the pattern's id and its `pattern_print` display |
| Driver.Lines | multifast/multifast.c:509-532 | one line per matched pattern, numbered on from the previous count modulo 2^64, each with that pattern's start positions, id and display when their toggles are on |
| Driver.MatchParam.constructor | multifast/multifast.c:209 | the zeroed static: no counts, no file name |
| Driver.MatchParam.Reset | multifast/multifast.c:226-229 | both counters 0 and the given file name |
| Driver.MatchParam.Handle | multifast/multifast.c:504-540 | the lines are `Lines`; `item` rises by the match size iff item numbers are shown; `total_match` rises by the match size (both modulo 2^64); returns stop iff find-first |
| OutputPath.FileSystem.Mkdir | multifast/multifast.c:402 | EEXIST for an existing path, failure for a refused one; otherwise the directory is created |
| OutputPath.NextStop | multifast/multifast.c:390-393 | the scan stops at the next `/` after the current position, or at the end |
| OutputPath.Stops | multifast/multifast.c:387-410 | the stops are `/` positions or the end, in increasing order |
| OutputPath.StopsComplete | multifast/multifast.c:387-410 | every `/` after the first character, and the end, is a stop |
| OutputPath.TargetsAtStops | multifast/multifast.c:396-402 | mkdir is asked for exactly the prefixes ending at the stops |
| OutputPath.MkdirAll | multifast/multifast.c:387-412 | returns 0 or -1; only targets are created; 0 iff no missing target is refused, and then every target exists |
| OutputPath.MkdirAllResult | multifast/multifast.c:396-410 | on success every target exists and nothing else is created; on -1 the walk stopped at the first missing, refused target and exactly the targets before it were created |
| OutputPath.MkdirAllExisting | multifast/multifast.c:402 | over existing directories the walk returns 0 and creates nothing |
| OutputPath.MkdirAllIdempotent | multifast/multifast.c:382-413 | a second mkpath after a successful one returns 0 and creates nothing |
| OutputPath.NextStopIs | multifast/multifast.c:393 | the inner scan stops at the first `/` or NUL after the current position |
| OutputPath.MkPath | multifast/multifast.c:382-413 | the path is restored on every return; the result and the created directories are those of `MkdirAll` over the path's prefixes |
| OutputPath.LastSlash | multifast/multifast.c:460 | `rindex`: the last `/`, or none when there is none |
| OutputPath.WithSlash | multifast/multifast.c:454-458 | the directory with exactly one `/` added when it lacks one at its end |
| OutputPath.OutfileName | multifast/multifast.c:430-434 | NULL iff the directory is NULL, empty or `-`, or the input path is empty |
| OutputPath.OutfileRelative | multifast/multifast.c:454-480 | a relative input path is placed under the directory, with a `/` ensured between them |
| OutputPath.OutfileAbsolute | multifast/multifast.c:460-480 | an absolute input path with a directory part loses its leading `/` |
| OutputPath.OutfileRootFile | multifast/multifast.c:479 | an absolute input path with no other `/` keeps its `/`, giving `//` in the name |
| OutputPath.GrownSize | multifast/multifast.c:446-451 | the size never shrinks; after growth it is a multiple of 1024 strictly greater than `pathlen` |
| OutputPath.AsWrittenOverflows | multifast/multifast.c:444 | with the original `pathlen` and a buffer of exactly that size, a relative name under a directory without a trailing `/` needs more bytes than the buffer has |
| OutputPath.AsWrittenOverflowExample | multifast/multifast.c:444 | directory `o` and a 1022-byte name: `pathlen` is 1024, the buffer stays 1024 and the name needs 1025 |
| OutputPath.NameFits | multifast/multifast.c:444-457 | with `pathlen` counting the added `/`, the grown buffer always holds the name |
| OutputPath.CorrectedGrowsEarlier | multifast/multifast.c:444-451 | under directory `o/` with a 1021-byte name, the source's 1024 bytes hold the 1024-byte name while the corrected `pathlen` grows the buffer to 2048 |
| OutputPath.Append | multifast/multifast.c:454 | the bytes go after the existing ones, and a NUL goes at the new end |
| OutputPath.NamePartsNoNul | multifast/multifast.c:454-479 | the composed pieces hold no NUL |
| OutputPath.ComposeInto | multifast/multifast.c:453-480 | the buffer holds the composed name; mkpath ran on its directory part |
| OutputPath.WriteDirectory | multifast/multifast.c:453-467 | the buffer holds the directory with its `/` and the input's directory part |
| OutputPath.OutfileBuffer.constructor | multifast/multifast.c:423 | no buffer, `bufsize` 0 |
| OutputPath.OutfileBuffer.Reserve | multifast/multifast.c:438-451 | 1024 bytes on first use; grows as `GrownSize` says |
| OutputPath.OutfileBuffer.GetOutfileName | multifast/multifast.c:421-483 | the result is `OutfileName`; NULL changes nothing; the capacity never shrinks and equals `GrownSize` for the corrected `pathlen`; the buffer holds the name as a C string; the directories of the name were created; `pathlen` is the corrected one, with a byte for the added `/` |
| Streaming.Input.Read | multifast/multifast.c:235-242 | each read returns the next result; past the end it returns no bytes |
| Streaming.Automaton.Search | multifast/multifast.c:251-252 | the window and keep flag are logged; whether the loop stops comes from the callback |
| Streaming.Automaton.Replace | multifast/multifast.c:352-355 | the window and mode are logged; whether the loop stops comes from the callback |
| Streaming.Automaton.Flush | multifast/multifast.c:359 | one flush is logged |
| Streaming.StdinTestUsesFirstFile | multifast/multifast.c:216 | the stdin test on `input_files[0]` reads a named second file from stdin, and opens a file called `-` when `-` comes second |
| Streaming.SearchLoop | multifast/multifast.c:233-256 | returns 0 or -1; the log is only appended to |
| Streaming.SearchLoopShape | multifast/multifast.c:232-256 | on every input: call `i` searches the window of read `i`; every call but the last was a full 4096-byte window that did not stop the search; -1 iff the read after such a window fails; 0 after a short window or a stopping callback |
| Streaming.SearchKeep | multifast/multifast.c:232-256 | every call is a search; the first has keep 0 and every later one keep 1 |
| Streaming.SearchCoversFile | multifast/multifast.c:233-256 | with no stop, the windows, in order, make up the whole file (folded in case-insensitive mode) and the result is 0 |
| Streaming.FillWindow | multifast/multifast.c:235-248 | the buffer holds the bytes read, folded in case-insensitive mode |
| Streaming.SearchFile | multifast/multifast.c:204-261 | -1 and no call when the input cannot be opened; otherwise the calls and the result are `SearchLoop`'s from keep 0, and the match file name is NULL iff stdin is read; the stdin test is the corrected one, on the file being processed |
| Streaming.ReplaceLoop | multifast/multifast.c:328-357 | returns 0 or -1; only replace calls are appended |
| Streaming.ReplaceLoopShape | multifast/multifast.c:328-357 | on every input: call `i` replaces in the non-empty window of read `i`; no call but the last stopped the engine; -1 iff a read fails before a stop; 0 after a stopping call or an empty read, with no call after it |
| Streaming.FlushOnce | multifast/multifast.c:328-359 | on success the engine is flushed exactly once, as the last call; after a read error it is never flushed |
| Streaming.ReplaceCoversFile | multifast/multifast.c:328-357 | with no stop, the windows make up the whole file (folded in case-insensitive mode) and the loop returns 0 |
| Streaming.Outputs.Open | multifast/multifast.c:307-314 | opening succeeds iff the name is not refused, and then it is recorded |
| Streaming.ReplaceFile | multifast/multifast.c:267-365 | an input that cannot be opened or stat'ed, or that is a directory, gives -1 before any output is opened or any call made; a refused output gives -1 with no call; otherwise the output is opened (none for stdout) and the calls and result are the loop's followed by one flush; the stdin test is the corrected one, on the file being processed |

## Left out

- Input and output themselves are not modelled. This covers `open`, `read`, `write`, `close`, `fstat`, `stat`, `opendir` and `mkdir`. Each becomes a small class that replays given results or keeps a set or log.
- Permission modes are not modelled: the `st_mode` copied to a created output and the mode passed to `mkdir`. File descriptor leaks on error paths are not modelled either.
- The tokenizer (`reader_*`) is not part of this model. The pattern file arrives as the sequence of tokens it produces, with end-of-buffer tokens wherever a read buffer ended.
- The Aho-Corasick trie, `multifast_replace` and `multifast_rep_flush` are not part of this model.
  - They are seen through the calls they receive and through given answer functions.
  - Which matches a search reports, and so the calls `search_file` makes to `match_handler`, are not modelled; `Driver.MatchParam.Handle` models one such call.
- Streaming.SearchFile: states the reset file name but not the counters after the search, because they are changed by `match_handler` calls made inside the automaton, which is not modelled.
- `replace_listener` and the `uparm` it receives are not modelled. They write the engine's output to the output descriptor.
- `printf` output is modelled as values: the `Line` records of `match_handler`, the `Display` text of `pattern_print` and the `Diagnostic` of `pattern_addtoac`. Other messages, `print_usage` and the verbose messages of `main` are left out.
- `getopt` is not modelled. `Driver.Start` takes the configuration it produced and the argument count.
- The rest of `main` is not modelled, because it only calls the modelled operations and external library calls. This covers:
  - the empty-trie and no-replacement checks;
  - the directory test with `walker_find`, which is not part of this model;
  - the loops over input files;
  - the release calls.
- `pattern_release` is not modelled, because it only calls `strmm_release`.
- `malloc`, `realloc` and `free` are not modelled beyond the index model of the arena and the buffer size. `OutputPath.OutfileBuffer.Reserve` allocates a new array where the source reallocates, since the old contents are overwritten in full before use.
- The temporary NUL that `get_outfile_name` writes into its input path at the last `/` is not modelled. The name is composed from the two parts directly.
- Streaming.SearchFile: uses the corrected stdin test of the Findings row for multifast.c:216: standard input is read when the file being processed is `-`. The source tests `input_files[0]` instead (multifast.c:216), so for a list whose first name is `-` it reads every file from standard input, and it opens a file called `-` when `-` comes later.
- Streaming.ReplaceFile: uses the same corrected stdin test, where the source tests `input_files[0]` (multifast.c:281).
- OutputPath.OutfileBuffer.GetOutfileName: uses the corrected `pathlen` of the Findings row for multifast.c:444 (directory, input path and two more bytes). The buffer therefore sometimes grows where the source's does not: for directory `o/` and a 1021-byte relative name the source keeps 1024 bytes, which hold the name and its NUL, while the model grows to 2048 (`OutputPath.CorrectedGrowsEarlier`).
- Catalog.PatternLoader.GenRep: the counter is an unbounded `nat`. The source's `int` would overflow after 2^31 - 1 ids, which is not modelled.
- Driver.MatchParam.Handle: the loop index is unbounded. The source's `unsigned int j` would wrap for a match of 2^32 patterns or more, which is not modelled.
- `tolower` is the ASCII version of the C locale. Other locales are not modelled.
- The arena models stored strings as values inside the loader's records, not as pointers into the arena. The bytes behind every handle are proved to equal the record's text when they are copied.

## Findings

| source | as written | input that shows it | evidently intended | confidence | as-written member | corrected member |
|---|---|---|---|---|---|---|
| multifast/multifast.c:444 | `pathlen = dirlen + strlen(inpath) + 1` leaves no room for the `/` added at lines 455-457; a buffer exactly `pathlen` bytes long is not grown | output directory `o` (no trailing `/`) and a relative input name of 1022 bytes: `pathlen` is 1024, the buffer stays 1024 bytes and the name with its NUL needs 1025 | count the separator: `pathlen = dirlen + strlen(inpath) + 2` | high, not executed | OutputPath.AsWrittenOverflowExample | OutputPath.NameFits |
| multifast/multifast.c:216 | the stdin test compares `config.input_files[0]` with `-`, whichever file is being processed (also line 281) | arguments `- a.txt`: `a.txt` is read from standard input as well; arguments `a.txt -`: a file named `-` is opened | compare the file being processed with `-` | high, not executed | Streaming.StdinTestUsesFirstFile | Streaming.SearchFile |
