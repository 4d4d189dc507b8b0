# capwap core: configuration reader, region allocator, growable array

A Dafny model of the core of the `capwap` server: the reader of configuration files, the region
allocator it takes its memory from, the growable array that lives in those regions, and two small
supporting files. The three main parts are tied together: the words of a directive are bytes in a
pool, and the list of words is an array that grows in the same pool while those words are stored.

`dafny verify dfyconfig.toml` verifies the whole project.

## How the parts fit

Each stateful part is written twice. A pure form says what the code means, and properties are proved
about it. A class with the fields of the C structure, updated step by step as the C code does, is
proved to compute exactly that pure form.

| part | pure form | imperative form |
|---|---|---|
| tokens | `ConfEscape`, `ConfScan`, `ConfPrint`, `ConfEdits`, `ConfSpelling`, `ConfShape`, `ConfReports` | `ConfReader` (buffer, refill, flags), `ConfArgs` (decoding into memory), `Files` |
| parser and dispatch | `ConfGrammar`, `ConfCommands`, `CycleModel` | `ConfDispatch`, `ConfDriver`, `Cycle` |
| pool | `PoolModel`, `PoolSafety`, `PoolWindow`, `PoolConserve`, `PoolTail`, `PoolRoom`, `PoolRuns`, `RoomRuns`, `PoolBounds`, `MachineWords` | `PoolImpl` (linked blocks, linked large records), `PoolRequests` |
| array | `ArrayModel`, `ArrayRoom`, `ArgModel` | `ArrayImpl` |
| strings | `Strings` (value, decimal printing) | `Strings` (`Atoi`, `Cpystrn`) |

The scanner (`ConfScan.Step`) takes one byte at a time and keeps the bytes from the C variable
`start` on as a sequence, `held`; it knows no buffer. `ConfScan.Source` carries the buffer size as a
limit on `held`, or no limit for the `-g` parameter. `ConfReader.Reader` has the buffer as an array of
any size of at least one byte, moves and refills it in place, and is proved to return what the
scanner returns.

Handlers of directives are functions over a configuration of any type (`ConfGrammar.Handlers`): a
handler refuses a directive, or is done with it and leaves a changed configuration, or changes it,
calls `cw_conf_parse(cf, NULL)` for its block, and goes on from what the block has left. The two
commands the program itself defines, `worker_processes` and `http`, are one instance
(`ConfCommands.Program`): their configuration is the slots of `cf->ctx`, and they read and write it
through the third argument the dispatcher passes them.

The pool model takes addresses as integers below 2^64 with `size_t` subtraction that wraps. The host
allocator may refuse any request, and otherwise grants any unused 16-aligned range; `Grants` are its
answers. `PoolModel.Inv` is the safety invariant, `PoolModel.Sys.live` lists the ranges handed out.
`PoolRuns` runs any sequence of allocations, array creations, pushes, writes by the owners of ranges,
array destructions, and grants and frees of other clients of the host, for any number of arrays at once.

Failures outside the code are counted in ghost fields: `Host.refused`, `File.failed`, `Os.failed`. A
method reports such a failure if and only if one of them has grown: a contract cannot be met by giving
up, and no refused request, short read or failed close goes unnoticed.

## Points where the code is subtle

* White space and comments count towards the 4096-byte limit, because `start` is not moved over them.
  The scanner keeps them in `held`, and `ConfScan.OverlongExactly` says when the limit strikes. So
  blanks put in between two words may make a text too long: `ConfEdits.EditMeetsLimit` says when.
* A `$` as the first byte of a word takes the default branch and does not set `variable`, so a `{`
  right behind it still opens a block. `)` right behind a closing quote starts a new word.
* The fit test `(size_t) (d.end - m) >= size` wraps if aligning `d.last` passes `d.end`. For a pool
  just created, of any size its header fits in, `PoolBounds.AlignedSizeExactly` shows that no run of
  requests ever gets an address outside the block exactly when the size is a multiple of
  `CW_ALIGNMENT`; for every other size `PoolBounds.UnalignedPoolOverruns` gives the run that does:
  `cw_pnalloc(pool, 1)` until the block is full, then `cw_palloc(pool, 1)`, then `cw_pnalloc(pool, 1)`.
  The last call, if not the one before it, returns an address behind `d.end`; or address 1, if the
  block ends so near the top of the address space that `cw_align_ptr` wraps and the aligned call
  returns NULL. Every size the program passes is a multiple.
* The program's own block directive, `http`, returns without parsing its block. So `http { }` is
  refused at its closing brace, and `http {` with nothing behind it is accepted.
  `ConfCommands.AcceptedExactly` says which texts the program accepts: its directives, each at most
  once, and no closing brace anywhere. What the `-g` parameter has set the file cannot set again
  (`ConfCommands.SetOnceInBoth`). All this about `http` holds for a build that puts `cw_http_module`
  into `cw_modules`; the build files in the repository do not (auto/sources:6, auto/modules:15-17).
  The parameter `http` of `ConfCommands.Program` says which build it is; without the module `http`
  is an unknown directive.
* `cw_init_cycle` returns without destroying the pool when there is no memory for `cycle->modules`.
  `Cycle.ReadConfiguration` shows that the pool stays behind if and only if the host grants it, the
  cycle, its contexts and the file name are served, and the request for `cycle->modules` gets NULL
  (`CycleModel.Leaks`, a condition on the host's answers alone); after every other failure the host
  holds what it held before. `CycleModel.LeakHappens` gives answers that do it.
* `cw_array_destroy` gives a range back only where it ends at `d.last` of the first block. With an
  alignment of 8 an array made and destroyed leaves that block as it was but for the rounding; with an
  alignment of 16 the record of 40 bytes stays, because the elements begin 8 bytes behind it
  (`ArrayRoom.DestroyGivesBack`).
* The round trip of a printed tree fails for words whose printed form reaches the buffer limit.
  `ConfGrammar.TreeRoundTrip` says exactly when it holds: if every printed word fits and the handlers
  follow the tree, it comes back; otherwise it does not, and handlers that parse a block exactly when
  there is one make the driver reject the text. Without a limit every word fits
  (`ConfGrammar.ParamFits`).
* `cw_conf_param` leaves `cf->conf_file` alone for an empty parameter and sets it to NULL otherwise.
  `cw_conf_parse` restores it.
* The branch of `cw_palloc_large` that reuses a record with `alloc == NULL` is modelled although
  nothing in the repository clears `alloc`.

## Model

| member | source | states |
|---|---|---|
| ConfScan.ScanToken | src/core/cw_conf_file.c:277-543 | the unbuffered scanner never gains bytes, and a token that ends a directive or a block consumes at least one, so tokenizing any finite input ends |
| ConfScan.StepKeepsWf | src/core/cw_conf_file.c:350-484 | the invariant of the flags at every loop head: never both quotes, `need_space` and `last_space` never together, a comment only between words, and inside a word every backslash paired but possibly the last; a stop carries arguments exactly as its code demands |
| ConfScan.TokenContract | src/core/cw_conf_file.c:281-294 | for every input: a directive or block start has at least one argument, a block end or file end has none, and the end of the file is reported only when no byte is left |
| ConfScan.LimitOnlyRejects | src/core/cw_conf_file.c:297-315 | for every input and buffer size the limited scan reports "too long" or returns what the unlimited scan returns |
| ConfScan.OverlongExactly | src/core/cw_conf_file.c:297-315 | "too long" is reported exactly when at some loop head the held bytes fill the buffer while bytes remain unread; no chunk boundary enters the condition |
| ConfEscape.PairedSnoc | src/core/cw_conf_file.c:455-458 | a backslash read in a word with all backslashes paired leaves one waiting, any other byte leaves none |
| ConfEscape.PairedButOneThen | src/core/cw_conf_file.c:362-365 | the byte behind a waiting backslash, whatever it is, completes the pair |
| ConfEscape.UnescapeAppend | src/core/cw_conf_file.c:497-527 | decoding goes piece by piece: behind text with all backslashes paired, the rest is decoded on its own |
| ConfEscape.PieceMeans | src/core/cw_conf_file.c:501-526 | what each piece stands for, in numbers: 110, 114 and 116 behind a backslash are 10, 13 and 9, the two quotes and the backslash are themselves, any other byte keeps its backslash, and a byte without one is itself |
| ConfEscape.UnescapeEscape | src/core/cw_conf_file.c:497-527 | decoding undoes quoting for every byte string, with line feeds, carriage returns, tabs, quotes and backslashes written as escapes, and quoted text has its backslashes paired |
| ConfPrint.TokenRoundTrip | src/core/cw_conf_file.c:362-541 | for every non-empty list of byte strings, printed with all escapes and a terminator, behind any white space and comments and before any further text, one call returns exactly those arguments, that terminator, the right line and the text behind, if every word and the blanks stay below the buffer limit, and "too long" otherwise |
| ConfSpelling.BareRun | src/core/cw_conf_file.c:392-484 | every bare word, with escapes inside, and with `{` where the code lets it follow a `$`, is held whole between words or, if it begins with `)`, behind a closing quote; and it tells whether a `{` behind it would still belong to it |
| ConfSpelling.QuotesRun | src/core/cw_conf_file.c:432-477 | every text between quotes of either kind, in which the closing quote occurs only escaped, is one word, over at its closing quote |
| ConfSpelling.SpelledDirective | src/core/cw_conf_file.c:277-541 | a directive in any of its written forms (blanks, words bare or quoted, white space and comments between them, none needed before the terminator nor between a closing quote and `)`) is read as exactly the words it stands for, at the right line and up to its terminator, if the longest stretch held stays below the buffer limit, and is reported as too long otherwise |
| ConfSpelling.UnderLimit | src/core/cw_conf_file.c:297-315 | any text passes under a buffer limit exactly when the most bytes held at a loop head, without a limit, is below it |
| ConfShape.StepTold | src/core/cw_conf_file.c:350-541 | at every loop head the text read so far is the beginning of a written form, and a byte that ends a directive completes one |
| ConfShape.DirectiveExactly | src/core/cw_conf_file.c:277-541 | the grammar of directives: a call reports a directive with these arguments, this terminator and this text left if and only if the text is one of the written forms of it and stays below the limit |
| ConfShape.ClosingExactly | src/core/cw_conf_file.c:415-421 | the end of a block is reported if and only if only white space and comments, below the limit, precede a `}` |
| ConfShape.EndExactly | src/core/cw_conf_file.c:281-294 | the end of the file is reported if and only if only white space and comments are left, the last comment ended or not, and all but their last byte stay below the limit |
| ConfReports.LineOfToken | src/core/cw_conf_file.c:297-345 | the line of every token and error is that of the last byte read; that of "too long" counts the line feeds before the bytes that fill the buffer, for every buffer size |
| ConfReports.ReasonOfError | src/core/cw_conf_file.c:281-315 | an unexpected byte is the last byte read, an unexpected end names file or parameter and leaves nothing unread, and a text cut off at the limit reports a missing quote exactly when the bytes that fill the buffer are within that quote |
| ConfGrammar.CallIsStackFrame | src/core/cw_conf_file.c:133-220 | every recursive call, for any handlers with any state, consumes exactly its own tokens: it agrees with a one-pass walk that keeps the waiting handlers on a stack |
| ConfGrammar.ParseIsWalk | src/core/cw_conf_file.c:158-220 | parsing a file or a parameter succeeds if and only if its tokens are nested as the handlers ask for and each handler, given the configuration the earlier ones have left, takes its directive; the configuration it leaves is that of the walk; in a parameter every block is rejected |
| ConfGrammar.EventsInOrder | src/core/cw_conf_file.c:141-220 | handlers that write down all that happens are called in the order of the text, each with what the ones before it have left; the rest of a handler runs at the end of its own block and still knows its arguments and what was there before |
| ConfGrammar.ParseIsBalanced | src/core/cw_conf_file.c:158-184 | with handlers that take everything and parse every block, a file parses exactly when its braces match by counting and no token is an error |
| ConfGrammar.NoBlockToClose | src/core/cw_conf_file.c:158-184 | with handlers that parse no block, any closing brace makes the parse fail |
| ConfGrammar.SameTokensSameTree | src/core/cw_conf_file.c:141-220 | tree and configuration are functions of the token sequence alone, for any handlers with any state |
| ConfGrammar.TokensShape | src/core/cw_conf_file.c:281-294 | only the last token of a text is an error or the end of the file, and directives have names |
| ConfGrammar.PrintedTokens | src/core/cw_conf_file.c:277-541 | a printed tree of named directives, with arbitrary byte strings as arguments, has exactly the tokens of the tree, whatever handlers make of them |
| ConfGrammar.TreeRoundTrip | src/core/cw_conf_file.c:133-220 | print then parse gives back exactly the printed tree, and the configuration the handlers make of it one after the other, exactly when the handlers follow the tree and its words fit; otherwise it does not, and orderly handlers reject it |
| ConfGrammar.ParamFits | src/core/cw_conf_file.c:137-139 | in a parameter, which has no buffer limit, every tree fits |
| ConfEdits.EditKeepsTokens | src/core/cw_conf_file.c:350-425 | white space and whole comments put in or taken out between two words, anywhere in a text, leave the sequence of return codes and arguments as it was, unless one of the two texts meets the buffer limit; each ends with "too long" exactly when the most bytes it has held while bytes are to come, over all its tokens, reach the limit |
| ConfEdits.EditMeetsLimit | src/core/cw_conf_file.c:297-315 | a text below the limit stays below it, with blanks put in, if and only if the inserted blanks do, with what is held before them, and so does the white space behind them, with what is held from them |
| ConfEdits.EditKeepsTree | src/core/cw_conf_file.c:350-425 | so acceptance, tree and configuration stay as they were, for any handlers with any state, and without a limit there is no exception |
| ConfDispatch.SameNameIsEquality | src/core/cw_conf_file.c:567-573 | the length test with `strcmp` is equality against table names, also for words with a NUL inside |
| ConfDispatch.WhereApplies | src/core/cw_conf_file.c:563-587 | a command is for a directive of exactly its name, in the places its type has a bit in common with, and in a module of the type that is read or in a CONF module |
| ConfDispatch.ArityMeans | src/core/cw_conf_file.c:611-636 | how many parameters a command takes, off the bits of its type: any, exactly one, at least one, at least two, or those k whose bit k is set, up to seven |
| ConfCommands.TakeIsAnswered | src/core/cw.c:60-70 | the search through the program's tables, the checks, the third argument and the two setters together: `worker_processes` with one argument and `;` writes the number the word stands for into the record of the core module, `http` alone with `{` fills the slot of its own, each once, and nothing else happens |
| ConfCommands.AcceptedExactly | src/core/cw.c:161-187 | the program accepts a text, on top of what is set, if and only if it is a list of its directives, each at most once, with good numbers, and no block is ever closed |
| ConfCommands.ValueIsSet | src/core/cw.c:161-187 | an accepted text leaves the number that its one `worker_processes` asks for, the processors for `auto` and otherwise the decimal value, and `http` if and only if it is there or was set |
| ConfCommands.NumberIsSet | src/core/cw.c:174-180 | for every n up to 2147483647 the printed `worker_processes` n leaves n, and `auto` leaves the number of processors, in a file and in a parameter |
| ConfCommands.FillingTakesMemory | src/http/cw_http.c:51-56 | a directive that fills a slot asks the pool for three pointers of zeros, and no other asks for anything |
| ConfCommands.SetOnceInBoth | src/core/cw_cycle.c:102-112 | after an accepted `-g` parameter the file is accepted if and only if it is acceptable by itself and does not set `worker_processes` after the parameter has |
| ConfCommands.ClosedBlockIsRefused | src/http/cw_http.c:42-59 | a closing brace anywhere makes the program refuse the text, also that of `http { }`, because the setter parses no block |
| ConfCommands.PrintedBlockIsRefused | src/http/cw_http.c:42-59 | so every printed tree with a block is refused |
| ConfCommands.OpenBlockIsAccepted | src/http/cw_http.c:42-59 | but `http {` with nothing to close it is accepted, unless http is set already |
| ConfDispatch.JudgeCommand | src/core/cw_conf_file.c:589-652 | a found command is called exactly when its terminator and its arity are right, and otherwise fails for the terminator first and the arity next; the setter gets what the slot of the module holds, the address of that slot, what stands one step further, or NULL, as the type says |
| ConfDispatch.Handle | src/core/cw_conf_file.c:554-677 | the first command in module and command order that matches name, module type and place decides alone; with none, the answer is "not allowed here" if the name is known anywhere and "unknown" if not |
| ConfReader.Reader.OpenFile | src/core/cw_conf_file.c:98-115 | a reader just opened has the whole file before it, and knows where its buffer has been lent |
| ConfReader.Reader.OpenParam | src/core/cw_conf_file.c:36-51 | a reader over a parameter has the whole parameter before it |
| ConfReader.Reader.Refill | src/core/cw_conf_file.c:317-341 | only into memory that the host has lent, as much as the buffer is long: the held bytes move to the front, at least one byte arrives, and neither the held nor the unread bytes change; it fails if and only if a read failed or fell short |
| ConfReader.Reader.Fill | src/core/cw_conf_file.c:279-341 | at a used-up buffer the reader stops as the scanner does at the end of the source or at the limit, or has the held bytes in front and at least one more |
| ConfReader.Reader.Fetch | src/core/cw_conf_file.c:279-348 | the head of the loop hands out the next byte with the held bytes kept, or stops exactly as the scanner does at the end of the source or at the limit |
| ConfReader.Before | src/core/cw_conf_file.c:350-390 | the first part of a turn is the scanner's step, or leaves the byte to one of its two other parts |
| ConfReader.StartAWord | src/core/cw_conf_file.c:423-446 | the switch on the first byte of a word moves `start` and the flags as the scanner does |
| ConfReader.OutsideWord | src/core/cw_conf_file.c:392-446 | the branch for `last_space` is the scanner's step between words |
| ConfReader.InsideAWord | src/core/cw_conf_file.c:448-484 | the branch inside a word is the scanner's step, and `found` tells that a word has ended |
| ConfReader.Reader.Turn | src/core/cw_conf_file.c:277-541 | one turn of the loop consumes a byte and leaves the scan of the unread bytes with the same outcome; a word that ends has its backslashes paired |
| ConfReader.Reader.Round | src/core/cw_conf_file.c:277-541 | one turn with the word that may end in it: the list in memory holds the words so far and the rest of the scan is as before, or the token is the scanner's |
| ConfReader.Reader.ReadToken | src/core/cw_conf_file.c:248-543 | for every file and every buffer of at least one byte, call after call, the sliding-buffer tokenizer returns the code, the line and the arguments of the unbuffered scanner and leaves the same bytes unread; the arguments are read back from memory; it reports a fault only if the host refused memory or a read failed |
| ConfArgs.ArgList.DecodeOne | src/core/cw_conf_file.c:501-526 | one turn of the escape loop writes one byte, takes one or two, never passes the end of the word, and agrees with a decoder that takes whole pairs |
| ConfArgs.ArgList.Decode | src/core/cw_conf_file.c:497-529 | the loop stops exactly at the end of the word, has written the decoded bytes and a NUL inside the room allocated, and `len` is the number of bytes written |
| ConfArgs.ArgList.WriteBytes | src/core/cw_conf_file.c:492-529 | the writes of one word leave the earlier words readable and the new one behind them |
| ConfArgs.ArgList.WriteWord | src/core/cw_conf_file.c:492-529 | the same with the request to the pool, which may add a block or a chunk |
| ConfArgs.ArgList.AddWord | src/core/cw_conf_file.c:486-529 | the same with the push that may grow the array in place or move it |
| ConfArgs.ArgList.PushWord | src/core/cw_conf_file.c:486-529 | for any number of words: after a word ends, the list in memory holds the old words and the decoded new one, unless the host refused memory |
| ConfArgs.ArgList.Reset | src/core/cw_conf_file.c:269 | every token starts with an empty list, and the pool and its memory are as they were |
| ConfArgs.ArgList.Read | src/core/cw_conf_file.c:548-555 | a handler that reads `args->elts` sees exactly the decoded words |
| ConfArgs.ArgList.Take | src/http/cw_http.c:51-54 | the requests a handler makes to the pool between two tokens: pool and memory are what the run of these requests makes of them, every word of the directive stays readable, and it fails if and only if the host refused |
| ArgModel.WordsStay | src/core/cw_palloc.c:170-181 | a later request to the same pool, and its zeroing, leave every argument as it was |
| ArgModel.WordPushed | src/core/cw_conf_file.c:486-529 | after the push, the allocation and the writes, every argument still denotes its word and the new one is last, wherever array and bytes lie in the pool |
| ArgModel.ValueOfLittleEndian | src/core/cw_string.h:7-10 | the length and address fields of a `cw_str_t` read back what was written |
| ConfDriver.Conf.Answer | src/core/cw_conf_file.c:188-215 | a directive is answered by the custom handler, which is given no block, or by the setter of the first command that applies, given its slot and the configuration so far; a handler that answers has got all the memory it asks for, and one that gets none fails |
| ConfDriver.CustomDecides | src/core/cw_conf_file.c:186-213 | while a custom handler is in place it alone decides, directive by directive, whatever the tables hold, and no text with a brace is accepted |
| ConfDriver.Conf.NextDirective | src/core/cw_conf_file.c:141-186 | one turn of the loop up to the handler is one unfolding of the recursive parse, in all three modes |
| ConfDriver.Conf.RunHandler | src/core/cw_conf_file.c:188-219 | one directive with its handler, which may call `cw_conf_parse(cf, NULL)` and go on after that, leaves the parse with the same outcome still to come |
| ConfDriver.Conf.Leave | src/core/cw_conf_file.c:653-665 | the rest of a handler that has parsed a block decides with what it knew before and what the block has left |
| ConfDriver.Conf.ParseTokens | src/core/cw_conf_file.c:141-220 | the loop ends and returns the outcome, the configuration, the line and the unread bytes of the recursive parse, for any handlers with any state, unless memory or the file failed |
| ConfDriver.Conf.ParseBuffered | src/core/cw_conf_file.c:100-231 | 4096 bytes are asked for at the host the pool uses too and given back; if they are refused nothing is read and the call fails; in between the file is parsed as the recursive parse does |
| ConfDriver.Conf.ParseFile | src/core/cw_conf_file.c:79-245 | outcome and configuration are those of parsing the whole file; on every way out the buffer is back with the host the pool uses too, the descriptor is closed and `cf->conf_file` is what it was; it fails besides that if and only if the system or the host failed, also if only the close failed |
| ConfDriver.Conf.ParseParam | src/core/cw_conf_file.c:22-58 | outcome and configuration are those of parsing the parameter without a limit and without blocks; its bytes are unchanged; `cf->conf_file` is NULL afterwards unless the parameter was empty |
| Cycle.FillPool | src/core/cw_cycle.c:35-87 | in a pool just created the requests are made one after the other as the model has them, each with the answers of the host so far; where it stops is a function of those answers |
| Cycle.SetUp | src/core/cw_cycle.c:35-80 | the six requests before the argument list are made in order, with the sizes and alignments of the code, up to the first that gets NULL; which one that is follows from the host's answers; when all are served the records read zero, the file name is there with its NUL, and all but the name is aligned |
| Cycle.CreateArgs | src/core/cw_cycle.c:29-87 | how far it gets is a function of the host's answers; a pool with all that is taken from it and an empty argument list, or the host as it was, but for the pool left behind at `cycle->modules` |
| Cycle.DestroyPools | src/core/cw_cycle.c:8-13 | both pools go, and the host is left with what was never theirs |
| Cycle.ReadConfiguration | src/core/cw_cycle.c:29-112 | success only with the configuration that the `-g` parameter and then the file make, for any handlers with any state, the file being opened only after the parameter is accepted, and only if the host has granted the buffer too; failure if and only if one of them is rejected or the host or the system failed; after a success the host holds the two pools more than before; after a failure exactly what it held before, unless the host grants the pool and the first three requests and refuses the fourth, and then the pool, as those answers have made it, and nothing else is left |
| CycleModel.LeaksExactly | src/core/cw_cycle.c:61-63 | for all answers the host may give: the call gives up at `cycle->modules` exactly when the pool and the first three requests are served and the fourth gets NULL |
| CycleModel.LeakHappens | src/core/cw_cycle.c:35-63 | such answers exist: one pool, one chunk for the contexts, then nothing, on any host with room for them and for any file name up to a thousand bytes |
| CycleModel.SetUpReads | src/core/cw_cycle.c:35-80 | whatever the answers, when all six requests are served the memory of the cycle, its contexts, the module list and the core record still reads zero, and the copy of the name is the name |
| PoolRequests.ProgressOne | src/core/cw_cycle.c:35-80 | making requests one at a time leads to the same pool and the same memory as the run over all of them, and stops at the first NULL |
| PoolRequests.ServedReads | src/core/cw_palloc.c:170-181 | what was written into memory when it was handed out, zeros or a string, is still there after any later requests |
| PoolRequests.ServedAligned | src/core/cw_palloc.c:86-93 | memory from `cw_palloc` or `cw_pcalloc`, small or large, begins at a multiple of 8 |
| PoolRequests.Serve | src/core/cw_palloc.c:130-181 | one request to the linked pool and the write that goes with it are the model's, and fail if and only if the host refused |
| Files.File.Read | src/os/unix/cw_files.c:4-49 | what arrives comes from the offset asked for, and a seek is made exactly when the cached position differs; on every error path the cache is right or untouched |
| Files.File.ReadNext | src/os/unix/cw_files.c:26-46 | from a file just opened, with any value in `sys_offset`, every successful read delivers the bytes right behind the ones before it, with no gap and no repeat, and after the first no seek is made |
| MachineWords.MaskIsAlignPtr | src/core/cw_config.h:31-33 | `cw_align_ptr`, bit by bit on 64-bit words, is the rounding of the model for every address; where its sum wraps both are 0 |
| PoolSafety.CandidateIsMask | src/core/cw_palloc.c:151-155 | for every block the address tried is the word the code computes, also where it wraps |
| PoolSafety.HeaderIsMask | src/core/cw_palloc.c:115-116 | behind the header of a block just granted the rounding never wraps, and is that word |
| PoolBounds.AlignedSizeExactly | src/core/cw_palloc.c:151-161 | a pool just created, of any size its header fits in and anywhere in the address space, never hands out an address outside a block, whatever is asked and whatever the host answers, if and only if its size is a multiple of the alignment |
| PoolBounds.UnalignedPoolOverruns | src/core/cw_palloc.c:142-168 | for every size that is no multiple, and every grant, the run that fills the block byte by byte, asks for one aligned byte and then for one more gets an address outside the block: behind `d.end`, or address 1 where the alignment wraps |
| PoolSafety.FitTestExact | src/core/cw_palloc.c:151-161 | in every reachable pool the wrapping fit test accepts exactly the requests that fit |
| PoolSafety.FreshBlockFits | src/core/cw_palloc.c:111-117 | every request up to `max`, and a large record, fits a new block behind its shorter header, aligned |
| PoolSafety.NewBlockSafe | src/core/cw_palloc.c:95-128 | a new block keeps the invariant: ranges apart, inside payloads, aligned, host ranges owned once |
| PoolSafety.PallocSmallSafe | src/core/cw_palloc.c:142-168 | a small allocation keeps the invariant, hands out a new range and is aligned if asked, also after unaligned ones |
| PoolSafety.PallocLargeSafe | src/core/cw_palloc.c:183-219 | the same for a large one, with its record from the pool, a record reused, or the chunk given back |
| PoolSafety.PallocSafe | src/core/cw_palloc.c:86-140 | every request, served or not, keeps the invariant and every range handed out before |
| PoolRoom.NextIsBehind | src/core/cw_palloc.c:142-168 | a range handed out in a new block or an old one is followed directly by the next unaligned one, whenever that fits and no block before it has room, and the host is not asked |
| PoolRoom.RoomIsUsed | src/core/cw_palloc.c:148-165 | a small request that fits behind the last range of a block in the window is served without the host |
| RoomRuns.RoomIsKept | src/core/cw_palloc.c:95-168 | the same after every run of allocations, arrays, writes, array destructions and other clients; in a block behind the first while nothing there has been given back |
| PoolRoom.SmallExactly | src/core/cw_palloc.c:86-93 | a request comes out of a block if and only if it is no longer than 1023 bytes and than an empty first block |
| PoolRoom.RecordsAreReused | src/core/cw_palloc.c:196-213 | a large request takes nothing from the blocks if and only if one of the first five records points to nothing, and otherwise one record |
| PoolWindow.MovedCurrentClosed | src/core/cw_palloc.c:119-125 | the walk from block k of L moves `current` to k + 1 exactly when k is the start of the window and L is at least 7, and otherwise not at all |
| PoolWindow.BlockKeepsWindow | src/core/cw_palloc.c:119-125 | with L blocks `current` is block max(0, L - 7), block i from there on has failed max(0, L - i - 2) times, and every earlier block stays at 6 |
| PoolWindow.PallocKeepsWindow | src/core/cw_palloc.c:86-168 | every allocation keeps that closed form |
| PoolConserve.PallocConserves | src/core/cw_palloc.c:86-219 | what the host holds beyond the pool never changes, also when a request fails half-way |
| PoolConserve.OthersKeepInv | src/core/cw_palloc.c:71-83 | nothing in a pool depends on host ranges it does not own: other clients may take and free theirs at any time |
| PoolConserve.CreatedOk | src/core/cw_palloc.c:9-34 | a new pool satisfies the invariant and the closed form, and owns exactly its block |
| PoolTail.TailIsInHead | src/core/cw_array.c:55-56 | a range whose end equals `d.last` of the head block really lies at the tail of that block |
| PoolTail.ResizeSafe | src/core/cw_array.c:63-64 | moving `d.last` for that range keeps the invariant |
| PoolTail.ReleaseSafe | src/core/cw_array.c:23-37 | giving a range back keeps the invariant, whether or not `d.last` moves |
| ArrayModel.PushIsOk | src/core/cw_array.c:40-84 | after a push the array is sound, its slot is the one behind the last element, other ranges are as they were, and a failed push changes nothing |
| ArrayModel.PushNIsOk | src/core/cw_array.c:87-134 | the same for n elements |
| ArrayModel.GrowthLeavesOthers | src/core/cw_array.c:55-80 | growth, in place or by moving, leaves another array of the pool where it is and as it is |
| ArrayModel.CopiesElementsOnly | src/core/cw_array.c:69-76 | a push writes nothing but the copy of the nelts elements, and that only if they move |
| ArrayRoom.TailGrowsInPlace | src/core/cw_array.c:55-66 | an array at the tail of the first block grows there push by push, never moves and asks the host for nothing, as long as the block has room |
| ArrayRoom.DestroyGivesBack | src/core/cw_array.c:23-37 | an array made in the first block and destroyed leaves the pool as it was, but for the rounding, and with an alignment of 16 for its record |
| ArrayRoom.RecordIsLeft | src/core/cw_array.c:5-20 | making an array takes 40 bytes for the record and then the room; without the room the record stays in the pool, without the record nothing has happened |
| PoolRuns.PushedFlat | src/core/cw_array.c:63-83 | the contents after a push and the caller's write are the old contents with the new bytes behind, whether the array stayed or moved |
| PoolRuns.PushLeavesOthers | src/core/cw_array.c:63-83 | every other array in the pool keeps its contents and its ranges |
| PoolRuns.PushAmortised | src/core/cw_array.c:47-78 | copied elements stay within the capacity gained, and capacity within max(first, 2 * nelts), over single pushes |
| PoolRuns.PushNAmortised | src/core/cw_array.c:97-128 | the same over pushes of n |
| PoolRuns.StepIsOk | src/core/cw_palloc.c:86-219 | every operation on a pool, with any answers of the host, keeps all of the above for every array and range |
| PoolRuns.RunIsOk | src/core/cw_palloc.c:86-219 | so does every run of operations |
| PoolRuns.PoolLifetime | src/core/cw_palloc.c:9-219 | from creation on, for every run: ranges in use are disjoint and housed, a small allocation looks at no more than seven blocks, every live array holds exactly what was pushed to it after a linear number of copies, and the host holds for its other clients, who take and free ranges meanwhile, what it would hold without the pool |
| PoolImpl.CreatePool | src/core/cw_palloc.c:9-34 | the linked pool starts as the model's, or the host is as it was |
| PoolImpl.Pool.CountOne | src/core/cw_palloc.c:119-123 | a block passed counts one failure more, and is left behind for good if it had failed more than four times before |
| PoolImpl.Pool.CountFailures | src/core/cw_palloc.c:119-125 | the walk ends at the last block, each block passed but the last counts one failure, and `current` ends where the model says |
| PoolImpl.Pool.AddBlock | src/core/cw_palloc.c:107-127 | the set-up of a new block, the walk and the link are the model's new block |
| PoolImpl.Pool.PallocBlock | src/core/cw_palloc.c:95-128 | the whole call is the model's, and fails only if the host refused |
| PoolImpl.Pool.FindRoom | src/core/cw_palloc.c:148-165 | the loop finds the first block from `current` on that passes the fit test |
| PoolImpl.Pool.PallocSmall | src/core/cw_palloc.c:142-168 | the linked search and bump are the model's, and fail only if the host refused |
| PoolImpl.Pool.FindRecord | src/core/cw_palloc.c:196-207 | the loop finds an empty record among the first five, or none |
| PoolImpl.Pool.AddRecord | src/core/cw_palloc.c:209-218 | a new record in front, or the chunk given back and the pool as before |
| PoolImpl.Pool.PallocLarge | src/core/cw_palloc.c:183-219 | the whole call is the model's, and fails only if the host refused |
| PoolImpl.Pool.Palloc | src/core/cw_palloc.c:86-140 | `cw_palloc` and `cw_pnalloc` over the linked pool are the model's allocation, add only new nodes, and fail only if the host refused |
| PoolImpl.Pool.Pcalloc | src/core/cw_palloc.c:170-181 | the same, with exactly the granted bytes zeroed |
| PoolImpl.Pool.Notice | src/core/cw_palloc.c:71-83 | a pool stays valid, as the same value, over anything other clients of the host do |
| PoolImpl.Pool.Destroy | src/core/cw_palloc.c:36-84 | every chunk and every block is freed exactly once while the host holds it, and the host is left with what was never the pool's |
| PoolImpl.Pool.FreeChunk | src/core/cw_palloc.c:71-75 | one turn of the first loop: the large record is read, before and after its chunk is freed, only from memory the host still holds for the pool |
| PoolImpl.Pool.FreeBlocks | src/core/cw_palloc.c:77-83 | the last loop ends and frees each block once; it reads `d.next` through a method that demands a block the host still holds |
| ArrayImpl.CreateArray | src/core/cw_array.c:5-20 | a record and room for n elements in the pool, as the model has it, apart from every array there, which stays sound; or NULL only if the host refused |
| ArrayImpl.Array.Stretch | src/core/cw_array.c:63-64 | growth in place over the linked pool is the model's |
| ArrayImpl.Array.Move | src/core/cw_array.c:69-76 | growth by moving is the model's, with exactly the elements copied |
| ArrayImpl.Array.Push | src/core/cw_array.c:40-84 | the call is the model's push, with the memory it leaves; every other array of the pool stays sound, apart from this one, and keeps its elements |
| ArrayImpl.Array.PushN | src/core/cw_array.c:87-134 | the call is the model's push of n, with the same for every other array |
| ArrayImpl.OtherArrayStays | src/core/cw_array.c:40-134 | so another array object on the same linked pool is valid, with the elements it had, after a push to this one |
| ArrayImpl.Array.Destroy | src/core/cw_array.c:23-37 | elements, then record, are given back as in the model |
| Strings.Atoi | src/core/cw_string.c:27-52 | the unbounded decimal value exactly when there are digits, only digits, and the value is at most 2147483647, and an error otherwise; no intermediate value is larger |
| Strings.DecimalValue | src/core/cw_string.c:39-51 | the printed form of every number is digits only and has that value, so parsing undoes printing |
| Strings.NumberExactly | src/core/cw_string.c:27-52 | a text is accepted with value n if and only if it is n in decimal, n at most 2147483647, behind any number of zeros |
| Strings.LeadingZero | src/core/cw_string.c:39-51 | leading zeros do not change the value |
| Strings.CopyBytes | src/core/cw_string.c:11-20 | the loop stops at the first NUL or after n bytes, and has written nothing else |
| Strings.Cpystrn | src/core/cw_string.c:4-25 | at most n - 1 bytes of the C string and a NUL are written, nothing else, and the result is the place of that NUL |

## Left out

- Sockets, processes, channels, events, HTTP, modules, signal handling, logging and the generated
  build files: mostly set-up code without an invariant that is hard to keep.
- `cw_init_cycle` after what `Cycle` models: opening the sockets. The copy of the file name is modelled
  where it is made; the file is then opened by the name handed in, not by what the copy reads.
- The conversion of `init_cycle->conf_param`: nothing in the repository sets it; the model takes any.
- ConfDriver.Conf.RunHandler: a handler calls `cw_conf_parse(cf, NULL)` at most once for a directive and
  opens no other file; the two handlers in the repository do neither.
- The texts handlers return, and how a handler might go on after a refused request for memory: it
  fails, as the one in the repository does. The answer of a handler does not depend on the addresses
  it is given.
- ConfReader.Reader.ReadToken: after a refused request for memory or a failed read it states that
  reader and list are still sound, not which words the list holds, because the caller stops there.
- A failing `fstat`: the code goes on with an unset size; the model takes the size as known, and the
  file as having that many bytes for the whole parse. A read that falls short is an error, as in the code.
- The text of log messages. The reason of an error is modelled, and so is its line.
- Sizes are those of an LP64 build: `cw_pool_t` 80 bytes, `cw_pool_data_t` 32, `cw_pool_large_t` 16,
  `cw_array_t` 40, `cw_str_t` 16, `CW_ALIGNMENT` 8 or 16.
- PoolImpl.CreatePool: requires a size of at least the header and a multiple of the alignment, because
  the code subtracts the header unchecked and its fit test wraps otherwise.
- ArrayImpl.CreateArray: requires at least one element of at least one byte, because doubling a
  capacity of zero makes no room; products of sizes are taken without wrap-around.
- Headers of pools, blocks, large records and arrays are fields of Dafny objects; the memory they
  take is reserved in the model, but only elements and word bytes are stored in modelled memory.
- Pool cleanup handlers, the `chain` field, the debug branches and the configuration dump buffer:
  nothing in the repository fills them.
- Command tables are sequences that end before the first empty name; names hold no NUL.
