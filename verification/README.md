# Verified models of mwemu

mwemu is an emulator for x86, x64 and AArch64 programs. This Dafny project models the parts of it that
are self-contained and whose correctness is not visible from any single function, and proves what they
promise. `dafny verify dfyconfig.toml` checks the whole project.

| area | modules | main results |
|---|---|---|
| Linux telemetry driver | `TlmRefcount`, `TlmHot`, `TlmDestroy`, `TlmServe`, `TlmDevice`, `TlmStore` | refcount safety over every interleaving; exactly which destroys lead to a write into a released channel; every call works on a channel with the id it was asked for; the hot-channel cache refines the list walk; every run, through the decoder, is a run of plain byte stores |
| macOS telemetry kext | `TlmMac` | every block obtained is live or freed once; swap-with-last removal keeps the rest |
| source sanitizer | `Sanitizer`, `SanitizerParts` | the output by the comments, strings and literals of the text, which end where the text alone says; idempotence by lock step of two passes; exactly which newlines are lost |
| script interpreter | `Script`, `ScriptNesting`, `ScriptSkeleton` | the line-number machine computes a structured meaning under a nesting rule; the rule is exact without loops; exactly which nestings work wherever commands are put; a termination bound |
| exception handling | `Seh`, `SehLayout`, `Exceptions`, `ExceptionOffers` | the handler of the function at an address, by the fields of the image; table search and bounded chain walk against a scan and an unbounded walk; dispatch priority; which registrations are in force after any run of calls |
| printf and strtol | `Digits`, `StrConv`, `Printf`, `PrintfRoundTrip`, `PrintfDirective` | a conversion reads as it is written; rendering is compositional; exactly when a rendered number reads back, and when wrapping gives what clamping does |
| test corpus | `Text`, `Hex`, `Corpus`, `CorpusParser`, `CorpusRoundTrip`, `CorpusErrors` | parsing a printed corpus returns its cases; which line is blamed when a line is not in order |
| initial stack | `StackLayout` | the argument vector reads back, uniquely, if and only if there are at most 29 arguments |
| guest heap | `GuestHeap`, `GuestLaws`, `GuestRuns`, `GuestBins`, `GuestArena` | in an arena of any size fragments stay in order, coalesced and accounted for over a run if and only if no reallocation overruns; exactly which blocks can never be freed; the free lists and the index agree with the fragments |
| trace differ | `TraceDiff` | the two-pointer loop against comparing filtered sequences |
| MCP hex helpers | `HexCodec` | both printed forms decode; separators and prefixes do not count |

Code that updates state in place is a class or a method with loops, proved against functions on values;
the laws are lemmas about those functions. Guest memory, the allocator, user hooks, variadic arguments
and opaque script commands are parameters.

Where the code and its own documentation differ, the model follows the code:

- The comment at drivers/linux/tlm/tlm.c:101-108 says that whoever unlinks a channel clears the cache.
  `tlm_do_destroy` leaves the cache alone, so the rule is a condition on the run: `TlmDevice.Device.Destroy`
  states that the cache stays right if and only if the destroyed id was not the cached one, and
  `TlmDevice.DestroyCached` is a run in which it does not. Keeping the rule is enough for calls one at a
  time; with calls in flight it is not (`TlmDestroy.ClosingIsNotEnough`, `TlmDestroy.CachedAfterDestroy`), and
  `TlmDestroy.DestroyIsExact` has the exact condition on a destroy.
- The docstring of `sanitize` says that newlines are preserved. `Sanitizer.NewlineFate` states exactly
  which are not, for example that of a line continuation in a string (`Sanitizer.ContinuationIsLost`).
- `_rust_char_lit_len` says that it gives the length of a Rust character literal. It ends an escape at the first
  quote, so `'\''` counts as three characters (`SanitizerParts.QuoteLiteral`).
- C11 section 7.22.1.4 makes strtol clamp on overflow; `parse_c_integer` wraps. `StrConv.WrapsOrClamps` states
  when the two agree, in particular for every number that fits in 64 bits, and `StrConv.WrapExample` is a numeral for
  which they do not.
- C11 section 7.21.6.1 puts the zeros of the `0` flag after the sign. `pad_string` puts them before it, and
  `PrintfRoundTrip.RoundTrip` states that this is the only way in which a rendered number fails to read back;
  `%05d` of -1 is an instance (`PrintfRoundTrip.ZerosBeforeSign`).
- The comments of the guest heap's `reallocate` say that growing backward may also consume a free successor.
  The code counts the successor's bytes whether it is free or not: `GuestRuns.ArenaIsExact` states that this
  is what breaks the heap, and nothing else does; `GuestRuns.OverrunExample` is an instance.
- `free` refuses a block whose size is not a whole number of 256-byte fragments, although `reallocate` may make
  one: `GuestRuns.FreeableIsExact` states which requests do, `GuestRuns.OddStays` that the block is then there for
  good, and `GuestRuns.UnfreeableExample` is an instance.
- `free` cuts the offset of an address to 32 bits, so that addresses 4 GiB apart are freed alike
  (`GuestArena.FreesAlike`); `reallocate` refuses an address that far off.
- Script blocks look as if they nest. `ScriptSkeleton.NestingIsExact` states which nestings can be trusted.
- In system-call mode the trace differ says that it compares system calls only, but other steps after the
  last system call of one trace still make it fail: `TraceDiff.DiffMeaning` has the exact condition for
  exit code 0 and `TraceDiff.TrailingStepFails` an instance.

## Model

| member | source | states |
|---|---|---|
| `TlmRefcount.EveryRunIsSafe` | drivers/linux/tlm/tlm.c:160-197 | in every interleaving of any number of threads no step touches a released object or takes a count below zero, each step does what it means (a get holds the first listed channel with the id), each count is list membership plus outstanding holds, and between get and put a thread works on the object it found, even when the slab reuses addresses |
| `TlmRefcount.ReleasedForGood` | drivers/linux/tlm/tlm.c:160-172 | once released, an object occurs exactly once among all releases, and no thread and no list entry refers to it in any later state |
| `TlmRefcount.StepKeepsInv` | drivers/linux/tlm/tlm.c:201-320 | every ready step of create, get, unlink, put and release is safe, does what it means and keeps the invariant |
| `TlmRefcount.GetMeans` | drivers/linux/tlm/tlm.c:173-197 | if some listed channel has the id, the first such gains one reference, held by the thread, and nothing else changes; otherwise nothing does |
| `TlmRefcount.UnlinkMeans` | drivers/linux/tlm/tlm.c:290-305 | the first listed channel with the id leaves the list and the rest keeps its order; without one nothing changes |
| `TlmRefcount.OnlyOneLeft` | drivers/linux/tlm/tlm.c:167-171 | while one thread releases an object no other thread works on it |
| `TlmRefcount.QuietMeansListed` | drivers/linux/tlm/tlm.c:290-320 | with no call in flight nothing is leaked: live objects are the listed ones, with count 1 |
| `TlmRefcount.UnloadHeadSteps` | drivers/linux/tlm/tlm.c:434-437 | one round of the unload loop is an unlink, a put that reaches zero and a release |
| `TlmRefcount.UnloadReleasesEverything` | drivers/linux/tlm/tlm.c:424-441 | after unload the heap is empty and every object ever created was released exactly once |
| `TlmRefcount.Find` | drivers/linux/tlm/tlm.c:174-183 | the first listed channel with the id, or none |
| `TlmDestroy.DestroyIsExact` | drivers/linux/tlm/tlm.c:242-306 | where every channel that is cached, that a hot write in flight has read from the cache, or that a cold write in flight is about to cache is on the list: a step makes it possible that a later one touches a released object, without another destroy, if and only if it is a destroy of such a channel |
| `TlmDestroy.ConsiderateRunIsSafe` | drivers/linux/tlm/tlm.c:242-306 | in every interleaving whose destroys are of no such channel, every channel that is cached, borrowed or about to be cached is on the list, and no step touches a released object |
| `TlmDestroy.TightIsExact` | drivers/linux/tlm/tlm.c:242-306 | one step keeps all those channels on the list if and only if it is no such destroy |
| `TlmDestroy.CachedShows` | drivers/linux/tlm/tlm.c:252-254 | after a destroy of the cached channel its holders let go, it is released, and the next hot write goes into it |
| `TlmDestroy.HotShows` | drivers/linux/tlm/tlm.c:252-280 | after a destroy of a channel that a hot write is on, that write goes into it once it is released |
| `TlmDestroy.ColdShows` | drivers/linux/tlm/tlm.c:256-265 | after a destroy of a channel that a cold write has not cached yet, it is cached, released, and the next hot write goes into it |
| `TlmDestroy.Drain` | drivers/linux/tlm/tlm.c:160-172 | from every state a channel off the list can go away by steps of its holders alone, leaving what was borrowed borrowed |
| `TlmDestroy.ClosingIsNotEnough` | drivers/linux/tlm/tlm.c:252-306 | ten steps from the loading of the module, in which the cache is empty at the destroy and a hot write that began before goes into a released channel |
| `TlmDestroy.CachedAfterDestroy` | drivers/linux/tlm/tlm.c:252-306 | nine steps from the loading of the module, in which a cold write caches the channel after the destroy |
| `TlmHot.HotStepIsExact` | drivers/linux/tlm/tlm.c:252-286 | seen at the release instead: a step keeps the cache and every borrowed pointer on live objects if and only if it does not release an object that one of them points to |
| `TlmHot.CarefulRunIsSafe` | drivers/linux/tlm/tlm.c:242-288 | in every interleaving whose releases are careful in that sense, no step touches a released object |
| `TlmHot.CarelessReleaseShows` | drivers/linux/tlm/tlm.c:252-280 | after any other release a hot write goes into the released object, at once or as the next write to find it in the cache |
| `TlmServe.CallsServeTheirId` | drivers/linux/tlm/tlm.c:174-320 | in every interleaving whose destroys are considerate, a write, stat or destroy works, from the step that gets its channel until its thread's next call, on a channel with the id that it was asked for |
| `TlmServe.CacheServes` | drivers/linux/tlm/tlm.c:256-265 | so a cold write caches a listed channel with its id |
| `TlmServe.CacheIsRightThroughout` | drivers/linux/tlm/tlm.c:252-265 | in every such interleaving the cached id is the cached channel's |
| `TlmServe.SameIdMeans` | drivers/linux/tlm/tlm.c:229-233 | two channels have the same id if and only if a multiple of 2^32 creations lies between theirs |
| `TlmServe.OneWritePerBegin` | drivers/linux/tlm/tlm.c:252-280 | a thread that read its channel from the cache writes into it once: between two such writes it read the cache again |
| `TlmServe.ClosedUntilFilled` | drivers/linux/tlm/tlm.c:375-381 | after the handle is closed the cache is empty until a cold write fills it |
| `TlmDevice.SumsOfDiffs` | drivers/linux/tlm/tlm.c:125-138 | prefix sums mod 256 undo the delta encoder from any previous byte |
| `TlmDevice.EncodeAppends` | drivers/linux/tlm/tlm.c:115-138 | a write fits and decodes to the old content plus the payload, or is rejected and changes nothing; `used` stays within the buffer and `last` is the last decoded byte |
| `TlmDevice.RunDecodes` | drivers/linux/tlm/tlm.c:115-144 | over every run of writes the channel decodes to exactly the accepted payloads, in order |
| `TlmDevice.BufferHolds` | drivers/linux/tlm/tlm.c:115-140 | after any run of writes a channel created with encoding 0 holds the accepted payloads, and one created with encoding 1 the differences of their neighbouring bytes, the first against 0 |
| `TlmDevice.Channel.EncodeRaw` | drivers/linux/tlm/tlm.c:115-123 | the copy into the buffer is one encoder call on values |
| `TlmDevice.Channel.EncodeDelta` | drivers/linux/tlm/tlm.c:125-138 | the in-place loop is one encoder call on values |
| `TlmDevice.FindAfterRemoval` | drivers/linux/tlm/tlm.c:174-183 | removing the first channel with one id moves the first channel with another by at most one place |
| `TlmDevice.Device.Lookup` | drivers/linux/tlm/tlm.c:174-183 | the list walk returns the first channel with the id, or null |
| `TlmDevice.Device.Route` | drivers/linux/tlm/tlm.c:252-266 | hot path and cold path return the channel that the list walk finds, and leave it cached |
| `TlmDevice.Device.Create` | drivers/linux/tlm/tlm.c:201-240 | every rejection, or a fresh empty channel at the end of the list under the next 32-bit id |
| `TlmDevice.Device.Write` | drivers/linux/tlm/tlm.c:242-288 | by either path, the return code, buffers and counter are those of the driver without a cache |
| `TlmDevice.Device.Stat` | drivers/linux/tlm/tlm.c:308-320 | used and capacity of the first channel with the id, or not found |
| `TlmDevice.Device.Destroy` | drivers/linux/tlm/tlm.c:290-306 | removes that one channel; the cache invariant survives if and only if the id was not the cached one |
| `TlmDevice.Device.Close` | drivers/linux/tlm/tlm.c:375-381 | dropping the cache restores the cache invariant |
| `TlmDevice.Device.PerformAll` | drivers/linux/tlm/tlm.c:101-108 | every run that never destroys the cached channel gives, call by call, the results of the driver without a cache, and ends with the cache null or the channel the list walk finds |
| `TlmDevice.DestroyCached` | drivers/linux/tlm/tlm.c:290-306 | a create, a write and a destroy on a new device leave a cache that is not the list walk's |
| `TlmStore.WriteServes` | drivers/linux/tlm/tlm.c:242-288 | a write is an all-or-nothing append to the oldest store with the id |
| `TlmStore.RunServes` | drivers/linux/tlm/tlm.c:201-320 | every run, seen through the decoder, is a run of encoder-free byte stores with the same return codes |
| `TlmMac.RunKeeps` | drivers/macos/tlm/tlm.c:121-168 | over every run live blocks are the channels' blocks, two each; blocks obtained are live or freed, with multiplicity; until the id counter wraps, live ids are distinct and at most `next_id` |
| `TlmMac.StopFreesEverything` | drivers/macos/tlm/tlm.c:230-255 | a run that ends in a stop has freed exactly the blocks it obtained, each as often as obtained |
| `TlmMac.StopAccount` | drivers/macos/tlm/tlm.c:242-255 | stop frees every live block exactly once |
| `TlmMac.CreateKeepsHeap` | drivers/macos/tlm/tlm.c:139-168 | the heap stays the channels' blocks; a create succeeds if and only if there is a free place and both allocations do, and then appends one channel with the next id; otherwise it frees what it obtained |
| `TlmMac.DestroyKeepsHeap` | drivers/macos/tlm/tlm.c:189-204 | destroy succeeds iff the id is live; it then removes one channel, keeps the rest as a multiset and frees its two blocks; otherwise it changes nothing |
| `TlmMac.DestroyKeepsIds` | drivers/macos/tlm/tlm.c:189-204 | ids stay distinct and the destroyed id is gone |
| `TlmMac.HoldingsWithout` | drivers/macos/tlm/tlm.c:199 | swap-with-last loses one channel and its two blocks and nothing else |
| `TlmMac.Device.Lookup` | drivers/macos/tlm/tlm.c:121-129 | the first table entry with the id, or null |
| `TlmMac.Device.Create` | drivers/macos/tlm/tlm.c:139-168 | the table, id counter and heap after a create, with its three failures |
| `TlmMac.Device.Destroy` | drivers/macos/tlm/tlm.c:189-204 | the in-place swap and the frees are removal on values |
| `TlmMac.Device.Stop` | drivers/macos/tlm/tlm.c:242-255 | the loop frees each channel's buffer and then the channel, in table order, and empties the table |
| `TlmMac.Device.constructor` | drivers/macos/tlm/tlm.c:230-240 | starts with an empty table and id counter 0 |
| `Sanitizer.SanitizeIsIdempotent` | scripts/sloppy.py:91-211 | for every text and language a second pass changes nothing, and meets no comment and no triple string |
| `Sanitizer.SecondPass` | scripts/sloppy.py:91-211 | from any point of the first pass, the second reproduces the rest of its output in lock step |
| `Sanitizer.NewlineFate` | scripts/sloppy.py:91-211 | a newline is lost if and only if an in-string escape or a Rust character literal swallows it |
| `Sanitizer.ContinuationIsLost` | scripts/sloppy.py:132-135 | a concrete text that loses its newline |
| `Sanitizer.OnlyBlanks` | scripts/sloppy.py:91-211 | same length, every change is to a space, no newline appears |
| `Sanitizer.TextFate` | scripts/sloppy.py:91-211 | comment and string text, comment openers, triple quotes, Rust character literals and byte prefixes come out blank; closing quotes and all other code come out unchanged, one character at a time |
| `SanitizerParts.SanitizedByParts` | scripts/sloppy.py:91-211 | however a text is divided into comments, strings, literals and code, the output is what is left of each in turn |
| `SanitizerParts.PartIsShown` | scripts/sloppy.py:91-211 | a line comment up to its newline, a block comment up to the first `*/`, a triple string up to the first three quotes, a string up to its first quote or newline with an even number of backslashes before it: each is blanked as such, and the scanner is outside again after it |
| `SanitizerParts.DivisionExists` | scripts/sloppy.py:91-211 | every text divides into such parts |
| `SanitizerParts.PartIsUnique` | scripts/sloppy.py:152-209 | in one way only: at most one part starts at a position |
| `SanitizerParts.ScanString` | scripts/sloppy.py:131-150 | in a string, escapes are what an odd number of backslashes precedes |
| `SanitizerParts.CharLiteralIs` | scripts/sloppy.py:75-88 | a Rust character literal by its text: one character, or a backslash and up to ten more without a quote |
| `SanitizerParts.CommentLine` | scripts/sloppy.py:106-111 | a line comment and its newline, by positions |
| `SanitizerParts.QuoteLiteral` | scripts/sloppy.py:80-85 | the Rust literal of a quote is taken to be three characters long |
| `Sanitizer.RustCharLitLen` | scripts/sloppy.py:75-88 | the bounded search loop finds the literal's closing quote or says lifetime |
| `Sanitizer.ReadInside` | scripts/sloppy.py:106-150 | the flag branches are one move of the reference scanner |
| `Sanitizer.ReadTop` | scripts/sloppy.py:153-210 | so are the top-level branches, except for the byte prefix still owed |
| `Sanitizer.Sanitize` | scripts/sloppy.py:91-211 | the loop that patches its last output piece computes what a scanner with lookahead computes |
| `Script.MachineComputesMeaning` | crates/libmwemu/src/debug/script.rs:99-126 | for every script that keeps the nesting rule (no command or loop line after a nested `endif`; no command after a nested loop, unless only skipped and `loop` lines come before), the machine halts in an environment iff the structured meaning is defined and ends in it |
| `Script.RunStmts` | crates/libmwemu/src/debug/script.rs:99-126 | from any line, running the lines of a statement list agrees with its meaning, including early return and running on |
| `Script.RunCond` | crates/libmwemu/src/debug/script.rs:1037-1077 | an `if` block runs its body iff the unsigned comparison holds |
| `Script.RunLoop` | crates/libmwemu/src/debug/script.rs:1129-1141 | a loop is a do-while that ends when `result` is at most 1 |
| `Script.SkipOver` | crates/libmwemu/src/debug/script.rs:119-126 | skipping ends at the first `endif`; what follows in the block changes the line number and `skip` only |
| `Script.ComesBack` | crates/libmwemu/src/debug/script.rs:1129-1141 | a jump to the first line comes back to a loop that only skipped and `loop` lines precede |
| `Script.QuietScriptEnds` | crates/libmwemu/src/debug/script.rs:99-126 | from any line and state, a script whose commands leave `result` alone ends within max(1, result) times its lines |
| `Script.QuietLoopRounds` | crates/libmwemu/src/debug/script.rs:1129-1141 | a loop whose body leaves `result` alone makes exactly max(1, result) rounds |
| `ScriptNesting.RuleIsExact` | crates/libmwemu/src/debug/script.rs:119-126 | without loops, a shape computes its meaning for all commands and conditions if and only if it keeps the rule |
| `ScriptNesting.LeakBreaks` | crates/libmwemu/src/debug/script.rs:119-126 | any shape, with loops or not, in which a command follows a nested `endif` has commands and conditions for which machine and meaning end differently |
| `ScriptNesting.BeyondTheRule` | crates/libmwemu/src/debug/script.rs:1129-1141 | with loops the rule is not necessary: a shape that breaks it and computes its meaning for all conditions and environments |
| `ScriptSkeleton.NestingIsExact` | crates/libmwemu/src/debug/script.rs:1037-1141 | a nesting of blocks computes its meaning wherever plain lines are put and whatever they do, if and only if it has no `if` in an `if` and no loop in a loop |
| `ScriptSkeleton.LoopInLoopBreaks` | crates/libmwemu/src/debug/script.rs:1129-1141 | for every nesting with a loop in a loop, commands for which the outer `endloop` goes back to the first line and the run ends differently |
| `ScriptSkeleton.UnnestedIsSound` | crates/libmwemu/src/debug/script.rs:99-126 | every unnested script keeps the rule |
| `Script.Interpreter.Run` | crates/libmwemu/src/debug/script.rs:99-126 | after any number of turns the loop over mutable fields is where the machine is, for runs that end and runs that do not |
| `Seh.LookupMeaning` | crates/libmwemu/src/emu/exception_handlers.rs:103-182 | on a readable, sorted, disjoint table the lookup is a linear scan and then unbounded chain resolution when the chain has at most 15 links, and nothing otherwise |
| `SehLayout.LookupInFunction` | crates/libmwemu/src/emu/exception_handlers.rs:103-183 | where memory holds an image by the fields of its headers, its function table and its unwind records: at an address in a function the lookup gives the handler that the function's record names, itself or through up to 15 chained entries, and nothing for longer chains |
| `SehLayout.LookupOutside` | crates/libmwemu/src/emu/exception_handlers.rs:103-147 | without an exception directory, or at an address in no function, it finds nothing |
| `SehLayout.RecordIsNode` | crates/libmwemu/src/emu/exception_handlers.rs:154-175 | flags, count of codes and what follows the codes, at the next multiple of 4: the unwind field of a whole function entry for a chained record, a handler RVA, or nothing |
| `SehLayout.TableIsFound` | crates/libmwemu/src/emu/exception_handlers.rs:106-123 | the exception directory is entry 3 of the data directories of the optional header |
| `SehLayout.EntryIsFunction` | crates/libmwemu/src/emu/exception_handlers.rs:131-145 | entry k of the table is 12 bytes: begin, end, unwind |
| `Seh.BisectIsLinear` | crates/libmwemu/src/emu/exception_handlers.rs:126-145 | on such a table the binary search finds what the linear scan finds |
| `Seh.BisectIsSound` | crates/libmwemu/src/emu/exception_handlers.rs:126-145 | on any table at all, an entry it returns covers the address |
| `Seh.BoundedIsUnbounded` | crates/libmwemu/src/emu/exception_handlers.rs:147-181 | sixteen records decide the unbounded chain if it is short enough, and find nothing otherwise |
| `Seh.CyclesFindNothing` | crates/libmwemu/src/emu/exception_handlers.rs:147-181 | a chain that comes back to a link never reaches a handler |
| `Seh.AlignedHandlerOffset` | crates/libmwemu/src/emu/exception_handlers.rs:160-162 | for 4-aligned unwind information the handler data is at base + 4 + 2 * (count rounded up to even), mod 2^64 |
| `Seh.Search` | crates/libmwemu/src/emu/exception_handlers.rs:126-145 | the loop over `lo` and `hi`, with its unreadable-entry exits, is the recursive bisection |
| `Seh.WalkChain` | crates/libmwemu/src/emu/exception_handlers.rs:147-181 | the loop gives the handler after at most 15 links |
| `Seh.FindHandler` | crates/libmwemu/src/emu/exception_handlers.rs:103-182 | image, directory, search and chain together are the lookup |
| `Exceptions.Emu.Raise` | crates/libmwemu/src/emu/exception_handlers.rs:187-343 | in every state an exception enters at most one handler, the first registered in the order VEH, table or stack SEH, UEF; with none it stops; the final branch cannot be reached |
| `ExceptionOffers.VectoredFirst` | crates/libmwemu/src/emu/exception_handlers.rs:242-252 | the first vectored handler comes before everything else |
| `ExceptionOffers.TableHandlerNext` | crates/libmwemu/src/emu/exception_handlers.rs:254-265 | then, on x64, the handler of the function that the fault is in, by the layout of the image |
| `ExceptionOffers.StackRecordNext` | crates/libmwemu/src/emu/exception_handlers.rs:285-311 | then, on x86, the second word of the stack record, if it is mapped |
| `ExceptionOffers.BrokenRecord` | crates/libmwemu/src/emu/exception_handlers.rs:285-311 | a record of which a word cannot be read leads to no handler |
| `ExceptionOffers.FilterLast` | crates/libmwemu/src/emu/exception_handlers.rs:266-342 | the unhandled-exception filter comes last, and without it nothing is offered |
| `Exceptions.Without` | crates/libmwemu/src/emu/exception_handlers.rs:51-56 | removes every copy of one handler and keeps the number of all others |
| `Exceptions.Emu.SetVeh` | crates/libmwemu/src/emu/exception_handlers.rs:26-36 | the list is the one handler, or empty for 0 |
| `Exceptions.ListedIffInForce` | crates/libmwemu/src/emu/exception_handlers.rs:26-56 | after any run of set, add and remove calls a handler is on the list if and only if some call that registered it was not cleared since |
| `Exceptions.ClearedIsNotOffered` | crates/libmwemu/src/emu/exception_handlers.rs:51-56 | a handler with no registration in force is never offered to dispatch as a vectored handler |
| `Exceptions.AddedFirstIsNext` | crates/libmwemu/src/emu/exception_handlers.rs:38-49 | a non-zero handler added first, and neither cleared nor displaced since, is the first that dispatch enters |
| `Exceptions.Emu.Register` | crates/libmwemu/src/emu/exception_handlers.rs:26-56 | a run of the three calls gives the list that these laws are about |
| `Exceptions.Emu.RemoveVeh` | crates/libmwemu/src/emu/exception_handlers.rs:51-56 | the list without that handler, in order |
| `StrConv.ParseCInteger` | crates/libmwemu/src/api/strconv.rs:5-38 | the loops give the signed value of the longest run of digits mod 2^64 and where it ends; (0, 0) without digits |
| `StrConv.AccumulateDigits` | crates/libmwemu/src/api/strconv.rs:25-33 | wrapping multiply and add give the numeral's value mod 2^64, for numerals of any length |
| `StrConv.ParseNumeral` | crates/libmwemu/src/api/strconv.rs:5-38 | space, sign, prefix and digits in any base from 2 to 36, and through base 0 in hex, octal or decimal, read as the signed value, stopping after the last digit |
| `StrConv.WrapsOrClamps` | crates/libmwemu/src/api/strconv.rs:25-37 | the bits, read as signed, are the number clamped to 64 bits if and only if it fits, or wraps onto the bound that it is beyond |
| `StrConv.WrapExample` | crates/libmwemu/src/api/strconv.rs:25-37 | 2^63 reads as -2^63, where clamping gives 2^63 - 1 |
| `Digits.NumeralValue` | crates/libmwemu/src/api/printf.rs:113-145 | a printed numeral has the value it was printed from, in every base |
| `PrintfRoundTrip.RoundTrip` | crates/libmwemu/src/api/printf.rs:110-145 | for every 64-bit value, conversion, width and flags, parsing in the matching base gives back all 64 bits and stops after the last digit, if and only if no `0` flag fills before a sign or blank |
| `PrintfRoundTrip.StopsAtSign` | crates/libmwemu/src/api/printf.rs:156-171 | zeros before a sign are all that is read |
| `PrintfRoundTrip.ZerosBeforeSign` | crates/libmwemu/src/api/printf.rs:156-171 | a concrete number that reads back as 0 |
| `PrintfRoundTrip.ReadsAfterZeros` | crates/libmwemu/src/api/printf.rs:156-171 | zeros before bare digits change nothing |
| `Printf.RenderingComposes` | crates/libmwemu/src/api/printf.rs:5-154 | if `a` breaks off inside no directive, `a + b` renders as `a`, then `b` with the arguments `a` left over |
| `Printf.TokenArguments` | crates/libmwemu/src/api/printf.rs:5-154 | each token renders from the argument right after those that the tokens before it took |
| `Printf.ArgumentsInOrder` | crates/libmwemu/src/api/printf.rs:5-154 | nothing but the arguments counted as taken affects the rendering |
| `Printf.EscapedRendersItself` | crates/libmwemu/src/api/printf.rs:12-25 | a text with every percent sign doubled renders as the text and takes no argument |
| `Printf.PadShape` | crates/libmwemu/src/api/printf.rs:156-171 | padding fills up to the width in bytes, on the side away from the text, and never cuts it |
| `Printf.CharBytesAreFew` | crates/libmwemu/src/api/printf.rs:156-160 | the bytes of a character that widths count: the fewest that UTF-8 needs for it |
| `Printf.DirectiveExtends` | crates/libmwemu/src/api/printf.rs:27-107 | a complete directive reads the same whatever text follows |
| `PrintfDirective.DirectiveIsRead` | crates/libmwemu/src/api/printf.rs:27-107 | for every sequence of flags, width (none, `*` or a number), precision, modifiers and conversion character, the text reads as one directive with exactly those flags, that width and that conversion, ending after it |
| `PrintfDirective.DirectiveRenders` | crates/libmwemu/src/api/printf.rs:11-152 | between a complete format and any other it renders with its own flags and width and its own argument, and the rest goes on after it |
| `PrintfDirective.TextConversions` | crates/libmwemu/src/api/printf.rs:129-149 | `%s` renders the string at its argument or `(null)`, `%c` one ASCII character or a question mark, padded with blanks; an unknown conversion renders as itself after a percent sign |
| `PrintfDirective.WrittenRoundTrip` | crates/libmwemu/src/api/printf.rs:27-151 | the round trip from the written conversion: its output reads back as the argument if and only if no `0` flag fills before a sign or blank |
| `Printf.ScanDirective` | crates/libmwemu/src/api/printf.rs:27-107 | the flag, width, precision and modifier loops read one directive |
| `Printf.FormatText` | crates/libmwemu/src/api/printf.rs:5-154 | the loop renders the tokens in order with arguments from the first on |
| `CorpusRoundTrip.PrintParses` | crates/mwemu-x86-test/src/corpus.rs:190-295 | for every pool and every well-formed list of cases, parsing the printed corpus gives the same cases, wherever blank lines are put after the pool |
| `CorpusRoundTrip.PrintParsesPlain` | crates/mwemu-x86-test/src/corpus.rs:190-295 | in particular for the printed text itself |
| `CorpusRoundTrip.HeaderBack` | crates/mwemu-x86-test/src/corpus.rs:141-188 | a printed header parses back, with any number of semicolons in the assembly text |
| `Corpus.MnemonicIs` | crates/mwemu-x86-test/src/corpus.rs:244-249 | the mnemonic is the first word of the assembly text, with its ASCII letters in lower case |
| `CorpusErrors.StrayLineIsBlamed` | crates/mwemu-x86-test/src/corpus.rs:232-242 | after cases in order, with blank lines anywhere, a line that is no `instr:` line makes the whole text fail with its own number |
| `CorpusErrors.BadRowIsBlamed` | crates/mwemu-x86-test/src/corpus.rs:252-266 | after cases in order and the first rows of another, so does a line without a bar |
| `CorpusErrors.MissingRowsAreBlamed` | crates/mwemu-x86-test/src/corpus.rs:252-259 | when the text ends before all announced rows came, it fails with the number of the header line |
| `CorpusErrors.BadPoolLineIsBlamed` | crates/mwemu-x86-test/src/corpus.rs:216-230 | a pool line that does not decode makes the text fail with its own number |
| `CorpusErrors.BadStartIsBlamed` | crates/mwemu-x86-test/src/corpus.rs:193-213 | so does a first line that is no `data:` line with a number |
| `CorpusErrors.CasesThen` | crates/mwemu-x86-test/src/corpus.rs:232-294 | cases in order parse and the parse goes on after them, whatever follows |
| `CorpusErrors.BindDefined` | crates/mwemu-x86-test/src/corpus.rs:104-130 | binding succeeds if and only if there are as many indices as keys and all are in the pool |
| `CorpusRoundTrip.RowBack` | crates/mwemu-x86-test/src/corpus.rs:260-282 | a printed row binds every key to its pool value, or names its exception |
| `CorpusRoundTrip.CasesBack` | crates/mwemu-x86-test/src/corpus.rs:232-294 | printed instruction blocks parse back one after another |
| `CorpusRoundTrip.PoolBack` | crates/mwemu-x86-test/src/corpus.rs:216-230 | the pool ends exactly at the first line that is no pool entry |
| `CorpusRoundTrip.BindBack` | crates/mwemu-x86-test/src/corpus.rs:104-130 | binding indices into the pool pairs each key with its value |
| `CorpusRoundTrip.SchemaBack` | crates/mwemu-x86-test/src/corpus.rs:80-87 | joined keys split back, none lost and none added |
| `CorpusRoundTrip.IndicesBack` | crates/mwemu-x86-test/src/corpus.rs:89-102 | printed indices parse back |
| `CorpusRoundTrip.AddressBack` | crates/mwemu-x86-test/src/keys.rs:64-74 | a printed address parses back, for all 64 bits |
| `CorpusRoundTrip.BareAddress` | crates/mwemu-x86-test/src/keys.rs:64-74 | digits without a prefix are decimal if they can be, and hexadecimal otherwise |
| `CorpusRoundTrip.PrefixedAddress` | crates/mwemu-x86-test/src/keys.rs:64-74 | after either prefix they are hexadecimal; numbers beyond 64 bits are refused |
| `CorpusParser.ReadCorpus` | crates/mwemu-x86-test/src/corpus.rs:190-295 | the line loops compute the recursive parser: the same cases, or an error at the same line |
| `CorpusParser.ReadCases` | crates/mwemu-x86-test/src/corpus.rs:232-294 | the block loop, with blank lines skipped as it goes, parses the text without its blank lines |
| `CorpusParser.ReadRows` | crates/mwemu-x86-test/src/corpus.rs:251-283 | the row loop parses the next rows, or blames the right line, and says where it stopped |
| `CorpusParser.ReadPool` | crates/mwemu-x86-test/src/corpus.rs:216-230 | the pool loop gives the entries and the position after them |
| `CorpusParser.ReadIndices` | crates/mwemu-x86-test/src/corpus.rs:89-102 | the loop skips empty parts and fails on the first bad index |
| `CorpusParser.BindValues` | crates/mwemu-x86-test/src/corpus.rs:104-130 | the loop fails on a length mismatch or an index past the pool, else binds in order |
| `Hex.HexPairsBack` | crates/mwemu-x86-test/src/corpus.rs:63-78 | two hex digits per byte decode to the bytes |
| `Hex.HexPairsDefined` | crates/mwemu-x86-test/src/corpus.rs:63-78 | decoding succeeds if and only if the length is even and all characters are hex digits |
| `Hex.DecodePairs` | crates/mwemu-x86-test/src/corpus.rs:63-78 | the pair loop computes that decoding |
| `StackLayout.LaidReadsBack` | crates/libmwemu/src/emu/initialization.rs:661-711 | for at most 29 NUL-free arguments that fit, walking argv gives exactly the arguments then null, envp and apple are empty, and nothing else in memory changes |
| `StackLayout.ArgvOnce` | crates/libmwemu/src/emu/initialization.rs:661-711 | walking an argument vector can give one answer only |
| `StackLayout.ReadsBackIff` | crates/libmwemu/src/emu/initialization.rs:661-711 | for arguments as the configuration gives them, whose strings fit, and a stack in the 48-bit address space, argv reads back if and only if there are at most 29 |
| `StackLayout.ThirtyArguments` | crates/libmwemu/src/emu/initialization.rs:661-711 | for example, the one-letter argument `a` reads back 29 times and not 30 times |
| `StackLayout.BlockByte` | crates/libmwemu/src/emu/initialization.rs:674-691 | where argv reads back, the strings are intact byte by byte |
| `StackLayout.ZerosLand` | crates/libmwemu/src/emu/initialization.rs:688-703 | from 30 arguments on, a word of the vector lands on the string base |
| `StackLayout.Emu.InitStack` | crates/libmwemu/src/emu/initialization.rs:271-293 | sp, the default address and the mapped range above sp; a failed map changes neither memory nor sp |
| `StackLayout.Emu.WriteLayout` | crates/libmwemu/src/emu/initialization.rs:661-711 | the byte and word loops produce the layout; x0 is the count, x1 to x3 the three vectors |
| `StackLayout.Emu.WriteVector` | crates/libmwemu/src/emu/initialization.rs:688-703 | the pointers and the three terminators are consecutive little-endian words |
| `GuestRuns.ArenaIsExact` | crates/libmwemu/src/maps/heap_allocation.rs:143-781 | in a new arena of any size, over a run of allocate, free and reallocate the fragments are ordered, disjoint, coalesced and accounted for throughout if and only if no reallocation grows backward past a right neighbour in use; then fewer than 256 bytes of the arena are in no fragment, and none if its size is a whole number of fragments |
| `GuestRuns.RunIsExact` | crates/libmwemu/src/maps/heap_allocation.rs:282-781 | the same from every heap in order |
| `GuestRuns.StepIsExact` | crates/libmwemu/src/maps/heap_allocation.rs:282-781 | for one operation, the same |
| `GuestRuns.OverrunBreaks` | crates/libmwemu/src/maps/heap_allocation.rs:709-767 | growing backward past a right neighbour in use makes fragments overlap, also where bytes are lost between them |
| `GuestRuns.ExampleReached` | crates/libmwemu/src/maps/heap_allocation.rs:282-535 | three allocations and a free in a new arena lead to a given heap |
| `GuestRuns.OverrunExample` | crates/libmwemu/src/maps/heap_allocation.rs:709-767 | a request in that heap, and the overlapping fragments after it |
| `GuestLaws.GapsAreSmall` | crates/libmwemu/src/maps/heap_allocation.rs:317-339 | between any two fragments fewer than 256 bytes are in none, and none in a whole arena |
| `GuestLaws.AllocateKeeps` | crates/libmwemu/src/maps/heap_allocation.rs:282-355 | an allocation adds exactly one block of the rounded size and keeps the invariant, or changes nothing |
| `GuestLaws.AllocateSucceeds` | crates/libmwemu/src/maps/heap_allocation.rs:301-309 | it succeeds if and only if some free fragment is large enough |
| `GuestLaws.AllocateTakesLowest` | crates/libmwemu/src/maps/heap_allocation.rs:301-312 | it takes a free fragment that is large enough, of the lowest size class that has one |
| `GuestHeap.BinsAreExact` | crates/libmwemu/src/maps/heap_allocation.rs:94-121 | for a rounded request, being in a size class at least as high is the same as being large enough |
| `GuestHeap.BlockSizeIsLeast` | crates/libmwemu/src/maps/heap_allocation.rs:101-113 | the fragment size is the least power of two that covers the request and the minimum, and there is one exactly up to 2^63 |
| `GuestHeap.StartsAtItsBin` | crates/libmwemu/src/maps/heap_allocation.rs:301 | the logarithm rounded up gives the size class of a rounded request |
| `GuestLaws.FreeKeeps` | crates/libmwemu/src/maps/heap_allocation.rs:423-535 | a free removes exactly the block at the offset and keeps the invariant, or changes nothing; in a whole arena every block can be freed |
| `GuestLaws.FreeIsExact` | crates/libmwemu/src/maps/heap_allocation.rs:434-440 | in any arena a block is freed if and only if its size is whole |
| `GuestRuns.FreeableIsExact` | crates/libmwemu/src/maps/heap_allocation.rs:665-767 | an operation makes a block that cannot be freed if and only if it is a reallocation that grows into all there is, where that is not whole |
| `GuestRuns.OddStays` | crates/libmwemu/src/maps/heap_allocation.rs:423-440 | such a block stays where it is over every run that does not overrun |
| `GuestRuns.UnfreeableExample` | crates/libmwemu/src/maps/heap_allocation.rs:665-707 | in an arena of 600 bytes, allocating 256 and growing to 512 takes all of it for good |
| `GuestRuns.ReallocateKeeps` | crates/libmwemu/src/maps/heap_allocation.rs:551-781 | a reallocation that succeeds swaps exactly one block for one of the needed size, less than a fragment larger; one that does not changes nothing |
| `GuestArena.ReallocateAnswers` | crates/libmwemu/src/maps/heap_allocation.rs:551-781 | an accepted reallocation succeeds if and only if the block is large enough, fits with a free right neighbour, fits with a free left neighbour counting the right one's bytes, or there is room elsewhere; in this order it stays, moves to the left neighbour or moves elsewhere, and it asks for a copy of the old size if and only if it moves |
| `GuestLaws.BlocksAreApart` | crates/libmwemu/src/maps/heap_allocation.rs:282-355 | two blocks that the program owns share no byte |
| `GuestBins.RebinKeeps` | crates/libmwemu/src/maps/heap_allocation.rs:171-192 | a free fragment pushed on the list of its class: lists and mask hold one fragment more |
| `GuestBins.UnbinKeeps` | crates/libmwemu/src/maps/heap_allocation.rs:358-385 | a free fragment taken out of its list: lists and mask hold one fragment less |
| `GuestBins.HeadIsCandidate` | crates/libmwemu/src/maps/heap_allocation.rs:301-312 | the head of the lowest non-empty list that is high enough is a fragment of the lowest class that fits, and there is one whenever some fragment fits |
| `GuestBins.FoundIsLookup` | crates/libmwemu/src/maps/heap_allocation.rs:387-391 | over stale entries too, the index finds exactly the blocks of the fragment list |
| `GuestBins.MergeIndexed` | crates/libmwemu/src/maps/heap_allocation.rs:449-534 | after a free, with the absorbed neighbour's entry left stale, the index still does |
| `GuestBins.BackIndexed` | crates/libmwemu/src/maps/heap_allocation.rs:709-767 | so it does after growing backward, although the entry of the new free fragment may be removed |
| `GuestArena.Arena.Allocate` | crates/libmwemu/src/maps/heap_allocation.rs:282-355 | with the free lists choosing, allocation on values; it succeeds if and only if some free fragment is large enough, and free lists and index agree with the fragments again |
| `GuestArena.ChosenSucceeds` | crates/libmwemu/src/maps/heap_allocation.rs:234-236 | whichever candidate the free lists choose, success depends on the fragments only |
| `GuestArena.Arena.Restore` | crates/libmwemu/src/maps/heap_allocation.rs:237-268 | an arena rebuilt from a snapshot has the same fragments, and free lists and an index that agree with them |
| `GuestArena.Arena.Join` | crates/libmwemu/src/maps/heap_allocation.rs:449-534 | the four merge cases are one merge; free lists and index follow |
| `GuestArena.Arena.Free` | crates/libmwemu/src/maps/heap_allocation.rs:423-535 | the checks and the merge are a free on values at the offset cut to 32 bits |
| `GuestArena.FreesAlike` | crates/libmwemu/src/maps/heap_allocation.rs:424 | two addresses are freed alike if and only if they differ by a multiple of 4 GiB; within 4 GiB of the base the offset is exact |
| `GuestArena.Arena.Reallocate` | crates/libmwemu/src/maps/heap_allocation.rs:551-781 | the four cases are a reallocation on values, for addresses within 4 GiB of the base, and change nothing for others; it succeeds if and only if the block can be resized in place, into a neighbour or elsewhere, and copies if and only if it moves; what the arena keeps is broken if and only if it overruns |
| `TraceDiff.DiffMeaning` | scripts/trace_diff.py:254-293 | exit 0 if and only if the filtered key sequences are equal and no uncounted step trails either trace; a difference is reported iff there is one, and it is the first |
| `TraceDiff.ScriptMeaning` | scripts/trace_diff.py:234-293 | the same for the whole script, with both traces cut at the first step at the entry, or not at all if there is none |
| `TraceDiff.AlikeMeans` | scripts/trace_diff.py:127-157 | two steps compare equal if and only if they are as far from their bases modulo 2^64 and both are system calls, or neither is and their normalised bytes and mnemonics are equal |
| `TraceDiff.FullModeIsEquality` | scripts/trace_diff.py:254-293 | in full mode exit 0 is equality of the key sequences |
| `TraceDiff.TrailingStepFails` | scripts/trace_diff.py:283-289 | equal system-call sequences with one trailing other step exit with 1 |
| `TraceDiff.MovingChangesNothing` | scripts/trace_diff.py:127-157 | moving either trace and its base by a constant mod 2^64 changes no verdict |
| `TraceDiff.Compare` | scripts/trace_diff.py:254-293 | the two-pointer loop with its three exits |
| `TraceDiff.FindStart` | scripts/trace_diff.py:160-180 | the first step at the wanted RVA, or 0 |
| `TraceDiff.RunDiff` | scripts/trace_diff.py:234-293 | cutting both traces at the entry and comparing |
| `HexCodec.ContiguousBack` | crates/mwemu-mcp/src/util.rs:122-129 | contiguous hex decodes to the bytes |
| `HexCodec.SpacedBack` | crates/mwemu-mcp/src/util.rs:131-137 | spaced hex decodes to the bytes |
| `HexCodec.SeparatorsDoNotCount` | crates/mwemu-mcp/src/util.rs:94-102 | a separator anywhere contributes nothing: what is decoded is the digits on either side |
| `HexCodec.PrefixesDoNotCount` | crates/mwemu-mcp/src/util.rs:97-101 | a prefix on any token of any text contributes nothing |
| `HexCodec.DecodingFails` | crates/mwemu-mcp/src/util.rs:103-120 | decoding fails if and only if the remaining digits are odd in number or not all hex |
| `HexCodec.DecodeHex` | crates/mwemu-mcp/src/util.rs:94-120 | the token loop and the pair loop compute that decoding |
| `HexCodec.EncodeHex` | crates/mwemu-mcp/src/util.rs:122-129 | the loop prints two lower-case digits per byte |

## Left out

- Emulation proper (instruction engine, lazy flags, TLB, memory maps, loaders, serialization): the models treat memory as a parameter.
- C and Python bindings, the command line, the MCP transport, logging and the debugger console: wrappers and input/output.
- Linux driver: reading the cached channel with its id is one step, as is writing both; `tlm_do_create` is one step of the concurrent model, so the log line and reply it reads after unlocking are not separate steps; refcount saturation, the magic number (set once, never changed) and user-copy failures of the ioctl wrapper are not modelled.
- Runs that destroy a channel while it is cached: in the model of the device's data no call after it is modelled; `TlmDevice.Device.Destroy` states what happens to the cache invariant, and `TlmDestroy` what such a destroy leads to.
- macOS kext writes, its cache and its channel contents: they repeat the Linux encoders.
- TlmMac.RunKeeps: distinct ids are stated for runs in which the 32-bit id counter does not wrap.
- Script: how a text line becomes a command, and `resolve`, are left open; a malformed `if` is a command that returns.
- Script.MachineComputesMeaning: for scripts with loops the nesting rule is sufficient, not necessary; whether a stray jump shows depends on where commands stand, as `ScriptNesting.BeyondTheRule` shows, and the exact condition is given over all placements instead (`ScriptSkeleton.NestingIsExact`).
- Script.Interpreter.Run: is cut after a given number of turns, since a run need not end.
- Exceptions.Emu.Raise: the hook's answer, the console's answer and whether saving the context ends the process are parameters; a jump to a handler is an assignment to the program counter, without the checks of `set_rip_with_check` and `set_eip`; fault counting is not modelled.
- Seh: which image holds an address is a parameter; address sums wrap, as in a release build.
- Printf: a precision is read and ignored, as in the code; very large paddings do not run out of memory.
- StrConv: `parse_c_float` is host floating point; bases that make `to_digit` panic are excluded.
- Corpus: error messages are reduced to their line number; the capacity reserved from the counts is not modelled.
- StackLayout.Emu.WriteLayout: takes the argument list; assembling it from the file name and the configured text is not modelled, and addresses do not wrap.
- StackLayout.ReadsBackIff: on a stack above the 48-bit address space a pointer's bytes could happen to be those of the string it lands on.
- GuestHeap: the linked nodes are sequences; diagnostics other than the bytes in use, the minimum arena size and the two queries by address are not modelled; a subtraction of addresses wraps, as in a release build.
- GuestRuns.RunIsExact: says nothing about the operations after one that overruns.
- TraceDiff: reading and sniffing trace files, and the byte and mnemonic normalisers, are parameters.
- Sanitizer: Python's `isalnum` is a parameter; the checks that use the sanitized text are not modelled.
