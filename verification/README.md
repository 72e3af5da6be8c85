# A verified model of rpc-server

rpc-server keeps variables - numbers, or names of other variables - in a chained hash table, does
checked 64-bit arithmetic on them, writes every change to a text log that is replayed at start-up,
moves files in chunks, and hands connections to a pool of worker threads. This project models that
server in Dafny and proves what its parts promise, alone and together. `dafny verify dfyconfig.toml`
checks everything.

## What is modelled

- **Store.** `LinkedList` and `KeyValueStore` are the heap structures of rpckeyvaluestore.cpp:
  nodes, lists and buckets updated in place. Their invariant ties them to a map of variables: lists
  are acyclic, node-disjoint and as long as `num_items` says; each key lies in its own bucket only;
  `num_keys`, which also counts overwrites, is never below the number of keys. The hash is any
  function of the name whose results are bucket numbers.
- **Text.** `LogText` has `dprintf`, `fscanf("%[^'=']=%s\n")` (section 7.19.6.2 of ISO C99),
  `isnumber` and `strtol` as functions on byte strings, for every text: matching failures, missing
  fields, embedded zeros, clamped numbers. A field longer than its 32-byte buffer is a separate
  outcome (`Overrun`), since the C program has no defined behaviour from there on. `Listing` relates
  lists of records with distinct keys to maps, whatever their order.
- **Requests.** `Requests.Execute` is a pure evaluator without error numbers inside values.
  `Server` is the code with in-band errors on the real store, proved equal to it. `Resolution` is the
  bounded loop over names. A name of length 0 reaches the store as a NULL pointer, here `None`.
- **Life of a server.** `Durability` runs requests, loads, clears and restarts; `DumpFiles` treats
  dump files, which are opened without truncation. `Recovery` crosses durability with concurrency: what
  the log replays to at any moment of an interleaving of requests, loads and clears.
- **Concurrency.** `CriticalSections` and `Sections` take the sections under `kvs_mutex` apart - one store
  or log call per step for requests, one line read or written per step for loads - and `Serialisation`,
  `Recovery` and `Counters` interleave them. `Dispatch` interleaves the accept loop and the workers
  step by step, with spurious wake-ups, for any number of workers; `WorkerQueue` and `WorkerPool` are
  the linked queue and the code of the `main_mutex` sections on it. Connections are numbered in the
  order of accept; the server never closes a descriptor, so the number stands for it.
- **Wire.** `Wire`, `Receive`, `Framing`, `Encoding` and `FileTransfer` cover the integer conversions,
  receiving in chunks of any size, request framing and chunked file transfer.
- **Whole connections.** `Session` composes all of this for any stream of bytes: it is cut into requests,
  every request on variables, files, dumps, loads and clears is performed on the real store, log and
  files, and answered. The result is a relation between worlds (variables, log, files), because a dump
  may list the variables in any order. `SessionLaws` is what clients can rely on.
- **Laws.** `RequestLaws`, `VariableLaws`, `FileLaws` and `WireLaws` say what the functions above mean
  without naming them: operands and operations in plain arithmetic, files byte by byte, requests, answers
  and log lines in bytes, error numbers as the numbers of `<cerrno>`.

C's `/` and `%` truncate toward zero (section 5.6 of ISO C++11) and are written out as such. The
server's overflow re-checks, `(val_a + val_b) != EOVERFLOW` and the like, are read over unbounded
integers, because the C expressions are undefined in exactly the case they test for.

## Where the code does not do what one would expect

Each of these is proved, with the exact condition where there is one.

- INT64_MIN modulo -1 is refused with EOVERFLOW although its remainder, 0, fits (`ModRefusal`).
- ELOOP can blame a chain that has no cycle when the limit is small; from two more than the number of
  name-valued variables on it means a cycle (`LoopErrorMeansCycle`), and for each such number there is
  an acyclic chain that a limit of one more answers with ELOOP (`ShortLimitBlamesChain`).
- A result name of length 0 stores nothing and answers 2 (`ArithmeticReply`).
- A load whose last record about a variable deletes it, or that stops at a bad line after changing
  something, is undone by the next restart (`LoadDurability`, with inputs in `UnsafeLoad`,
  `DeletingLoadIsUndone` and `RefusedLoadIsUndone`).
- After a clear, changes are lost until the next start: the new log descriptor is assigned to a
  parameter (`DurabilityOfRuns`, `ClearLosesLaterWork`).
- A dump over a longer file leaves that file's tail behind the dump (`DumpThenLoadExact`).
- A read past the end of a file announces more bytes than it sends (`ReadPastEndOverstates`).
- A read of more than 4096 bytes whose last chunk begins behind the end of the file goes wrong in one of two
  ways. If some chunk begins right at the end of the file, the loop never ends (`ReadEndsExactly`, with a
  request in `NeverEndingRead`). Otherwise a negative count is passed to send as a length, and the loop
  ends with the last chunk or when its 8-bit counter is back at 1 (`CutShortRead`). All other reads are
  answered as they should be (`SupportedRead`, `ReadSupportedExact`).
- A write is given up at its first chunk that cannot be written. The data behind that chunk stay in the
  stream and are taken for requests, unless it is the last chunk (`DataFront`).
- The size of a missing file is answered with 13 bytes, like that of a file that is there
  (`ServeSize`).
- Variables dumped, cleared and loaded again are there, but not in log.txt (`BackupAndRestore`).
- A bad line in the log hides everything behind it from every later start (`StartStopsAtBadLine`).
- A last line without a value sets its variable to 0 (`NoValueIsZero`).
- A crash in the middle of the dump behind a load leaves a log that has some variables as before the load
  and some as behind it (`MixedCrash`); nothing else can be left (`CrashRecovery`).

The repository's README.md gives 64 as the default number of buckets; rpcmain.cpp:48 has 32. Nothing
here depends on it.

## Model

| member | source | states |
|---|---|---|
| CheckedMath.TruncatedDivision | rpcmath.cpp:61-88 | quotient and remainder recompose the dividend, the remainder is below the divisor and is zero or has the dividend's sign |
| CheckedMath.AddChecked | rpcmath.cpp:6-14 | the sum when it fits 64 bits, 75 otherwise |
| CheckedMath.SubChecked | rpcmath.cpp:17-25 | the difference when it fits, 75 otherwise |
| CheckedMath.MulOverflowExact | rpcmath.cpp:33-53 | the four sign cases of truncating division hold exactly when the product does not fit |
| CheckedMath.MulChecked | rpcmath.cpp:28-58 | the product when it fits, 75 otherwise |
| CheckedMath.DivideChecked | rpcmath.cpp:61-73 | 22 for a zero divisor, the truncated quotient when it fits, 75 otherwise |
| CheckedMath.ModChecked | rpcmath.cpp:76-88 | 22 for a zero divisor, the remainder when the quotient fits, 75 otherwise |
| CheckedMath.RecheckExact | rpcserver.cpp:291-296 | with no earlier error, the re-checked status and in-band result are those of exact arithmetic, genuine results 22 and 75 included |
| CheckedMath.RecheckKeepsError | rpcserver.cpp:618-625 | an earlier error survives the re-check except for the operands INT64_MIN and -1 of divide and mod |
| CheckedMath.RecheckAfterLookups | rpcserver.cpp:732-739 | behind operand lookups an operand error is never masked by an arithmetic one |
| CheckedMath.ModRefusal | rpcmath.cpp:81-83 | mod refuses exactly INT64_MIN and -1, whose remainder would fit |
| LogText.IsNumber | rpckeyvaluestore.cpp:14-31 | accepts exactly digits behind an optional minus sign, the empty string and a lone minus included |
| LogText.PrintedNumber | rpckeyvaluestore.cpp:540 | every int64 prints as at most 20 bytes that count as a number and convert back to it |
| LogText.CheckKey | rpckeyvaluestore.cpp:659-681 | a key passes exactly when it is a valid name |
| LogText.CheckWord | rpckeyvaluestore.cpp:687-707 | a value that is no number passes exactly when it starts with a letter or a tilde and goes on with name characters |
| LogText.FieldShape | rpckeyvaluestore.cpp:532-543 | a printed field holds no space or zero, fits the buffer, and decodes to its own record: numbers, names and the delete mark are told apart |
| LogText.ScanPrinted | rpckeyvaluestore.cpp:658 | one fscanf call takes exactly one printed line apart, whatever the buffers held |
| LogText.ReadPrintedThen | rpckeyvaluestore.cpp:658-718 | printed records are read back in order and reading goes on with the text behind them |
| LogText.ReadPrinted | rpckeyvaluestore.cpp:643-721 | any list of valid records, printed and read, is the same list; loading it applies the records one after another |
| LogText.BadLineStops | rpckeyvaluestore.cpp:658-661 | a line without a key is where reading stops: what is in front of it counts, what is behind it is not read |
| LogText.Read | rpckeyvaluestore.cpp:659-713 | whatever the text, every record the loader accepts has a valid key and a valid name or number |
| LogText.ReadNoTilde | rpckeyvaluestore.cpp:709-713 | a text without a tilde deletes nothing |
| Listing.ApplyOverrides | rpckeyvaluestore.cpp:614-627 | applying a dump's lines overrides the loaded-into map by the dumped one, independent of order |
| LinkedList.List.Find | rpckeyvaluestore.cpp:112-124 | finds the node of a key exactly when the list's map has the key, and the node means the mapped value |
| LinkedList.List.InsertName | rpckeyvaluestore.cpp:235-252 | the list's map gets the key with a name, other entries unchanged, list still well-formed |
| LinkedList.List.InsertValue | rpckeyvaluestore.cpp:260-277 | the list's map gets the key with a number, other entries unchanged, list still well-formed |
| LinkedList.List.Delete | rpckeyvaluestore.cpp:284-312 | status tells whether the key was there; exactly its node is unlinked and num_items stays the length |
| LinkedList.List.Unlink | rpckeyvaluestore.cpp:299-308 | the scan to the end of the list unlinks exactly one node, keys being distinct |
| KeyValueStore.MakeLists | rpckeyvaluestore.cpp:342-345 | as many distinct empty lists as buckets |
| KeyValueStore.Store.constructor | rpckeyvaluestore.cpp:337-348 | an empty store with any positive number of buckets, invariant established |
| KeyValueStore.Store.KeyCheck | rpckeyvaluestore.cpp:399-410 | agrees with the map; ENOENT for a NULL key |
| KeyValueStore.Store.FlagLookup | rpckeyvaluestore.cpp:447-454 | agrees with the map's kind of value; ENOENT in-band |
| KeyValueStore.Store.ValueLookup | rpckeyvaluestore.cpp:432-439 | the map's number, ENOENT or EFAULT in-band |
| KeyValueStore.Store.NameLookup | rpckeyvaluestore.cpp:418-425 | the map's name, NULL for a number or a missing key |
| KeyValueStore.Store.InsertName | rpckeyvaluestore.cpp:463-472 | the map is updated at the key, invariant kept; nothing for a NULL key |
| KeyValueStore.Store.InsertValue | rpckeyvaluestore.cpp:481-490 | the map is updated at the key, invariant kept; nothing for a NULL key |
| KeyValueStore.Store.InsertInBucket | rpckeyvaluestore.cpp:468-470 | one bucket's list changes and the map follows; num_keys counts overwrites too |
| KeyValueStore.Store.DeleteKey | rpckeyvaluestore.cpp:498-508 | the key leaves the map, status ENOENT if it was not there, num_keys goes down without underflow |
| KeyValueStore.Store.DeleteFromBucket | rpckeyvaluestore.cpp:502-507 | only the key's bucket loses a node, and it is the key's |
| KeyValueStore.Store.OthersKept | rpckeyvaluestore.cpp:502-503 | an operation on one bucket's list leaves all other buckets as they were |
| KeyValueStore.Store.Dump | rpckeyvaluestore.cpp:571-584 | the text prints a list of records that names every variable once and stands for the whole map |
| KeyValueStore.Store.DumpList | rpckeyvaluestore.cpp:616-626 | one bucket's nodes are printed in list order |
| KeyValueStore.Store.Load | rpckeyvaluestore.cpp:750-810 | for every text and buffer content the store ends as the text's records say; EINVAL at the first bad line, earlier lines applied |
| KeyValueStore.Store.LoadLine | rpckeyvaluestore.cpp:659-714 | one line is applied as its record, or refused with nothing changed |
| KeyValueStore.Store.Clear | rpckeyvaluestore.cpp:875-893 | every bucket ends with no head and num_items 0, and the map is empty |
| KeyValueStore.Store.ClearBucket | rpckeyvaluestore.cpp:886-889 | deleting each visited node by key empties the walked bucket and no other |
| Resolution.ResolveExact | rpcserver.cpp:231-249 | a chain of n links gives the number its end holds, or ENOENT when its end is no variable, if n + 1 is below the limit; every other start gives ELOOP |
| Resolution.LoopErrorMeansCycle | rpcserver.cpp:237-249 | with a limit of at least two more than the name-valued variables, ELOOP exactly for cyclic chains |
| Resolution.CycleHasNoEnd | rpcserver.cpp:233-237 | a chain that visits a key twice never reaches a number or a missing name |
| Resolution.ShortLimitBlamesChain | rpcserver.cpp:247-249 | for every k there is an acyclic chain over k name-valued variables that the limit k + 1 answers with ELOOP and the limit k + 2 with its number |
| StoreCalls.CallsAgree | rpckeyvaluestore.cpp:399-454 | the four lookups tell a number, a name, a missing variable and NULL apart in the same way |
| Requests.ExecuteLogsWhatItDoes | rpcserver.cpp:298-303 | a request changes the map by exactly the valid records it logs, at most one; a failed request changes neither |
| Requests.ArithmeticReply | rpcserver.cpp:298-303 | an error reply is the first error; the value reply is the evaluator's except for a NULL result name, where it is 2 |
| Requests.ErrorsAreErrors | rpcserver.cpp:223-255 | an operand fails only with ENOENT, EFAULT or ELOOP |
| RequestLaws.OperandMeaning | rpcserver.cpp:223-255 | an operand gives a number exactly when it is one, its variable holds one, or its chain of names reaches a variable that does; otherwise ENOENT, EFAULT or ELOOP, each exactly for its reason |
| RequestLaws.OperationMeaning | rpcmath.cpp:6-88 | each operation is a + b, a - b, a * b, or quotient and remainder with the remainder below the divisor and of the dividend's sign; refused exactly for zero divisors and results that do not fit |
| RequestLaws.GivesOne | rpcmath.cpp:6-88 | these conditions leave one result |
| RequestLaws.ArithmeticAnswered | rpcserver.cpp:216-315 | an arithmetic request answers that result and keeps it, with its line in the log, where it is asked to; refused, it changes nothing |
| RequestLaws.OperandRefused | rpcserver.cpp:223-290 | an operand without a number is the answer, a before b, and nothing changes |
| RequestLaws.MissingEnd | rpcserver.cpp:242-245 | a chain that ends in a missing variable gives ENOENT, as operand a and as operand b |
| RequestLaws.BadNameRefused | rpcserver.cpp:119-137 | a request with a bad name gives EINVAL and changes nothing |
| RequestLaws.NameBytes | rpcserver.cpp:119-137 | the characters and lengths of names, in bytes |
| RequestLaws.SetAnswered | rpcserver.cpp:808-825 | a set gives the variable that name and leaves the line k=name; ENOENT for NULL |
| RequestLaws.DeleteAnswered | rpcserver.cpp:837-845 | a delete removes exactly that variable and leaves the line k=~; ENOENT and no change for a missing one or NULL |
| RequestLaws.GetAnswered | rpcserver.cpp:771-788 | a get answers the name held, EFAULT for a number, ENOENT for a missing variable or NULL |
| RequestLaws.LineBytes | rpckeyvaluestore.cpp:536-540 | the bytes of each kind of log line |
| RequestLaws.PrintedDecimal | rpckeyvaluestore.cpp:540 | numbers are logged in decimal, without leading zeros, a minus sign in front of negative ones |
| RequestLaws.NumberRead | rpckeyvaluestore.cpp:684 | digits are read as the number they spell, clamped to 64 bits |
| RequestLaws.BlanksAreSkipped | rpckeyvaluestore.cpp:658 | white space in front of a value and behind it does not matter |
| RequestLaws.OverlongField | rpckeyvaluestore.cpp:651-658 | a field of 32 bytes or more does not fit its buffer, and nothing is said from there on |
| RequestLaws.TildeDeletes | rpckeyvaluestore.cpp:709-710 | a value that begins with a tilde deletes, whatever name characters are behind it |
| RequestLaws.QuoteEndsKey | rpckeyvaluestore.cpp:658 | a quote ends a key as an equals sign does, but nothing behind it is read |
| RequestLaws.NoValueIsZero | rpckeyvaluestore.cpp:683-685 | a last line without a value sets its variable to 0 |
| Server.Server.Start | rpcmain.cpp:129-130 | start-up replays the log on disk into an empty store, whatever the replay's status |
| Server.Server.LookUp | rpcserver.cpp:223-255 | in-band lookups give exactly the operand's value or error; a failed one leaves 0 or 2 behind |
| Server.Server.Chase | rpcserver.cpp:231-249 | the do/while loop and the re-check behind it give the resolution's outcome, genuine values 2 included |
| Server.Server.Compute | rpcserver.cpp:216-315 | store, log and reply of an arithmetic request are the evaluator's: operand a, operand b, operation, then store |
| Server.Server.KeepResult | rpcserver.cpp:298-303 | the result is stored, logged and re-read; a NULL name stores and logs nothing and re-reads 2 |
| Server.Server.LogInsert | rpckeyvaluestore.cpp:518-546 | one line at the end of the log, none for a NULL key |
| Server.Server.GetVariable | rpcserver.cpp:771-788 | the name a variable holds, ENOENT, or EFAULT for a number; nothing changes |
| Server.Server.SetVariable | rpcserver.cpp:808-825 | store, log and reply of a set request are the evaluator's |
| Server.Server.DeleteVariable | rpcserver.cpp:830-851 | store, log and reply of a delete request are the evaluator's |
| Server.Server.LoadVariables | rpcserver.cpp:1072-1075 | a complete load is followed by a dump of the whole store into the log, a refused one by nothing |
| Server.Server.DumpVariables | rpcserver.cpp:1054 | the file begins with a dump of the whole map; an older, longer file keeps its tail |
| Server.Server.ClearVariables | rpcserver.cpp:1092-1095 | the store and log.txt are empty and the log descriptor is detached from log.txt |
| Server.Server.ServeClear | rpcserver.cpp:1085-1102 | clears exactly for the magic number 0x0badbad0; otherwise EINVAL and nothing changes |
| Durability.LoggedIsDurable | rpckeyvaluestore.cpp:643-721 | under the log invariant a replay gives the live map exactly when the log is attached or there is nothing to lose |
| Durability.ServeKeepsLogged | rpcserver.cpp:298-303 | every request on variables keeps the log invariant |
| Durability.LogAfterLoad | rpckeyvaluestore.cpp:555-587 | the log after a load replays to the old variables overridden by those now in the store |
| Durability.ApplyLast | rpckeyvaluestore.cpp:801-805 | records leave behind what the last one about each variable says |
| Durability.LoadChanges | rpckeyvaluestore.cpp:750-810 | however a load ends, the variables are what its records make of the old ones, with valid names |
| Durability.LoadDurability | rpcserver.cpp:1072-1075 | a load keeps the server durable exactly when, read to its end, the file's last record about no variable of the store deletes it, and, stopped at a bad line, every last record says what the store says already |
| Durability.LoadSafeMeans | rpcserver.cpp:1072-1075 | in terms of the result: a complete load loses no variable, a refused one changes none |
| Durability.DeletingLoadIsUndone | rpckeyvaluestore.cpp:801-802 | loading a line that deletes a variable of the store takes it away, and a restart brings it back |
| Durability.UnsafeLoad | rpckeyvaluestore.cpp:801-802 | a concrete unsafe load: a server that holds x = 1 loads the line that deletes x, and its log still replays to x = 1 |
| Durability.RefusedLoadIsUndone | rpcserver.cpp:1072-1075 | loading an assignment and a bad line behind it makes the assignment, and a restart takes it back |
| Durability.TildeFreeLoadIsSafe | rpckeyvaluestore.cpp:801-805 | a tilde-free file read to its end is such a load |
| Durability.RestartKeepsLogged | rpcmain.cpp:125-130 | a restart of an attached server changes nothing, and any restart attaches the log |
| Durability.StartIsLogged | rpcmain.cpp:125-130 | a server started on any log of printed valid records satisfies the log invariant |
| Durability.StartStopsAtBadLine | rpcmain.cpp:125-130 | a start keeps what is in front of a bad line of the log and never sees what is behind it |
| Durability.RunIsLogged | rpckeyvaluestore.cpp:518-587 | the log invariant holds at every moment of every run, and the log is attached exactly when no clear is waiting for a restart |
| Durability.StepKeepsLogged | rpckeyvaluestore.cpp:518-587 | every step but an unsafe load keeps the log invariant |
| Durability.DurabilityOfRuns | rpckeyvaluestore.cpp:643-721 | over every run with safe loads, replaying log.txt gives the live variables exactly when no clear is pending or the store is empty |
| Durability.DurabilityOfPlainRuns | rpckeyvaluestore.cpp:643-721 | the same for every run whose loaded files hold no tilde and are read to their end, whatever the scan buffers held; nothing is asked of states |
| Durability.PlainTextIsSafe | rpckeyvaluestore.cpp:750-810 | such a file is a safe load into any store |
| Durability.DumpIsPlain | rpckeyvaluestore.cpp:606-627 | every dump is such a file, whatever its order |
| Durability.RestartIsInvisible | rpcmain.cpp:129-130 | without clears every moment of a run is durable and restarts change nothing |
| Durability.ClearLosesLaterWork | rpckeyvaluestore.cpp:853-867 | a variable set after a clear is gone after a restart |
| DumpFiles.DumpThenLoad | rpckeyvaluestore.cpp:606-627 | loading the dump of s into t gives t overridden by s, for every order of lines, if the file was not longer than the dump |
| DumpFiles.DumpThenLoadExact | rpckeyvaluestore.cpp:606-607 | the round trip works for all old files of a length exactly when that length is at most the dump's |
| CriticalSections.MicroAdvances | rpcserver.cpp:219-307 | each step of a section brings it nearer its end |
| CriticalSections.FollowRuns | rpcserver.cpp:231-249 | the steps of the name loop amount to the resolution |
| CriticalSections.OperandRuns | rpcserver.cpp:223-255 | the steps of an operand lookup amount to the operand's evaluation |
| CriticalSections.OperateRuns | rpcserver.cpp:291-303 | the steps behind the operands amount to re-check, store, log and re-read |
| CriticalSections.NameSectionRuns | rpcserver.cpp:809-851 | the steps of a set or delete section amount to one evaluation of the request |
| CriticalSections.SectionIsRequest | rpcserver.cpp:218-307 | a section run without interruption is one evaluation of its request: store, log and reply |
| Sections.ActAdvances | rpcserver.cpp:1066-1097 | each step of a request, load or clear section brings it nearer its end |
| Sections.AskToEnd | rpcserver.cpp:218-307 | a request's section does the same to the variables and answers the same whether or not the log descriptor is attached |
| Sections.ApplyingToEnd | rpckeyvaluestore.cpp:750-810 | the lines of a load, one by one, amount to all its records |
| Sections.DumpingToEnd | rpckeyvaluestore.cpp:571-584 | the lines of the dump behind a load, one by one, amount to the whole dump |
| Sections.SectionIsEffect | rpcserver.cpp:1066-1097 | a request, load or clear section run without interruption does exactly what its effect says: variables, log, reply |
| Sections.LoadIsStep | rpcserver.cpp:1072-1075 | the effect of a load is the step the durability results are about, and its reply says how it ended |
| Sections.OtherIsStep | rpcserver.cpp:1084-1096 | so are those of requests and clears; a clear leaves no variable, an empty log and a detached descriptor |
| Serialisation.InvStep | rpcserver.cpp:218-307 | every step of any thread keeps mutual exclusion and the agreement with the serial execution |
| Serialisation.SectionsSerialise | rpcserver.cpp:218-307 | every interleaving of request, load and clear sections gives the variables, log and replies of running them in lock-acquisition order |
| Recovery.MicroLogsAtOnce | rpcserver.cpp:298-303 | a step of a section leaves the log alone or brings it to what it is at the section's end |
| Recovery.AskLogs | rpcserver.cpp:298-303 | inside a request's section the log is the one before it or the one behind it |
| Recovery.LogKept | rpckeyvaluestore.cpp:555-587 | every step of a section keeps the log where its stage says: before, behind, or some lines of the dump behind |
| Recovery.LogInOrderStep | rpcserver.cpp:218-307 | so does every step of any thread |
| Recovery.EffectKeepsLogged | rpcserver.cpp:1066-1097 | requests, loads of plain files and clears keep the log invariant |
| Recovery.PartOfDump | rpckeyvaluestore.cpp:571-584 | a log with some lines of a dump behind it replays to a map in which each variable is as before or as dumped |
| Recovery.MixedCrash | rpckeyvaluestore.cpp:571-584 | x and y are 1 and a load sets both to 2: a crash behind the first line of its dump leaves x as 2 and y as 1 |
| Recovery.CrashRecovery | rpckeyvaluestore.cpp:643-721 | at every moment of every interleaving of requests, plain loads and clears, the log replays to the serial execution with or without the last, unanswered section - variable by variable if that is a load -, and to the live variables whenever the mutex is free and the log attached |
| Counters.SerialCounter | rpcserver.cpp:216-315 | a serial run of increments adds the amounts of exactly those answered with a number |
| Counters.RoomForAll | rpcmath.cpp:6-14 | with room for all increments and all decrements no order of them overflows |
| Counters.RoomIsExact | rpcmath.cpp:6-14 | that room is exactly what it takes for every order to answer every request with a number |
| Counters.NoLostIncrements | test.sh:3-10 | concurrent increments: x grows by the amounts of exactly the requests answered with a number |
| Counters.AnsweredAddUp | test.sh:3-10 | if every request was answered with a number, x ends at its old value plus the sum of all amounts, room or no room |
| Counters.CounterEndsAtSum | test.sh:3-10 | with room for all, every request succeeds and x ends there |
| WorkerQueue.Queue.FindNode | rpcqueue.cpp:38-50 | finds a node exactly when the value is queued |
| WorkerQueue.Queue.Enqueue | rpcqueue.cpp:87-109 | an absent value is appended, a present one changes nothing; front, back and num_items stay consistent |
| WorkerQueue.Queue.Dequeue | rpcqueue.cpp:112-135 | the oldest value leaves the queue; -1 and no change for an empty queue |
| WorkerQueue.FirstInFirstOut | rpcqueue.cpp:87-135 | over every run, values out followed by values left are values at first followed by values appended, and no value is queued twice |
| WorkerPool.Pool.constructor | rpcmain.cpp:139-162 | the set-up loop makes the machine's initial queue and `cl` fields |
| WorkerPool.Pool.HandOver | rpcmain.cpp:183-185 | in every state the invariant allows, dequeue and the write to `cl` are the machine's two steps, on a free worker that exists |
| WorkerPool.Pool.Requeue | rpcserver.cpp:1149 | the worker's enqueue is the machine's step, and the id was not queued before |
| Dispatch.InitialInv | rpcmain.cpp:138-168 | the initial state satisfies the invariant for any number of workers |
| Dispatch.DequeueFinds | rpcmain.cpp:183 | with a permit in hand the queue is not empty, so dequeue never answers -1 |
| Dispatch.CountedStep | rpcserver.cpp:1145-1155 | queue length stays semaphore plus main's permit plus workers between enqueue and sem_post |
| Dispatch.WorkersStep | rpcserver.cpp:1116-1156 | queued workers are free and resting, busy ones hold their connection, through every step |
| Dispatch.ConnectionsAfterWorker | rpcserver.cpp:1143 | the unlocked reset of `cl` and all other worker steps keep every unfinished connection in its worker's `cl` |
| Dispatch.ConnectionsAfterMain | rpcmain.cpp:175-191 | main's steps hand each accepted connection to one worker |
| Dispatch.InvStep | rpcserver.cpp:1116-1156 | every step of any thread keeps the invariant |
| Dispatch.DispatchSafety | rpcmain.cpp:175-191 | in every reachable state: counts agree, dequeue finds a free worker, each connection is main's or handed to one worker whose `cl` holds it until it is through, and only that worker serves it |
| Dispatch.HandedOnce | rpcmain.cpp:183-186 | a connection handed over is never handed to another worker |
| Dispatch.NoLostWakeUp | rpcserver.cpp:1117-1128 | a parked worker is free and queued unless main is just handing to it under the mutex; main never waits for a permit while all workers are parked |
| Dispatch.SomeThreadCanGoOn | rpcserver.cpp:1116-1156 | no deadlock: a thread can take a step of its own, or the server has settled |
| Dispatch.InternalStepsRunOut | rpcserver.cpp:1116-1156 | each step a thread takes by itself lowers a rank |
| Dispatch.Settling | rpcserver.cpp:1116-1156 | without clients and spurious wake-ups, n workers and main settle within 8n + 24 steps under any scheduling |
| Dispatch.SettledServer | rpcmain.cpp:175-191 | when settled, each connection handed over and not finished is being served, and main waits only if all workers are serving |
| Wire.FromBigEndian | rpcconvert.cpp:50-64 | big-endian bytes of a number in range read back as the number |
| Wire.FromBytesBound | rpcconvert.cpp:67-84 | bytes read as a number stay in range and are the number's bytes again |
| Wire.SignedRoundTrip | rpcio.cpp:219-222 | a signed result survives the wire in two's complement |
| Wire.Uint8ToWire | rpcconvert.cpp:6-12 | one byte written, all others unchanged |
| Wire.Uint16ToWire | rpcconvert.cpp:24-33 | two big-endian bytes written, all others unchanged; nothing for a bad range |
| Wire.WireToUint16 | rpcconvert.cpp:36-47 | the number the two bytes spell |
| Wire.UintToWire | rpcconvert.cpp:87-101 | four or eight big-endian bytes written, all others unchanged, the 8-bit shift wrapping only after the last |
| Wire.WireToUint | rpcconvert.cpp:104-121 | the number the bytes spell, the running result never wrapping |
| Wire.StringToWire | rpcconvert.cpp:124-137 | the bytes copied, all others unchanged |
| Wire.WireToString | rpcconvert.cpp:140-157 | the bytes copied, with a terminating zero behind them if asked for |
| Wire.SetHeader | rpcio.cpp:212-216 | identifier and status in bytes 0 to 4, all others unchanged |
| Wire.SetResult | rpcio.cpp:219-222 | the result in bytes 5 to 12, all others unchanged |
| Wire.SetNumBytes | rpcio.cpp:237-240 | the length in bytes 5 and 6, all others unchanged |
| Wire.Answer | rpcserver.cpp:317-324 | 13 bytes with the result for success, 5 for an error |
| Wire.AnswerRoundTrip | rpcserver.cpp:317-324 | identifier, status and signed result can be read back from an answer |
| Receive.RecvLoop | rpcio.cpp:155-173 | however recv cuts the stream, exactly the wanted bytes, or all there are, arrive in the buffer and leave the stream |
| Receive.RecvUint8 | rpcio.cpp:24-50 | the next byte |
| Receive.RecvUint16 | rpcio.cpp:53-79 | the number in the next two bytes |
| Receive.RecvUint32 | rpcio.cpp:82-108 | the number in the next four bytes |
| Receive.RecvUint64 | rpcio.cpp:111-137 | the number in the next eight bytes |
| Receive.RecvString | rpcio.cpp:177-209 | the next bytes copied, terminated if asked for; lengths of 0 or above the buffer size are taken off the stream and dropped |
| Framing.CheckCharacters | rpcserver.cpp:119-137 | passes exactly a letter followed by letters, digits and underscores, and the empty string |
| Framing.RecvName | rpcserver.cpp:113-117 | a name for a length of 1 to 31, NULL otherwise, taken off the stream exactly |
| Framing.RecvArguments | rpcserver.cpp:110-211 | operands, result name and status as the opcode's flag bits say |
| Framing.RecvFileName | rpcserver.cpp:857-859 | a file name behind its 16-bit length, and whether all of it arrived |
| Framing.CutOffName | rpcserver.cpp:857-861 | when the client hangs up in a file name, the size behind it reads as 0 |
| Framing.RecvCommand | rpcserver.cpp:99-214 | the request the header and stream hold, taken off the stream up to a write's data |
| Framing.TakeData | rpcserver.cpp:954-1021 | the data a write takes leave the stream, and the files that create and dump open with O_CREAT are there |
| Framing.ServeConnection | rpcserver.cpp:1133-1141 | the requests of a whole stream, as long as 6 header bytes arrive and each request ends, however recv cuts it; how much a write takes depends on the files there are when it is reached |
| Encoding.OpcodeBits | rpcserver.cpp:107-211 | the flag bits of a canonical opcode select exactly its arguments, operation and recursion |
| Encoding.FlagBits | rpcserver.cpp:99-107 | each flag bit of an opcode 0x1XX can be read on its own |
| Encoding.VariablesFront | rpcserver.cpp:107-211 | an encoded request on variables is read back, with the status its names deserve, and nothing more is taken |
| Encoding.WriteFront | rpcserver.cpp:955-959 | an encoded write is read back, and the stream is left at its data |
| Encoding.ReadFront | rpcserver.cpp:856-861 | an encoded read request is read back, and nothing more is taken |
| Encoding.BodyFront | rpcserver.cpp:99-214 | every canonical request is read back, and the stream is left at its data, if any, and the next request |
| Encoding.FirstOfEncoded | rpcserver.cpp:1133-1141 | the same with the header in front |
| Encoding.DataFront | rpcserver.cpp:963-987 | the data of a write, and nothing else, are taken exactly when the file is there and the last chunk but one begins at an offset lseek accepts, or there is only one chunk |
| Encoding.UploadInStep | rpcserver.cpp:1012-1016 | creating a file and writing up to 65535 bytes to it on the same connection stays in step |
| Encoding.FramingRoundTrip | rpcserver.cpp:1133-1141 | any concatenation of encoded requests, each in step with the files there are by then, is read back as the same requests in order |
| FileTransfer.Files.ReadAt | rpcfile.cpp:14-54 | the bytes from the offset on, as many as there are; -EINVAL behind the end |
| FileTransfer.Files.WriteAt | rpcfile.cpp:57-84 | the file is spliced at the offset; -ENOENT for a missing file, -EINVAL for an offset above INT64_MAX |
| FileTransfer.Files.Create | rpcfile.cpp:87-102 | an empty file for a new name; EEXIST for a file that is there, ENOENT for the empty name |
| FileTransfer.SpliceTwice | rpcserver.cpp:970-981 | two adjacent chunks written are one splice |
| FileLaws.SpliceAt | rpcfile.cpp:62-73 | every byte of a written file: new in the range written, old outside it, zero in a gap |
| FileTransfer.ServeRead | rpcserver.cpp:862-950 | the answer is exactly the header, the announced size and the slice, up to the end of the file, or the error header; only a read that gives send a negative length leaves open what is sent |
| FileTransfer.ReadRound | rpcserver.cpp:874-913 | the body of the chunk loop does to its locals and the connection what one round says |
| FileTransfer.ReadChunks | rpcserver.cpp:870-913 | the loop runs the rounds to their end, within 257, and for a supported read has then sent the answer once |
| FileTransfer.FullRounds | rpcserver.cpp:876-882 | the state of the loop after any number of full chunks |
| FileTransfer.SupportedRead | rpcserver.cpp:870-913 | when no later chunk begins behind the end of the file the rounds end, no length is negative and exactly the answer has been sent |
| FileTransfer.StuckNeverEnds | rpcserver.cpp:876-913 | when a chunk but the last begins right at the end of the file, no number of rounds ends the loop |
| FileTransfer.CutShortRead | rpcserver.cpp:890-913 | in the remaining case the rounds end within 257, and send has been given a negative length |
| FileTransfer.ReadEndsExactly | rpcserver.cpp:870-913 | the loop never ends exactly for stuck reads |
| FileTransfer.ReadSupportedExact | rpcserver.cpp:870-913 | the loop ends without giving send a negative length exactly for supported reads |
| FileTransfer.NeverEndingRead | rpcserver.cpp:876-913 | 8193 bytes from offset 8192 of a file of 12288: accepted, and never at its end |
| FileTransfer.ReadAnswerIsSlice | rpcserver.cpp:897-910 | a read that fits the file is announced at its length and carries exactly those bytes |
| FileTransfer.ReadPastEndOverstates | rpcserver.cpp:897-933 | a read sends what it announces exactly when it does not run past the end |
| FileTransfer.ServeWrite | rpcserver.cpp:960-1005 | file, status and stream for every write: chunks up to the first that cannot be written reach the file, a chunk the client hangs up in is filled with zeros and is the last |
| FileTransfer.WriteChunks | rpcserver.cpp:963-987 | the same for more than one chunk |
| FileTransfer.WriteEnds | rpcserver.cpp:969-987 | where the chunk loop ends: at a refused chunk, the last one, or the one the client hangs up in |
| FileTransfer.SeekableAt | rpcfile.cpp:66-69 | the offsets of chunks that lseek accepts are those up to INT64_MAX |
| FileTransfer.FullWrite | rpcserver.cpp:963-987 | a write that all arrives and stays below the largest offset splices the file, succeeds and takes exactly its data |
| Session.Perform | rpcserver.cpp:216-856 | each request on variables does to the server what the evaluator says |
| Session.SendReply | rpcserver.cpp:796-806 | the reply's bytes, whichever kind it is |
| Session.ServeSize | rpcserver.cpp:1027-1042 | 13 bytes: header and size, or ENOENT and zeros |
| Session.ServeOnFiles | rpcserver.cpp:856-1044 | each request on files changes the files, takes its data off the stream and is answered as its step says |
| Session.ServeDump | rpcserver.cpp:1054 | the file gets a dump of all variables, its tail kept; EEXIST for the empty name |
| Session.ServeLoad | rpcserver.cpp:1072-1075 | variables and log after a load, whatever its outcome; EINVAL for a missing file |
| Session.ServeOnStore | rpcserver.cpp:1045-1107 | dump, load and clear change variables, log and files and are answered as their steps say |
| Session.StepKeeps | rpcserver.cpp:1133-1141 | every request keeps names valid, and exactly create and dump add a file |
| Session.ServeNext | rpcserver.cpp:1135-1140 | one request of any kind, whatever bytes it is made of, is read, performed and answered, and the stream is left where the next begins |
| Session.ServeClient | rpcserver.cpp:1133-1141 | a whole connection, for any stream of bytes: variables, log, files and reply bytes are those of its requests performed one after another, however recv cuts the stream |
| SessionLaws.TraceCommands | rpcserver.cpp:1133-1141 | the requests performed on a connection are the ones the framing reads from its stream |
| SessionLaws.PacketsServed | rpcserver.cpp:1133-1141 | a client that sends encoded requests in step gets each of them performed, in order, on the data it has sent, and nothing else |
| SessionLaws.PacketSupported | rpcserver.cpp:856-1107 | an encoded request is supported unless it is a stuck read or loads a file that is not plain |
| SessionLaws.PayloadWritten | rpcserver.cpp:963-987 | a write in step reaches the file in full, or up to a last chunk behind the largest offset, with EINVAL |
| SessionLaws.CommandKeepsLogged | rpcserver.cpp:1045-1107 | every request keeps the log invariant unless it is an unsafe load; exactly a clear detaches the log |
| SessionLaws.SessionDurability | rpcserver.cpp:1133-1141 | after each request of a session a restart would find the variables exactly when nothing has been cleared or there is nothing to lose |
| SessionLaws.TidySessionDurability | rpcserver.cpp:1133-1141 | the same with nothing asked of variables: plain files at first, no writes, and dumps to new files only |
| SessionLaws.WriteThenRead | rpcserver.cpp:856-1011 | what a client writes to a file it reads back, announced at its length, in whatever number of chunks |
| SessionLaws.BackupAndRestore | rpcserver.cpp:1045-1107 | dump, clear and load give the same variables again and success, in a server whose log no longer keeps them |
| SessionLaws.DumpAndReload | rpcserver.cpp:1045-1083 | dump to a new file and load without a clear change no variable, and the server stays durable |
| SessionLaws.ClearedNameIsGone | rpcserver.cpp:1084-1096 | a name that is set is answered with ENOENT after a clear |
| VariableLaws.StepOfRequest | rpcserver.cpp:317-324 | status, number in two's complement or name, in the bytes of the answer; the log grows only while its descriptor is attached |
| VariableLaws.ArithmeticReplied | rpcserver.cpp:216-315 | an arithmetic request in bytes: 13 with the plain result, or 5 with the reason |
| VariableLaws.GetReplied | rpcserver.cpp:771-806 | a get in bytes: the length and characters of the name held, 14 for a number, 2 for a missing variable or NULL |
| VariableLaws.SetReplied | rpcserver.cpp:808-829 | a set: exactly that variable, exactly its line |
| VariableLaws.SetThenGet | rpcserver.cpp:771-829 | a name that is set is answered, byte by byte |
| VariableLaws.DeleteReplied | rpcserver.cpp:830-855 | a delete: exactly that variable, exactly its line, or 2 and nothing |
| VariableLaws.DeletedIsGone | rpcserver.cpp:830-855 | after a delete answered with success a get answers 2, also behind a restart of an attached server |
| VariableLaws.NullReplied | rpcserver.cpp:771-855 | a get or delete of a name of length 0 answers 2 and changes nothing |
| VariableLaws.BadNameReplied | rpcserver.cpp:119-137 | a request with a bad name answers 22 and changes nothing |
| FileLaws.WriteChanges | rpcserver.cpp:960-1005 | a write below the largest offset, cut off or not: the length, every byte of the file, and that no other file changes |
| FileLaws.FullWriteChanges | rpcserver.cpp:960-1005 | a write that arrives in full replaces exactly its bytes, fills a gap with zeros and keeps the rest of the file |
| FileLaws.WriteRefused | rpcfile.cpp:57-84 | a missing file answers 2, an offset above the largest 22, and an empty write 0; no file changes |
| FileLaws.CreateReplied | rpcfile.cpp:87-102 | a new file is empty; a file that is there keeps its content and answers 17 |
| FileLaws.SizeReplied | rpcserver.cpp:1027-1042 | 13 bytes that spell the size, or 2 and zeros |
| FileLaws.ReadReplied | rpcserver.cpp:856-950 | a read in bytes: 2 for a missing file, 22 for a size or offset above its length, otherwise the announced size and the bytes up to the end |
| FileLaws.DumpReplied | rpckeyvaluestore.cpp:606-627 | a dump is at the front of its file, a longer file keeps its tail, nothing else changes; 17 for the empty name |
| FileLaws.MissingLoadReplied | rpckeyvaluestore.cpp:741-744 | a missing file answers 22 and changes nothing |
| FileLaws.LoadReplied | rpcserver.cpp:1072-1083 | loading printed records applies them in order, logs a dump of the result and answers 0 |
| FileLaws.BadLoadReplied | rpckeyvaluestore.cpp:750-753 | a bad line ends a load with 22: what is in front of it is applied, nothing is logged |
| FileLaws.ClearReplied | rpcserver.cpp:1084-1107 | exactly the magic number clears; any other answers 22 and changes nothing |
| WireLaws.ArithmeticOnWire | rpcserver.cpp:99-214 | the bytes of an arithmetic request: operation and flags in the second byte, then operands and result name |
| WireLaws.OneNameOnWire | rpcserver.cpp:99-137 | the bytes of get and delete |
| WireLaws.SetOnWire | rpcserver.cpp:99-180 | the bytes of set |
| WireLaws.ReadOnWire | rpcserver.cpp:856-861 | the bytes of a read |
| WireLaws.WriteOnWire | rpcserver.cpp:954-959 | the bytes of a write, and that the stream is left at its data |
| WireLaws.FileNameOnWire | rpcserver.cpp:1012-1066 | the bytes of create, size, dump and load |
| WireLaws.ClearOnWire | rpcserver.cpp:1084-1085 | the bytes of a clear |
| WireLaws.NoNameOnWire | rpcserver.cpp:113-117 | a length byte of 0 or above 31 is a missing name, and nothing behind it belongs to it |
| WireLaws.LongFileName | rpcio.cpp:177-209 | a file name above 4096 bytes is taken off the stream and dropped |
| WireLaws.ZeroInFileName | rpcserver.cpp:857-859 | a zero byte ends a file name, and all its bytes are taken off the stream |
| WireLaws.HungUp | rpcio.cpp:155-209 | what the client did not send before it hung up is read as zeros |
| WireLaws.UnknownOpcode | rpcserver.cpp:99-107 | an opcode of no request is ignored: nothing more is taken and nothing is answered |

## Left out

- Socket set-up, command-line parsing and operating system errors: recv delivers positive chunks of a
  byte stream. Files are named byte strings; opening fails for a missing file and for the empty name,
  lseek for offsets above INT64_MAX, and everything else succeeds in full. Directories, permissions, limits
  on name and file length and the other errno values are not modelled, nor are file handles.
- Requests whose file is log.txt itself: the log is kept apart from the files.
- Memory: allocation never fails, and freeing and leaks are not modelled. The clear sweep reads `next`
  from a node it has just freed (rpckeyvaluestore.cpp:886-888); the model reads it before.
- The mixing steps of `hash`: the store works for any hash function, so nothing is said of this one.
- Integer width of counters: `num_items`, `num_keys` and file sizes are unbounded here.
- Node names and keys are strings, not 32-byte arrays: what strncpy does to names above 31 bytes is
  not modelled (the server never stores one).
- Names above 31 bytes or with embedded zeros, opcodes outside the protocol and file names above 4096
  bytes: `Framing` and `Session` say what the server does, but the round trip is stated for canonical
  requests.
- SetName with a second name of length 0: the C code copies from NULL.
- INT64_MIN divided by -1 in the re-check (rpcserver.cpp:623, 737): the C expression may trap.
- The dispatch machine and the critical-section machine are values with step functions, not threads:
  data races on the unlocked accesses to `cl` appear as atomic steps in any order. `WorkerPool` and
  `Server` are the same code on the heap.
- The initialisation of mutexes and the semaphore inside the thread-creation loop: the machine starts
  from the settled state.
- The get-variable reply under concurrency: its name is read after the mutex is released.
- FileTransfer.ServeRead: a stuck read is excluded, because the code does not end on it
  (`StuckNeverEnds`); what memory a send with a negative length discloses is not said.
- FileTransfer.ReadChunks: the same.
- Framing.ServeConnection: each request is taken to end. Behind a stuck read (`NeverEndingRead`) the code
  comes to no further request; `Session.ServeClient`, which performs the requests, excludes it.
- Encoding.FramingRoundTrip: the same.
- Session.ServeClient: one client's connection, with no other client at work in between; interleaving is the
  subject of `Serialisation` and `Recovery`. Excluded (`Supported`) are stuck reads, loads of fields that
  overrun their buffer, names that begin with a zero byte, and a name set to NULL.
- The scan buffers of a load, which are not initialised, hold at most 31 bytes before the first zero.
- Recovery.CrashRecovery: one dprintf is one step, so a line torn by the crash is not modelled. Dump
  requests, which change neither variables nor log, are not among the sections.
- Server.Server.DumpVariables: which order the lines have is not fixed.
- Effects of a load on variables after a buffer overrun (`Overrun`): undefined in C.
- `delete_linked_list`, `delete_queue`, `delete_key_value_store` and the getters of rpcio.cpp that no
  request uses.
