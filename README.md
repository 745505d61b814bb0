# memcached_dump: the ASCII cache dump of libmemcached

This project models `memcached_dump` and its worker `ascii_dump` from
libmemcached, and proves properties of the model.

`memcached_dump` is a gate. It passes back a failed query initialisation
unchanged, refuses the binary protocol with `MEMCACHED_NOT_SUPPORTED`, and
otherwise runs the ASCII dump.

The ASCII dump walks slab ids 0..199 in order. For each slab it does three
things:

1. It formats the slab id into a fixed buffer and fails with
   `MEMCACHED_MEMORY_ALLOCATION_FAILURE` if the id does not fit.
2. It sends `stats cachedump <x> 0\r\n` to every server. A server of version
   1.4.23 or later is skipped for slab ids from 64 up. A server whose version
   is unknown (major version 255) is never skipped.
3. It drains the responses and classifies each one:
   - `ITEM` lines are parsed into a key and an expiry and handed to the
     callbacks in order. The first callback that fails records its code on
     the server instance and ends that item's callbacks.
   - `END` does nothing.
   - A `CLIENT_ERROR Illegal slab id` clears the instance and handle errors.
   - Anything else ends the dump with its code.

After all slabs it returns `MEMCACHED_SOME_ERRORS` if the handle still holds
an error, and `MEMCACHED_SUCCESS` otherwise.

Files:

- `wrappers.dfy`: the `Option` type.
- `return_codes.dfy`: the return codes the driver uses, and `memcached_failed`.
- `text.dfy`: C-locale character classes, decimal numerals (`%u`), and the
  `%d` and `%llu` conversions of `sscanf`.
- `item_line.dfy`: parsing and formatting the `ITEM <key> [<bytes> b; <expire> s;]` line.
- `command.dfy`: the slab range, slab-id formatting, the cachedump command and
  the version rule.
- `dump_model.dfy`: the dump as pure step functions over an abstract network.
  Each step function computes the rest of the dump from a position and a
  state. All trace and outcome theorems are proved here.
- `dump.dfy`: the class `Memcached`. Its fields hold the handle's error slot,
  one error slot per instance and a ghost trace. The methods `SetError`,
  `FreeErrors`, `SendSlab`, `RunItemCallbacks`, `Collect`, `AsciiDump` and
  `MemcachedDump` update these fields in place. Each method's `ensures` ties
  its final state and result to the step function of `dump_model.dfy`.

The network is a pair of oracles:

- `vdo(x, s)` is the code that sending slab `x`'s command to server `s`
  returns.
- `readable(x)` is the sequence of responses drained during slab `x`'s
  collection pass. Each response carries the server it came from, the code
  `memcached_response` gave it and the line it read.

The ghost trace records three kinds of event: `Sent(slab, server, command)`,
`Received(slab, server, code, line)` and `Called(slab, server, callback, args)`.

## Model

| member | source | states |
|---|---|---|
| Text.DecimalRoundTrip | src/libmemcached/dump.cc:24 | the `%u` numeral of a slab id reads back as that id |
| Text.ScanInt | src/libmemcached/dump.cc:69 | `%d` succeeds exactly when white space, an optional sign and at least one digit are present, and stops just past the maximal digit run |
| Text.ScanIntValue | src/libmemcached/dump.cc:69 | the value `%d` reads is the digits after the white space and any sign, negated after a minus sign |
| Text.ScanU64 | src/libmemcached/dump.cc:69 | `%llu` succeeds exactly when white space, an optional sign and at least one digit are present; the result is below 2^64 and equals the digits' value when it is in range and unsigned |
| ItemLine.GraphRun | src/libmemcached/dump.cc:61-62 | the key scan stops at the first non-graphic character (or line end), and every character before it is graphic |
| ItemLine.ScanExpire | src/libmemcached/dump.cc:67-69 | the expiry is `%llu`'s value when the literal ` b;` is followed by a number, and keeps its zero default when either is missing; it is always below 2^64 |
| ItemLine.ScanSizeExpireFields | src/libmemcached/dump.cc:66-69 | the byte count is `%d`'s value when `[` and a number lead the suffix and zero otherwise; the expiry is `%llu`'s value when the format also matches ` b;` and a number there, and zero otherwise |
| ItemLine.ParseItem | src/libmemcached/dump.cc:56-69 | the key is the maximal run of graphic characters from offset 5; bytes and expiry are what `sscanf` assigns from the text after the key's delimiter, with their zero defaults where the conversion fails; a line shorter than the prefix gives an empty key and zero fields |
| ItemLine.ParseItemOfLayout | src/libmemcached/dump.cc:56-69 | a line `ITEM <key> <suffix>` with a graphic key parses to that key and to whatever `sscanf` assigns from the suffix |
| ItemLine.MalformedExpiryKeepsZero | src/libmemcached/dump.cc:66-69 | for a graphic key and any text after ` b; ` in which `%llu` finds no number (nothing, white space alone, a lone sign, or a non-digit after white space and sign), the byte count is still read and the expiry keeps its zero default |
| ItemLine.ItemRoundTrip | src/libmemcached/dump.cc:56-69 | parsing the line a server writes for (key, bytes, expiry) gives back exactly that key, byte count and expiry |
| ItemLine.ItemExample | src/libmemcached/dump.cc:56-69 | `ITEM foo [12 b; 34 s;]` parses to key `foo`, 12 bytes, expiry 34 |
| DumpCommand.OlderThanIsPackedOrder | src/libmemcached/dump.cc:41 | for known versions, the comparison against 1.4.23 is the lexicographic order of (major, minor, micro), the same as the order of the packed version numbers |
| DumpCommand.ReceivesSlabByNumber | src/libmemcached/dump.cc:40-41 | a server is asked for slab `x` exactly when `x < 64`, its version is unknown, or its packed version number is below that of 1.4.23 |
| DumpCommand.FormatSlabId | src/libmemcached/dump.cc:23-29 | an accepted slab id is the `%u` numeral of `x`: all digits, no leading zero, value `x`, and it fits the buffer with its NUL; a rejected one did not fit |
| DumpCommand.FormatNeverOverflows | src/libmemcached/dump.cc:21-29 | with a buffer of 4 bytes or more, no slab id below 200 takes the overflow exit |
| DumpCommand.CachedumpCommand | src/libmemcached/dump.cc:31-34 | the command is the three pieces of the I/O vector in order: `stats cachedump `, the slab numeral, ` 0\r\n` |
| DumpCommand.CommandNamesSlab | src/libmemcached/dump.cc:31-34 | a server reads back out of the command exactly the numeral that was put in it |
| DumpCommand.CommandRoundTrip | src/libmemcached/dump.cc:31-34 | the command for slab `x` is `stats cachedump ` + decimal(x) + ` 0\r\n`, and a server reads slab `x` back out of it |
| DumpModel.SendsMembers | src/libmemcached/dump.cc:37-46 | the send run of slab `x` holds one event per eligible server, in increasing server order, with that slab's command, and nothing else |
| DumpModel.FirstFailedSend | src/libmemcached/dump.cc:41-45 | every eligible send before the result succeeded; the result, when it exists, is an eligible server whose send failed |
| DumpModel.IllegalSlabIdIsPrefix | src/libmemcached/dump.cc:96-98 | a client error is the illegal-slab-id message exactly when the line's first 28 characters are `CLIENT_ERROR Illegal slab id` |
| DumpModel.IsFatal | src/libmemcached/dump.cc:80-108 | ITEM and END never end the dump; a server error always does; a client error does exactly when its line is not the illegal-slab-id message; every other code, SUCCESS included, does |
| DumpModel.SendFrom | src/libmemcached/dump.cc:37-47 | the send pass changes neither the handle's error nor any instance's error, only extends the trace, and stops only with a failed code |
| DumpModel.SendFromOutcome | src/libmemcached/dump.cc:41-45 | the send pass stops exactly when some eligible send fails, and then returns the first such send's code |
| DumpModel.SendFromTrace | src/libmemcached/dump.cc:37-47 | the send pass logs each eligible server's send in server order, up to and including the first failing one |
| DumpModel.SendFromShape | src/libmemcached/dump.cc:36-47 | the send pass stops exactly when some eligible send fails; it then returns that send's code, the trace ending at that send; otherwise every eligible server was sent the command |
| DumpModel.RunCallbacks | src/libmemcached/dump.cc:70-79 | the callbacks change the error state at most by recording a non-success code on this item's instance (and on the handle when instance errors reach it); every other instance keeps its error |
| DumpModel.FirstFailure | src/libmemcached/dump.cc:70-79 | every callback before the result returned success; the result, when it exists, did not |
| DumpModel.RunCallbacksTrace | src/libmemcached/dump.cc:70-79 | the callbacks invoked on an item are those in array order up to and including the first failure, each with the item's arguments |
| DumpModel.RunCallbacksResult | src/libmemcached/dump.cc:70-79 | apart from the log, the callbacks leave the state as it was, or record the first failure's code on the instance |
| DumpModel.RunCallbacksShape | src/libmemcached/dump.cc:70-79 | callbacks run in array order up to and including the first failure, whose code is recorded on that instance only; when all succeed each runs exactly once and no error changes |
| DumpModel.ItemArgs | src/libmemcached/dump.cc:56-73 | the callbacks get the graphic run that starts at offset 5 and ends at a non-graphic character or the line's end, its length, and the expiry `sscanf` assigns from the text after the delimiter (zero where that fails); a line shorter than the prefix gives an empty key and zeros |
| DumpModel.ItemArgsExample | src/libmemcached/dump.cc:56-73 | `ITEM foo [12 b; 34 s;]` gives the callbacks key `foo`, length 3 and expiry 34 |
| DumpModel.HandleResponse | src/libmemcached/dump.cc:52-108 | a response ends the dump exactly when it is neither ITEM, END nor an illegal-slab-id client error, with its own code; END only logs; the illegal-slab-id error clears the instance and handle errors |
| DumpModel.ItemResponse | src/libmemcached/dump.cc:55-79 | an ITEM never ends the dump; it logs the line, runs the callbacks up to the first failure, and records that failure's code on its instance |
| DumpModel.HandleResponseShape | src/libmemcached/dump.cc:52-108 | one response only appends events of its slab and never a send, and keeps one error slot per server |
| DumpModel.FirstFatal | src/libmemcached/dump.cc:80-108 | no response before the result ends the dump; the result, when it exists, does |
| DumpModel.CollectFrom | src/libmemcached/dump.cc:49-109 | the drain loop keeps one error slot per server and never ends the dump with ITEM or END |
| DumpModel.CollectFromDrained | src/libmemcached/dump.cc:49-109 | the collection pass appends only receipts and callback events of its slab, and no sends |
| DumpModel.CollectFromLog | src/libmemcached/dump.cc:49-109 | the drain loop logs each response up to and including the first fatal one (all of them if none is), in poll order: its receipt, then for an ITEM the callbacks it ran |
| DumpModel.CollectFromStop | src/libmemcached/dump.cc:49-109 | the collection pass ends the dump exactly when some response is fatal, returning its code, with that response the last event logged |
| DumpModel.SlabPass | src/libmemcached/dump.cc:22-109 | one slab pass keeps one error slot per server and never ends the dump with ITEM or END |
| DumpModel.SlabsFrom | src/libmemcached/dump.cc:22-110 | the slab loop keeps one error slot per server and never ends the dump with ITEM or END |
| DumpModel.SlabPassShape | src/libmemcached/dump.cc:22-109 | one slab pass appends events of that slab only, its sends first; a completed pass sent exactly once to each eligible server; an aborted pass stopped on a small buffer, a failed send or a fatal response |
| DumpModel.CompletedPassLog | src/libmemcached/dump.cc:22-109 | a pass that does not end the dump logs exactly its sends to the eligible servers, then every response it drained with that response's callbacks |
| DumpModel.CompletedRunLog | src/libmemcached/dump.cc:22-110 | slabs `x..199` run to completion log exactly the completed passes' events, slab after slab |
| DumpModel.SlabsFromShape | src/libmemcached/dump.cc:22-110 | slabs `x..199` append events ordered by slab and within that range; a completed run sent exactly the eligible commands; an aborted run says why it stopped |
| DumpModel.Outcome | src/libmemcached/dump.cc:112 | SOME_ERRORS exactly when the handle holds an error, SUCCESS exactly when it holds none |
| DumpModel.AsciiDumpSpec | src/libmemcached/dump.cc:18-113 | the dump keeps one error slot per server and never returns ITEM or END; when it runs through all slabs it returns SOME_ERRORS exactly when the handle holds an error and SUCCESS exactly when it holds none |
| DumpModel.MemcachedDumpSpec | src/libmemcached/dump.cc:115-134 | a failed initialisation code is returned with the state unchanged; the binary protocol returns NOT_SUPPORTED, sets the handle error, leaves every instance error as it was and sends nothing; otherwise the ASCII dump runs |
| DumpModel.DumpIsOrderedBySlab | src/libmemcached/dump.cc:22-52 | along a dump, slab ids never decrease and stay below 200, and within a slab every send precedes every read |
| DumpModel.CompletedDump | src/libmemcached/dump.cc:22-112 | a dump that runs through all slabs sends server `s` the command of slab `x` exactly once when `x < 64`, when the server's version is unknown, or when it is older than 1.4.23, and never otherwise; it returns SOME_ERRORS exactly when the handle holds an error, SUCCESS otherwise |
| DumpModel.CompletedDumpLog | src/libmemcached/dump.cc:18-113 | a completed dump logs exactly, slab after slab, the command to each eligible server and then every response the poll yielded with the callbacks each ITEM ran |
| DumpModel.UnknownVersionReachesEverySlab | src/libmemcached/dump.cc:20-46 | in a completed dump, a server whose version is unknown is sent the command of every slab 0..199 |
| DumpModel.LowSlabsReachEveryServer | src/libmemcached/dump.cc:40-46 | in a completed dump, slabs 0..63 are sent to every server whatever its version |
| DumpModel.AbortedDump | src/libmemcached/dump.cc:22-110 | a dump that stops early returns the overflow code with the handle error set, or the code of the failed send or fatal response that is the last event; no later slab was touched |
| DumpModel.NoAllocationFailure | src/libmemcached/dump.cc:23-29 | with a buffer of 4 bytes or more, a dump that stops early stops on a failed send or a fatal response, the last event logged, and returns that event's code |
| DumpModel.NoServersDump | src/libmemcached/dump.cc:22-112 | with no servers, a command buffer of at least 4 bytes and a poll that only names the handle's servers, the dump sends and reads nothing, leaves the state unchanged and returns SUCCESS unless an error was pending |
| DumpModel.CleanDumpSucceeds | src/libmemcached/dump.cc:70-112 | with no error pending and callbacks that always succeed, a dump through all slabs returns SUCCESS |
| Dump.Memcached.SetError | src/libmemcached/dump.cc:76 | records the code on the instance, and on the handle when instance errors reach it; every server's instance has a slot, so the code always lands |
| Dump.Memcached.FreeErrors | src/libmemcached/dump.cc:100-101 | clears the instance's error and the handle's error; every server's instance has a slot, so the clear always lands |
| Dump.Memcached.SendSlab | src/libmemcached/dump.cc:36-47 | the server loop leaves the state the send-pass step function gives, and reports the failing code exactly when that pass stops |
| Dump.Memcached.RunItemCallbacks | src/libmemcached/dump.cc:70-79 | the callback loop with its `break` leaves the state the callback step function gives |
| Dump.Memcached.Collect | src/libmemcached/dump.cc:49-109 | the drain loop leaves the state the collection step function gives, and reports the fatal code exactly when that pass stops |
| Dump.Memcached.AsciiDump | src/libmemcached/dump.cc:18-113 | the slab loop's final state and result are those of `AsciiDumpSpec`, so every theorem about the dump holds of the method |
| Dump.Memcached.MemcachedDump | src/libmemcached/dump.cc:115-134 | the gate's final state and result are those of `MemcachedDumpSpec` |

## Left out

- Network I/O. `memcached_vdo`, `memcached_io_get_readable_server`, `memcached_response` and `memcached_version` are not modelled. Sends and reads are the `vdo` and `readable` oracles, and server versions are fixed configuration.
- libmemcached's version.cc is not part of this model. `memcached_version_instance_cmp` is modelled as follows: a server whose major version is still the UINT8_MAX "unknown" marker compares below every release, and otherwise versions compare by release order. A failed version query at the start of the dump leaves that marker in place.
- `memcached_response`: the model sees only the code and the line it produced. It does not model how that reader fills and truncates the shared buffer.
- `initialize_query` is not modelled. Its result is an input of `MemcachedDump`.
- `memcached_set_error` and `memcached_error_free` are modelled only by the flags they set or clear. Error messages and locations are not modelled.
- The error slots that `memcached_version`, the readable-server poll and `memcached_response` set themselves are not modelled. Only the dump's own `memcached_set_error` and `memcached_error_free` steps change them.
- CleanDumpSucceeds: its SUCCESS covers only the error slots as the dump itself sets and clears them. Errors recorded inside the version query, the poll or the response reader are not modelled.
- NoServersDump: its SUCCESS, like CleanDumpSucceeds', covers only the errors the dump itself records.
- Whether an instance error also becomes the handle's error is the `instanceErrorReachesRoot` parameter. The dump source does not say.
- `MEMCACHED_DEFAULT_COMMAND_SIZE` is not defined in dump.cc, so the buffer size is the `commandSize` parameter. DumpCommand.FormatNeverOverflows covers every size of 4 or more.
- The negative-length branch of the `snprintf` test is not modelled, because `%u` into a buffer cannot fail.
- The `assert` at line 90 is a debug-build abort. The model follows the release build, which returns `response_rc`.
- `isgraph` and `isspace` are the "C"-locale ASCII classes. Other locales are not modelled.
- Reading past the end of a line:
  - When a line ends right after the key, the source gives `sscanf` the byte past the key's NUL. The model gives it empty input.
  - A line shorter than the five-byte `ITEM ` prefix gives an empty key.
- Text.ScanInt: `%d` is unbounded; signed 32-bit overflow is not modelled. The byte count is never passed to a callback.
- Text.ScanU64: `%llu` follows glibc's `strtoull`. An out-of-range value saturates, and a minus sign negates modulo 2^64.
- `memcached_failed` is defined in libmemcached's return.h, which is not part of this model. The list of non-failure codes is taken from that header.
- Callbacks are pure functions from their arguments to a code. Their effects on the handle and on `context` are not modelled.
- `number_of_callbacks` does not appear, because the callback array's length plays that role.
- Callbacks are not given the handle (`memc`) or `context` in the model, because their effects are not modelled.
- testing/tests/memcached/regression/lp434843.cpp is not part of this model. It is an integration test of `memcached_fetch_execute` against a live server, not of the dump.
