# AsterKV: a verified model

AsterKV is a key-value server. A client sends command lines over TCP and reads
RESP-like responses; the server keeps the keys in memory and, in its durable
mode, in a write-ahead log that it replays at startup. This project models the
parts in which a mistake loses data or confuses a client, and proves what they
promise:

* **The log as a crash-recovery system.** A mutation is validated, serialized,
  written in possibly short writes, synced or not, applied to the map, and
  counted. The proofs show that file, map and counter stay in step over every
  run, every interleaving of threads, and a crash at any byte, and where the
  program does not achieve that they say exactly when.
* **The line protocol from bytes to bytes.** Splitting a stream into lines,
  tokenizing, dispatching, serializing, and the client's parser. The proofs show
  that it does not matter how TCP cuts the stream, that responses are recovered,
  and that clients cannot tell the durable engine from the plain map.
* **The accept loop and its workers**, as an interleaved machine.

`dafny verify dfyconfig.toml` checks everything.

## How the model is laid out

| module | models |
|---|---|
| `ByteStrings`, `Decimal`, `Core` | bytes, lines, 64-bit numbers, statuses |
| `WalRecords`, `WalCodec`, `WalCodecProofs` | log records and their text form |
| `WalReader`, `WalReplay` | reading a log file, replaying it |
| `WalWriter`, `WalWriterRuns` | the log writer over an operating-system script |
| `InMemory`, `WalStorage` | the plain and the durable engine |
| `WalRuns`, `WalSequence`, `WalRecoverable` | runs with restarts, sequence numbers, which files recovery accepts |
| `WalCrash`, `WalRestart` | a crash at any byte, and what comes after it |
| `WalLedger` | which calls a file holds, over any number of processes and crashes |
| `WalThreads`, `WalConcurrent`, `WalSolo` | the durable engine under any number of threads |
| `Commands`, `Parser`, `Responses`, `Client` | requests and responses |
| `Pipeline`, `Refinement`, `LineServer`, `EndToEnd` | from a socket to an engine and back |
| `Spelling`, `Told` | the formats byte by byte, and what clients are told, in literal bytes |
| `WorkerPool` | the accept loop and its client workers |

Classes and methods follow the program's own: each method is proved to compute
a specification function of its inputs and of the old state (`AfterSet`,
`Appended`, `Tokens`, `Processed`, ...), and the main theorems are about those
functions and whole runs of them.

The operating system is a finite script of outcomes (short write, interruption,
error). A script that has run out stands for a system that completes every
call, so the retry loops end. The ghost result `io` of a method summarizes what
the script did to it: `AllOk`, or the one failure it met. A file is its written
bytes and the length that is synced. After a power failure it has any length
between the two.

Where code and design notes disagree, the model follows the code:

* A Del record must have an *empty* value (`src/wal/wal_record.cpp:34-37`);
  `docs/architecture/wal-record-model.md:50-53` asks for a nonempty one.
* Recovery creates a missing file at startup (`src/wal/wal_backed_storage.cpp:96-100`);
  `docs/architecture/asterd-wal-file-recovery.md:34-35` says the first mutation does.
* The reader accepts an unterminated last line (`src/wal/wal_file_reader.cpp:50`).

Four things the program does not achieve, each with the exact condition, which
can be told before the call, and a run that shows it:

* A failed append that leaves bytes behind puts file and map out of step.
  `WalRuns.InStepExactly` shows that a call keeps them in step if and only if it
  is not one whose record gets into the file and whose write then stops inside
  the record or whose fsync fails. What follows is exact too:
  `WalRecoverable.RecoversExactly` says which files the next recovery accepts,
  and `WalRecoverable.AfterUnsyncedDelete` that a DEL whose fsync failed does
  harm exactly when the same key is deleted again.
  `WalRuns.UnsyncedDeleteBreaksRecovery` is such a run. A torn write spoils the
  file with the next acknowledged mutation (`WalRestart.AfterTornWrite`).
* After a crash, recovery may accept a last line without a line feed. The
  process then serves, writes, syncs and acknowledges, but its first record is
  glued to that line. `WalRestart.AcknowledgedAfterRecovery` shows that an
  acknowledged mutation survives the next restart if and only if the file that
  the process recovered from was empty or ended in a line feed; if not, no later
  restart succeeds. `WalRestart.GluedSetIsLost` is such a run, for every key and
  value.
* Recovery does not sync what it reads. After a record whose fsync failed, or
  whose process died before it, a restarted process serves values that are not
  durable. `WalConcurrent.ReadersSeeSynced` shows that what readers see is durable
  if and only if the recovered file was, or an fsync has run since, and
  `WalConcurrent.CrashAnywhere` what a crash can take back until then;
  `WalConcurrent.UnsyncedReadIsLost` is such a run, for every key and value.
  `WalLedger.RecoveredByKey` says which map such a restart serves, and
  `WalLedger.NothingAcknowledgedIsLost` that acknowledged mutations are safe all
  the same.
* The engines differ on some calls. `Refinement.EnginesAgreeExactly` says on
  which, and `Refinement.DurableRefinesPlain` that a session of command lines
  cannot tell the engines apart if and only if it logs no more records than there
  are sequence numbers left.

## Model

| member | source | states |
|---|---|---|
| WalRecords.Validate | src/wal/wal_record.cpp:17-43 | a record is loggable iff its number is positive, its key nonempty, and its value nonempty for a Set and empty for a Del |
| Decimal.ParseUnsigned | src/wal/wal_record_codec.cpp:114-142 | the guarded digit loop returns the left-to-right scan of the text, and its 64-bit product and sum never leave 64 bits |
| Decimal.ParsedExact | src/wal/wal_record_codec.cpp:114-142 | exactly the nonempty digit strings (leading zeros allowed) whose decimal value fits 64 bits are accepted, with that value |
| ByteStrings.JoinOfSplit | src/wal/wal_record_codec.cpp:168-184 | joining the parts by single spaces restores the input, and no part holds a space |
| WalCodec.SplitBySingleSpaces | src/wal/wal_record_codec.cpp:168-184 | the loop returns the parts between single spaces, empty ones included |
| WalCodec.HasEmptyPart | src/wal/wal_record_codec.cpp:186-194 | true iff some part is empty |
| WalCodec.HexEncode | src/wal/wal_record_codec.cpp:48-60 | the loop writes two lower-case digits a byte, high half first |
| WalCodec.HexDecode | src/wal/wal_record_codec.cpp:62-100 | the loop accepts the dash and nonempty digit strings of even length, in either case, and rejects all else with the source's errors |
| WalCodec.EncodeWalField | src/wal/wal_record_codec.cpp:102-108 | an empty field is a dash, any other its hexadecimal text |
| WalCodec.DecodedFieldOfEncoded | src/wal/wal_record_codec.cpp:48-108 | every field, empty or not, is decoded to what was encoded |
| WalCodec.DecodedFieldOfPrefix | src/wal/wal_record_codec.cpp:62-100 | a hexadecimal field cut short decodes exactly when whole bytes remain, and then to that prefix |
| WalCodec.EncodedFieldOfDecoded | src/wal/wal_record_codec.cpp:62-108 | writing back a decoded field lowers its letters and changes nothing else |
| WalCodec.Serialize | src/wal/wal_record_codec.cpp:197-218 | the record's line, which `Spelling.RecordSpelled` spells out byte by byte, if it is valid, its validation error otherwise |
| WalCodec.Deserialize | src/wal/wal_record_codec.cpp:220-268 | the meaning of the line: the checks in the source's order, each with its error, which `Spelling.AcceptedSpelled` and `Spelling.RefusedLineSpelled` spell out |
| WalCodecProofs.RoundTrip | src/wal/wal_record_codec.cpp:197-268 | every valid record is read back from its line, whether that ends in LF, CR or nothing |
| WalCodecProofs.EncodedInjective | src/wal/wal_record_codec.cpp:197-218 | no two valid records share a line, and the only LF of a line is its last byte |
| WalCodecProofs.TornRecord | src/wal/wal_record_codec.cpp:220-268 | a cut line is accepted iff only the LF is missing or a Set was cut inside its value after a positive even number of digits; number, type and key stay and the value is a nonempty prefix |
| WalCodecProofs.AcceptedExactly | src/wal/wal_record_codec.cpp:220-268 | the accepted lines spelled out without the decoder, and everything accepted is a valid record |
| WalCodecProofs.DecodeThenEncode | src/wal/wal_record_codec.cpp:197-268 | re-serializing an accepted line gives its canonical spelling, which decodes to the same record |
| WalCodecProofs.SameRecordIffSameCanonical | src/wal/wal_record_codec.cpp:197-268 | two accepted lines decode equally iff their canonical spellings are equal |
| Spelling.RecordSpelled | src/wal/wal_record_codec.cpp:197-218 | in literal bytes: a record line is AKVWAL1, the number, `set` or `del` as the record is a Set or a Del, key and value in lower-case hexadecimal or a dash, single spaces between them, one LF at the end |
| Spelling.AcceptedSpelled | src/wal/wal_record_codec.cpp:220-268 | in literal bytes: an accepted line has the version word, and decodes to a Set iff its third part is `set`, to a Del iff it is `del` |
| Spelling.FieldSpelled | src/wal/wal_record_codec.cpp:22-100 | in literal bytes: which fields decode, and to which bytes, letters in either case |
| Spelling.EndingSpelled | src/wal/wal_record_codec.cpp:156-166 | in literal bytes: LF, CR and CR LF come off the end of a line |
| Spelling.NothingElseStripped | src/wal/wal_record_codec.cpp:156-166 | and nothing else does |
| Spelling.RefusedLineSpelled | src/wal/wal_record_codec.cpp:220-268 | why a line is refused: the first of the source's reasons that applies, with its message; of a number that is both too large and not numeric, the one met first from the left |
| Spelling.DigitsSpelled | src/wal/wal_record_codec.cpp:208 | in literal bytes: numbers are written in decimal |
| WalReader.ReadRecords | src/wal/wal_file_reader.cpp:46-75 | the getline loop returns the reading of the whole file, or the stream's failure if no line failed before it |
| WalReader.ReadExact | src/wal/wal_file_reader.cpp:50-75 | a read succeeds iff every line is nonempty and decodes, record by record; otherwise it reports the first bad line and returns no records |
| WalReader.ReadOfLog | src/wal/wal_file_reader.cpp:50-75 | the file of any list of valid records is read back as exactly that list |
| WalReader.ReadOfText | src/wal/wal_file_reader.cpp:50-75 | so is any mixture of LF and CR LF endings |
| WalReader.ReadOfLogAndTail | src/wal/wal_file_reader.cpp:50-75 | an unterminated tail after whole records counts as one more line |
| Spelling.BadLineSpelled | src/wal/wal_file_reader.cpp:9-17 | what is reported of the first bad line: that it is empty, or its number from 1 and why it does not decode |
| InMemory.InMemoryStorage.Set | src/storage/in_memory_storage.cpp:12-22 | stores the value, or refuses an empty key and changes nothing |
| InMemory.InMemoryStorage.Get | src/storage/in_memory_storage.cpp:24-41 | the stored value, or the error for an empty or missing key |
| InMemory.InMemoryStorage.Remove | src/storage/in_memory_storage.cpp:43-56 | removes the key, or refuses an empty or missing one and changes nothing |
| InMemory.InMemoryStorage.Clear | src/storage/in_memory_storage.cpp:74-78 | nothing is stored any more |
| InMemory.InMemoryStorage.Exists | src/storage/in_memory_storage.cpp:58-66 | whether the key is there, or the error for an empty one |
| Spelling.KeysRefused | src/storage/in_memory_storage.cpp:12-66 | the errors for empty and missing keys, and that they change nothing |
| WalReplay.ReplayRecord | src/wal/wal_replay.cpp:5-20 | applies one validated record to the target, or reports why not and leaves it |
| WalReplay.ReplayRecords | src/wal/wal_replay.cpp:22-31 | the target and status after the records up to the first that fails |
| WalReplay.ReplayConcat | src/wal/wal_replay.cpp:22-31 | replaying a concatenation is replaying its parts in turn, stopping in the first if that fails |
| WalReplay.ReplaysExactly | src/wal/wal_replay.cpp:5-31 | a replay succeeds iff every record is valid and every Del names a key that is live where it stands |
| WalReplay.StopsAtFirst | src/wal/wal_replay.cpp:5-31 | a replay that fails stops at its first failing record, with that record's error and the target as before it |
| WalReplay.ReplayOverrides | src/wal/wal_replay.cpp:5-31 | the result is the base overridden, key by key, by the last record of that key |
| WalReplay.ReplaysFromAnywhere | src/wal/wal_replay.cpp:5-31 | a log that replays from the empty map replays from every map |
| WalReplay.ReplayIdempotent | src/wal/wal_replay.cpp:22-31 | replaying a log onto its own result changes nothing |
| WalWriter.WriteAll | src/wal/wal_file_writer.cpp:30-51 | through any script of short writes and interruptions: all of the data and OK, or a strict prefix and the error; interruptions are retried, and the first other failure or write without progress is the one reported |
| WalWriter.WalFileWriter.Open | src/wal/wal_file_writer.cpp:137-161 | opens and creates the file once; refuses an empty path and a closed writer |
| WalWriter.WalFileWriter.SyncFile | src/wal/wal_file_writer.cpp:97-111 | everything written is synced, or nothing changes and the error is reported; only interruptions are retried; an unopened writer is refused |
| WalWriter.WalFileWriter.AppendRecord | src/wal/wal_file_writer.cpp:163-190 | file, flags and status after checking, opening, writing and syncing; refused for a system call iff one failed, and then for the first |
| WalWriter.WalFileWriter.Flush | src/wal/wal_file_writer.cpp:192-207 | file, flags and status after opening and, unless the policy is None, syncing |
| WalWriter.WalFileWriter.Close | src/wal/wal_file_writer.cpp:209-231 | flushes an open file and gives its descriptor back; stays open if either fails; only interruptions are retried; closing twice is OK |
| WalWriterRuns.StepBytes | src/wal/wal_file_writer.cpp:137-231 | every operation only adds to the file: its whole record when acknowledged, a prefix of it when not |
| WalWriterRuns.StepSync | src/wal/wal_file_writer.cpp:163-231 | an acknowledged append under FsyncEveryWrite, flush, or close of an open file under any policy but None leaves everything written synced |
| WalWriterRuns.StepSucceeds | src/wal/wal_file_writer.cpp:137-231 | when no system call fails, an unclosed writer refuses exactly invalid records |
| WalWriterRuns.StepSucceedsExactly | src/wal/wal_file_writer.cpp:137-231 | an operation is acknowledged iff the writer is not closed (a close: always), the record valid, and no call it makes fails |
| WalWriterRuns.StepRefusal | src/wal/wal_file_writer.cpp:137-231 | with which error it is refused: the first that applies, in the order of its steps |
| WalWriterRuns.SyncsOnlyAsAsked | src/wal/wal_file_writer.cpp:185-206 | nothing is synced under None, and no append under FsyncOnFlush |
| WalWriterRuns.ClosedIsAbsorbing | src/wal/wal_file_writer.cpp:137-231 | over any run a closed writer changes nothing and acknowledges only closing again |
| WalWriterRuns.CloseIsFinal | src/wal/wal_file_writer.cpp:209-231 | after a close answered OK, over any later run every open, append and flush is refused and the file does not change |
| WalWriterRuns.CloseRefused | src/wal/wal_file_writer.cpp:214-223 | a close is refused iff the file is open and its sync or close(2) fails; the writer then stays open and appends again |
| WalWriterRuns.RunGrows | src/wal/wal_file_writer.cpp:137-231 | over any run the file grows by appending and what is synced stays synced |
| WalWriterRuns.AcknowledgedRecordStays | src/wal/wal_file_writer.cpp:163-190 | an acknowledged record stays whole where it was written through any later run, synced under FsyncEveryWrite |
| WalWriterRuns.TraceAccounts | src/wal/wal_file_writer.cpp:137-231 | each operation of a run contributes its record if acknowledged and a prefix of it if not |
| WalWriterRuns.RunBytes | src/wal/wal_file_writer.cpp:137-231 | the file after a run is the file before it and those contributions in order |
| WalStorage.ComputeNextSequenceNumber | src/wal/wal_backed_storage.cpp:9-19 | one more than the greatest number in the log, wrapping to 0 |
| WalStorage.MaxSequenceIsMax | src/wal/wal_backed_storage.cpp:9-19 | that greatest number is an upper bound that some record attains, and 0 for an empty log |
| WalStorage.WalBackedStorage.Set | src/wal/wal_backed_storage.cpp:118-140 | map, file, counter and status after validate, append, apply, count, stopping at the first that fails |
| WalStorage.WalBackedStorage.Get | src/wal/wal_backed_storage.cpp:142-144 | what the map holds |
| WalStorage.WalBackedStorage.Remove | src/wal/wal_backed_storage.cpp:146-177 | the same for a live key; a missing or empty key is refused without a record |
| WalStorage.WalBackedStorage.Exists | src/wal/wal_backed_storage.cpp:179-181 | whether the map holds the key |
| WalStorage.WalBackedStorage.Recover | src/wal/wal_backed_storage.cpp:21-116 | map, file, counter and status after checking the path and its parent directory, reading, replaying, recomputing the counter and opening, stopping at the first that fails; a missing file is created |
| WalRuns.MutationIsAppend | src/wal/wal_backed_storage.cpp:118-177 | a mutation is one append; map and counter move exactly if that is acknowledged |
| WalRuns.WholeRun | src/wal/wal_backed_storage.cpp:82-177 | over any calls and restarts in which failing appends write nothing: the file is exactly the serialized records, numbered 1..n, replays from empty, and gives the acknowledged map and, while serving, the live map and counter |
| WalRuns.WholeRunDeletesLive | src/wal/wal_backed_storage.cpp:146-177 | in such a file every Del names a key live at that point |
| WalRuns.RestartRestores | src/wal/wal_backed_storage.cpp:82-116 | a restart after such a run serves again with the same map, counter and bytes |
| WalRuns.RecoveryEffect | src/wal/wal_backed_storage.cpp:82-116 | recovery of a readable file leaves its bytes alone and serves, when the system works, iff the log replays from empty, with that map and counter |
| WalRuns.RecoverOverMap | src/wal/wal_backed_storage.cpp:82-116 | recovery over a map that is not empty: each key takes its last record and the others stay, and the counter follows the greatest number; without a file it starts again at 1 |
| WalRuns.RecoverTwice | src/wal/wal_backed_storage.cpp:82-116 | recovering an engine that has just recovered changes nothing |
| WalRuns.RecoveryRefusal | src/wal/wal_backed_storage.cpp:82-116 | with which error recovery gives up: the first that applies, in the order of its steps |
| WalRuns.UnreadableIsRefused | src/wal/wal_backed_storage.cpp:102-105 | a file that does not read is never served |
| WalRuns.InStepExactly | src/wal/wal_backed_storage.cpp:118-177 | a call keeps file, map and counter in step iff it is not one that logs a valid record of which a write stops inside, or whose fsync fails under FsyncEveryWrite |
| WalRuns.SettledExactly | src/wal/wal_file_writer.cpp:163-190 | which calls are acknowledged or leave the file alone can be told beforehand: all but those |
| WalRuns.UnsyncedDeleteBreaksRecovery | src/wal/wal_backed_storage.cpp:164-167 | for every key and value: SET, DEL with a failing fsync, DEL again, and recovery fails |
| WalRecoverable.RecoversExactly | src/wal/wal_replay.cpp:22-31 | after any run with complete writes but possibly failing fsyncs, recovery serves iff every Del in the file names a key live where it stands |
| WalRecoverable.StillRecovers | src/wal/wal_backed_storage.cpp:118-177 | from a file that recovery accepts, one more call with a complete write leaves one that it accepts iff it does not log a Del of a key that is live in the map but not in the file |
| WalRecoverable.AfterUnsyncedDelete | src/wal/wal_backed_storage.cpp:146-177 | after a DEL whose fsync failed, one more call leaves a recoverable file iff it is not another DEL of that key whose write gets through |
| WalSequence.SequenceNumbers | src/wal/wal_backed_storage.cpp:118-177 | in every run with complete writes but possibly failing syncs, numbers in the file never decrease and acknowledged ones strictly increase |
| WalSequence.RecoveredCounterExceeds | src/wal/wal_backed_storage.cpp:9-19 | after such a run the recovered counter exceeds every number in the file and every acknowledged one, unless 2^64-1 is in the file, when it is 0 |
| WalSequence.WrapIsFinal | src/wal/wal_record.cpp:17-20 | a serving process whose counter is 0 never logs or acknowledges a mutation again, restarts included |
| WalCrash.ReadTorn | src/wal/wal_file_reader.cpp:50-75 | what the reader returns for whole records followed by any prefix of one more |
| WalCrash.ExplainedByKey | src/wal/wal_backed_storage.cpp:118-177 | what "explained" means key by key: every key but the one in flight has its last acknowledged value; that one has its old outcome, its new outcome, or for SET a nonempty prefix of the new value |
| WalCrash.CrashDuringCall | src/wal/wal_backed_storage.cpp:118-177 | a crash at any point of one call under FsyncEveryWrite: recovery reports an error or is explained, and an acknowledged call is there in full |
| WalCrash.CrashDurability | src/wal/wal_backed_storage.cpp:82-177 | the same after every run of calls and restarts whose failures wrote nothing, serving or not, for every length the file may survive at |
| WalCrash.CrashFrom | src/wal/wal_backed_storage.cpp:118-177 | under every policy: if the file survives up to where the interrupted call began, recovery reports an error or is explained by that call |
| WalCrash.PrefixConsistency | src/wal/wal_backed_storage.cpp:118-177 | under every policy and for any surviving length at all: recovery reports an error, or the map is what a first part of the calls was acknowledged for, up to the next call, of which a SET may be there with a nonempty prefix of its value |
| WalRestart.AppendReads | src/wal/wal_file_writer.cpp:163-190 | a readable file with a record appended reads iff it was empty or ended in LF, and then as one record more |
| WalRestart.AcknowledgedAfterRecovery | src/wal/wal_backed_storage.cpp:82-177 | an acknowledged mutation of a recovered process survives the next restart, with map and counter, iff the file it recovered from was empty or ended in LF |
| WalRestart.RefusedForever | src/wal/wal_backed_storage.cpp:102-105 | a file that does not read is never served again and never changes, over any later calls and restarts |
| WalRestart.GluedSetIsLost | src/wal/wal_file_reader.cpp:50-75 | for every key and value of two bytes or more: SET cut inside its value, recovery, another SET synced and acknowledged, and the next restart is refused |
| WalRestart.AfterTornWrite | src/wal/wal_file_writer.cpp:30-51 | a write that stopped anywhere inside its record, and then any acknowledged mutation of the same process: the next restart is refused |
| WalRestart.ManyCrashes | src/wal/wal_backed_storage.cpp:82-177 | through any number of runs, each ended by a power failure, as long as every surviving file is empty or ends in LF: every recovery serves every acknowledged mutation and at most the call in flight besides |
| WalLedger.NothingAcknowledgedIsLost | src/wal/wal_backed_storage.cpp:82-177 | over any number of processes, each ended by a power failure at any length or by its own death, as long as every file left is empty or ends in LF: the last one serves, and its map is made by some list of calls in order, of which the acknowledged ones are exactly those acknowledged over the whole life and the others were interrupted |
| WalLedger.RunRecovers | src/wal/wal_replay.cpp:22-31 | after any run with complete writes but possibly failing fsyncs, a recovery that serves gives the map that all logged calls make, acknowledged or not, while clients were told the map that the acknowledged ones make |
| WalLedger.RecoveredByKey | src/wal/wal_backed_storage.cpp:82-116 | so every key has its acknowledged outcome, unless the last record about it was not acknowledged: then it has that record's |
| WalThreads.ExclusiveKept | src/wal/wal_backed_storage.cpp:118-177 | every step of every thread keeps mutation exclusive: only the holder of the mutex is inside one |
| WalThreads.ShapeKept | src/wal/wal_backed_storage.cpp:118-177 | every step keeps file, map, counter and synced length in the shape that the mutator's stage says |
| WalConcurrent.Linearizable | src/wal/wal_backed_storage.cpp:118-181 | from every recovered file, in every interleaving calls take effect one at a time between invocation and return; each answer is the plain map's there, the validation error of a record that cannot be logged with that counter, or for a mutation Unavailable; map and counter are what that order makes of the recovered ones |
| WalThreads.LegalTells | src/wal/wal_backed_storage.cpp:118-177 | such an answer never reports a live key as missing, and never acknowledges what the plain map would not have done |
| WalConcurrent.MapFollowsLog | src/wal/wal_backed_storage.cpp:118-177 | from every recovered file that ends a line, in any accepted spelling and durable or not, at every reachable state the map is the replay of the file's whole records or, only while a mutator holds the mutex, of all but the last |
| WalConcurrent.ReadersSeeSynced | src/wal/wal_backed_storage.cpp:82-181 | under FsyncEveryWrite the map any reader sees is the replay of a first part of the file, which holds the recovered file and is durable iff that was or an fsync has run since |
| WalConcurrent.CrashAnywhere | src/wal/wal_backed_storage.cpp:82-177 | crash durability at every state of every interleaving and every surviving length, under that condition or if the recovered file survives; otherwise the crash takes back a part of the recovered file, and no call has changed the map since the restart |
| WalConcurrent.UnsyncedReadIsLost | src/wal/wal_backed_storage.cpp:82-116 | for every key and value: SET with a failing fsync, a restart, GET returns the value, a power failure, and GET finds no key |
| WalConcurrent.RestartedIsRecovered | src/wal/wal_backed_storage.cpp:82-116 | the state these runs start from is the one that recovery leaves |
| WalSolo.SoloMutation | src/wal/wal_backed_storage.cpp:118-177 | run alone, a mutation's steps do to file, map, counter and answer exactly what the engine's operation does |
| WalSolo.SoloRead | src/wal/wal_backed_storage.cpp:142-181 | and so do a read's |
| WalSolo.SoloRefused | src/wal/wal_backed_storage.cpp:118-177 | and so does a mutation whose write fails at once |
| WalSolo.ReadAnyTime | src/wal/wal_backed_storage.cpp:142-181 | a read takes effect whoever holds the log mutex |
| WalSolo.ShortWrites | src/wal/wal_file_writer.cpp:33-48 | short writes add up, wherever in the record |
| WalThreads.NeverStuck | src/wal/wal_backed_storage.cpp:118-181 | no call is ever stuck: its next step, or that of the mutator it waits for, is always possible |
| Commands.AsciiEqualsIgnoreCase | src/command/command.cpp:5-20 | true iff the lengths agree and every byte does up to ASCII case; `Spelling.CommandWords` says in bytes what that means for the commands |
| Commands.ValidateCommandRequest | src/command/command.cpp:89-96 | OK iff the argument count is the command's |
| EndToEnd.NameRecognised | src/command/command.cpp:57-87 | a word is recognised as a command iff it is that command's name up to case, and then as no other |
| Spelling.CommandWords | src/command/command.cpp:5-87 | in literal bytes: each command is recognised by its letters, each in either case, and by nothing else |
| Parser.TokenizeCommandLine | src/protocol/parser.cpp:21-44 | the nested loops return the words of the line |
| Parser.IsBlank | src/protocol/parser.cpp:11-19 | true iff every byte is whitespace |
| Parser.TokensWeave | src/protocol/parser.cpp:21-44 | every line is its tokens, nonempty and whitespace-free, woven into whitespace that is nonempty between tokens |
| Parser.TokensUnique | src/protocol/parser.cpp:21-44 | no other list of words can be woven into the line, so the tokens are exactly the maximal words |
| Parser.TokensOfJoin | src/protocol/parser.cpp:21-44 | joining nonempty whitespace-free words by single spaces and tokenizing gives them back |
| Spelling.WordsAreTokens | src/protocol/parser.cpp:5-44 | in literal bytes: words with bytes 9 to 13 or 32 around and between them are exactly the tokens |
| Parser.ConcatenatedTokens | src/protocol/parser.cpp:21-44 | the tokens in a row are the line without its whitespace |
| Parser.NoTokensIffBlank | src/protocol/parser.cpp:11-44 | there are no tokens iff the line is blank |
| Parser.ParseCommandLine | src/protocol/parser.cpp:46-84 | the request of the line's tokens or the first error in the source's order |
| Parser.ParsedRequest | src/protocol/parser.cpp:46-84 | a parsed request has its command's argument count and no empty argument |
| Client.ParseBulkLength | src/client/response_renderer.cpp:47-69 | accepts exactly the nonempty digit strings whose value fits 64 bits, with that value, and reports the source's error otherwise |
| Client.IsValidIntegerPayload | src/client/response_renderer.cpp:71-93 | true iff the text is digits after an optional minus |
| Client.SimpleStringRoundTrip | src/client/response_renderer.cpp:109-138 | a simple string is recovered iff it is nonempty and has no LF |
| Client.ErrorRoundTrip | src/client/response_renderer.cpp:109-138 | an error's text, code and message, is recovered iff the message has no LF |
| Client.IntegerRoundTrip | src/client/response_renderer.cpp:109-138 | every signed 64-bit integer is recovered: its text, and the number the text denotes |
| Client.BulkStringRoundTrip | src/client/response_renderer.cpp:140-190 | every bulk string is recovered, whatever its bytes |
| Client.BulkPrefix | src/client/response_renderer.cpp:140-190 | no strict prefix of a serialized bulk string decodes to another value |
| Spelling.ClientReads | src/client/response_renderer.cpp:11-218 | in literal bytes: exactly which responses the client accepts, as which kind and value, whatever their line endings, and what it reports of the others |
| Spelling.ErrorSpelled | src/protocol/response_serializer.cpp:58-77 | in literal text: a dash, ERR, the code, the message if any, CR LF |
| Pipeline.CommandDispatcher.Dispatch | src/execution/command_dispatcher.cpp:69-89 | engine and result after the call the request stands for, over either engine; a wrong argument count reaches no engine; `Told` says what reaches the client |
| Pipeline.LocalPipeline.ProcessLine | src/pipeline/local_pipeline.cpp:9-18 | engine and response bytes after one command line |
| Told.SetTold | src/execution/command_dispatcher.cpp:11-21 | SET over the durable engine, whatever the system does: told `+OK` iff the counter had not wrapped and the record was carried through, and then map, counter and file hold it, synced under FsyncEveryWrite; otherwise the client reads an error and map and counter are unchanged |
| Told.DelTold | src/execution/command_dispatcher.cpp:35-49 | DEL likewise: told `:0` iff the key is absent, `:1` iff it is there and its record was carried through, and then it is gone and logged; otherwise an error and no change |
| Told.GetTold | src/execution/command_dispatcher.cpp:23-33 | GET over either engine, in literal bytes: length, value and line ends, or that the key is not found |
| Told.ExistsTold | src/execution/command_dispatcher.cpp:51-63 | EXISTS over either engine: `:1` iff the key is there, else `:0` |
| Told.PingTold | src/execution/command_dispatcher.cpp:5-9 | PING over either engine: `+PONG` |
| Told.PlainSetTold | src/execution/command_dispatcher.cpp:11-21 | SET over the plain map: the value is stored and `+OK` told |
| Told.PlainDelTold | src/execution/command_dispatcher.cpp:35-49 | DEL over the plain map: the key is gone, and `:1` or `:0` told as it was there or not |
| Told.BlankTold | src/protocol/parser.cpp:46-51 | a blank line, in literal text |
| Told.UnknownTold | src/command/command.cpp:57-87 | an unknown command, in literal text |
| Told.CountTold | src/command/command.cpp:40-96 | a wrong number of words for each command, in literal text |
| Told.LimitTold | src/network/tcp_server.cpp:20 | the text sent to a client that finds every worker taken is the line of an unavailable error, and is read as an error |
| Told.MalformedDispatched | src/execution/command_dispatcher.cpp:69-73 | a request with a wrong number of arguments is refused and reaches no engine |
| Pipeline.ProcessedThroughTokens | src/pipeline/local_pipeline.cpp:9-18 | a line matters only through its tokens, for the response and for the engine |
| Refinement.EnginesAgreeExactly | src/wal/wal_backed_storage.cpp:118-181 | while the system works the engines agree on map and answer iff the call needs no record that cannot be logged |
| Refinement.EnginesDifferOnEmptyValue | src/wal/wal_record.cpp:17-43 | they do differ on an empty value |
| Refinement.DurableRefinesPlain | src/pipeline/local_pipeline.cpp:9-18 | for every sequence of command lines without system failure, the durable engine's responses are byte for byte those of the plain map iff the session logs no more records than there are numbers left |
| LineServer.LinesAreCompletedAndTail | src/network/tcp_server.cpp:228-306 | the lines of a stream are its completed lines and, if nonempty, its LF-free tail |
| LineServer.FedIsWhole | src/network/tcp_server.cpp:228-247 | after any chunks the lines executed are the completed lines of the stream so far, and what is pending is its tail and holds no LF |
| LineServer.FragmentationIndependence | src/network/tcp_server.cpp:228-306 | two ways of cutting a stream execute the same lines and leave the same pending input |
| LineServer.StreamIsItsPieces | src/network/tcp_server.cpp:255-298 | the stream served is what was received, in order, until the client closes its side, is idle for too long or reading fails; waits and interruptions lose nothing |
| LineServer.ClientSocket.SendAll | src/network/tcp_server.cpp:178-209 | through any script of partial sends a prefix is sent, all of it when the result is OK and nobody asked to stop; it gives up at the first failing send or send of nothing, and waits no more once a stop is requested |
| LineServer.ClientConnection.ProcessLineAndSendResponse | src/network/tcp_server.cpp:211-226 | strips one CR, executes the line and sends a first part of its response, all of it when the result is OK and nobody asked to stop |
| LineServer.ClientConnection.ProcessBufferedLines | src/network/tcp_server.cpp:228-247 | executes the completed lines of the input in order, sends of each response a first part, all of it as long as nobody asks to stop, and keeps the tail |
| LineServer.ClientConnection.ServeClient | src/network/tcp_server.cpp:249-306 | for every script of receives, sends and stop requests: the lines executed are the lines of the whole stream if the client closes its side, and its completed lines if reading fails or times out, or a first part of the lines if a send fails or a stop is requested; the engine is that of this session, and the bytes sent are a first part of each response in order, all of it without a stop; no system call under a steady engine is reported as failed; the client is never read, and an unfinished last line never executed, unless the stop flag was found down since the last read |
| EndToEnd.LineMeans | src/pipeline/local_pipeline.cpp:9-18 | a well-formed command line changes the map as the command means, and the client's parser recovers from the response what it should be told |
| EndToEnd.LineMeansDurably | src/pipeline/local_pipeline.cpp:9-18 | the same over the durable engine |
| EndToEnd.RefusedLine | src/protocol/parser.cpp:46-84 | a line is refused only if it is blank, its command is unknown or its argument count is wrong; it changes nothing and is answered with that error |
| EndToEnd.SetThenGet | src/pipeline/local_pipeline.cpp:9-18 | for every key and value that can be typed, GET after SET brings the client exactly that value |
| EndToEnd.WireRefinement | src/pipeline/local_pipeline.cpp:9-18 | the output of a session of raw lines, and the map it leaves, are the same for both engines, whatever the log's settings |
| EndToEnd.ServeSameClient | src/network/tcp_server.cpp:249-306 | two connections, one over a steady durable engine and one over the plain map, whose clients say the same lines in whatever chunks, are sent the same bytes and leave the same map |
| WorkerPool.CounterKept | src/network/tcp_server.cpp:429-431 | every step of loop and workers keeps the counter equal to the started workers not yet taken off it, one more just before a start, and within the limit |
| WorkerPool.Reachable | src/network/tcp_server.cpp:490-558 | in every interleaving: the counter is right, every started worker is in exactly one of slots and joined and joined only after it ended, slots are in start order, and a pass joins exactly the slots it saw finished |
| WorkerPool.JoinedOnce | src/network/tcp_server.cpp:403-427 | no thread is joined twice, and none before it has ended |
| WorkerPool.PassSplitsByFlag | src/network/tcp_server.cpp:413-427 | a reaping pass joins exactly the slots whose flag it saw set and keeps exactly the others |
| WorkerPool.PassKeepsOrder | src/network/tcp_server.cpp:413-427 | both in the order of the slots |
| WorkerPool.PassReaps | src/network/tcp_server.cpp:413-427 | in every run, a worker whose flag was up when a pass began is joined and has no slot when it is over, and every slot left belongs to a worker unfinished then |
| WorkerPool.NobodyLeftBehind | src/network/tcp_server.cpp:554-558 | when the server returns, no slot is left, the counter is 0, and every started worker has ended and been joined once |
| WorkerPool.AdmitsOnlyBelowLimit | src/network/tcp_server.cpp:512-517 | a client is turned away iff as many workers as the limit are counted at the check |
| WorkerPool.AdmittedIsServed | src/network/tcp_server.cpp:517-551 | an admitted client gets one more worker with a slot of its own, and the loop goes on |
| WorkerPool.RejectedGoesOn | src/network/tcp_server.cpp:512-515 | turning a client away changes nothing else, and the loop goes on |
| WorkerPool.ReturnsOkIffStopped | src/network/tcp_server.cpp:493-558 | the server goes on until a stop is requested or accepting fails, and returns OK iff the stop came first |
| WorkerPool.LoopNeverStuck | src/network/tcp_server.cpp:493-554 | until it returns, the loop or the worker it waits for can always take a step |
| WorkerPool.DrainAdvances | src/network/tcp_server.cpp:403-411 | during shutdown every step of anybody brings the return nearer |
| WorkerPool.DrainNeverStuck | src/network/tcp_server.cpp:403-411 | and some step is always possible |
| WorkerPool.WorkerSlots.JoinFinishedClientWorkers | src/network/tcp_server.cpp:413-427 | the erasing loop keeps the slots seen unfinished and joins the others, in order |
| WorkerPool.WorkerSlots.JoinClientWorkers | src/network/tcp_server.cpp:403-411 | joins every slot in order and clears the list |

## Left out

- Real system calls, sockets, signals, threads and clocks: they are the script of outcomes and the step machines. Error texts of the system are parameters.
- The directory entry of the log file is taken as durable once the file exists; the program never syncs the directory.
- The file-system queries before recovery are one step with one outcome. The writer's destructor (`src/wal/wal_file_writer.cpp:121-131`), which syncs and closes without reporting, is not modelled.
- WalRestart.ManyCrashes: ends that leave a line unterminated are not part of the lives it speaks about, nor are failures that leave bytes in the file of a process that goes on serving; `WalRestart.AcknowledgedAfterRecovery`, `WalRestart.AfterTornWrite` and `WalRecoverable.StillRecovers` say what happens then.
- WalLedger.NothingAcknowledgedIsLost: the same.
- WalConcurrent.Linearizable: the machine assumes an open file and no failure after bytes were written; those end a run (`WalRuns.InStepExactly` says why). Mutexes and atomics are atomic steps, sequentially consistent.
- LineServer.ClientConnection.ServeClient: which responses a stop request cuts short is left open, because it depends on when the flag is raised.
- WorkerPool.Reachable: starting a thread is assumed to succeed, and the loop is modelled from the point where the listening socket exists.
- Client.BulkStringRoundTrip: asks for a value no longer than 2^64-1 bytes, the client's length type.
- WalReader.ReadRecords: line numbers are unbounded; a file has fewer than 2^64 lines. The failing stream's bytes before the failure are a parameter.
- `TcpLineServer::runOnce` returns as soon as a client is accepted (`src/network/tcp_server.cpp:396`) and never serves it; `run` is modelled instead.
- `hexDecode` checks digits before converting them, so the conversion's error cannot occur and is not modelled; likewise responses for enumeration values that do not exist.
- The TCP client's send and receive loops repeat the loops modelled here.
- Configuration, endpoints, argument parsing, server wiring, logging, the interactive client and pretty rendering: checks and look-up tables that would only add easy members.
- `size`, the durable engine's `del` and the replay of a file by path: one-line forwards.
- isspace and toupper are those of the "C" locale.
