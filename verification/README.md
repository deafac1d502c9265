# Verified model of mem-x

mem-x is an in-memory key/value server that speaks the Redis protocol. This
project models its core in Dafny and proves what its documentation promises, or
the exact condition under which it holds.

| file | models |
|---|---|
| `Basics.dfy`, `TimedMap.dfy` | byte strings, 64-bit wrap-around, decimal text; the reference store, one map looked at through the clock |
| `Glob.dfy` | the glob matcher of KEYS and SCAN |
| `ExpHeap.dfy`, `Store.dfy`, `Refinement.dfy` | the heap of deadlines; the sharded store, updated in place; its refinement of the reference store |
| `Resp.dfy`, `RespIO.dfy`, `Bufio.dfy` | the wire codec as functions; the reader and the writer proved against them; the buffer underneath |
| `Command.dfy`, `Meaning.dfy`, `Registry.dfy`, `Counters.dfy` | the dispatcher, the handlers and what they log; what each request means, word by word; the registry with its append-only file; counter laws |
| `Replay.dfy`, `Persist.dfy`, `Recovery.dfy`, `Restart.dfy` | replay of the log; loading a file cut at any byte; recovery end to end; starting again on a cut file |
| `History.dfy`, `Concurrent.dfy`, `Interleaving.dfy`, `Coverage.dfy`, `LogOrder.dfy` | locks and all interleavings of store operations; active expiry under them; the order of the log |
| `Programs.dfy`, `Solo.dfy` | that the code of an operation does what the operation stands for, in every interleaving and alone |
| `Server.dfy` | accepting, serving and closing connections |

Clock readings are parameters, in the order in which the code takes them. The
shard of a key is an arbitrary function of the key. Durations and deadlines are
int64 nanoseconds with explicit wrap-around.

## Main results

- **Refinement.** Any sequence of operations on the sharded store, with lazy
  purging and sweeps, returns what one flat map returns, and the key count leads
  the maps by exactly the repeated keys of batches (`Refinement.Run`,
  `Refinement.ExactCount`); a sweep leaves exactly the unexpired entries
  (`Store.Store.Sweep`).
- **Recovery.** Replaying the log gives back what clients saw after every crash
  point if and only if every command met its guard (`Replay.RecoveryExact`), from
  bytes to bytes (`Recovery.CrashRecoveryExact`, `Recovery.ServeThenRecover`) and
  for the log of concurrent clients (`LogOrder.ConcurrentRecovery`).
- **Torn files.** Whatever byte a file is cut at, exactly the whole records are
  found (`Persist.TornTail`); writing on behind the cut is safe if and only if the
  cut fell between records (`Restart.RestartExact`).
- **Concurrency.** No interleaving gets stuck (`Interleaving.NeverStuck`), the
  store is always the outcome of atomic operations (`Interleaving.Linearizable`,
  `Interleaving.BatchAtomic`), each thread contributes exactly the commands of its
  operations (`Programs.OperationsTakePlace`), and the log is that of a sequential
  execution (`LogOrder.LogIsSequential`).
- **Requests.** What every modelled command answers, leaves and logs is stated from
  the tokens a client sends, in words of its own (`Meaning.SetMeans` and its
  neighbours).
- **Active expiry.** Every deadline is in reach of the sweeper at every moment of
  every run in which none is pushed in the middle of a flush
  (`Coverage.EveryDeadlineFound`); a run that loses one is `Coverage.LostDeadline`.
- **Codec.** Commands survive the wire for every buffer size
  (`Resp.CommandRoundTrip`). Replies do, through a buffer of any size filled in
  pieces of any size, up to the types of simple strings and errors
  (`Bufio.WriteThenRead`); when those types are right is stated exactly
  (`Bufio.Buffer.ReadReply`), with an input for which they are not
  (`Bufio.MisreadReply`).

## Where the code differs from its documentation

The model follows the code.

- The log does not always rebuild "the exact state" (`internal/persist/persist.go:3-5`).
  A command that builds on an entry with a deadline, replayed after that deadline,
  no longer finds it; `Replay.Guard` says exactly which commands those are.
- `SET k v EX 9223372037` wraps: the live key never expires, its replay is deleted
  (`Replay.SetOverflowLosesKey`).
- A SET with expiry is two records. A file that ends between them brings the key
  back without expiry (`Recovery.SplitSetNeverExpires`).
- A file cut inside the bytes of an argument makes the server refuse to start; a
  file cut elsewhere inside a record is taken for complete, and new records are
  appended behind the fragment (`Restart.RestartExact`, `Restart.SwallowedRecord`).
- A closed class that rejects `[` is also tried as a literal `[`, which accepts and
  misses names against `internal/store/glob.go:3-13` (`Glob.LiteralFallbackAccepts`,
  `Glob.LiteralFallbackMisses`).
- A line of exactly the maximal length is refused when it fills whole read buffers,
  and a long stream without LF is a protocol error before it ends
  (`Resp.FragmentsAgree`).
- The server's limits can be raised, those of the loader cannot: a log with a larger
  record is refused at that record (`Persist.LargeRecordStops`).
- FLUSHDB gives the shards back before it empties the heap, so a deadline written in
  between is left to lazy expiry (`Coverage.LostDeadline`).
- ReadReply peeks at the type byte, reads the line, and looks at the same slot of
  the buffer again. When the line had to be completed, another byte may be there,
  and a simple string comes out as an error or the other way round
  (`Bufio.Buffer.ReadReply`, `Bufio.MisreadReply`).
- SCAN is documented to return a changing key more than once; it never does
  (`Store.ScanGuarantee`).
- MSETNX counts a repeated key once per pair, so the key count runs ahead of the
  maps (`Store.Store.SetNXMulti`).
- INCR and its relatives drop the TTL and wrap at 64 bits (`Counters.CounterValue`).
- `docs/CONCURRENCY.md` says that readers take the shared lock; GET and TTL take the
  exclusive one, because they may purge.
- A handler can outlive Serve's return (`Server.HandlerOutlivesServe`): at most the one
  whose connection the accept loop held when the wait was over (`Server.LeftOver`).
  It can no longer execute a command (`Server.ReturnedIsQuiet`).

## Model

| member | source | states |
|---|---|---|
| `Basics.Wrap64` | internal/store/store.go:293-294 | the int64 result is the one value in range that is congruent to the mathematical one modulo 2^64 |
| `Basics.ParseFormat` | internal/store/store.go:286-294 | an int64 survives being printed and parsed back, for every int64 |
| `Basics.NoLeadingZero` | internal/resp/resp.go:169-179 | the text of a number begins with 0 only if the number is 0 |
| `Basics.WrapScale` | internal/command/command.go:483-494 | scaling a wrapped product by a constant wraps to the same value as scaling the unwrapped one |
| `Basics.FormatIntLength` | internal/resp/resp.go:169-179 | the text of an int64 has at most 20 bytes, so every header the writer emits is within the header limit |
| `TimedMap.SameViewIffViews` | internal/store/store.go:164-166 | two stores are indistinguishable at a time exactly when their unexpired entries are the same map |
| `TimedMap.SameViewLater` | internal/store/store.go:164-166 | stores that look alike at one time look alike at every later time |
| `TimedMap.LivePutAll` | internal/command/command.go:395-404 | after MSET a named key shows its last pair without expiry and every other key is unchanged |
| `TimedMap.LiveDelAll` | internal/store/store.go:241-256 | after DEL exactly the named keys are gone |
| `TimedMap.DelCountZero` | internal/command/command.go:248-254 | a DEL that counts no key changes nothing a client can see, so not logging it loses nothing |
| `Glob.MatchClass` | internal/store/glob.go:84-127 | the class loop decides membership in the class as parsed and returns the position behind the closing bracket, or behind the `[` when it is never closed; what ranges, negation, lists and escapes accept is stated by the pattern lemmas below |
| `Glob.GlobMatch` | internal/store/glob.go:20-76 | what the matcher accepts is a match of its own step relation; it decides the documented relation whenever the name has no `[` or every closed class accepts `[` |
| `Glob.LoopSound` | internal/store/glob.go:20-76 | from any loop state, acceptance implies a match from the current position or from a later restart behind the last star |
| `Glob.LoopComplete` | internal/store/glob.go:20-76 | backtracking to the last star only misses no match: an older star can only reach the newest one later |
| `Glob.GlobComplete` | internal/store/glob.go:3-16 | both directions of the agreement with the documented operators, on clear inputs |
| `Glob.StarFreeExact` | internal/store/glob.go:3-16 | for patterns without stars the matcher means what the documentation says on every name if and only if every closed class accepts `[` |
| `Glob.LiteralFallbackAccepts` | internal/store/glob.go:39-50 | pattern `[a]` accepts the three-byte name `[a]`, which the documentation excludes |
| `Glob.LiteralFallbackMisses` | internal/store/glob.go:39-50 | pattern `*[a]*` rejects the name `[a`, which the documentation includes |
| `Glob.RangePattern` | internal/store/glob.go:112-119 | `[lo-hi]` accepts a byte if and only if it lies between the bounds |
| `Glob.NegatedRangePattern` | internal/store/glob.go:89-93 | `[^lo-hi]` and `[!lo-hi]` accept exactly the other bytes |
| `Glob.MembersPattern` | internal/store/glob.go:95-124 | `[abc]`, for any list of plain bytes, accepts exactly those bytes, and an empty list none |
| `Glob.NegatedMembersPattern` | internal/store/glob.go:89-93 | `[^abc]` and `[!abc]` accept exactly the bytes not listed |
| `Glob.EscapedMemberPattern` | internal/store/glob.go:103-108 | in a class a backslash makes the next byte a member, the closing bracket included |
| `Glob.LiteralPattern` | internal/store/glob.go:3-16 | a pattern without special bytes accepts itself alone |
| `Glob.PrefixPattern` | internal/store/glob.go:3-16 | `p*` accepts exactly the names that start with p |
| `Glob.SuffixPattern` | internal/store/glob.go:3-16 | `*p` accepts exactly the names that end with p |
| `Glob.InfixPattern` | internal/store/glob.go:3-16 | `*p*` accepts exactly the names that contain p |
| `Glob.SingleTokenPatterns` | internal/store/glob.go:28-50 | `?` accepts any one byte; a backslash makes the next byte ordinary; a backslash at the end and an unclosed bracket stand for themselves |
| `ExpHeap.RootIsLeast` | internal/store/store.go:112-118 | in an ordered heap the root has the least deadline |
| `ExpHeap.Up` | internal/store/store.go:428-432 | sift-up restores the order and permutes the entries |
| `ExpHeap.Down` | internal/store/store.go:440-442 | sift-down restores the order of the prefix, permutes it and leaves the rest alone |
| `ExpHeap.Push` | internal/store/store.go:428-432 | the heap stays ordered and gains exactly the new entry |
| `ExpHeap.Pop` | internal/store/store.go:440-442 | the heap stays ordered, loses exactly the returned entry, and that entry is due no later than any other |
| `Store.NextPow2` | internal/store/store.go:120-126 | the least power of two that is at least n |
| `Store.Store.constructor` | internal/store/store.go:80-94 | an empty valid store with n shards and an exact count |
| `Store.Store.Lookup` | internal/store/store.go:147-160 | reading the owning shard is reading the flat map the shards represent |
| `Store.Store.Put` | internal/store/store.go:228 | writing the owning shard writes the flat map and adds one to the total size exactly for a new key |
| `Store.Store.Purge` | internal/store/store.go:170-173 | the key leaves the flat map and the count stays as exact as it was |
| `Store.Store.PushExpiry` | internal/store/store.go:428-432 | the heap stays ordered and gains the deadline |
| `Store.Store.Get` | internal/store/store.go:177-191 | returns the live value, purges at most an expired entry, keeps the count exact and the heap covering |
| `Store.Store.Set` | internal/store/store.go:204-237 | with NX it takes place if and only if no live entry is there, with XX if and only if one is, otherwise always; then the key holds the value and the wrapped deadline (none without a positive TTL), and if not the flat map is that of a lookup; count and heap invariants are kept |
| `Store.Store.Del` | internal/store/store.go:241-256 | all keys leave the map; the number returned is that of the keys live when visited, each counted once |
| `Store.Store.Exists` | internal/store/store.go:259-271 | counts the live keys, repeats included, and changes nothing |
| `Store.Store.IncrBy` | internal/store/store.go:275-299 | adds to the parsed live value with wrap-around and drops the TTL; a non-integer is left alone |
| `Store.Store.Append` | internal/store/store.go:303-329 | the new value is the live value followed by the suffix, its deadline unchanged, and the length is returned; it is refused exactly when the limit would be exceeded, and then only an expired entry may go |
| `Store.Store.Expire` | internal/store/store.go:333-353 | moves the deadline of a live key, deletes on a non-positive duration, pushes the heap entry |
| `Store.Store.TTL` | internal/store/store.go:357-374 | remaining nanoseconds, -1 without deadline, none for a key that is missing or expired |
| `Store.Store.Flush` | internal/store/store.go:386-404 | every shard, the heap and the count are empty, and the count is exact again whatever it was |
| `Store.Store.GetSet` | internal/store/store.go:514-531 | returns the live value and leaves the new one without expiry |
| `Store.Store.NoneLive` | internal/store/store.go:563-572 | succeeds exactly when no key was live at its reading, and purges only expired keys of the batch |
| `Store.Store.WriteAll` | internal/store/store.go:573-577 | writes all pairs; the count runs ahead of the maps by the number of repeated keys |
| `Store.Store.SetNXMulti` | internal/store/store.go:538-579 | all pairs or none: success exactly when no key is live; failure is invisible; the count drifts by pairs minus distinct keys |
| `Store.Store.ExpireAt` | internal/store/store.go:584-605 | a live key gets the wrapped absolute deadline, or is deleted when that has passed |
| `Store.Store.ExpireAtMs` | internal/store/store.go:610-630 | the same in milliseconds |
| `Store.Store.Persist` | internal/store/store.go:634-651 | drops the deadline of a live key that has one, and reports exactly that |
| `Store.Store.PopDue` | internal/store/store.go:438-443 | takes off the heap exactly the entries that are due |
| `Store.Store.Sweep` | internal/store/store.go:434-453 | afterwards the store holds exactly the entries that have not expired: stale heap entries delete nothing, and no expired key is missed |
| `Store.Store.ScanShard` | internal/store/store.go:494-503 | the selected keys of one shard that are live when the loop comes by, each once |
| `Store.Store.Keys` | internal/store/store.go:458-473 | exactly the keys that the pattern accepts (all, for an empty pattern) and that are live at the reading taken for them, each once |
| `Store.Store.Scan` | internal/store/store.go:483-509 | one shard's selection and the cursor of the next shard, 0 after the last; any cursor is accepted and the count changes nothing |
| `Store.TotalIsSize` | internal/store/store.go:407 | the shards together are as large as the map they represent, so an exact count is the number of keys stored |
| `Store.ScanVisits` | internal/store/store.go:487-508 | feeding cursors back visits every shard in order and ends after as many calls as there are shards |
| `Store.ScanGuarantee` | internal/store/store.go:475-482 | over a whole iteration with the store changing arbitrarily between calls: no key twice, only keys live when their shard was read, and every selected key that is live throughout |
| `Refinement.StepCongruence` | docs/CONCURRENCY.md:100-121 | stores that look alike give the same answers and go on looking alike, so lazy and active expiry cannot be observed |
| `Refinement.PerformKey` | internal/store/store.go:177-374 | each single-key operation of the sharded store, with its readings, is the reference function of the live entry, and keeps the count as exact as it was |
| `Refinement.Perform` | internal/store/store.go:177-651 | each operation of the sharded store is the operation on one flat map, up to expired entries; what it does to the count depends on its result alone |
| `Refinement.Run` | docs/CONCURRENCY.md:28-57 | any sequence of operations under a non-decreasing clock returns what one flat map that never purges returns, for any number of shards and any assignment of keys; the count leads the maps by exactly the repeated keys of successful batches since the last flush |
| `Refinement.DistinctSize` | internal/store/store.go:538-579 | a batch has as many distinct keys as pairs if and only if no key is repeated |
| `Refinement.ExactCount` | internal/store/store.go:387-390 | a count that starts out exact never falls behind, and stays exact when every successful batch names its keys once |
| `Resp.FragmentsAgree` | internal/resp/resp.go:60-89 | over all streams, the fragment loop and the simple rule differ in exactly two cases: max bytes then CR LF, when max + 1 bytes fill whole buffers, and a stream that ends without LF after whole buffers of more than max bytes |
| `Resp.ShortLine` | internal/resp/resp.go:60-89 | a line within the limit is read whole for every buffer size, and nothing behind it is consumed |
| `Resp.ReplyRoundTrip` | internal/resp/resp.go:269-338 | decoding a written reply tree of any depth gives it back and stops at its last byte; how the reader on the buffer compares is stated by `Bufio.Buffer.ReadReply` |
| `Resp.EncodeUnique` | internal/resp/resp.go:269-293 | no two reply streams share their bytes |
| `Resp.CommandRoundTrip` | internal/resp/resp.go:91-130 | a written command is read back, and nothing behind it is consumed |
| `Resp.ReadFits` | internal/resp/resp.go:49-58 | whatever is accepted is within the limits given |
| `Resp.LargeCommand` | internal/resp/resp.go:91-130 | a command beyond the limits is refused, however much of it has arrived |
| `Resp.FieldsAre` | internal/resp/resp.go:132-145 | the fields of an inline line are its words in order, whatever white space lies between, before and behind them |
| `Resp.InlineMeans` | internal/resp/resp.go:132-145 | an inline command is read as its words, and nothing behind its line is consumed |
| `Resp.WireExamples` | internal/resp/resp.go:163-238 | one message of each kind, byte by byte |
| `Resp.ArrayExample` | internal/resp/resp.go:269-293 | an array of a null and a text, byte by byte |
| `Resp.CommandExample` | internal/persist/persist.go:71-95 | a command, byte by byte |
| `Resp.TornHeader` | internal/resp/resp.go:64-89 | a header line cut anywhere reads as the end of the file |
| `Resp.TornCommand` | internal/resp/resp.go:91-130 | a command cut anywhere is never read as a command; the error is an unexpected end exactly when the cut is inside the bytes of an argument |
| `RespIO.Reader.constructor` | internal/resp/resp.go:49-58 | a reader over a stream with a given buffer size |
| `RespIO.Reader.ReadSlice` | internal/resp/resp.go:66-78 | one fragment: up to the LF, a full buffer, or the rest of the stream |
| `RespIO.Reader.ReadLine` | internal/resp/resp.go:64-89 | result and position are those of the line function, for every buffer size and every limit |
| `RespIO.Reader.ReadBody` | internal/resp/resp.go:120-127 | the announced bytes and their CR LF, or the kind of failure |
| `RespIO.Reader.ReadBulkArg` | internal/resp/resp.go:105-127 | header checks and body of one argument |
| `RespIO.Reader.ReadMultibulk` | internal/resp/resp.go:91-130 | the loop reads what the recursive definition says, with the first failure |
| `RespIO.Reader.ReadInline` | internal/resp/resp.go:132-145 | the white-space separated fields of a line, within the argument limit |
| `RespIO.Reader.ReadCommand` | internal/resp/resp.go:49-58 | the multibulk or inline form by the first byte |
| `RespIO.Writer.constructor` | internal/resp/resp.go:148-153 | an empty output |
| `RespIO.Writer.WriteLine` | internal/resp/resp.go:216-238 | prefix, payload, CR LF are appended |
| `RespIO.Writer.WriteBulk` | internal/resp/resp.go:181-197 | length header, bytes, CR LF are appended |
| `RespIO.Writer.WriteArrayLen` | internal/resp/resp.go:205-214 | the array header is appended |
| `RespIO.Writer.WriteReply` | internal/resp/resp.go:269-293 | the bytes of the whole tree are appended, in order |
| `RespIO.Writer.WriteElements` | internal/resp/resp.go:285-289 | the elements are appended one after the other |
| `Bufio.Buffer.constructor` | internal/resp/resp.go:49-53 | an empty buffer over a stream |
| `Bufio.Buffer.Fill` | internal/resp/resp.go:66-73 | sliding and taking more bytes, in pieces of any size, leaves the bytes to come unchanged and moves them to the front of the buffer |
| `Bufio.Buffer.Peek` | internal/resp/resp.go:299-303 | the slot of the next byte, or none at the end, without consuming anything |
| `Bufio.Buffer.ReadSlice` | internal/resp/resp.go:66-73 | the buffer delivers exactly the fragments the reader is built on, whatever the pieces; a line already buffered leaves the buffer alone, any other ends up at its front |
| `Bufio.Buffer.ReadLine` | internal/resp/resp.go:64-89 | on the buffer itself the line loop computes the line function, for every buffer size and every arrival pattern |
| `Bufio.Buffer.ReadReplyLine` | internal/resp/resp.go:305-317 | the type of a simple string or error is read off the peeked slot after the line was read: right when the line was buffered, right on slot 0 when it fits the buffer, and in every other case right if and only if the byte that has got into the slot is of the same type |
| `Bufio.Buffer.Read` | internal/resp/resp.go:120-123 | a piece of what is buffered or of the source, never empty before the end |
| `Bufio.Buffer.ReadFull` | internal/resp/resp.go:120-123 | the bytes asked for, or all there are, for every arrival pattern |
| `Bufio.Buffer.ReadBody` | internal/resp/resp.go:120-127 | the announced bytes and their CR LF, or the kind of failure |
| `Bufio.Buffer.ReadIntegerReply` | internal/resp/resp.go:318-330 | integer replies with their checks |
| `Bufio.Buffer.ReadBulkReply` | internal/resp/resp.go:340-360 | bulk replies, -1 as null |
| `Bufio.Buffer.ReadReply` | internal/resp/resp.go:299-338 | for every buffer and arrival pattern: failure, position and tree are those of the definition up to the types of texts; exact when the reply is buffered or is a text that starts on a drained buffer and fits; of every other text the exact condition |
| `Bufio.Buffer.ReadArrayReply` | internal/resp/resp.go:362-383 | the same for arrays, element by element |
| `Bufio.NoTextExact` | internal/resp/resp.go:299-338 | a reply without texts can only come out as itself |
| `Bufio.WriteThenRead` | internal/resp/resp.go:269-338 | a written reply read through a buffer of any size filled in any pieces: exactly its bytes are used and it comes back up to the types of texts, exactly so without texts or as a text that fits |
| `Bufio.MisreadReply` | internal/resp/resp.go:305-317 | an input on which a simple string comes out as an error |
| `Command.ReadSetOptions` | internal/command/command.go:193-228 | the option loop returns what the recursive definition says, with the first error |
| `Command.SetOptionsShape` | internal/command/command.go:193-228 | SET accepts exactly: nothing, one condition, one positive expiry, or both in either order |
| `Command.ParseWellFormed` | internal/command/command.go:120-132 | whatever passes the arity and number checks is a well-formed command; which command a request is, is stated by the Meaning lemmas |
| `Command.LoggedForms` | internal/command/command.go:67-77 | only rewritten commands reach the log: no relative expiry, no condition; increments and absolute deadlines pass through unchanged |
| `Command.FlattenPairs` | internal/command/command.go:395-421 | an MSET record repeats the client's arguments |
| `Command.RecordParses` | internal/command/command.go:67-77 | parsing a log record yields exactly the command that was meant, whatever the client's spelling |
| `Meaning.GetMeans` | internal/command/command.go:240-246 | GET in any spelling answers the live value or null, purges at most an expired entry and logs nothing |
| `Meaning.ExistsMeans` | internal/command/command.go:256-258 | EXISTS answers how many of its keys, repeats included, are live when looked at |
| `Meaning.ShapeSays` | internal/command/command.go:193-228 | the option loop accepts a list exactly when it says, in words, a condition and an expiry of n seconds or n milliseconds |
| `Meaning.SetMeans` | internal/command/command.go:185-238 | SET takes place unless NX meets a live key or XX meets none; then the key holds the value with the deadline asked for, OK is answered, and the log has SET without options and a PEXPIREAT in milliseconds |
| `Meaning.SetRefuses` | internal/command/command.go:193-228 | every other option list is an error that changes and logs nothing |
| `Meaning.SetNXMeans` | internal/command/command.go:436-442 | SETNX answers 1 and stores exactly when no live key is there |
| `Meaning.GetSetMeans` | internal/command/command.go:425-432 | GETSET answers the live value or null, stores the new one without expiry, and is logged as a SET |
| `Meaning.DelMeans` | internal/command/command.go:248-254 | DEL takes away exactly its keys, answers how many distinct ones were live, and is logged if and only if there was one |
| `Meaning.CounterMeans` | internal/command/command.go:260-276 | INCR moves by 1, DECR by -1, INCRBY by its argument and DECRBY by minus its argument, from the live integer or 0, modulo 2^64; the deadline goes; a value that is no integer is an error that changes nothing |
| `Meaning.AppendMeans` | internal/command/command.go:278-285 | APPEND leaves the old live value followed by the suffix, keeps the deadline, answers the new length; over the limit it is an error |
| `Meaning.ExpireMeans` | internal/command/command.go:291-310 | EXPIRE counts seconds and PEXPIRE milliseconds from the reading; the key goes when the argument or the wrapped duration is not positive; what is logged is DEL or the absolute deadline |
| `Meaning.ExpireAtMeans` | internal/command/command.go:483-531 | EXPIREAT and PEXPIREAT set the absolute deadline in seconds or milliseconds, or delete when it has passed, and are logged in milliseconds |
| `Meaning.PersistMeans` | internal/command/command.go:535-541 | PERSIST answers 1 and drops the deadline exactly when a live key has one |
| `Meaning.FlushMeans` | internal/command/command.go:327-331 | FLUSHDB leaves the empty map |
| `Meaning.MSetMeans` | internal/command/command.go:395-404 | MSET leaves under each key its last value without expiry and every other key alone; an odd list is refused |
| `Meaning.MSetNXMeans` | internal/command/command.go:408-421 | MSETNX writes all pairs exactly when no key is live, answers 1 and is logged as the MSET; otherwise it answers 0 and changes nothing |
| `Meaning.RefusalMeans` | internal/command/command.go:118-132 | an empty word, a word that names no command and a wrong number of arguments are refused, each with its own error, and change nothing |
| `Replay.DeadlineRewriting` | internal/persist/persist.go:7-10 | a relative TTL comes back less than a millisecond early, never later than the lag between the two clock readings, and exact on a millisecond clock |
| `Replay.ExpireAtRewriting` | internal/command/command.go:483-494 | EXPIREAT logged in milliseconds comes back as the same deadline even when both products wrap |
| `Replay.SetFaithful` | internal/command/command.go:185-238 | SET with any options: the live store and the replayed one stay in step if and only if the command meets its guard |
| `Replay.PlainSetFaithful` | internal/command/command.go:425-442 | SETNX and GETSET: the live store and the replayed one stay in step if and only if the command meets its guard |
| `Replay.IncrFaithful` | internal/command/command.go:260-276 | INCR, DECR, INCRBY, DECRBY: the live store and the replayed one stay in step if and only if the command meets its guard |
| `Replay.AppendFaithful` | internal/command/command.go:278-285 | APPEND: the live store and the replayed one stay in step if and only if the command meets its guard |
| `Replay.PersistFaithful` | internal/command/command.go:535-541 | PERSIST: the live store and the replayed one stay in step if and only if the command meets its guard |
| `Replay.ExpireInFaithful` | internal/command/command.go:291-310 | EXPIRE and PEXPIRE with a positive argument: the live store and the replayed one stay in step if and only if the command meets its guard |
| `Replay.ExpireAtFaithful` | internal/command/command.go:483-531 | EXPIREAT and PEXPIREAT: the live store and the replayed one stay in step if and only if the command meets its guard |
| `Replay.BatchFaithful` | internal/command/command.go:395-421 | MSET, MSETNX and FLUSHDB: the live store and the replayed one stay in step if and only if the command meets its guard |
| `Replay.DelFaithful` | internal/command/command.go:248-254 | a DEL, logged or not, always keeps the two stores in step |
| `Replay.StepFaithful` | internal/command/command.go:120-151 | every command keeps the two stores in step if and only if it meets its guard, overflowing durations included |
| `Replay.RecoveryExact` | internal/persist/persist.go:1-10 | over any run: a crash after each command is recovered from if and only if every command met its guard |
| `Replay.GuardedReplay` | internal/persist/persist.go:3-5 | where deadlines have to survive, a guarded run comes back exactly: keys, values and deadlines |
| `Replay.UnlapsedIsGuarded` | internal/persist/persist.go:7-10 | on a millisecond clock it is enough that no command built on an entry whose deadline passes before the replay |
| `Replay.MillisecondClock` | internal/command/command.go:208-212 | durations in whole units keep a millisecond clock on whole milliseconds |
| `Replay.ExtensionLosesKey` | internal/persist/persist.go:3-10 | a deadline moved from t1 to t2 is lost, with its key, by any replay between t1 and t2 |
| `Replay.AppendRevivesKey` | internal/command/command.go:278-285 | an append replayed after the deadline brings the key back, immortal and without its old bytes |
| `Replay.SetOverflowLosesKey` | internal/command/command.go:205-236 | an EX or PX whose duration wraps to zero or below leaves an immortal key live and no key after replay |
| `Replay.ReplayAtOnce` | internal/persist/persist.go:7-10 | the promise with its condition: on a millisecond clock, when no command built on an entry whose deadline passes before the replay, a replay at one time shows what the live store shows |
| `Replay.MillisecondEvent` | internal/command/command.go:205-214 | what makes a command meet the clock condition: one reading in whole milliseconds and a duration that does not wrap |
| `Registry.AOF.constructor` | internal/persist/persist.go:57-69 | an open file that keeps what it holds already |
| `Registry.AOF.Append` | internal/persist/persist.go:71-95 | the record's bytes are added to the file, and nothing after Close |
| `Registry.AOF.Close` | internal/persist/persist.go:111-119 | closed, file unchanged |
| `Registry.EncodeLogConcat` | internal/persist/persist.go:71-95 | the file of two logs is the concatenation of their files |
| `Registry.Registry.constructor` | internal/command/command.go:80-84 | store and propagator are attached |
| `Registry.Registry.HandleSet` | internal/command/command.go:229-238 | contents, answer and the one or two log commands are those of the reference |
| `Registry.Registry.HandleDel` | internal/command/command.go:248-254 | logs exactly when a live key was deleted |
| `Registry.Registry.HandleExpire` | internal/command/command.go:291-310 | the four expiry commands: contents, answer, and the absolute deadline that is logged |
| `Registry.Registry.HandleKey` | internal/command/command.go:240-285 | GET, GETSET, increments, APPEND, PERSIST: contents, answer, log |
| `Registry.Registry.HandleMSet` | internal/command/command.go:395-404 | one store write per pair amounts to the whole batch |
| `Registry.Registry.Handle` | internal/command/command.go:185-541 | answer and log are exactly those of the reference, contents up to expired entries |
| `Registry.Registry.Execute` | internal/command/command.go:118-151 | from raw tokens: the answer, the contents, and the exact bytes added to the file, which are none for a rejected or ineffective command |
| `Registry.Registry.Propagate` | internal/command/command.go:67-77 | the records are appended in order |
| `Persist.WholeMeaning` | internal/persist/persist.go:125-150 | the number of whole records before a cut, characterised by the lengths of the prefixes of the file |
| `Persist.TornTail` | internal/persist/persist.go:121-150 | for a cut at any byte, loading finds exactly the whole records before it, in order, and reports an error if and only if the cut is inside the bytes of an argument |
| `Persist.LogUnique` | internal/persist/persist.go:2-4 | different logs make different files |
| `Persist.LargeRecordStops` | internal/persist/persist.go:135-146 | a record beyond the fixed limits of the loader, which a server with raised limits can write, stops the load there with an error |
| `Persist.LoadsBackIff` | internal/persist/persist.go:135-146 | a log is read back if and only if all its records are within the limits |
| `Persist.OneKeyLocal` | internal/store/store.go:147-160 | a single-key command depends on and changes only what is live under its key |
| `Persist.ExecCongruence` | docs/CONCURRENCY.md:100-121 | stores that look alike execute every command alike: answer, log and later view |
| `Persist.Load` | internal/persist/persist.go:121-150 | the number of commands executed, the error, and a store that looks as if they had been executed one by one on the old contents |
| `Recovery.LogReplays` | internal/persist/persist.go:3-5 | executing the logged tokens, the last record of each request at its reading and one before it at any, is replaying the events of the requests |
| `Recovery.RecordFits` | internal/resp/resp.go:26-34 | a request within the reading limits leads to records within them |
| `Recovery.LogFits` | internal/persist/persist.go:135-140 | so the whole log of such requests can be read back |
| `Recovery.CrashRecovery` | internal/persist/persist.go:1-10 | from the bytes of a file cut at any byte after the records of the first i requests: those records are found, the error is known, and the store shows what the requests left exactly when the crash after request i is one to recover from |
| `Recovery.CrashRecoveryExact` | internal/persist/persist.go:1-10 | loading the file written by any prefix of the requests gives back what it left, for all prefixes, if and only if every command met its guard |
| `Recovery.RecordsPerRequest` | internal/command/command.go:229-237 | a request logs at most two records, and two only for a SET with expiry |
| `Recovery.CutLandsBetween` | internal/command/command.go:229-237 | a cut leaves the records of whole requests or splits a SET with expiry |
| `Recovery.SplitSetNeverExpires` | internal/command/command.go:229-237 | split there, the key is back without expiry, visible at every later time |
| `Recovery.CrashSplit` | internal/command/command.go:229-237 | from the bytes of a file cut between those two records: the store as the requests before left it, but for the key, which is there for good |
| `Recovery.Serve` | internal/command/command.go:118-151 | serving requests on the sharded store leaves the reference contents and exactly the bytes of the reference log |
| `Recovery.ServeThenRecover` | cmd/mem-x/main.go:80-100 | end to end over two sharded stores and one file: serve, cut at any byte, load; count, error and contents of the second store, in step with the first when the guards were met |
| `Restart.LoadPrefix` | internal/persist/persist.go:125-150 | whole records are read first, whatever bytes follow |
| `Restart.TornRecord` | internal/resp/resp.go:91-130 | a cut record with another behind it is read, if at all, as a command that has swallowed bytes of that one |
| `Restart.RestartExact` | cmd/mem-x/main.go:80-100 | after a restart on a cut file every later load finds the whole records and then the new ones, whatever is appended, if and only if the cut fell between two records |
| `Restart.SwallowedRecord` | internal/persist/persist.go:57-69 | a family of files, one per argument length, on which the load after such a restart executes a command nobody sent |
| `Counters.CounterValue` | internal/command/command.go:260-276 | after any number of INCR, DECR, INCRBY and DECRBY requests, as sent, the key holds the text of the 64-bit sum of start and moves, without expiry, and no other key has changed |
| `Counters.CounterOrder` | internal/store/store.go:273-299 | requests that make the same moves in different orders, words and at different times leave the same store |
| `Concurrent.CodeRuns` | docs/CONCURRENCY.md:61-97 | every store operation takes locks in ascending order, acts under the right ones and gives all back, alone or under writeMu; that it does what it stands for is stated in Programs and Solo |
| `Concurrent.LoggedCodeRuns` | docs/CONCURRENCY.md:140-174 | so does every logged write, whatever store operations it makes under writeMu, writeMu first and the log's lock last |
| `Programs.CodeOwes` | internal/store/store.go:177-579 | the code of each store operation performs exactly the commands of that operation, in order: one per key for DEL and EXISTS |
| `Programs.LoggedOwes` | internal/command/command.go:67-77 | so does the code of a logged command that makes any number of store operations, and logging adds none |
| `Programs.StepPays` | docs/CONCURRENCY.md:28-57 | a step of a thread adds at most one command to the history, the one its code was due to perform next |
| `Programs.WorkInProgress` | docs/CONCURRENCY.md:28-57 | at every moment of every interleaving, what a thread has added to the history and what its code still has to perform are together the commands of its operations |
| `Programs.OperationsTakePlace` | docs/CONCURRENCY.md:28-57 | in every interleaving, a thread that is idle again has added exactly the commands of its operations, in order, none skipped and none twice |
| `Solo.AloneOutcome` | docs/CONCURRENCY.md:46-57 | a thread that works alone, on any operations, logged or not, grows the history by their commands and leaves the store as those commands leave what was there |
| `Solo.DelAlone` | internal/store/store.go:241-256 | a DEL on its own leaves the map without its keys and the heap alone, with one Del per key in the history, in order |
| `Solo.ReadAlone` | internal/store/store.go:259-271 | an EXISTS on its own changes neither map nor heap, with one look per key in the history |
| `Solo.KeyAlone` | internal/store/store.go:177-374 | a single-key operation on its own is one execution of its command at two readings of its run, and hands the deadline it set, if any, to the heap |
| `Solo.BatchAlone` | internal/store/store.go:538-579 | an MSETNX on its own decides at one moment: the same view if a key is live then, otherwise all pairs written; the heap stays |
| `Solo.FlushAlone` | internal/store/store.go:386-404 | a FLUSHDB on its own leaves an empty map and an empty heap |
| `Solo.SweepAlone` | internal/store/store.go:434-453 | a sweep on its own takes away, as of one moment of its run, exactly the keys whose own deadline was in the heap and had passed, and exactly the passed deadlines |
| `Interleaving.HolderWaitsHigher` | docs/CONCURRENCY.md:76-81 | a thread that holds a lock has not finished, and waits only for locks further up |
| `Interleaving.Runnable` | docs/CONCURRENCY.md:76-81 | following who waits for whom leads to a thread that can proceed, also when readers queue behind waiting writers |
| `Interleaving.StepExclusive` | docs/CONCURRENCY.md:28-57 | no step gives one lock to two threads |
| `Interleaving.StepDeadlines` | internal/store/store.go:434-453 | the sweeper is only ever after deadlines that are set and have passed |
| `Interleaving.PurgeSafe` | docs/CONCURRENCY.md:113-118 | the sweeper removes only expired entries, whatever happened to the key since its deadline left the heap, and nothing a client sees |
| `Interleaving.ProbeAborts` | internal/store/store.go:562-572 | a batch that meets a live key has no effect |
| `Interleaving.ProbeDecides` | internal/store/store.go:573-577 | a batch that has met none takes effect at one moment, before its first write |
| `Interleaving.StepInv` | docs/CONCURRENCY.md:28-97 | every step of every thread keeps the invariant: lock discipline, exclusion, deadlines, and each key linear |
| `Interleaving.RunInv` | docs/CONCURRENCY.md:28-97 | the invariant holds at every moment of every interleaving of any number of threads |
| `Interleaving.NeverStuck` | docs/CONCURRENCY.md:76-81 | no reachable state with unfinished work is stuck: some thread is unblocked and has a step |
| `Interleaving.Linearizable` | docs/CONCURRENCY.md:46-57 | in every reachable state, what is visible under a key whose shard is unlocked is the outcome of the operations so far applied one by one |
| `Interleaving.AnswersLinear` | docs/CONCURRENCY.md:46-57 | every single-key operation answers what it would answer on that outcome |
| `Interleaving.DropAnswersLinear` | internal/store/store.go:241-256 | each key of a DEL goes in one step, and adds to the answer what a DEL of it alone would answer on that outcome |
| `Interleaving.LookAnswersLinear` | internal/store/store.go:259-271 | each key of an EXISTS is looked at in one step under the shared lock, and adds what that outcome says |
| `Interleaving.BatchAtomic` | internal/store/store.go:533-579 | MSETNX joins the sequence in one step, with the effect of the whole batch or of none of it |
| `Coverage.NextCover` | docs/CONCURRENCY.md:83-97 | every step that does not push a deadline into the middle of a flush keeps every deadline findable |
| `Coverage.EveryDeadlineFound` | internal/store/store.go:386-453 | at every moment of every run in which no deadline reaches the heap between the end of a flush and its reset of the heap, every deadline in the store is in the heap, about to be pushed, or about to be purged |
| `Coverage.IdleHeapComplete` | internal/store/store.go:434-453 | in such a run, when all threads are idle the heap holds every deadline there is |
| `Coverage.ResetLoses` | internal/store/store.go:401-403 | a reset of the heap keeps every deadline findable if and only if each was under way at that moment |
| `Coverage.LostDeadline` | internal/store/store.go:398-403 | a run in which a deadline written between the two halves of a flush is in the store and nowhere the sweeper looks |
| `LogOrder.EnvironmentInv` | docs/CONCURRENCY.md:100-121 | reads, sweeps and time passing in the middle of a logged write are invisible |
| `LogOrder.LeaveTracks` | docs/CONCURRENCY.md:152-158 | a command that releases writeMu joins the sequential run with exactly its records |
| `LogOrder.RunInv` | docs/CONCURRENCY.md:140-166 | at every moment store and log are those of the sequential run, up to the one command under way |
| `LogOrder.LogIsSequential` | docs/CONCURRENCY.md:160-166 | whenever writeMu is free the log is exactly that of a sequential run and the store looks as that run left it |
| `LogOrder.ConcurrentRecovery` | internal/persist/persist.go:1-10 | replaying the log of many concurrent clients gives back what they saw if and only if the crash after the last command is one to recover from, and so when every command met its guard |
| `Server.HandlerBooks` | internal/server/server.go:180-188 | each handler step keeps slots, client counter, wait group and registry exact |
| `Server.AcceptBooks` | internal/server/server.go:132-174 | so does each step of the accept loop, and the cap is respected |
| `Server.ServeBooks` | internal/server/server.go:115-130 | so does the closing pass |
| `Server.StepShutdown` | internal/server/server.go:112-130 | what the shutdown sequence relies on is kept by every step of every party |
| `Server.RunInv` | internal/server/server.go:115-251 | both hold at every moment of every interleaving |
| `Server.SlotsAreExact` | internal/server/server.go:158-168 | slots taken are exactly those of connections accepted and not yet released, never above the cap; the client counter exceeds it by at most the handlers between the two bookings |
| `Server.NoHandlerLeftWaiting` | internal/server/server.go:122-128 | once the closing pass is over, every handler still waiting for a command has had its connection closed |
| `Server.ReturnedIsQuiet` | internal/server/server.go:112-129 | after Serve has returned no command is being executed and no handler can start one, even one that outlives Serve |
| `Server.OnlyHeldIsLeft` | internal/server/server.go:158-172 | with the wait group at zero every connection is over but the one the accept loop holds |
| `Server.LeftOver` | internal/server/server.go:122-129 | the connections that can outlive the wait: at most one, the one the accept loop held when the wait group was found at zero |
| `Server.LeftOverHandler` | internal/server/server.go:122-129 | when Serve has returned, such a connection has a handler that is past the accept loop and not busy |
| `Server.HandlerOutlivesServe` | internal/server/server.go:122-129 | a run in which Serve returns while a handler has yet to look at the context |

## Left out

- Sockets, TLS, deadlines on connections, buffer pools, panics, password checks: the connection protocol is modelled from accept to release, a read ends with a command, a refusal or an error.
- fsync policies and operating-system buffering: a crash keeps some prefix of the bytes appended.
- PING, ECHO, TYPE, TTL, SELECT, INFO, COMMAND, CLIENT, MGET, STRLEN, KEYS and SCAN as commands: they log nothing and would only add easy members. The store operations behind TTL, KEYS and SCAN are modelled.
- Wording of error messages: failures are reduced to their kind.
- Configuration, the command-line client, URLs, the agent scripts.
- The hash function and its mask: every assignment of keys to shards is covered.
- Read errors other than the end of the stream.
- Glob.GlobComplete: one direction only for patterns with stars, because a class that rejects `[` does no harm in a pattern such as `*[^[]x`, where every name matched literally is matched as documented too; without stars `Glob.StarFreeExact` has both directions.
- Store.Store.TTL: in nanoseconds; rounding up to seconds happens in the command handler and is left out.
- Store.Store.ExpireAt: asks for a clock that is not before 1970, for the reason given at Expire below; so does ExpireAtMs.
- Store.Store.Expire: asks for a clock between 1970 and 2262, as int64 nanoseconds do; outside it a deadline could be the 0 that means none.
- RespIO.Reader.ReadInline: bytes above 127 are never white space, where the code also splits at the Unicode spaces outside ASCII.
- Command.ParseWellFormed: command names are lowered in ASCII only, and the names listed above as left out are unknown to the model.
- Replay.RecoveryExact: a record is replayed at one clock reading where the code takes two, and readings do not go back; the live clock may be anything.
- Persist.Load: a file that exists can be opened and read.
- Recovery.CrashRecovery: says what a cut between the records of two requests gives back; a cut between the two records of one SET is the subject of `Recovery.CrashSplit` and `Recovery.SplitSetNeverExpires`.
- Interleaving.Linearizable: the atomic key count is not part of the concurrent model; its law is proved for sequences of operations (`Refinement.Run`).
- Interleaving.DropAnswersLinear: DEL and EXISTS of several keys are not atomic in the code, so their answers are stated key by key.
- Solo.BatchAlone: up to expired entries, because a batch that fails may have purged some of its keys.
- Glob.RangePattern: says nothing of the name `[`, which the literal fallback may accept beside the class; so do the other lemmas on classes.
- Coverage.EveryDeadlineFound: one direction; a deadline pushed in the middle of a flush is lost only if its key is still there when the heap is reset, which `Coverage.ResetLoses` states exactly.
- LogOrder.LogIsSequential: store operations are single steps there, which is what `Interleaving.Linearizable` and `Interleaving.BatchAtomic` establish.
- Server.SlotsAreExact: the back-off after failed accepts is left out.
