# A model of hiredis-vip in Dafny

hiredis-vip is a client for Redis Cluster written in C. This project states what its byte and state
machinery does and proves properties of it. `dafny verify dfyconfig.toml` checks everything.

The network is reduced to what it can do to the client: some bytes arrive, some bytes are taken, a
connection fails, a reply comes back. Everything else is deterministic and follows the source
branch by branch. Code that updates fields, buffers and arrays in place is written as classes and
loops and proved against functions on values; what the program promises is then proved about those
functions.

## Layout

| file | subject |
|---|---|
| Bytes, Resp, Permutations | bytes and numerals, replies and their wire form, sequences with the same elements |
| ReaderMachine, ReaderRoundTrip, RedisReader | the incremental reply reader: as a state machine, as the inverse of a printer, as the object with its task stack |
| Formatter, Connection | the request formatter; one blocking connection with partial writes and arbitrary reads |
| Command, CommandParser, CommandRoundTrip, CommandShape | the command tables and arities, the request automaton, the automaton on formatted requests, what it accepts of any bytes |
| KeySlot, Numerals | CRC16 and hash tags; number formatting and reading |
| Fragments, FragmentBuilder, FragmentReparse, Gather, ScatterGather, ClusterCommand | cutting MGET, DEL and MSET by slot, merging the replies, and why the result is that of the whole command |
| Topology, TopologyAgreement, TopologyExact, SlaveGrouping, SlaveText, Routing | the two topology parsers and exactly what they take, slaves under their masters and the text that lists them, range list and slot table |
| Redirect, RedirectedCommand | the MOVED/ASK retry loop; why a multi-key command gets the undivided command's reply through any redirections |
| Pipeline, PipelinedCommands | pipelined commands over several nodes; why pipelined multi-key commands get the replies of one server |
| Async, AsyncAborts, AsyncCloses, AsyncContext, ClusterAsync | the asynchronous callback protocol, on values, how processing ends, what closing means for a run, and as the object that callbacks re-enter; a cluster command that is registered again for every redirection |
| HashTable, LinkedList, Sds | the chained hash table, the doubly linked list, splitting and quoting of strings |

Main results: `ClusterCommand.ScatterGatherIsWhole` and `MultiKeyCommand` (scatter and gather preserve
meaning), `RedirectedCommand.CommandArgv` and `PipelinedCommands.Pipelined` (so they do through redirections
and in a pipeline), `ReaderMachine.ChunkIndependence`, `ReaderRoundTrip.AnyChunkingReadsBack`,
`CommandRoundTrip.ParseFormatted`, `CommandShape.AcceptedIsRequest`,
`FragmentReparse.FragmentReparses`, `Pipeline.Context.GetReply` and
`Pipeline.Context.Reset`, `Async.RunInOrder`, `AsyncCloses.QueuedExactly`, `AsyncAborts.EndsExactly`,
`ClusterAsync.CalledOnce` and `CalledWith`, `Redirect.Cluster.CommandExecute`,
`Routing.ClusterContext.UpdateRoute`, `TopologyAgreement.ParsersAgree`, `SlaveText.SlavesRead`,
`SlaveGrouping.OrderDoesNotMatter`, `HashTable.Dict.Expand` and `HashTable.Sweep`,
`LinkedList.SweepFromHead`, `Sds.SplitArgsQuoted`, `KeySlot.Crc16`.

## Where the code falls short, and exactly when

- `_hi_itoa` writes no terminator for 0, so the length text of an empty key can be longer than the numeral
  the fragment's buffer was sized for. A fragment fits its buffer if and only if every empty key in it
  follows a length written with one digit: a key of fewer than ten bytes or, for the first key, an
  argument count below ten (`Numerals.TextsExact`; of the code
  that writes it `FragmentBuilder.PutKeys`, `BuildFragment`, `CommandPreFragment` and
  `ClusterCommand.MultiKeyCommand`); otherwise the source writes past the buffer's end.
  `FragmentBuilder.UnsafeRequest` is such a request: MGET of a key of ten zero bytes and an empty key.
- The request parser leaves its result at "OK" when input ends early. For a formatted request this
  happens exactly for a command that takes keys given without any argument
  (`CommandRoundTrip.ParseFormatted`).
- The binary search over ranges gives the slot table's answer if and only if there is a range and the slot is
  at or after the first range's start, or the number of ranges makes the search end before its index
  wraps (`Routing.NodeBySlot`). Otherwise its index leaves the list: an assertion failure when assertions
  are compiled in, and since `ASSERT` is empty unless a macro is set (hiutil.h:227-247), a read beyond
  the list in a default build. `Routing.SearchLeavesList` is such an input.
- When appending a multi-slot command fails after its first fragment, the fragments already sent stay
  outstanding and the connections are out of step; it is harmless exactly when the first fragment failed
  (`Pipeline.Context.AppendFormattedCommand`, `Pipeline.OutOfStep`).
- A reset does not always repair that. Each abandoned fragment adds to its node's surplus, the replies the
  node owes beyond the pending commands; nothing else changes a surplus. A reset leaves no reply outstanding
  if and only if no node has a surplus, or the reset closes the connections: an error is still noted, nothing
  was ever appended, or a reply cannot be merged while the pending commands are drained
  (`Pipeline.Context.Reset`). A get-reply between the failed append and the reset clears the error, and then
  the leftover reply survives (`Pipeline.LeftBehind`) and goes to the next command on that node
  (`Pipeline.StaleReply`).
- A clean asynchronous disconnect asserts that no callback is pending, which its guard does not ensure.
  Processing ends at a failed assertion if and only if the callbacks in line and the replies at hand say so
  (`AsyncAborts.EndsExactly`, for any context; `AsyncAborts.ClosingAbortsExactly`, in closed form, once a disconnect
  was asked for). `AsyncAborts.CleanDisconnectFails` is a run that ends so: one command, a disconnect, everything
  written, a wake-up without a reply. The assertion takes the callback off the queue itself (async.c:344): when
  assertions are compiled out, that callback stays and is torn down without a reply like the others.
- The line loop of the CLUSTER NODES parser never takes the first byte of a later line for a newline: lines
  are recovered exactly when none after the first is empty (`Topology.CutUnlines`).
- The reader's message speaks of a depth above 7; the code accepts eight nested arrays and refuses the
  ninth (`ReaderRoundTrip.RoundTrip`). The model follows the code. The depth is tested before the count, so the
  two wire forms of nil, read alike everywhere else, differ there: an array of count -1 is refused, a bulk of
  length -1 is nil (`ReaderRoundTrip.NullArrayTooDeep`).

## Model

| member | source | states |
|---|---|---|
| ReaderMachine.StepKeepsWf | read.c:190-365 | at most eight arrays are open, each with fewer elements read than it announced, and every step that gets anywhere consumes input |
| ReaderMachine.StepFeed | read.c:215-365 | bytes that arrive later never change what a step made of the bytes already there; a starved step changes nothing |
| ReaderMachine.DrainFeed | read.c:445-525 | reading now and again after more bytes is the same as reading everything at once, errors included |
| ReaderMachine.PumpIsFirst | read.c:500-512 | one get-reply yields the first of the replies the buffered bytes hold, or stops where no progress is possible |
| ReaderMachine.RunAccountsForAll | read.c:445-525 | over any mix of feeds and get-reply calls, replies emitted so far followed by those still to come are what the offered stream yields |
| ReaderMachine.ChunkIndependence | read.c:445-525 | two cuttings of the same bytes, asked until nothing is left, emit the same replies and end in the same state or error |
| ReaderMachine.LineIntForms | read.c:146-173 | a plus sign before the digits is no part of the number, and a line of anything but digits reads as -1 |
| ReaderRoundTrip.ReadNullArray | read.c:302-330 | an array header with the count -1 is nil wherever an array may stand |
| ReaderRoundTrip.NilsAlike | read.c:249-330 | both wire forms of nil are read alike as an element of an array, whatever stands before and after |
| ReaderRoundTrip.NullArrayTooDeep | read.c:302-319 | with eight arrays open the array form of nil is a protocol error and the bulk form is nil |
| ReaderRoundTrip.ReadNegativeBulk | read.c:249-300 | any negative length makes a bulk item nil |
| ReaderRoundTrip.RefuseType | read.c:371-398 | anything but the five type bytes where a reply begins is a protocol error and ends the reading |
| ReaderRoundTrip.ReadReply | read.c:190-365 | a printed reply read at any place in any open arrays acts like the finished object put there |
| ReaderRoundTrip.ReadElements | read.c:302-365 | the elements of an array are collected in order and close it when the announced number is reached |
| ReaderRoundTrip.RefuseDeep | read.c:302-319 | a reply nested too deep is a protocol error and nothing of it is emitted |
| ReaderRoundTrip.RoundTrip | read.c:302-365 | every printable reply nested at most eight arrays deep is read back with all bytes consumed; every deeper one is a protocol error |
| ReaderRoundTrip.StreamRoundTrip | read.c:477-525 | a stream of printed replies is read back as those replies |
| ReaderRoundTrip.AnyChunkingReadsBack | read.c:445-525 | however a printed stream is cut and polled, exactly its replies come out and the reader ends fresh |
| RedisReader.SeekNewline | read.c:119-144 | finds the first CR LF pair, or says there is none |
| RedisReader.ReadLongLong | read.c:146-173 | the signed value of the digits before CR, or -1 when something else is among them |
| RedisReader.RedisReader.StoreInParent | hiredis.c:102-190 | a finished object becomes the next element of the innermost open array |
| RedisReader.RedisReader.MoveToNextTask | read.c:190-213 | pops every array the object completes, down to the next element or an empty stack |
| RedisReader.RedisReader.ProcessLineItem | read.c:215-247 | the object does one line step of the state machine, or nothing when the line is incomplete |
| RedisReader.RedisReader.ProcessBulkItem | read.c:249-300 | the object does one bulk step: nil for a negative length, otherwise the bytes once they and their line end are there |
| RedisReader.RedisReader.ProcessMultiBulkItem | read.c:302-365 | the ninth nested array is refused, otherwise the object does one array step |
| RedisReader.RedisReader.ProcessItem | read.c:367-414 | the type byte, then the item it names, as the state machine does |
| RedisReader.RedisReader.TakeType | read.c:371-398 | the type byte is consumed and becomes the kind of the task on top of the stack |
| RedisReader.RedisReader.ProcessTyped | read.c:400-414 | an item of known type does what the state machine does; a ninth array is refused |
| RedisReader.RedisReader.ProcessItems | read.c:500-506 | items until a reply is complete, an error, or no progress |
| RedisReader.RedisReader.Feed | read.c:445-475 | appends to the unread bytes; refused after an error |
| RedisReader.RedisReader.GetReply | read.c:477-525 | the whole object state after a call is what the state machine says, across buffer compaction |
| Formatter.FormatIsPrint | hiredis.c:530-566 | a formatted request is the wire form of an array of bulk strings, so the reader decodes it |
| Formatter.CountDigits | hiredis.c:193-204 | four-at-a-time counting gives the length of the decimal numeral |
| Formatter.BulkLen | hiredis.c:206-208 | the number of bytes one argument takes on the wire |
| Formatter.PutArgument | hiredis.c:553-560 | writes one argument at the position and leaves what is before it |
| Formatter.TotalLength | hiredis.c:540-545 | the precomputed total is the length of the request |
| Formatter.FormatCommandArgv | hiredis.c:530-566 | fills a buffer of the precomputed size exactly, NUL at its end |
| Connection.RedisContext.BufferWrite | hiredis.c:839-874 | exactly the bytes the socket takes leave the front of the buffer; what was sent and what is buffered are together all that was appended |
| Connection.RedisContext.BufferRead | hiredis.c:794-828 | succeeds exactly when no error is noted and the next thing to arrive is no end of file or failure, and then delivered bytes go through the reader; otherwise the error is set |
| Connection.RedisContext.Flush | hiredis.c:898-901 | sends until the output buffer is empty, and succeeds exactly when what the socket takes before its first failure makes room for all of it |
| Connection.RedisContext.GetReply | hiredis.c:886-914 | returns the reader's next reply, waiting for input only after the whole output buffer was sent; it succeeds exactly when no error is noted and the reader has a reply, or the buffer can be sent and a reply arrives before any failure |
| Connection.RepliesInOrder | hiredis.c:794-914 | whatever the socket does, replies handed out are the first ones the server printed, in order |
| CommandParser.Cmd.NargByte | command.c:364-404 | the count line byte by byte, 32-bit wrap-around included |
| CommandParser.Cmd.LenByte | command.c:405-427 | an argument's length line byte by byte |
| CommandParser.Cmd.BodyBytes | command.c:1091-1125 | an argument is taken whole, whatever bytes it holds, and must be followed by CR |
| CommandParser.Cmd.TakeByte | command.c:360-1590 | one turn of the loop makes exactly the automaton's transition for the state and byte |
| CommandParser.Cmd.RedisParseCmd | command.c:316-1621 | the loop gives the automaton's verdict, type, count and key positions; OK also when input runs out |
| CommandParser.CountIsBad | command.c:1339-1397 | EVAL's key count is refused exactly when it is empty, not a number, or zero modulo 2^32 |
| CommandParser.RunKeys | command.c:1091-1183 | from any reachable state: key positions ascend and lie inside the request, and only the multi-key arities record several |
| CommandParser.ParsedKeys | command.c:316-1621 | for any bytes at all: keys are disjoint, ascending and inside; more than one only for MGET, DEL and MSET |
| Command.Classes | command.c:17-236 | the argument class of every name, and that a name in none is no command |
| Command.AccumulateIs | command.c:1370-1390 | the digits of a count accumulate to the number they stand for, modulo 2^32 |
| Command.CaseOnly | command.c:439-1038 | two names are taken for the same command name exactly when they differ in nothing but the case of letters |
| CommandParser.RunTypeKnown | command.c:439-1038 | the type recorded is one of the table |
| CommandRoundTrip.Layout | hiredis.c:552-560 | where each argument lies in the formatted request |
| CommandRoundTrip.KeyRangeBytes | command.c:1091-1125 | a recorded position holds exactly the argument's bytes |
| CommandRoundTrip.ReadHeader | command.c:366-405 | the count line is recovered; a count of zero is refused |
| CommandRoundTrip.TakeArg | command.c:1056-1125 | one argument is consumed whole and recorded when it is a key |
| CommandRoundTrip.EndArg | command.c:1038-1183 | what may follow an argument, by arity class |
| CommandRoundTrip.KeyArgs | command.c:238-255 | a command of keys only records every argument after the name |
| CommandRoundTrip.PairArgs | command.c:257-275 | a command of pairs records every other argument |
| CommandRoundTrip.EvalArgs | command.c:277-310 | EVAL and EVALSHA record the first key after their key count, or are refused |
| CommandRoundTrip.ParseFormatted | command.c:17-1621 | every formatted argument vector: accepted if and only if the command is known and its count fits, and then with its type and exactly its key arguments |
| CommandShape.AcceptedIsRequest | command.c:316-1621 | for any bytes at all: what is accepted begins with a well-formed request, every length and the count being numerals of the right value modulo 2^32, of a known command whose count fits, and the keys recorded are exactly its key arguments |
| CommandShape.StepRead | command.c:360-1590 | every step keeps what has been read a beginning of a well-formed request, in every state of the automaton |
| KeySlot.TableIsDivision | crc16.c:46-79 | each of the 256 table entries is eight steps of polynomial division by 0x1021 |
| KeySlot.Crc16 | crc16.c:81-87 | the table loop computes the bit-by-bit remainder of every byte string |
| KeySlot.KeyHashSlot | hircluster.c:171-190 | the slot is, in integers, the checksum modulo 16384 of the text between the first braces when there is any, and of the whole key otherwise |
| KeySlot.NineDigits | crc16.c:81-87 | the published check value of the checksum: the text 123456789 gives 0x31C3, and slot 12739 |
| KeySlot.TagOf | hircluster.c:174-189 | with a first opening brace and a non-empty text up to the next closing brace, that text is what is hashed |
| KeySlot.SameTagSameSlot | hircluster.c:171-190 | keys with the same tag share a slot, whatever surrounds it |
| KeySlot.UntaggedWhole | hircluster.c:174-189 | a key without a non-empty tag is hashed whole |
| Numerals.HiItoa | hiutil.c:190-237 | digits reversed in place give the numeral and its terminator; for zero only one byte changes |
| Numerals.HiAtoi | hiutil.c:166-187 | the value of the digits with 32-bit wrap-around, -1 for anything else |
| Numerals.AtoiDec | hiutil.c:166-187 | every numeral below 2^31 is read back |
| TopologyExact.AtoiExactly | hiutil.c:166-187 | a text is read as a number exactly when it is nothing but digits, and as that number modulo 2^32 when it is below 2^31 |
| Numerals.UintLen | hiutil.c:250-266 | repeated division gives the length of the numeral |
| Numerals.TextsExact | hiutil.c:190-237 | the length texts of a fragment take the reserved room if and only if every zero follows a number of one digit |
| Numerals.TextsAtLeast | hiutil.c:190-237 | they are never shorter than reserved |
| Numerals.ExcessStep | hiutil.c:190-237 | what a list of length texts takes beyond the reserved room is the sum of what each takes beyond its numeral |
| Fragments.PicksPartition | hircluster.c:3186-3225 | each key goes to exactly one slot's fragment, order kept |
| Fragments.ScanValue | hircluster.c:3227-3247 | the value after an MSET key is found by its own length line |
| Fragments.DealKeys | hircluster.c:3186-3248 | each slot's sub-command holds its keys and the length its bytes will take |
| FragmentBuilder.NumStr | hircluster.c:3256-3293 | formats a number over any text in the buffer: the numeral, or for zero the old text with its first byte replaced |
| FragmentBuilder.PutKey | hircluster.c:3256-3397 | one key, or key and value, written in wire form with the length text the buffer then holds; refused exactly when it does not fit |
| FragmentBuilder.PutKeys | hircluster.c:3256-3397 | the keys of a fragment fit exactly when their length texts take no more than the reserved room, and then they are its arguments |
| FragmentBuilder.BuildFragment | hircluster.c:3250-3397 | the fragment fits its pre-sized buffer exactly when all its numerals are safe, and then fills it to the last byte with the formatted command of that slot's keys |
| FragmentBuilder.NonEmptyKeysSafe | hircluster.c:3256-3397 | requests without empty keys are always written exactly |
| FragmentBuilder.CommandPreFragment | hircluster.c:3148-3421 | one fragment per slot in slot order and the slot of each key; a single fragment is reported as that slot; a buffer is overrun exactly when some fragment's numerals are not safe |
| FragmentBuilder.UnsafeRequest | hircluster.c:3256-3397 | a request for which a buffer is overrun |
| FragmentReparse.FragmentReparses | command.c:316-1621 | parsing a fragment gives the original type and exactly that slot's keys in order |
| Gather.FailsFirst | hircluster.c:3432-3470 | the merge fails with the first fragment whose reply is missing, an error or of the wrong type, and is stopped by nothing else |
| Gather.CheckAll | hircluster.c:3432-3470 | a missing reply, an error or a wrong type ends the merge: an error with that very error, the others with no reply; DEL counts are summed |
| Gather.PopFromTails | hircluster.c:3496-3520 | walking keys backwards and popping tails gives each key the element that its place among its slot's keys selects |
| Gather.NothingLeft | hircluster.c:3496-3520 | when every fragment answered its keys, every sub-reply ends empty |
| Gather.CommandPostFragment | hircluster.c:3423-3543 | the merged reply of any sub-replies: the first failed one decides, giving its error or no reply; when all fit, the sum, the status, or each key's own element |
| ScatterGather.ServerDoes | hircluster.c:3423-3543 | the undivided command that the merged reply stands for: MGET reads each key, DEL takes keys out and counts how many there were, MSET gives each key the last value named with it, and other keys stay |
| ScatterGather.ServerRuns | hiredis.c:530-566 | a server reading a formatted request with the reply reader executes that command |
| ScatterGather.FragmentEffect | hircluster.c:3256-3397 | a fragment's bytes make the server execute exactly the picked keys |
| ScatterGather.AllInStep | hircluster.c:3186-3397 | key by key, the slot stores stay the parts of the whole store and answers agree |
| ClusterCommand.RunFragmentsFrom | hircluster.c:3672-3690 | executing the fragments in list order leaves each slot's store as its own keys make it |
| ClusterCommand.MergedValues | hircluster.c:3480-3520 | MGET answers are put at their own indexes |
| ClusterCommand.ScatterGatherIsWhole | hircluster.c:3148-3543 | any keys, duplicates included, any store divided by slot: fragments then merge give the reply and the stores of the undivided command |
| ClusterCommand.OneSlotIsWhole | hircluster.c:3406-3418 | when all keys share a slot that slot's node answers for the whole |
| ClusterCommand.OneSlotOneFragment | hircluster.c:3406-3418 | when all keys share a slot there is one fragment, that slot's |
| ClusterCommand.CommandFormatBySlot | hircluster.c:3552-3600 | format, parse and cut any multi-key request: left whole exactly when all keys share a slot, overrun exactly when there are several keys and unsafe numerals |
| ClusterCommand.MultiKeyCommand | hircluster.c:3613-3732 | format, parse, cut, execute and merge end to end: reply and stores are those of the undivided command, except exactly for the requests that overrun a buffer |
| Redirect.ErrorWords | hircluster.c:212-254 | an error is of a redirecting class exactly when its text is that class's word with more after it, whatever the order of tests |
| Redirect.WordsSpelled | read.h:66-72 | the words of the redirecting errors |
| Redirect.AskTargetReads | hircluster.c:2905-2945 | the address in an ASK error is the one the server printed |
| Redirect.AskTargetForm | hircluster.c:2925-2935 | an error names an address exactly when it is three fields between single spaces, the last of them two parts around a colon |
| Redirect.Cluster.PickConnection | hircluster.c:3009-3050 | the slot's node unless it is broken; falling back to another one raises the redirection count by exactly one, and there is no connection exactly when the slot has no node, or its node is broken and no other can be reached within the bound |
| Redirect.Cluster.FollowRedirect | hircluster.c:3079-3142 | after ASK comes ASKING on the connection named, and the resend can only follow on it; it fails exactly when the route cannot be updated after MOVED, or when ASK names no address, its node cannot be connected to, or ASKING is not answered |
| Redirect.Cluster.CommandExecute | hircluster.c:2998-3146 | for any doings of the network: a reply comes back exactly when the last answer is no redirection, and it is that answer; otherwise the call gave up for one of the reasons told; it sends at most one more than the redirections left, and every resend after ASK directly follows ASKING on the same connection |
| Redirect.Cluster.FormattedCommand | hircluster.c:3613-3732 | the log is one orderly part per fragment in list order, each reply being what its part ends in; n fragments are sent at most n plus the redirection bound times, the budget is restored, and only an error or a fragment that gave up ends it early |
| RedirectedCommand.RunOnce | hircluster.c:2998-3146 | however often a request is sent, at most one answer is no redirection, and nothing follows it |
| RedirectedCommand.FinishedRuns | hircluster.c:3672-3690 | through any redirections the fragments have been run once each, in list order, at their slots |
| RedirectedCommand.RedirectedIsWhole | hircluster.c:2998-3732 | the merged reply and the slots are those of the undivided command |
| RedirectedCommand.CommandArgv | hircluster.c:3613-3732 | end to end, slot owners answering what they did: a reply comes back exactly when every fragment got an answer that is no redirection, it is the undivided command's, and the slots hold what they should; otherwise a fragment gave up for a reason told |
| Pipeline.Context.AppendCommand | hircluster.c:2812-2849 | a request joins the queue of its slot's node, or nothing is queued |
| Pipeline.Context.AppendParts | hircluster.c:3856-3869 | fragments are sent up to the first whose slot has no node |
| Pipeline.Context.AppendFormattedCommand | hircluster.c:3790-3926 | on success every surplus stays and replies stay in step; on failure the fragments already sent add to their nodes' surplus, and replies stay in step exactly when it was the first fragment |
| Pipeline.Context.ReadReply | hircluster.c:2853-2903 | the reply taken is the first the slot's node owes |
| Pipeline.TakeOwn | hircluster.c:2853-2903 | while in step, every part read gets its own reply and what is left stays in step |
| Pipeline.TakeKeeps | hircluster.c:2853-2903 | reading the replies of the first parts leaves every node's surplus as it was |
| Pipeline.Context.GetReply | hircluster.c:4076-4170 | the k-th reply returned answers the k-th command appended, multi-slot commands merged, while in step, and the first fragment that failed deciding; in any state the reply drawn and what the nodes then owe are told exactly, and no surplus changes |
| Pipeline.Context.Reset | hircluster.c:4172-4215 | from any reachable state: every node owes exactly its surplus afterwards, or nothing when the connections are closed; so no reply is outstanding if and only if they are closed or there was no surplus |
| Pipeline.OutOfStep | hircluster.c:3856-3869 | fragments left behind leave some node with a reply too many |
| Pipeline.LeftBehind | hircluster.c:4172-4215 | a run after whose reset a reply is still outstanding |
| Pipeline.StaleReply | hircluster.c:4076-4215 | the same run goes on: the next command on that node gets the abandoned fragment's reply |
| PipelinedCommands.OrderBetweenNodes | hircluster.c:2812-2903 | with every node running its requests in buffer order, what the nodes do relative to each other changes no answer and no store |
| PipelinedCommands.CallIsWhole | hircluster.c:4076-4170 | among other commands, a multi-key command's merged reply and effect are those of the undivided command |
| PipelinedCommands.PipelinedIsWhole | hircluster.c:3790-4170 | every pending command's reply is the one a single server gives that runs the commands in turn, and the slots end with its keys |
| PipelinedCommands.RunningIsWhole | hircluster.c:3790-4170 | at any moment, each node having run any beginning of its buffer: a command whose requests have been run has the single server's reply |
| PipelinedCommands.AppendCommandArgv | hircluster.c:3969-3986 | a command is formatted, cut and appended, exactly when no buffer is overrun and each of its fragments has a node |
| PipelinedCommands.Pipelined | hircluster.c:3790-4170 | appends and get-replies in any order: every reply handed out is that of a single server running the commands in turn |
| Topology.CutUnlines | hircluster.c:992-1021 | the line loop recovers the lines if and only if none after the first is empty |
| Topology.SlotToken | hircluster.c:1068-1184 | one number, two numbers, in bounds; anything else gives no range |
| Topology.MastersOnly | hircluster.c:966-1250 | without slaves the reading is that of the masters |
| Topology.NodeLine | hircluster.c:1002-1206 | one line, with the node filed under its own or its master's name when slaves are wanted |
| Topology.ParseClusterNodes | hircluster.c:966-1250 | the text loop, with or without slaves, computes the line-by-line reading and fills the dictionary by name |
| Topology.ParseClusterSlots | hircluster.c:774-961 | the element loops compute the region-by-region parse, replicas looked at only for a new master |
| TopologyAgreement.TokenRead | hircluster.c:1068-1184 | slots and ranges are read back, open-slot tokens give nothing |
| TopologyAgreement.LineRead | hircluster.c:1002-1218 | a node line is read as what it describes; lines without address or of other roles give nothing |
| TopologyAgreement.NodesRead | hircluster.c:966-1250 | any text of lines gives its masters in order; refused exactly when two have the same address |
| TopologyAgreement.AddrTells | hircluster.c:877-880 | an address text determines host and port, even with colons in the host |
| TopologyAgreement.RegionsRead | hircluster.c:800-946 | any regions are read, the ranges collected being those of the reply |
| TopologyAgreement.RouteServes | hircluster.c:1371-1421 | in an installed route a slot has a host and port exactly when a range assigned to them holds it |
| TopologyAgreement.ParsersAgree | hircluster.c:774-1421 | text and reply that assign the same ranges are both read, accepted alike, and give the same slot to host and port table |
| TopologyExact.TokenExactly | hircluster.c:1068-1184 | a token gives a range exactly when it is one number or two around a minus sign, in order and within the 16384 slots |
| TopologyExact.LineExactly | hircluster.c:1002-1218 | a line is refused exactly when it has fewer than eight fields, or is that of a master whose address is not a host and a port or is there already; any other line adds its master or nothing |
| TopologyExact.EveryLine | hircluster.c:1002-1040 | an empty line is refused, and every other line has fields, so that the statement about fields is one about all lines |
| TopologyExact.RegionExactly | hircluster.c:800-946 | a region is taken exactly when it has the form of one, its bounds are in order, and its master is known or is new with a host, a port and well-formed replicas |
| SlaveGrouping.GroupIsRight | hircluster.c:660-769 | grouping succeeds exactly when master names are distinct, and each name holds its master and all slaves that name it |
| SlaveGrouping.OrderDoesNotMatter | hircluster.c:660-769 | for any two orders of the lines each master has the same slaves, those included that came before it |
| SlaveGrouping.NodesByName.TakeOver | hircluster.c:713-740 | parked slaves and the node that held their place are moved to the master |
| SlaveGrouping.NodesByName.MapWithName | hircluster.c:660-769 | filing one node changes the dictionary and lists as the grouping says, or nothing when two masters clash |
| SlaveText.SlavesRead | hircluster.c:966-1250 | any text is read with slaves exactly when it is without, every slave's address has two parts and no two masters share a name; the masters are the same and the nodes by name are the grouping of the lines |
| SlaveText.DescribedRead | hircluster.c:966-1250 | the text of any lines of masters and slaves gives their masters and their grouping, refused exactly on a repeated address or name or a slave's bad address |
| Routing.AcceptedExactly | hircluster.c:1371-1421 | what an update accepts, told from the slots: every node a master, every range holding a slot and none past 16383, no slot in two ranges |
| Routing.SortSorts | hircluster.c:1408-1408 | the range list after sorting is a sorted permutation |
| Routing.CollectRanges | hircluster.c:1371-1406 | anything but masters with valid ranges ends the update |
| Routing.FillRange | hircluster.c:1412-1420 | a range fills its slots unless one is taken |
| Routing.FillTable | hircluster.c:1408-1421 | the table is built exactly when the sorted ranges are disjoint |
| Routing.ClusterContext.UpdateRoute | hircluster.c:1256-1487 | succeeds exactly on masters with valid disjoint ranges, then list and table agree; a failed update changes nothing |
| Routing.ClusterContext.NodeByTable | hircluster.c:2584-2598 | the node one of whose ranges holds the slot, if any |
| Routing.TableIndependentOfOrder | hircluster.c:1371-1421 | a table entry is a node exactly when one of its ranges holds the slot, whatever the order of visits |
| Routing.NodeBySlot | hircluster.c:2515-2581 | binary search with 32-bit wrap-around gives the table's answer if and only if the caller-visible condition holds, and leaves the list otherwise |
| Routing.SearchLeavesList | hircluster.c:2515-2581 | two ranges and a slot for which the condition does not hold |
| Async.ClosedActs | async.c:587-598 | while a context is closing no callback can queue a command |
| Async.TearDownAccounts | async.c:276-322 | teardown runs every queued callback once, in order, without a reply |
| Async.ProcessAccounts | async.c:416-493 | handing out replies keeps callbacks in order, one reply each |
| Async.RunInOrder | async.c:228-652 | in every run, whatever callbacks do: registration order, once each, k-th reply to the k-th, none left after teardown |
| Async.FreshRun | async.c:228-652 | from a new context what has left plus what is queued is what was registered, all of it once torn down |
| Async.ActsTell | async.c:328-652 | whatever callbacks ask for: a disconnect or a free anywhere is noted, and exactly the commands before the first of them are queued, or none in a context already closing |
| AsyncAborts.EndsExactly | async.c:336-493 | processing ends at a failed assertion, or with the context torn down, if and only if the callbacks in line, what they ask for, the replies and the bytes left say so: among the latter a callback that frees, an unasked error, a failed read, and a clean disconnect with nothing pending |
| AsyncAborts.ClosingAbortsExactly | async.c:336-493 | the same in closed form when a disconnect was asked for before |
| AsyncAborts.CleanDisconnectFails | async.c:336-493 | a run in which the assertion fails |
| AsyncCloses.QueuedExactly | async.c:328-652 | over whole runs: the commands queued are exactly those asked for, by the user or by a callback with its reply, before anyone asked for a disconnect or a free; and a context alive is closing exactly when someone has |
| AsyncCloses.StepExactly | async.c:328-652 | how each thing that happens ends and what it leaves to be written: freeing and errors tear the context down, a disconnect does exactly when nobody waits, and replies as `EndsExactly` says |
| AsyncCloses.NothingMore | async.c:328-652 | once someone has asked for either, or the context is gone, no command is ever queued again |
| AsyncCloses.NothingAfterCallback | async.c:362-598 | the same once a callback called with its reply has asked |
| AsyncCloses.CalledHaveLeft | async.c:416-493 | while the context lives, the callbacks that have left are those called with replies, in that order |
| AsyncCloses.DisconnectInCallback | async.c:362-429 | one command whose callback disconnects, as in the example programs: written and answered, the context is torn down, whatever comes later |
| AsyncContext.Context.AsyncCommand | async.c:587-652 | a command is queued unless the context is closing |
| AsyncContext.Context.RunCallback | async.c:266-273 | a callback's requests are only noted while it is under way |
| AsyncContext.Context.FreeContext | async.c:276-322 | drains the queue and ends; entered only with a closing flag set and only once |
| AsyncContext.Context.AsyncFree | async.c:328-333 | frees now, or after the callback under way |
| AsyncContext.Context.DisconnectContext | async.c:336-354 | after an error callbacks are torn down, without one none may be pending |
| AsyncContext.Context.AsyncDisconnect | async.c:362-367 | disconnects now only outside callbacks and with nothing queued |
| AsyncContext.Context.ProcessCallbacks | async.c:416-493 | the loop with its re-entrant callbacks does what the protocol model says |
| AsyncContext.Context.HandleRead | async.c:520-539 | a failed read disconnects, any other hands its replies to the callbacks |
| AsyncContext.Context.HandleWrite | async.c:541-565 | a failed write disconnects, any other takes bytes off the output buffer |
| AsyncContext.Context.Perform | async.c:328-652 | each operation on the object makes the protocol model's step |
| AsyncContext.Context.Drive | async.c:328-652 | any sequence of operations on a context makes the protocol model's run |
| ClusterAsync.DeliveredOnce | hircluster.c:4467-4703 | a cluster command's callback at a connection gets at most one reply, whatever happens there |
| ClusterAsync.CalledOnce | hircluster.c:4467-4703 | over all connections it is registered with, an asynchronous command is re-sent at most the bound, and the user's callback runs at most once and never with a redirection |
| ClusterAsync.CalledWith | hircluster.c:4467-4703 | the call and the number of resends are told from the last registration's reply: one that is no redirection is handed over when no error is noted; the call has no reply after a teardown, an error, a spent budget or a missing connection; a refused resend drops the command |
| HashTable.MaskIsRemainder | dict.c:326-327 | masking with a power of two less one is the remainder |
| HashTable.NextPower | dict.c:306-315 | the least power of two from 4 on that is large enough; LONG_MAX, no power of two, for huge sizes |
| HashTable.FiledAdd | dict.c:135-154 | a new entry at its bucket's head keeps keys unique, buckets right and the count |
| HashTable.FiledDelete | dict.c:182-210 | taking an entry out keeps them too |
| HashTable.PushFront | dict.c:145-147 | makes an entry the head of a bucket, all other chains untouched |
| HashTable.Unlink | dict.c:193-198 | takes an entry out of its chain, all other chains untouched |
| HashTable.Dict.Find | dict.c:243-256 | the key's entry, or none |
| HashTable.Dict.Delete | dict.c:182-210 | the map without the key; tells whether it was there |
| HashTable.Dict.MoveAll | dict.c:106-126 | relinking every entry files the same map in the new table and brings the count to zero, as the assertion demands |
| HashTable.Dict.Expand | dict.c:88-132 | the map is unchanged, the size the least power of two that is large enough; refused exactly when the size asked for is below the count |
| HashTable.Dict.ExpandIfNeeded | dict.c:295-303 | a missing table gets four buckets, a full one twice as many, so there is room for one more |
| HashTable.Dict.KeyIndex | dict.c:320-337 | the key's bucket, or -1 when it is present |
| HashTable.Dict.Add | dict.c:135-154 | adds a new key, refuses a present one |
| HashTable.Dict.Replace | dict.c:160-179 | sets the value; tells whether the key is new |
| HashTable.Iterator.Next | dict.c:268-286 | returns the entries in bucket order, one by one, then none |
| HashTable.Iterator.DeleteReturned | dict.c:268-286 | deleting the entry just returned leaves the rest of the way as it was |
| HashTable.Iterator.Visit | dict.c:258-286 | one turn of an iteration with deletions keeps what is visited, what is left and what is ahead in step |
| HashTable.Sweep | dict.c:258-286 | an iteration with deletions visits every key exactly once and leaves the others |
| LinkedList.List.AddNodeHead | adlist.c:80-98 | the new value is first, links and ends right |
| LinkedList.List.AddNodeTail | adlist.c:106-124 | the new value is last, links and ends right |
| LinkedList.List.InsertNode | adlist.c:126-153 | the new value is right after or before the given node |
| LinkedList.List.DelNode | adlist.c:159-172 | the sequence without that node |
| LinkedList.List.Rotate | adlist.c:328-341 | the last node becomes the first |
| LinkedList.List.Index | adlist.c:313-325 | sequence indexing from either end, null outside |
| LinkedList.Iterator.Next | adlist.c:221-232 | the next node in the iterator's direction |
| LinkedList.Iterator.Visit | adlist.c:210-232 | deleting the node just returned does not move the iterator |
| LinkedList.SweepFromHead | adlist.c:210-232 | every value once in order, those not deleted remain |
| LinkedList.SweepFromTail | adlist.c:210-232 | the same backwards |
| LinkedList.SearchKey | adlist.c:285-306 | the first node with the value, or none |
| Sds.SplitLen | sds.c:658-705 | the pieces between separators |
| Sds.SplitJoin | sds.c:658-705 | splitting undoes joining |
| Sds.JoinSplit | sds.c:658-705 | joining undoes splitting, and no piece holds the separator |
| Sds.CatRepr | sds.c:740-763 | appends the quoted form, byte by byte |
| Sds.QuotedTurn | sds.c:832-866 | one turn between double quotes: hexadecimal and letter escapes, the closing quote, or a plain byte |
| Sds.ApostropheTurn | sds.c:867-881 | one turn between apostrophes |
| Sds.PlainTurn | sds.c:882-902 | one turn outside quotes: a blank or the end closes the argument, a quote opens |
| Sds.ReadToken | sds.c:830-903 | one argument out of plain, double-quoted and single-quoted text |
| Sds.SplitArgs | sds.c:815-922 | all arguments, or none for unbalanced quotes |
| Sds.ReadByte | sds.c:740-763 | each of the 256 bytes is read back from its quoted form |
| Sds.SplitArgsWritten | sds.c:815-922 | arguments written bare, in double quotes or in apostrophes, in any mixture and with any blanks before, between and after them, are split into themselves |
| Sds.HexEscape | sds.c:833-843 | between double quotes two hexadecimal digits of either case after a backslash and an x are their byte; with anything else there the x is an x |
| Sds.OtherEscape | sds.c:844-857 | a byte after a backslash that is no escape letter stands for itself |
| Sds.ReprPrintable | sds.c:740-763 | a quoted text is printable whatever its bytes, and printable bytes other than quote and backslash are in it as they are |
| Sds.Unbalanced | sds.c:815-922 | a quote that is not closed refuses the line, and so does a closing quote with something stuck to it |
| Sds.SplitArgsQuoted | sds.c:740-922 | quoting, joining with spaces and splitting gives any list of byte strings back |

## Left out

- net.c, sockets, timeouts, errno and reconnecting: a read is an arbitrary chunk, a write an arbitrary partial count.
- Memory: allocation always succeeds and freeing is not modelled; with it go the out-of-memory branches and error-path cleanup.
- RedisReader.ReadLongLong: numbers are unbounded; overflow of long long, and of int for array counts, is not modelled.
- RedisReader.RedisReader.StoreInParent: finished replies are values kept on the stack, not objects linked through parent pointers.
- RedisReader.RedisReader.Feed: releasing a large unused buffer before appending has no effect on the bytes and is not modelled.
- Gather.CommandPostFragment: an array reply with a count below -1 carries no elements and is no result here, as it is for topology parsing; the source takes it as an array.
- FragmentBuilder.NumStr: the argument is a number below 2^32 where `_hi_itoa` takes an int; from 2^31 on the source would print a minus sign, but no request with such a key fits the int that holds a request's length.
- Numerals.HiItoa: the argument is an unbounded integer, for the same reason.
- Formatter.FormatCommandArgv: lengths are unbounded; theorems that go through the request parser require fewer than 2^32 arguments, each shorter than 2^32 bytes.
- Commands that are not built by the argument-vector formatter: `redisvFormatCommand`, `sdscatvprintf` and raw bytes; `redisFormatSdsCommandArgv`, which has the same output as the formatter.
- Redirect.Cluster.FollowRedirect: an ASK reply yields the address only; the registration of the new node (hircluster.c:2946-2952) stores another field and is not modelled.
- Redirect.Cluster.PickConnection: what the network does is an input, chosen freely for every attempt; route updates by wall clock are not modelled.
- Pipeline.Context.AppendCommand: no connection is in error, which the source would refuse.
- Pipeline.Context.AppendFormattedCommand: no connection fails and the route does not change while commands are pending.
- PipelinedCommands.Pipelined: no server redirects, as the source follows no redirection of a pipelined command.
- RedirectedCommand.CommandArgv: a request that was sent and never answered may or may not have been run; nothing is said of the stores then.
- Async.RunInOrder: no pub/sub, no monitor mode; the connect, disconnect and data-cleanup callbacks of the user are not modelled.
- AsyncContext.Context.AsyncCommand: the branches for SUBSCRIBE, UNSUBSCRIBE and MONITOR are left out.
- AsyncContext.Context.FreeContext: subscription callbacks and the user's disconnect callback are left out.
- AsyncContext.Context.HandleRead: a connection is established; so is it for HandleWrite. Event registration is left out.
- ClusterAsync.CalledOnce: callbacks of one connection have distinct identities; counting failures after a missing reply and updating the route then change nothing for the command and are not modelled.
- AsyncContext.Context.ShiftCallback: the callback queue is a sequence, not a chain of heap cells.
- Topology.ParseClusterNodes: without the flag for open slots, whose lists are not kept; `myself` is not recorded.
- Topology.ParseClusterSlots: without the flag for slaves; the node dictionary of both parsers is a sequence of entries.
- SlaveGrouping.NodesByName.MapWithName: a master's slave list is a sequence, and an absent list is an empty one.
- Routing.ClusterContext.UpdateRoute: swapping live connections into the new nodes is not modelled, and sorting is insertion, any sort by start being as good on disjoint ranges.
- HashTable.Dict.Add: at most 2^29 entries, so that every bucket index fits the source's int; keys are compared by equality and hashed by an arbitrary function.
- HashTable.Dict.Expand: sizes up to 2^30, for the same reason.
- HashTable.Dict.ExpandIfNeeded: at most 2^29 entries, for the same reason.
- HashTable.Dict.KeyIndex: at most 2^29 entries, for the same reason.
- HashTable.Dict.Replace: at most 2^29 entries, for the same reason.
- LinkedList.List.DelNode: value destructors, `listDup` and `listRelease` are left out.
- LinkedList.SearchKey: values are compared by equality; a custom match function is left out.
- Sds.SplitLen: single-byte separators only; `sdsrange`, `sdsMakeRoomFor`, `sdscatfmt`, `sdsll2str` and `sdsull2str` would only add easy members.
- hiarray.c (a growable array, here a sequence), adapters/, examples/, and the older duplicate `cluster_update_route_with_nodes_old`.
