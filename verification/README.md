# Verification of the hiredis engine and its neighbours

The repository is a C++ Redis client. Its thin C++ layer drives the bundled hiredis library, where the
state lives: a resumable reply reader, a command formatter, an asynchronous context with callback
queues and subscription tables, a chained hash table and a dynamic string library. This project models
that code in Dafny, function by function and branch by branch, and proves what it is relied on for. It
also covers the subscriber of the C++ layer, which keeps a second copy of the subscription sets, the
path of a C++ map through a command and back, and the matchers and ordering code of the bundled gtest.

`dafny verify dfyconfig.toml` checks everything.

## How the files fit together

| file | what it models |
|---|---|
| `Bytes.dfy` | bytes, C strings, decimal numerals |
| `Resp.dfy` | the reply format: a recursive decoder, an encoder, and the proof that they are inverse |
| `ReaderMachine.dfy` | the stack reader as a machine over values; it is the recursive decoder, and it does not care about chunks |
| `Malformed.dfy` | bytes that no server should send: unknown type bytes, number lines of any form |
| `Reader.dfy` | the reader object: cursor, buffer, nine task slots, reply objects linked before they are complete |
| `ReaderChunks.dfy` | a caller's loop around the reader object, chunk by chunk |
| `Format.dfy` | both command formatters, filling a buffer of precomputed length, and `nextArgument` |
| `CallbackList.dfy` | the linked list of callbacks |
| `Async.dfy` | what every entry point of the asynchronous context does, as functions on a state |
| `AsyncContext.dfy` | the context as an object whose methods change it step by step, proved against `Async.dfy` |
| `AsyncRuns.dfy` | every run of a context: which callbacks are called, with which replies, how often |
| `Endings.dfy` | how a connection ends: errors, disconnects, frees, stray replies, and the end of every read |
| `MonitorRuns.dfy` | MONITOR, and exactly when its callback hears every line |
| `RegularRuns.dfy` | runs of regular commands: all calls come from the reply queue |
| `EndToEnd.dfy` | a context, a server and a network that cuts both streams anywhere |
| `AbortedRuns.dfy` | when such a run ends in the failed assert of a clean disconnect |
| `PubSub.dfy` | the subscriber: its two sets and the callback that keeps them |
| `Subscriptions.dfy` | the subscriber's sets, the server's sets and the subscription tables in one run, and exactly when they agree |
| `Reconnect.dfy` | the subscriptions that a reconnecting subscriber sends again |
| `Listening.dfy` | what the subscriber's listener is called with |
| `SubscriptionWire.dfy` | the same when the server's replies are bytes that arrive in any pieces |
| `Dict.dfy`, `DictIterator.dfy` | the hash table with its linked entries, and its iterator |
| `Sds.dfy`, `SdsText.dfy` | the string buffer; quoted printing, argument splitting, splitting and joining, decimal printing |
| `SplitGrammar.dfy` | the lines that the argument splitter accepts, as a grammar |
| `HashMaps.dfy` | a map flattened into a command and folded from a reply |
| `SimpleRegex.dfy`, `TestOrder.dfy` | gtest's regular expressions, glob filter, random generator and test order |
| `RandomPeriod.dfy` | the period of the generator |
| `ShuffleDraws.dfy` | the shuffle for any draws: each order has its own |

The object models (`Reader.Reader`, `AsyncContext.Context`, `CallbackList.List`, `HashTable.Dict`, `DictIterator.Iterator`,
`Sds.SdsString`, `PubSub.Subscriber`, `HashMaps.MakeCmd`, `TestOrder.UnitTest`) change their fields in
place as the source does. Each is proved against functions on values, and the main theorems are about
those functions.

What the environment decides is a parameter. A `Program` says what the n-th callback run does with the
context and in which order a table's iterator visits its entries, `Answers` what the server says to the
n-th command, and a run is any list of events: calls, chunks of any size, partial writes, errors,
disconnects and frees. A failed `assert` of the source ends a run in the phase `Aborted`. Every call of a
callback function is logged where the function is called, with the reply it is given and where the
callback came from, and every reply that is read is logged with the callback that was found for it.

## The main results

- **Chunking does not matter** (`ReaderMachine.ChunkingIrrelevant`, `ReaderChunks.ReceiveChunks`), and
  the stack reader is a recursive decoder that inverts the encoder exactly up to eight array levels
  (`ReaderMachine.RunIsDecode`, `Resp.DecodeEncode`).
- **Protocol errors** are exact: a byte other than `-`, `+`, `:`, `$` and `*` where a reply should begin
  ends the reader, whatever arrays are open, and every complete reply before it is handed out
  (`Malformed.UnknownTypeFails`, `Malformed.TypeByteExact`, `Malformed.BrokenChunks`).
- **Formatting is exact and recoverable** by the reply reader and by `nextArgument`
  (`Format.CommandRoundTrip`, `Format.ArgumentsOfCommand`), and interpolated text is never split
  (`Format.ScanWords`, `Format.PercentBIsArgv`).
- **Exactly-once callbacks** over all runs (`AsyncRuns.ExactlyOnce`): each whole reply that arrives while
  the context is alive finds one callback, which is called once, with that reply, if it has a function;
  freeing adds one NULL call for each callback left in a queue and for each table entry; there are no
  other calls. Over regular commands all calls come from the reply queue
  (`RegularRuns.ExactlyOnceRegular`). The loops that free the context end because a closing context
  accepts nothing new (`Async.ClosingRefuses`).
- **Every ending calls what is left.** A read error, the end of the file, a write error, a reader that fails
  and a free each end the run there and then: every callback still queued and every table entry is
  called once with NULL (`Endings.FatalEnds`, `Endings.ErrorEndsRun`), and every way a read can end is
  settled (`Endings.ReadEnds`).
- **MONITOR loses lines** exactly when a read that completes no line is followed by more than one line: what
  such a read puts back in the queue is no callback (`MonitorRuns.MonitorExact`).
- **End-to-end order** between client and server over all runs in regular mode
  (`EndToEnd.EndToEndOrder`): as many callbacks are taken as replies arrived whole, the i-th is that of
  the i-th command with its answer, and the calls are theirs, each once.
- **When a clean disconnect fails its assert** (`AbortedRuns.AbortsExactly`,
  `AbortedRuns.CalmAbortsExactly`): exactly when a read is through with DISCONNECTING set, nothing to
  write and a callback still queued. With callbacks that only issue commands: when a disconnect was
  asked for and the next read does not bring all the answers (`AbortedRuns.AbortingRun` is such a run).
- **When the copies of the subscription sets agree.** An unsubscription that takes an entry out of a
  table clashes with a later command if that one subscribes the same name, or if the unsubscribed name
  was the server's last. A command without names is harmless when it is a subscription sent out of
  subscribed mode, or an unsubscription from at least one name. The context stays alive with equal sets
  through all that is due if and only if nothing clashes and no other command without names was sent
  (`Subscriptions.SafeIsExact`, over all runs `Subscriptions.DisciplineExact`). Runs that break the
  rule are `Subscriptions.FailingRun` and `Subscriptions.NamelessRun`. The repository breaks it itself:
  `Subscriber::reconnect` survives if and only if it has patterns or no channels
  (`Reconnect.ReconnectExact`). A program that keeps to the rule has equal sets also when the replies
  arrive as bytes in pieces, many or less than one at a time (`SubscriptionWire.SetsAgreeOnTheWire`).
- **The listener hears what was published**: channel and text, or pattern, channel and text, in order, each
  once, over all disciplined runs and however the bytes are cut (`Listening.ListenerHears`,
  `SubscriptionWire.ListenerHearsTheWire`).
- **The hash table is a finite map** through any growth (`HashTable.RunOps`), and its iterator visits every
  entry once even if each is deleted right after it was returned (`DictIterator.Sweep`).
- **Argument splitting accepts exactly a grammar** and gives what the arguments mean in it
  (`SplitGrammar.SplitIsGrammar`); it inverts quoted printing (`SdsText.SplitInvertsRepr`). Splitting on
  a separator and joining are inverse in both directions (`SdsText.JoinInvertsSplit`,
  `SdsText.SplitInvertsJoin`).
- **A C++ map survives the trip** through a command and the reply reader (`HashMaps.MapRoundTrip`).
- **The regex matcher is sound and complete** (`SimpleRegex.MatcherCorrect`), and **the run order** of the
  tests visits every case once, death tests first, and runs in each exactly the tests registered for it
  (`TestOrder.RunAfter`). Different draws shuffle into different orders, and every order is reached
  (`ShuffleDraws.DrawsDiffer`, `ShuffleDraws.EveryOrder`); the generator behind them runs through all 2^31
  states before it repeats one (`RandomPeriod.FullPeriod`).

## Model

| member | source | states |
|---|---|---|
| Resp.FindCrlf | deps/hiredis/hiredis.c:263-287 | the position of the first CR LF pair: a pair is there, none is before it, and no result means there is none at all |
| Resp.FindCrlfExtend | deps/hiredis/hiredis.c:263-287 | a line end that was found stays the first one when more bytes arrive |
| Resp.ReadNumberExtend | deps/hiredis/hiredis.c:291-316 | the number of a line does not depend on bytes after its CR |
| Resp.ReadNumberDecimal | deps/hiredis/hiredis.c:291-316 | reading the decimal numeral of any integer, up to the CR after it, gives the integer back |
| Resp.ReadItemExtend | deps/hiredis/hiredis.c:358-508 | an item that could be read is read the same, with the same size, when more bytes follow |
| Resp.Decode | deps/hiredis/hiredis.c:510-557 | the recursive reading of one reply consumes at least one byte when it yields a reply |
| Resp.DecodeEncodeLeaf | deps/hiredis/hiredis.c:358-443 | every status, error, integer, string and nil reply decodes to itself at every depth, and the bytes after it stay unread |
| Resp.DecodeHeader | deps/hiredis/hiredis.c:445-508 | an array header leads to its element count at depths below eight, and to a protocol error at depth eight whatever follows |
| Resp.DecodeEncode | deps/hiredis/hiredis.c:333-557 | for every well-formed reply tree, decoding the encoding gives the tree back and leaves the tail unread exactly when the array levels fit in eight; one level more is a protocol error |
| Resp.DecodeEncodeAll | deps/hiredis/hiredis.c:445-508 | the same for the elements of an array: all of them, in order, behind those already read |
| ReaderMachine.Place | deps/hiredis/hiredis.c:333-356 | a finished reply fills its slot, possibly finishing arrays around it: the stack stays well formed, no byte is consumed, and the next slot is untyped |
| ReaderMachine.Step | deps/hiredis/hiredis.c:510-557 | every step that goes on or finishes a reply shrinks the unread bytes and keeps the stack well formed; a stalled reader is one that more bytes can revive |
| ReaderMachine.Run | deps/hiredis/hiredis.c:645-647 | the parse loop ends, a reply takes at least one byte, and waiting leaves a state that can be resumed |
| ReaderMachine.RunDecodes | deps/hiredis/hiredis.c:333-557 | inside any stack of open arrays, running the machine is decoding one reply recursively and placing it: same reply, same rest, same wait, same error |
| ReaderMachine.RunIsDecode | deps/hiredis/hiredis.c:620-668 | on an empty stack the stack machine and the recursive decoder give the same reply and rest, both wait, or both fail, for every byte string |
| ReaderMachine.RunEncode | deps/hiredis/hiredis.c:620-668 | every encodable reply with at most eight array levels is returned exactly with the following bytes unread; deeper ones fail |
| ReaderMachine.StepExtend | deps/hiredis/hiredis.c:510-557 | a step that did not wait is the same step when more bytes are already there |
| ReaderMachine.RunExtend | deps/hiredis/hiredis.c:620-668 | a run over a longer buffer gives the same reply or error, or is the run resumed from where the shorter one waited |
| ReaderMachine.DrainExtend | deps/hiredis/hiredis.c:588-668 | draining, feeding a chunk and draining again gives the replies and the state of draining once with the chunk appended |
| ReaderMachine.ChunkingIrrelevant | deps/hiredis/hiredis.c:588-668 | for every list of chunks: feeding and draining them one by one yields the replies, then the wait or error, of the whole stream |
| ReaderMachine.DrainWhole | deps/hiredis/hiredis.c:588-668 | a stream of encoded replies drains to exactly those replies and an idle reader |
| ReaderMachine.ChunkedReplies | deps/hiredis/hiredis.c:588-668 | whatever the cuts, a stream of encoded replies yields exactly those replies |
| ReaderMachine.PrefixDrains | deps/hiredis/hiredis.c:588-668 | a stream cut short yields a prefix of the replies and never an error |
| ReaderMachine.PrefixSplit | deps/hiredis/hiredis.c:588-668 | exactly which replies a stream cut anywhere yields, and that the bytes behind them are what the reader holds on to |
| Malformed.UnknownTypeFails | deps/hiredis/hiredis.c:514-540 | where a reply should begin, with any arrays open, a byte outside -+:$* is a protocol error whatever follows |
| Malformed.TypeByteExact | deps/hiredis/hiredis.c:514-540 | a single byte there is an error if and only if it is outside these five, or a star that would open a ninth array |
| Malformed.EightLevels | deps/hiredis/hiredis.c:445-456 | eight levels of nested arrays are read, nine are a protocol error |
| Malformed.BrokenStream | deps/hiredis/hiredis.c:620-668 | encoded replies followed by such a byte and anything else drain to exactly those replies and a dead reader |
| Malformed.BrokenChunks | deps/hiredis/hiredis.c:588-668 | the same when the stream comes in any pieces |
| Malformed.NumberValue | deps/hiredis/hiredis.c:291-316 | an optional sign and any digits, leading zeros or none at all included, read as the positional value of the digits |
| Malformed.NumberUnreadable | deps/hiredis/hiredis.c:291-316 | with any other byte before the first CR the line reads as -1 |
| Malformed.NegativeLength | deps/hiredis/hiredis.c:404-410 | a negative string length is nil whatever the number |
| Malformed.NegativeCount | deps/hiredis/hiredis.c:460-468 | an array count of -1 is nil, a smaller one an array without elements |
| Reader.PartialComplete | deps/hiredis/hiredis.c:132-155 | an array object whose last slot was filled stands for the whole array |
| Reader.SeekNewline | deps/hiredis/hiredis.c:263-287 | the two-level scan finds the first CR LF of the unread bytes and reads no further than the terminator |
| Reader.ReadLongLong | deps/hiredis/hiredis.c:291-316 | the loop computes the number of the line, and -1 for a byte that is no digit |
| Reader.Reader.constructor | deps/hiredis/hiredis.c:559-578 | a new reader is idle with nothing to read |
| Reader.Reader.Feed | deps/hiredis/hiredis.c:588-618 | the chunk is appended to what the reader still has to read and nothing else changes; a reader in error refuses it |
| Reader.Reader.SetError | deps/hiredis/hiredis.c:189-213 | the error state is entered with an empty stack, no reply, and an empty buffer |
| Reader.Reader.AttachLeaf | deps/hiredis/hiredis.c:100-187 | a finished object takes its slot in the array its parent task fills, and every open array stays what it stood for |
| Reader.Reader.PopTask | deps/hiredis/hiredis.c:344-350 | when the last slot is filled the array object becomes a finished reply and its own task the current one |
| Reader.Reader.AdvanceSlot | deps/hiredis/hiredis.c:346-355 | the read task is reset for the next slot of the same array |
| Reader.Reader.MoveToNextTask | deps/hiredis/hiredis.c:333-356 | the loop over the stack does what placing the reply in the frames does, down to a finished root object |
| Reader.Reader.ReadLine | deps/hiredis/hiredis.c:318-331 | the line found is the first complete one and the cursor moves behind its CR LF; without one nothing moves |
| Reader.Reader.ProcessLineItem | deps/hiredis/hiredis.c:358-390 | stack, cursor, objects and status code after the call are those of the machine's step |
| Reader.Reader.ScanBulk | deps/hiredis/hiredis.c:392-424 | the bulk is complete, nil or not there yet exactly as the item at the cursor says, with its exact size |
| Reader.Reader.ProcessBulkItem | deps/hiredis/hiredis.c:392-443 | as the machine's step on a bulk string; an incomplete bulk leaves the cursor before its length line |
| Reader.Reader.OpenArray | deps/hiredis/hiredis.c:476-497 | an array with elements takes its slot unfinished and one task more is on the stack |
| Reader.Reader.ProcessMultiBulkItem | deps/hiredis/hiredis.c:445-508 | as the machine's step on an array header, with the ninth level refused before the header is read |
| Reader.Reader.ProcessItem | deps/hiredis/hiredis.c:510-557 | the object goes from standing for a configuration to standing for the result of one machine step |
| Reader.Reader.DiscardConsumed | deps/hiredis/hiredis.c:655-659 | rebasing the buffer after 1024 consumed bytes does not change what is unread |
| Reader.Reader.ProcessItems | deps/hiredis/hiredis.c:645-647 | the loop ends in the reply, wait or error of the machine's run |
| Reader.Reader.GetReply | deps/hiredis/hiredis.c:620-668 | the call returns an object tree for exactly the reply of the run, or none, leaves the reader standing for the run's state, and reports an error exactly in the error state |
| ReaderChunks.TakeReplies | deps/hiredis/hiredis.c:1207-1213 | repeated calls hand out an object tree for every reply that is complete, in order, and nothing the reader writes later is inside these trees |
| ReaderChunks.ReceiveChunks | deps/hiredis/hiredis.c:588-668 | fed in any chunks, the reader object hands out trees for exactly the replies of the whole stream and ends in the same state |
| Format.BulksEncode | deps/hiredis/hiredis.c:884-893 | the argument part of a command is the encoding of its arguments as bulk strings |
| Format.CommandRoundTrip | deps/hiredis/hiredis.c:942-974 | the reply reader parses a formatted command to exactly its arguments and leaves the rest unread, for arguments of any bytes |
| Format.IntLen | deps/hiredis/hiredis.c:671-682 | the length of the printed number, sign included |
| Format.BulkLen | deps/hiredis/hiredis.c:685-687 | the length of the bulk string of any argument of that length |
| Format.Fill | deps/hiredis/hiredis.c:881-894 | with the length computed beforehand the writes stay inside the buffer, end exactly at that length, and leave the command and a terminator |
| Format.FormatCommandArgv | deps/hiredis/hiredis.c:942-974 | the buffer holds the command of the arguments, its length is the one returned, and a NUL follows; without given lengths an argument ends at its first NUL |
| Format.VFormatCommand | deps/hiredis/hiredis.c:689-926 | the buffer holds the command of the scanned arguments with the exact length, or the call fails on any other conversion |
| Format.ScanWord | deps/hiredis/hiredis.c:709-752 | a word of plain characters, doubled percents and holes grows the current argument by its expansion, whatever bytes are interpolated |
| Format.ScanWords | deps/hiredis/hiredis.c:709-752 | for words separated by any positive number of spaces, with any leading and trailing spaces, the arguments are the expansions of the words one for one; interpolated text is never split |
| Format.LonePercent | deps/hiredis/hiredis.c:709-710 | a percent sign at the end of a format is a plain character of its word |
| Format.OtherConversion | deps/hiredis/hiredis.c:752-846 | behind any word, a conversion other than %s, %b and %%, or one without its argument, is not expanded |
| Format.PercentBIsArgv | deps/hiredis/hiredis.c:709-752 | "%b %b ..." over any non-empty argument list scans to exactly that list, so the bytes are those of the argument-vector formatter |
| Format.NextArgumentBulk | deps/hiredis/async.c:553-565 | at a bulk string the argument and the rest behind it are returned, even when the argument holds a dollar sign, CR or NUL |
| Format.NextArgumentFirst | deps/hiredis/async.c:553-565 | the count header before the first argument is skipped |
| Format.ArgumentsOfCommand | deps/hiredis/async.c:553-565 | repeated calls on a formatted command yield exactly its arguments and then stop |
| Async.ParseOfCommand | deps/hiredis/async.c:586-599 | the command name, its pattern variant, the verb and the names that the source finds in the formatted bytes are those of the argument list, when the name holds no CR |
| CallbackList.List.Push | deps/hiredis/async.c:216-236 | the callback is the last of the linked list, which stays linked from head to tail |
| CallbackList.List.Shift | deps/hiredis/async.c:238-252 | the first callback is handed out and leaves the list, and an empty list gives none |
| CallbackList.FirstInFirstOut | deps/hiredis/async.c:216-252 | over any pushes and shifts: what came out followed by what is left is what was pushed, in order |
| CallbackList.RunList | deps/hiredis/async.c:216-252 | any pushes and shifts on a new linked list do what they do to a queue |
| Async.ClosingRefuses | deps/hiredis/async.c:579-580 | while DISCONNECTING or FREEING is set, a callback is called with its reply but changes nothing except flags: queues, tables and output stay as they are under the loops that run callbacks |
| Async.DrainReplies | deps/hiredis/async.c:271-272 | the loop over the reply queue ends although callbacks run inside it, with the queue empty and the context still closing |
| Async.DrainInvalid | deps/hiredis/async.c:275-276 | the same for the queue of commands sent while subscribed |
| AsyncContext.Context.Command | deps/hiredis/async.c:570-632 | the state after an accepted, refused or malformed command, with bytes added to the output exactly when it was accepted |
| AsyncContext.Context.RunCallback | deps/hiredis/async.c:254-261 | a callback with a function is called with this reply, and the state is the one after all calls it made under IN_CALLBACK; without a function nothing happens |
| AsyncContext.Context.RunTable | deps/hiredis/async.c:278-289 | every entry's callback was called once with NULL, in the order of the iterator, and the queues and tables did not change |
| AsyncContext.Context.AsyncFree | deps/hiredis/async.c:264-310 | both queues and both tables were run through, each function called with NULL, and the context is freed |
| AsyncContext.Context.AsyncDisconnect | deps/hiredis/async.c:320-337 | an error stops new commands and frees; a clean disconnect frees, or fails the assert when replies are outstanding |
| AsyncContext.Context.GetSubscribeCallback | deps/hiredis/async.c:353-398 | the callback found for a message, the entry removed by an unsubscribe confirmation, and SUBSCRIBED cleared at count zero |
| AsyncContext.Context.ProcessCallbacks | deps/hiredis/async.c:400-476 | the loop with its early returns ends and leaves the state of the recursive description, every function called with the reply of its iteration and the callback variable kept across iterations |
| AsyncContext.Context.HandleRead | deps/hiredis/async.c:503-522 | a read error disconnects; otherwise the chunk is fed and all its replies are processed |
| AsyncContext.Context.HandleWrite | deps/hiredis/async.c:524-549 | the bytes the socket took leave the front of the output buffer |
| AsyncContext.Context.Disconnect | deps/hiredis/async.c:346-351 | new commands are refused, and with nothing outstanding the context is freed at once |
| AsyncContext.Context.Free | deps/hiredis/async.c:312-317 | outside callbacks the context is freed at once |
| AsyncRuns.CommandKeeps | deps/hiredis/async.c:570-632 | issuing a command keeps the account of pushes and of bytes balanced |
| AsyncRuns.CallbackKeeps | deps/hiredis/async.c:254-261 | whatever a callback does keeps both accounts balanced and leaves the reader alone |
| AsyncRuns.FreeFinishes | deps/hiredis/async.c:264-310 | freeing calls every callback still queued, in order, and every entry of both tables once, all with NULL, calls nothing else, and changes nothing else but phase and flags |
| AsyncRuns.RouteCalls | deps/hiredis/async.c:400-471 | with the callback found for one reply, the log stays one of one call for each reply that found a function, and what the queues gave up stays what was found in them |
| AsyncRuns.ProcessInv | deps/hiredis/async.c:400-476 | processing replies keeps the invariant in every exit of the loop: each reply read is answered by at most one call |
| AsyncRuns.ProcessReads | deps/hiredis/async.c:400-476 | the loop finds a callback for every whole reply, in order, as long as the context is alive, and for the first of them otherwise |
| AsyncRuns.HandleInv | deps/hiredis/async.c:503-549 | every event keeps the invariant: accounts balanced, each taken callback called, NULL replies last, freed once |
| AsyncRuns.ExactlyOnce | deps/hiredis/async.c:216-476 | over all runs: while the context is alive a callback was found for each whole reply that arrived, in order; before it is freed the calls are exactly one for each reply that found a function, with that reply, and what the queues gave up is what was found in them; a freed context was freed once and added exactly one NULL call for each callback left in a queue and each table entry; the queues hold what was pushed and not taken; bytes written and buffered are the commands sent |
| Endings.FatalEnds | deps/hiredis/async.c:503-549 | a read error, the end of the file, a write error or a free frees an alive context: its queues are empty, and the calls grew by exactly the NULL calls for what was left |
| Endings.DisconnectEnds | deps/hiredis/async.c:339-351 | a disconnect frees a context that waits for nothing, and else only refuses commands from then on |
| Endings.WriteMoves | deps/hiredis/async.c:524-549 | a write takes as many bytes from the front of the output as the socket does, and moves nothing else |
| Endings.RequestsNoted | deps/hiredis/async.c:312-351 | the flags after a callback tell exactly whether it asked for a free and whether it asked for a disconnect |
| Endings.FreedWhenAsked | deps/hiredis/async.c:456-465 | when a callback returns, the context is freed with everything left called if and only if the callback asked for it |
| Endings.CommandTaken | deps/hiredis/async.c:570-632 | which queue an accepted command's callback joins, by name and mode, and that the command goes into the output whole; a closing context aside, only unsubscriptions out of subscribed mode are refused |
| Endings.StrayErrorEnds | deps/hiredis/async.c:427-448 | an error that no queued callback waits for frees the context |
| Endings.StrayReplyAborts | deps/hiredis/async.c:449-450 | any other such reply fails the assert in a context that is neither subscribed nor monitoring |
| Endings.AsideAnswered | deps/hiredis/async.c:392-396 | in subscribed mode a reply that is no array calls the oldest callback of the commands sent while subscribed |
| Endings.MalformedAborts | deps/hiredis/async.c:360-390 | exactly which arrays fail an assert in subscribed mode |
| Endings.ReadEnds | deps/hiredis/async.c:400-476 | the end of every read: a reader that fails frees the context, one that waits leaves it alive unless a disconnect is due, which frees it or fails the assert |
| Endings.ErrorEndsRun | deps/hiredis/async.c:503-549 | over all runs: an error or a free that finds the context alive ends the run there, every callback ever accepted was taken off its queue, those still waiting with NULL, and later events change nothing |
| Endings.BrokenEndsRun | deps/hiredis/async.c:472-475 | over all runs: once the bytes that arrived break the protocol the context is not alive |
| MonitorRuns.LinesRead | deps/hiredis/async.c:400-466 | which callback each line of a read meets, for any queue, and what is queued afterwards |
| MonitorRuns.CountsExact | deps/hiredis/async.c:412-424 | by the number of lines of each read: the callback meets every line if and only if no read without a line is followed by more than one line |
| MonitorRuns.MonitorExact | deps/hiredis/async.c:400-476 | the same over all runs of MONITOR on a new context, for bytes cut anywhere |
| RegularRuns.ExactlyOnceRegular | deps/hiredis/async.c:216-476 | over all runs of regular commands, whatever the bytes that arrive: the calls are those of the callbacks taken off the reply queue, each once, in order, with its reply, and no others |
| EndToEnd.WireEncodes | deps/hiredis/hiredis.c:1252-1263 | the bytes of the sent commands are the encodings of their argument arrays in order |
| EndToEnd.ServerHearsCommands | deps/hiredis/hiredis.c:1176-1203 | whatever part was written, a server that parses it hears a prefix of the sent commands, whole and in order |
| EndToEnd.ProcessMatched | deps/hiredis/async.c:400-471 | processing a buffer that holds the next answers delivers exactly them, each to the callback of its command |
| EndToEnd.ReadMove | deps/hiredis/async.c:503-522 | a chunk cut anywhere out of the reply stream keeps deliveries and complete replies equal in number and content |
| EndToEnd.AllHeard | deps/hiredis/hiredis.c:1176-1203 | a server that received the whole output heard every command |
| EndToEnd.AllRead | deps/hiredis/hiredis.c:588-668 | a reply stream that arrived whole was read whole |
| EndToEnd.EndToEndOrder | deps/hiredis/async.c:400-632 | over all regular runs: while the context is alive, as many callbacks were taken as whole replies arrived, all of the answers once all bytes are there; the i-th is the callback of the i-th command, taken for the server's i-th answer, or for NULL once the context is freed; the calls are one for each that has a function, in order, and no others; without errors, disconnects and frees the context stays alive; and the server hears a prefix of what was sent, all of it when the output is empty |
| AbortedRuns.SpentDecides | deps/hiredis/async.c:320-337 | processing the next answers fails the assert if and only if the context is disconnecting, has nothing to write and still has a queued callback when the replies are read |
| AbortedRuns.AbortsExactly | deps/hiredis/async.c:320-476 | over all regular runs against a proper server, and for every move of an alive context: it ends in the failed assert if and only if the move is a read that leaves the context so when it is through |
| AbortedRuns.CalmAbortsExactly | deps/hiredis/async.c:320-476 | with callbacks that only issue commands, seen before the read: DISCONNECTING is set, the output is empty, and the whole replies with this chunk are fewer than the commands sent |
| AbortedRuns.AbortingRun | deps/hiredis/async.c:346-351 | a run of six moves with any regular command and any answers that gets there: two commands, both written, one answered, a disconnect, one answer arrives |
| PubSub.Subscriber.SubCallback | src/pubsub.cpp:79-136 | the sets after the element-by-element loop, the listener calls it made, nothing at all for a NULL reply, and whether every element it reads is there |
| Subscriptions.KindNotice | src/pubsub.cpp:89-103 | each of the four confirmation kinds is recognised as itself although one literal may be compared as a prefix |
| Subscriptions.ConfirmNoted | src/pubsub.cpp:45-116 | a confirmation changes the subscriber's sets exactly as the server changed its own |
| Subscriptions.SendEffect | deps/hiredis/async.c:594-626 | a subscription with names registers them; one without names is queued as a regular command, in the queue that the mode picks; an unsubscription registers nothing and is refused out of subscribed mode |
| Subscriptions.RoutedToEntry | deps/hiredis/async.c:353-398 | a message about a registered name goes to its entry and leaves the context alone |
| Subscriptions.ConfirmRouted | deps/hiredis/async.c:353-398 | a confirmation goes to the entry of its name, which an unsubscription takes away; without an entry it goes to the callback left over, and out of subscribed mode it fails the assert |
| Subscriptions.ConfirmEffect | deps/hiredis/async.c:353-471 | the context and the subscriber's sets after any confirmation: as the server's, or unchanged for an unregistered name, or Aborted |
| Subscriptions.RefusalHeard | deps/hiredis/async.c:425-463 | the error for a subscription without names sent out of subscribed mode goes to its own callback and changes no set |
| Subscriptions.RefusalEnds | deps/hiredis/async.c:427-448 | the error for one sent in subscribed mode finds no queued callback, and the context is freed |
| Subscriptions.NothingEnds | deps/hiredis/async.c:375 | the confirmation of an unsubscription from nothing has no name and fails the assert |
| Subscriptions.SubscribeConfirmed | deps/hiredis/async.c:353-398 | a subscribe confirmation keeps the agreement of sets, tables, server and pending confirmations |
| Subscriptions.UnsubscribeConfirmed | deps/hiredis/async.c:353-398 | so does an unsubscribe confirmation without a clash, including the last one |
| Subscriptions.SafeIsExact | deps/hiredis/async.c:353-398 | in every world of the invariant, with any mix of commands unconfirmed: the context stays alive with equal sets through everything due if and only if subscriptions without names were sent out of subscribed mode, unsubscriptions without names found one, and no unsubscription that takes an entry away stands before a subscription of the same name or, being the server's last name, before anything |
| Subscriptions.DisciplineExact | deps/hiredis/async.c:353-398 | over all runs from a new context: a program sends only what is safe if and only if at every point what is due could arrive without harm |
| Subscriptions.SetsAgree | src/pubsub.cpp:45-136 | in every disciplined run the context stays alive, the sets are the server's, they are the registered names less those awaiting their first confirmation, and SUBSCRIBED is set exactly while a table has an entry |
| Subscriptions.FailingRun | deps/hiredis/async.c:353-398 | a run from a new context that breaks the discipline with its fourth move, by unsubscribing its only name and subscribing the same or another name before the confirmation: the next two confirmations end in a failed assert |
| Subscriptions.NamelessRun | deps/hiredis/async.c:375-448 | a run from a new context that breaks it with its third move, a command without names while subscribed: the next reply frees the context after a subscription and fails the assert after an unsubscription from nothing |
| Reconnect.SubscribingExact | deps/hiredis/async.c:353-471 | when only subscriptions are unconfirmed, the context survives all replies if and only if those without names were sent out of subscribed mode, and then both sets have all the names |
| Reconnect.ReconnectExact | src/pubsub.cpp:27-38 | after the two commands of reconnect, for any sets it kept, the context survives the replies, with the subscriber's and the server's sets equal to those kept, if and only if there are patterns or no channels |
| SubscriptionWire.NewsProcessed | deps/hiredis/async.c:400-471 | one iteration of the processing loop on a message, a confirmation or a refusal calls the callback it finds and goes on, whatever callback was left over |
| SubscriptionWire.NewsSteady | deps/hiredis/async.c:400-471 | whatever callback is left over, the iteration keeps agreement and discipline, and a confirmation for a name that is not registered changes no set even when the subscriber is called with it |
| SubscriptionWire.ChunkIsMoves | deps/hiredis/async.c:400-471 | however many replies a chunk completes, the processing loop does with them what the moves do one by one |
| SubscriptionWire.ChunkDrains | deps/hiredis/hiredis.c:588-668 | which of the server's replies a chunk completes, and which bytes the reader keeps |
| SubscriptionWire.SetsAgreeOnTheWire | src/pubsub.cpp:45-136 | in every disciplined run with the reply bytes cut anywhere: the context stays alive, the sets that the logged callback calls make are the server's as of the replies read whole, the server's own once all bytes are read, and agree with the tables |
| Listening.MessageHeard | src/pubsub.cpp:115-134 | a message is exactly one call of the listener with channel and text, a pattern message one with pattern, channel and text |
| Listening.ConfirmSilent | src/pubsub.cpp:86-114 | a confirmation is no call of the listener |
| Listening.KindsByPrefix | src/pubsub.cpp:88-126 | a kind is recognised if and only if it is a beginning of one of the six words, and an element without text counts as a subscription |
| Listening.ListenerHears | src/pubsub.cpp:79-136 | over all disciplined runs the listener hears exactly what was published to names the server had, in order, each once |
| SubscriptionWire.ListenerHearsTheWire | src/pubsub.cpp:79-136 | the same with the reply bytes cut anywhere: what was heard and the messages not yet read whole are what was published, all of it heard once all bytes are read |
| SubscriptionWire.Replay | src/pubsub.cpp:79-136 | a subscriber object given the replies of logged calls ends with the sets and the listener calls that these results speak of |
| HashTable.HashKey | deps/hiredis/dict.c:53-59 | the 32-bit hash of the whole key |
| HashTable.HashIsNumber | deps/hiredis/dict.c:53-59 | the hash is the number that 5381 and the bytes make to the base 33, modulo 2^32 |
| HashTable.MaskIsModulo | deps/hiredis/dict.c:118 | masking with size - 1 is the remainder modulo the size for every power of two |
| HashTable.Relink | deps/hiredis/dict.c:116-121 | one entry moves into its bucket of the new table, which keeps all others and grows by one |
| HashTable.MoveBucket | deps/hiredis/dict.c:111-124 | an old bucket is emptied into the new table, every entry counted once |
| HashTable.Unlink | deps/hiredis/dict.c:194-198 | the pointer change takes exactly that entry out of its chain |
| HashTable.Dict.NextPower | deps/hiredis/dict.c:306-315 | the smallest power of two that is at least the size and at least four |
| HashTable.Dict.MoveAll | deps/hiredis/dict.c:105-126 | after the loops `used` is zero, so the assert holds, and the new table holds exactly the old entries in their buckets |
| HashTable.Dict.Expand | deps/hiredis/dict.c:88-132 | the model and the entries are unchanged, the table is at least as large as asked; refused exactly when more entries are used than asked for |
| HashTable.Dict.ExpandIfNeeded | deps/hiredis/dict.c:295-303 | there is room for one entry more, the model is unchanged, and the size is four for an empty table, twice the size for a full one and the same otherwise |
| HashTable.Dict.KeyIndex | deps/hiredis/dict.c:320-337 | -1 exactly for a key that is present, otherwise the key's bucket in the possibly new table |
| HashTable.Dict.Find | deps/hiredis/dict.c:243-256 | null exactly for an absent key, otherwise the entry with the key and its value |
| HashTable.Dict.Add | deps/hiredis/dict.c:135-154 | a new key is added with its value; an existing one is refused and keeps its value |
| HashTable.Dict.Replace | deps/hiredis/dict.c:160-179 | the key has the new value afterwards; the result tells whether it was new |
| HashTable.Dict.Delete | deps/hiredis/dict.c:182-210 | the key is gone, its one entry left its chain, and all other entries kept their places |
| HashTable.Dict.PlacedByHash | deps/hiredis/dict.c:88-132 | every entry of every reachable table sits in bucket hash modulo size |
| HashTable.RunOps | deps/hiredis/dict.c:88-210 | any sequence of add, replace and delete on a new table does what it does to a finite map, with unique keys, the used count equal to the entry count and at most the size, and the size the one that growing by doubling gives |
| HashTable.SizeBound | deps/hiredis/dict.c:295-303 | over any sequence of calls the table has at most twice as many buckets as the most entries it held, or four |
| DictIterator.Iterator.constructor | deps/hiredis/dict.c:258-266 | everything is still to come |
| DictIterator.Iterator.Next | deps/hiredis/dict.c:268-286 | the next entry in bucket and chain order, or null when none is left |
| DictIterator.DeleteReturned | deps/hiredis/dict.c:182-286 | deleting the returned key keeps the iterator valid and everything still to come |
| DictIterator.IterationKeys | deps/hiredis/dict.c:268-286 | the iteration order lists every key of the map exactly once |
| DictIterator.Sweep | deps/hiredis/dict.c:258-286 | a caller that deletes any entries right after they are returned sees every key exactly once and ends with the map without the deleted keys |
| SdsText.CatRepr | deps/hiredis/sds.c:552-575 | the quoted form of every byte is appended, between quotes |
| SdsText.ReprForm | deps/hiredis/sds.c:552-575 | the printed form of every byte: only printable characters, itself if printable, a backslash and a letter for five control characters, two lower-case hexadecimal digits for the others |
| SdsText.ScanToken | deps/hiredis/sds.c:643-715 | the pointer loop reads the token that the recursive reading gives, or fails where it fails |
| SdsText.SplitArgs | deps/hiredis/sds.c:627-735 | the whole line is split into the tokens of the recursive reading, or rejected |
| SplitGrammar.SplitIsGrammar | deps/hiredis/sds.c:627-735 | a line is split into these arguments if and only if, up to its first NUL, it is written as the grammar says with arguments that mean them: bare characters, at most one quoted part at the end, blanks between; every other line is rejected |
| SplitGrammar.WordsSplit | deps/hiredis/sds.c:703-713 | words without blanks and quotes, with any positive number of blanks between and any before and behind, are split into exactly these words |
| SplitGrammar.SingleQuotedSplit | deps/hiredis/sds.c:681-699 | a single-quoted argument gives its text, with an apostrophe for each backslash and apostrophe |
| SplitGrammar.GluedRejected | deps/hiredis/sds.c:669-696 | after any arguments, a closing quote followed by anything but a blank rejects the line |
| SplitGrammar.UnclosedRejected | deps/hiredis/sds.c:674-699 | so does a quote of either kind that is never closed |
| SplitGrammar.CStrEnds | deps/hiredis/sds.c:627-640 | nothing behind the first NUL of a line matters |
| SdsText.ReadReprByte | deps/hiredis/sds.c:644-678 | inside double quotes the printed form of any byte reads back as the byte |
| SdsText.SplitInvertsRepr | deps/hiredis/sds.c:627-735 | for every list of byte strings, splitting their quoted forms joined by single spaces gives the list back |
| SdsText.SplitLen | deps/hiredis/sds.c:470-517 | the tokens of the scan, with every store inside the growing slot array; an empty separator is refused |
| SdsText.JoinSds | deps/hiredis/sds.c:774-783 | the tokens with one separator between neighbours |
| SdsText.JoinInvertsSplit | deps/hiredis/sds.c:470-517 | for every string and non-empty separator, joining the split tokens gives the string back |
| SdsText.TokensClean | deps/hiredis/sds.c:484-505 | no token contains the separator |
| SdsText.SplitInvertsJoin | deps/hiredis/sds.c:470-517 | splitting gives back any tokens that were joined, if each ends at its first separator and the last holds none, so the separators found are the leftmost ones |
| SdsText.FromLongLong | deps/hiredis/sds.c:531-544 | the decimal numeral of the value, whose digits fit in the 32-byte buffer |
| Sds.SdsString.constructor | deps/hiredis/sds.c:51-66 | the string holds the initial bytes, with no spare room |
| Sds.SdsString.MakeRoomFor | deps/hiredis/sds.c:129-147 | the contents stay, the room is enough, and a reallocation doubles or adds a megabyte |
| Sds.SdsString.CatLen | deps/hiredis/sds.c:237-249 | the bytes are appended and the terminator stays behind them |
| Sds.SdsString.Range | deps/hiredis/sds.c:387-415 | in place, the bytes between the two inclusive positions are kept, negative positions counting from the end |
| Sds.RangeMeaning | deps/hiredis/sds.c:387-415 | a range inside the string keeps both ends and what is between; one that is empty or starts behind the string keeps nothing |
| Sds.RangePositions | deps/hiredis/sds.c:387-415 | negative positions count from the end and stop at the beginning, an end behind the string is its last byte |
| Sds.DropConsumed | deps/hiredis/sds.c:387-415 | the range from a position to -1, as the reader and the writer use it, drops exactly the first bytes |
| HashMaps.MakeCmd.InsertArray | src/command.hpp:64-69 | the strings are appended in order |
| HashMaps.MakeCmd.InsertMap | src/command.hpp:71-89 | each pair of the iteration is appended as field and value |
| HashMaps.RecvStringHashMapReply | src/reply.cpp:191-220 | the elements folded pairwise with the number of pairs, the exception for anything that is not a list of string pairs, or a read behind the elements when their number is odd |
| HashMaps.OddOverruns | src/reply.cpp:191-220 | for string elements the map is built if and only if their number is even, and otherwise the loop reads behind them |
| HashMaps.FoldExact | src/reply.cpp:191-220 | for any elements: the exception if and only if some whole pair is not two strings, and else a read behind the elements if and only if their number is odd |
| HashMaps.LastWins | src/reply.cpp:210-213 | a later pair sets its field whether it was there or not |
| HashMaps.MapRoundTrip | src/command.hpp:81-89 | for every map, in any iteration order: the formatted command reads back as its name and a tail of elements, and folding the tail gives the same map |
| SimpleRegex.ValidateRegex | deps/gtest-1.6.0/src/gtest-port.cc:232-286 | the index loop accepts exactly what the character rules accept, going on after an error |
| SimpleRegex.ValidIsGrammar | deps/gtest-1.6.0/src/gtest-port.cc:232-286 | the rules accept exactly an optional caret, a list of atoms with optional repetition signs, and an optional dollar |
| SimpleRegex.MatchRegexAtHead | deps/gtest-1.6.0/src/gtest-port.cc:322-348 | the mutual recursion ends and decides the match at the head |
| SimpleRegex.MatchRepetitionAndRegexAtHead | deps/gtest-1.6.0/src/gtest-port.cc:295-317 | the counting loop decides whether some admissible number of matches leaves a matching tail |
| SimpleRegex.MatchRegexAnywhere | deps/gtest-1.6.0/src/gtest-port.cc:358-371 | true exactly when a match starts at some position, the first one under a caret |
| SimpleRegex.ClassMeaning | deps/gtest-1.6.0/src/gtest-port.cc:203-228 | the escapes d, s and w match exactly the written-out class, D, S and W exactly the rest |
| SimpleRegex.ControlMeaning | deps/gtest-1.6.0/src/gtest-port.cc:203-228 | the escapes f, n, r, t and v match exactly one control character each |
| SimpleRegex.PunctuationMeaning | deps/gtest-1.6.0/src/gtest-port.cc:203-228 | escaped punctuation matches itself and nothing else |
| SimpleRegex.PlainMeaning | deps/gtest-1.6.0/src/gtest-port.cc:203-228 | a dot matches everything but the line feed, any other plain character only itself |
| SimpleRegex.SignMeaning | deps/gtest-1.6.0/src/gtest-port.cc:183-199 | which characters may be escaped, repeat, or are not supported, written out |
| SimpleRegex.RepeatMeaning | deps/gtest-1.6.0/src/gtest-port.cc:295-317 | a repetition matches exactly when some count that its sign admits is matched and leaves a matching tail |
| SimpleRegex.MatcherCorrect | deps/gtest-1.6.0/src/gtest-port.cc:358-371 | for every accepted expression and every string, the matcher succeeds exactly when some substring is in the expression's language, at the start under a caret and up to the end under a dollar |
| TestOrder.MatchesFilter | deps/gtest-1.6.0/src/gtest.cc:450-468 | true exactly when some pattern of the colon-separated list matches the whole name |
| TestOrder.PlainMatches | deps/gtest-1.6.0/src/gtest.cc:433-448 | plain characters of a pattern match themselves and nothing else |
| TestOrder.StarMatches | deps/gtest-1.6.0/src/gtest.cc:433-448 | a star skips any number of characters |
| TestOrder.QuestionMatches | deps/gtest-1.6.0/src/gtest.cc:433-448 | a question mark stands for any single character |
| TestOrder.FilterIsAny | deps/gtest-1.6.0/src/gtest.cc:450-468 | a list of patterns joined by colons matches exactly the names that one of them matches |
| TestOrder.DeathTestMeaning | deps/gtest-1.6.0/src/gtest.cc:155 | the death-test filter picks exactly the names that end in DeathTest or contain DeathTest followed by a slash |
| TestOrder.NextStateInjective | deps/gtest-1.6.0/src/gtest.cc:284-298 | two different states below 2^31 never have the same next state, so the generator loses nothing of its seed |
| RandomPeriod.FullPeriod | deps/gtest-1.6.0/src/gtest.cc:284-298 | from any state the generator goes through 2^31 different states below 2^31 and then comes back |
| TestOrder.ShuffleRange | deps/gtest-1.6.0/src/gtest-internal-inl.h:302-319 | the vector and the generator end as the Fisher-Yates shuffle leaves them, and for every state of the generator the range is permuted and nothing outside it moves |
| ShuffleDraws.ShuffleStep | deps/gtest-1.6.0/src/gtest-internal-inl.h:313-318 | for any draws: the drawn element goes to the last position, the one that was there fills the gap, and the others are shuffled with the later draws |
| ShuffleDraws.GeneratedShuffle | deps/gtest-1.6.0/src/gtest-internal-inl.h:302-319 | so it is with the draws of the generator, from every state, and nothing outside the range moves |
| ShuffleDraws.DrawsDiffer | deps/gtest-1.6.0/src/gtest-internal-inl.h:302-319 | different draws give different orders of different elements |
| ShuffleDraws.EveryOrder | deps/gtest-1.6.0/src/gtest-internal-inl.h:302-319 | every order of the range is reached by some draws |
| TestOrder.UnitTest.GetTestCase | deps/gtest-1.6.0/src/gtest.cc:4096-4129 | an existing case is found; a new one goes behind the last death test or to the end, the order of the others stays, and the first cases remain exactly the death tests |
| TestOrder.UnitTest.AddTest | deps/gtest-1.6.0/src/gtest.cc:2424-2427 | the test is the last of its case, no other case's tests change, and the case is added if it was not there |
| TestOrder.UnitTest.ShuffleTests | deps/gtest-1.6.0/src/gtest.cc:4484-4496 | the death tests are shuffled among themselves, then the others, then the tests inside each case, each time with the generator where it was left |
| TestOrder.UnitTest.ShuffleEach | deps/gtest-1.6.0/src/gtest.cc:4493-4495 | the loop shuffles the tests of each case in turn, one generator running through |
| TestOrder.UnitTest.UnshuffleTests | deps/gtest-1.6.0/src/gtest.cc:4499-4506 | the registered order of the cases and of the tests in each case is restored |
| TestOrder.UnitTest.RunOrder | deps/gtest-1.6.0/src/gtest.cc:4235-4238 | the run loop visits the cases in the order of the indices, each once, death tests first, and runs the tests of each in the order of its own indices |
| TestOrder.UnitTest.RunCase | deps/gtest-1.6.0/src/gtest.cc:2444-2446 | the tests of the case in the order of its indices, each as often as it is there |
| TestOrder.RunAfter | deps/gtest-1.6.0/src/gtest.cc:4096-4506 | after any registrations, and any shuffles from any seeds and unshuffles, a run visits every case with a registered test exactly once, no death test after another case, and runs in each exactly its registered tests; with no shuffle since the tests were put back, everything comes in the order of registration, death tests first |

## Left out

- Integer widths: lengths, counts and integers are unbounded. `long long` overflow while reading a number, counts above `int`, and the smallest `int` and `long long`, whose negation overflows, are not modelled. `Format.IntLen` excludes the smallest `int`, `SdsText.FromLongLong` the smallest `long long`.
- Format.IntLen: requires a value above the smallest `int`, because the source negates it.
- SdsText.FromLongLong: requires a value above the smallest `long long`, because the source negates it.
- Allocation failure, error texts, freeing of memory and use after free.
- Reader.Reader.Feed: the buffer is a byte sequence; that an empty but large buffer is replaced by a new one is not modelled. The dynamic string itself is proved in `Sds.dfy`.
- Custom reply-object functions and the NULL function table of the reader; replies are built by the default functions only.
- An array header below -1 builds an array object without elements. It is modelled as the reply `Hollow`, which the round trips do not cover because no encoder writes it. Status and error texts of the round trips hold no CR LF.
- Format.VFormatCommand: conversions other than %s, %b and %% are handed to printf by the source; here they, and variable arguments of the wrong kind, make the call fail.
- Connecting, onConnect and onDisconnect handlers, event-library hooks, timeouts, sockets and blocking calls. Reads and writes are chunks of any size. A failed connect never reaches the modelled entry points.
- AsyncContext.Context: the callback lists are sequences (the linked list is proved to be one in `CallbackList.dfy`, apart from the context), the tables are maps instead of `Dict` objects, and the reader is held as the value that `Reader.dfy` proves the reader object to stand for.
- AsyncContext.Context.AsyncFree: the onDisconnect handler and the cleanup hook that the source calls at the end are not modelled.
- AsyncContext.Context.HandleRead: the branch for a context that is still connecting is not modelled.
- AsyncContext.Context.HandleWrite: the branch for a context that is still connecting is not modelled.
- AsyncContext.Context.GetSubscribeCallback: an unsubscribe message with only two elements counts as a failed assert; the source would read behind the element vector.
- The callback programs of `AsyncRuns.ExactlyOnce` act on their own context only.
- MonitorRuns.MonitorExact: its callbacks leave the context alone and no reply is an error; regular commands on a monitoring context are in `MonitorRuns.LinesRead` and `AsyncRuns.ExactlyOnce`, but not in this result. `EndToEnd.EndToEndOrder` is about regular commands only.
- Subscriptions.SafeIsExact: a reply is processed in a read of its own, so that a message about an unregistered name finds no callback left over from the reply before it. When several replies come in one read, `SubscriptionWire` proves that a disciplined program is in agreement, but not that any other program is not: the callback left over may then stand in for a lost entry.
- Subscriptions.SetsAgree: the server answers commands in order and name by name, refuses a subscription without names, and answers an unsubscription from nothing with a nil name. Regular commands of other callers on the subscriber's context are not part of these runs; `AsyncRuns.ExactlyOnce` has them.
- PubSub.Subscriber.SubCallback: a std::string built from an element without text (a nil or an integer) is taken as empty, and the loop stops with the result false where the source would read behind the elements.
- HashTable.Dict.NextPower: the cut at the largest `long` is not modelled, because sizes are unbounded. Clearing and releasing a table only free memory and are left out.
- sdscatvprintf: its uses in the modelled functions are plain appends.
- SimpleRegex: the messages of the validator and NULL arguments; strings carry no terminator, so a NUL byte is an ordinary byte. `RE::FullMatch` and the POSIX branch are left out.
- TestOrder: the filters that decide which registered tests run, on top of the glob matcher. `GetTestCase` and `AddTest` are called on unshuffled tests, as the source asks of its callers.
- TestOrder.ShuffleRange: the vector is a value that is handed in and returned; nothing is said about the distribution of the permutations.
- The connection pool, sentinel discovery, URI splitting, the command wrappers and the other reply conversions of the C++ layer are not modelled.
