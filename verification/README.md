# hdmi2usbd: a verified model of the serial-to-network gateway

hdmi2usbd sits between one serial device and any number of TCP clients. What the device
sends is broadcast to every client; what the clients send is cut into command lines, and
the lines go to the device one at a time, at a limited rate. This project models that
gateway in Dafny and proves what it does to the byte streams, the descriptors, the device
slots and the clock, over every run.

The model has three layers.

* **Data structures**, as classes over arrays, each proved to be a plain sequence: the ring
  buffer (`Buffer.dfy`), the growable string store and its iterator (`StringStore.dfy`, over
  the token functions of `Tokens.dfy`), the element array (`ByteArray.dfy`) and the timer
  (`Timer.dfy`).
* **The gateway as a transition system.** `Device.dfy` says what each device function does to
  one device and to the set of open descriptors, for every outcome of the system calls.
  `System.dfy` has the state of the whole gateway, the seven kinds of events (setting the
  masks of a device, its read, write and exception handlers, accepting, closing, and a process
  cycle), histories of everything read, written, sent and broadcast, and the record of the
  system calls made. `Shape.dfy`, `Slots.dfy`, `Streams.dfy`, `Commands.dfy`, `Wire.dfy`,
  `Calls.dfy` and `Pass.dfy` prove what every event keeps; `Runs.dfy` collects what holds in
  every reachable state, and `Handlers.dfy` what each handler asks of the system there and
  makes of the answer. `Listeners.dfy` and `Stale.dfy` are about places where the program
  does less than it means to: each has the exact condition and a run that fails.
* **The program** that runs on the data structures: the device object (`IoDev.dfy`), the
  device array with its loops (`Selector.dfy`) and the application (`Gateway.dfy`). Every
  method here changes real buffers, stores and timers and is proved to do what the events of
  the transition system do, so `Gateway.Valid()` means that the memory of the program is,
  between any two calls, a reachable state.

The operating system is an object that may answer every call in any permitted way: a
descriptor is new or refused, a read delivers any number of bytes up to the room offered,
end of file or an error, a write takes any number of bytes or fails, and select keeps any
part of the sets up to the highest descriptor, but fails when one of those is closed. All
other calls may only be made on open descriptors. The system keeps a record of what it was
asked and what it answered: opening and setting up descriptors and accepting, refused or not,
every read with the room it was offered, every write with its bytes, every select with its
sets, and every reading of the clock. So a call that is not made, or not with what the device
holds, shows (`Handlers.EveryCallWasAsked`, `Runs.LoopEndsForACause`). The stream theorems
are read back off that record and the bytes in memory: `Gateways.Gateway.MemoryHoldsTheStreams`
and `MemoryHoldsTheLine`, and end to end `DeviceToClient` and `CommandsToDevice`. The clock
never runs backwards.

Assumptions, all of them about the environment: allocation succeeds; clock readings are
positive and stay one second below 2^63 microseconds, so that adding a pace does not
overflow; the I/O buffer size is at least 2; the two rings of a copy are different objects;
a string store is created with a positive size; negating the least signed 64-bit value
wraps. Sizes and counts are otherwise unbounded.

Where the code and its comments disagree, the model follows the code, and says so: the close
flag that should stop a device from being reopened does that for accepted connections only
(`Devices.CloseKeeps`); the flag that should drain output before closing tests for room
instead of for data (`Devices.FlushingCloseWaitsForRoom`); listeners that could not be
opened count when the cycle decides whether to go on, so that it never ends for want of open
ones (`Listeners.OnlyTheSerialDeviceEndsTheProgram`, `Listeners.EndsAsMeantOnAllRuns`); the
result of a buffered write is not the number of bytes queued (`IoDevs.IoDev.Write`,
`Devices.QueuesAllThatFits`). Bits of closed descriptors stay in the sets from lap to lap of
the selector loop, and within one when a descriptor is reused, so that a reopened serial
device may be read without room (`Runs.LapsReadWithRoomIff`,
`StaleBits.FullBufferTakenForEndOfFile`) and a new client for another's bit
(`Runs.HandlersAreForReportedIff`, `StaleBits.NewClientClosed`).

## Model

| member | source | states |
|---|---|---|
| `Buffers.RingIsFifo` | src/buffer.c:47-180 | after any calls of put, get, peek and flush on a ring of any size, what was taken in since the last flush is what was given out since then followed by what is stored, and never more than size - 1 bytes (0 for size 0) are stored |
| `Buffers.ViewSkip` | src/buffer.c:66-70 | advancing the low index past one contiguous segment drops exactly that segment from the stored bytes, wrapped or not |
| `Buffers.ViewPut` | src/buffer.c:112-126 | writing one contiguous segment at the high index appends exactly that segment, wrapped or not |
| `Buffers.Buffer.Used` | src/buffer.c:53-57 | the index arithmetic counts the stored bytes in both regimes |
| `Buffers.Buffer.Available` | src/buffer.c:61-63 | the room of the bounded FIFO: one slot stays unused, a ring of size 0 has none |
| `Buffers.Buffer.Flush` | src/buffer.c:47-49 | the ring is empty |
| `Buffers.Buffer.Put` | src/buffer.c:106-128 | exactly the first min(len, available) bytes are appended in at most two segments, all copies in bounds, indices below size |
| `Buffers.Buffer.Peek` | src/buffer.c:132-153 | the first min(len, used) bytes, and no change |
| `Buffers.Buffer.Get` | src/buffer.c:157-180 | removes exactly that prefix, with or without a destination |
| `Buffers.Buffer.CopySegment` | src/buffer.c:203-215 | the put of one segment into the destination is never short |
| `Buffers.Buffer.CopyMove` | src/buffer.c:184-222 | between rings of any sizes and wrap positions, min(len, available, used) bytes go to the end of the destination; the source loses them when moving and is unchanged when copying |
| `Buffers.Buffer.Copy` | src/buffer.c:226-228 | the source keeps its bytes |
| `Buffers.Buffer.Move` | src/buffer.c:232-234 | the source loses exactly the bytes transferred |
| `Tokens.TokensOfJoin` | src/stringstore.c:163-187 | whole tokens taken off the front of a stream, however it was cut, are the first tokens of the stream framed at once |
| `Tokens.TokensAreTerminatedPieces` | src/stringstore.c:163-187 | each token ends in its only terminator, and the tokens make up the longest prefix that ends in a terminator |
| `Tokens.TokensWithoutDelimiters` | src/stringstore.c:163-187 | without a delimiter list an unterminated rest is one more token, so the tokens make up the whole string |
| `Tokens.TokensAreCounted` | src/stringstore.c:205-220 | splitting counts as many terminators as iterating with the same delimiters yields tokens |
| `Tokens.SplitKeepsTokens` | src/stringstore.c:205-220 | after a split, iterating with any part of the delimiter list yields the same tokens, with NUL for each terminator |
| `StringStores.GrownByLeastBlocks` | src/stringstore.c:112-117 | the store grows by the least positive number of blocks that makes the bytes fit |
| `StringStores.StoreIsFifo` | src/stringstore.c:111-136 | appending and consuming in any pieces is first in, first out |
| `StringStores.StringStore.Resize` | src/stringstore.c:87-99 | the contents survive, and the size never goes below them |
| `StringStores.StringStore.Reserve` | src/stringstore.c:112-117 | the growth loop terminates with room for the bytes, and changes nothing else |
| `StringStores.StringStore.Store` | src/stringstore.c:111-129 | bytes are inserted at a position inside the contents and appended otherwise; NULL stores nothing, though room is made for it |
| `StringStores.InsertedInPlace` | src/stringstore.c:120-126 | inserted bytes lie at their position, with the bytes before it in front and all others behind them |
| `StringStores.StringStore.Append` | src/stringstore.c:134-136 | the bytes follow the contents |
| `StringStores.StringStore.Split` | src/stringstore.c:205-220 | every terminator, and nothing else, becomes NUL in place, and the result is their number |
| `StringStores.StringStore.Consume` | src/stringstore.c:228-236 | exactly a prefix is removed, all of it when it is long enough |
| `StringStores.StringIterator.Next` | src/stringstore.c:163-187 | yields the next token of the rest and moves behind it; a failing call moves nothing |
| `StringStores.StringIterator.NextStr` | src/stringstore.c:191-193 | the same with newline as the delimiter |
| `Timers.CalcDifferenceExact` | src/timer.c:26-28 | the signed difference of two 64-bit times is exact if and only if it fits a signed 64-bit value, -2^63 included |
| `Timers.ExpiresAtItsEnd` | src/timer.c:31-80 | a running timer expires at its end and not before, and what remains is the time until then |
| `Timers.NoDurationIsExpired` | src/timer.c:31-80 | a timer without a duration is expired at any time, with nothing remaining |
| `Timers.PacedRate` | src/timer.c:31-80 | events that each wait for a timer restarted after the one before number at most window / pace + 1 in any window |
| `Timers.MicroTimer.Init` | src/timer.c:32-42 | start and end are set, the start from a new reading of the clock when none is given, and no duration means no end |
| `Timers.MicroTimer.Expired` | src/timer.c:78-80 | expired at a new reading of the clock, which is not read when the timer has no end |
| `Timers.MicroTimer.Remaining` | src/timer.c:68-75 | the time left at a new reading, never negative |
| `Devices.CloseKeeps` | src/nettcp.c:166-202 | closing gives up the descriptor and only that; an accepted connection is retired for good, a serial device or listener is left to be reopened, whatever the flag |
| `Devices.FlushingCloseWaitsForRoom` | src/serial.c:146-155 | when closing, or trying again while closing, waits for pending output as it is meant to, and only then |
| `Devices.FlushingCloseDropsFullBuffer` | src/serial.c:151-159 | a device with output pending that is closed at once, its buffer being full |
| `Devices.FinalCloseIsReopened` | src/nettcp.c:122-133 | a listener closed for good that is opened again by the next masks |
| `Devices.MaskKeeps` | src/iodev.c:135-177 | setting masks opens a device that is due and is otherwise neutral: connected with the new descriptor, closed again to be retried, or given up |
| `Devices.ReadKeeps` | src/iodev.c:181-204 | whatever read returns, the device stays consistent and the descriptor set changes by its descriptor alone |
| `Devices.WriteKeeps` | src/serial.c:165-190 | the same for write, on the serial port and on sockets |
| `Devices.FirstCharacterMayBeSent` | src/serial.c:205-226 | the pacer of a new serial device holds back nothing, at any time |
| `Devices.DrainingIsWatched` | src/iodev.c:147-156 | a draining device is not watched for input, for output only while some is pending and may be sent, and is closed when none is left |
| `Devices.PendingIsWatched` | src/iodev.c:161-164 | a device about to come up is watched for input alone, a listener for exceptions too |
| `Devices.QueuesAllThatFits` | src/iodev.c:254-262 | an open device queues all it was handed if and only if that fits |
| `Devices.QueueCutsShort` | src/iodev.c:259-261 | an open device that queues less than the length it returns |
| `Systems.AcceptChanges` | src/nettcp.c:151-163 | accepting puts the connection into the first free slot and leaves every other slot alone |
| `Systems.SendChanges` | src/hdmi2usbd.c:226-247 | sending touches the serial device, the sender and the pace, and nothing at all without a command |
| `Systems.ServeInSteps` | src/hdmi2usbd.c:265-279 | serving a connection is broadcasting to it, collecting from it and sending for it, in this order |
| `Systems.RunConcat` | src/hdmi2usbd.c:291-312 | runs compose |
| `Shapes.ReplaceFds` | src/selector.c:134-147 | a change confined to one device's own descriptor keeps the accounting of all descriptors |
| `Shapes.PlaceFds` | src/selector.c:71-80 | so does putting a device with a fresh descriptor into a free slot or behind the last |
| `Shapes.OnlyOpensOrCloses` | src/selector.c:117-130 | masks, exceptions and closing change one device, of it only descriptor and state, and no live connection they leave open |
| `Shapes.CycleShells` | src/hdmi2usbd.c:252-284 | a process cycle opens, closes and moves no device |
| `Shapes.ExecShape` | src/selector.c:134-147 | every event keeps the layout: which devices sit where, in which states, with which descriptors |
| `SlotRuns.AcceptTakesFreeSlot` | src/selector.c:71-80 | allocation overwrites an inactive slot other than 0, or appends when there is none, and disturbs no other slot |
| `SlotRuns.ExecGrowth` | src/selector.c:71-80 | the array grows only by a slot that brings every slot into use |
| `SlotRuns.ShutAllReleases` | src/selector.c:34-40 | closing slot by slot leaves no descriptor open |
| `Streams.ServeFromOut` | src/hdmi2usbd.c:265-279 | in the loop over the slots each connection gets the chunk once, cut only by its own room, at whatever place it is served |
| `Streams.CycleBroadcasts` | src/hdmi2usbd.c:184-193 | the copy buffer is empty before and after a cycle and takes the whole receive buffer of an open serial device; every connection's queue grows by the prefix that fits |
| `Streams.ExecStreams` | src/iodev.c:208-233 | every event keeps written bytes and queue of a live connection equal to what fitted of the chunks since it was accepted, and those written to a closed one a front of it |
| `Commands.TakenIsFramed` | src/hdmi2usbd.c:204-247 | the commands taken from a connection are the first commands of all it received, framed at once |
| `Commands.ExecCommands` | src/hdmi2usbd.c:204-247 | every event keeps the account of received bytes, the pace between commands, and that everything ever sent was a whole command |
| `Commands.CycleSendsWhenDue` | src/hdmi2usbd.c:226-247 | a cycle begun when the pace is over sends a command if any client has a whole one: the first of the client in the lowest such slot |
| `Commands.CycleCollects` | src/hdmi2usbd.c:204-247 | a cycle empties the receive buffer of each connection, and what was in it is in the line buffer or was taken as commands |
| `Wire.WholeBlocks` | src/hdmi2usbd.c:235-242 | commands that fitted appear whole, one after the other |
| `Wire.FrontsJoin` | src/iodev.c:192-200 | what was moved to the clients is what was moved in each epoch between flushes, one after the other |
| `Wire.FrontsAreFronts` | src/iodev.c:192-200 | in each epoch that is a front of what was read in it, and in the current one all but what waits |
| `Wire.ExecWire` | src/serial.c:165-190 | every event keeps the order of the serial streams between flushes, and the pace of the characters |
| `Calls.ExecCalls` | src/iodev.c:181-233 | every event keeps record and histories in agreement: what was written to and read from the descriptor of a live connection since it was accepted, and over the serial port through all its descriptors |
| `Calls.AcceptCalls` | src/nettcp.c:151-163 | a connection on a reused descriptor starts with nothing written and nothing read |
| `Calls.CycleCalls` | src/hdmi2usbd.c:252-284 | a process cycle makes none of these calls |
| `Passes.PassIsExact` | src/selector.c:117-130 | by induction over the slots, from any sets: descriptors devices had when the pass began are set exactly as wanted, all others stay as they were |
| `Passes.ClearedPass` | src/selector.c:117-130 | from cleared sets, exactly the wanted descriptors are set, none above the highest |
| `Passes.PassCounts` | src/selector.c:117-130 | a pass finds a device active if and only if one is open, and the highest descriptor is one of an open device, above which there is none |
| `Passes.ClearsNoOther` | src/iodev.c:137-142 | clearing one device's descriptor removes nothing an earlier device set |
| `Passes.HandlerKeepsRoom` | src/selector.c:134-147 | a handler leaves the room of later slots alone, also when it accepts a connection on the way whose descriptor, closed and reused, is still in the sets |
| `Passes.DispatchReadsWithRoom` | src/selector.c:134-147 | every read of a dispatch finds room and stores every byte |
| `Passes.SlotReached` | src/selector.c:137-145 | a dispatch gets to every slot in order, with as many descriptors left as it has not called handlers for |
| `Passes.SlotDispatched` | src/selector.c:137-145 | at a slot, with any left, it calls the read handler (which accepts, for a listener), the write handler and the exception handler each if and only if the descriptor the device has by then is in the set, and then goes on behind the slot |
| `Passes.SlotDispatches` | src/selector.c:137-145 | and whatever does so is a dispatch |
| `Passes.OneRead` | src/selector.c:139-140 | with one descriptor ready, to be read, a dispatch is exactly one call of the read handler of its device, an accept for a listener, with any result the system may give |
| `Passes.OneWrite` | src/selector.c:141-142 | with one ready to be written to, exactly one call of the write handler of its device |
| `Passes.OneExcept` | src/selector.c:143-144 | with one that has an exception, exactly one call of the exception handler of its device |
| `Passes.LapReadsWithRoomIff` | src/selector.c:174-194 | in a lap of the loop from any sets, whatever select answers, every read finds room and keeps every byte, unless and only unless the serial device was reopened, full, on a descriptor left over in the read set, and everything select looks at is open |
| `Passes.LapAnswersIff` | src/selector.c:176-193 | a lap can find something ready if and only if a device is active and every closed descriptor left over, up to the highest, was reused; otherwise the loop is left |
| `Passes.HandlersAreReportedIff` | src/selector.c:134-147 | a dispatch calls handlers only for descriptors that select reported of that device if and only if it calls none for a connection it accepted itself |
| `Passes.LoopRuns` | src/selector.c:174-194 | any number of laps with carried-over sets is a run of events |
| `Runs.ExecInvariant` | src/hdmi2usbd.c:291-312 | every event of the gateway keeps the whole invariant |
| `Runs.ReachableInvariant` | src/hdmi2usbd.c:291-312 | every state of every run, for any buffer size from 2 and any number of listeners, has it |
| `Runs.ReachableBacked` | src/iodev.c:181-241 | in every reachable state, a device that may call on its descriptor has an open one |
| `Runs.HistoriesAreCalls` | src/iodev.c:181-233 | in every reachable state the histories are the bytes that passed through system calls |
| `Runs.ClientsGetTheSerialStream` | src/hdmi2usbd.c:184-281 | on a live connection, bytes written and bytes queued are the concatenation of what fitted of each chunk since it was accepted, and the chunks are the serial stream since then; if all fitted, exactly that stream |
| `Runs.ClosedClientsGotAFront` | src/iodev.c:208-233 | what was written to a connection before it closed is a front of what fitted of the serial stream since it was accepted |
| `Runs.ClientBytesBecomeCommands` | src/hdmi2usbd.c:204-247 | on a live connection, bytes received are the commands taken, the line buffer and the receive buffer, and the commands are the first of those that framing everything at once yields |
| `Runs.ClosedClientsSendWhatTheySent` | src/hdmi2usbd.c:226-247 | commands of a client that has gone may still be sent, but only ones it had completed |
| `Runs.CommandsAreRateLimited` | src/hdmi2usbd.c:226-247 | over all clients and every run, a window holds at most window / COMMAND_PACE + 1 commands |
| `Runs.CharactersAreRateLimited` | src/serial.c:165-190 | over every run, reopening and failed writes included, a window holds at most window / CHARACTER_PACING + 1 bytes on the serial line |
| `Runs.PaceIsExact` | src/timer.c:78-80 | a command is held back exactly until one pace after the last one, the first not at all |
| `Runs.NoCommandWaitsWithoutCause` | src/hdmi2usbd.c:226-247 | when the pace is over and a client has a command, in its line buffer or still in its receive buffer, the cycle sends one: the first command of the client in the lowest such slot |
| `Runs.CyclesCollectEverything` | src/hdmi2usbd.c:204-247 | in every reachable state, a cycle leaves nothing in the receive buffer of a client, and all that waited is in its line buffer or was sent |
| `Runs.SerialOrderIsKept` | src/iodev.c:254-262 | between flushes, bytes on the line and in the queue are the command blocks in sending order, uninterleaved, and bytes moved and waiting are the bytes read |
| `Runs.WholeCommandsReachTheLine` | src/hdmi2usbd.c:235-242 | if every command since the last flush fitted, the line carries exactly these commands, and framing what it carries yields them again |
| `Runs.ClientSeesWhatTheDeviceSent` | src/hdmi2usbd.c:184-281 | if every chunk fitted, a client accepted since the last flush gets exactly what was read from the device from some point on |
| `Runs.ClientOutlivesFlushes` | src/hdmi2usbd.c:184-281 | if every chunk fitted, any client gets a front of what was read in each epoch since it was accepted, one after the other, and misses nothing in the current one |
| `Runs.DescriptorsAreConserved` | src/selector.c:71-106 | in every reachable state a device lacks a descriptor exactly when it is unopened, inactive or closed, no two share one, and the open ones are those the devices hold |
| `Runs.ClosingReleasesAll` | src/selector.c:34-40 | from every reachable state, the closing loop leaves no descriptor open |
| `Runs.SlotZeroIsSerial` | src/hdmi2usbd.c:253-258 | slot 0 is the serial device in every reachable state, and no other slot is |
| `Runs.SlotsArePeak` | src/selector.c:71-80 | after every run, there are as many slots besides slot 0 as devices were ever in use at once |
| `Runs.InactiveSerialIsFinal` | src/serial.c:104-107 | once the serial device could not be opened it stays inactive, nothing more is read, sent or moved, and every cycle ends the program |
| `Runs.CycleIsIndependentOfOrder` | src/hdmi2usbd.c:262-281 | what a connection gets in a cycle depends on the chunk and its own free space alone |
| `Runs.PassSetsExactBits` | src/selector.c:117-130 | from cleared sets, a descriptor is set for reading, writing or exceptions exactly when a device that held it as the pass began wants that, and never lies above the highest; devices opened on the way are not yet among them |
| `Runs.FirstLapsReadWithRoom` | src/selector.c:166-196 | in every reachable state, no read in the first lap of the selector loop meets a full receive buffer, which would look like end of file |
| `Runs.LapsReadWithRoomIff` | src/selector.c:166-196 | in every reachable state and any lap: every read finds room unless and only unless the serial device was reopened full on a left-over descriptor and select does not fail on another |
| `Runs.LapsAnswerIff` | src/selector.c:176-193 | in every reachable state, when a lap can find something ready, and when the loop is left |
| `Runs.LoopEndsForACause` | src/selector.c:174-194 | in every call of the selector loop, each lap but the last asked select once and had something reported; the last asked if and only if a device was open as it began, up to the highest descriptor of those |
| `Runs.HandlersAreForReportedIff` | src/selector.c:134-147 | in every reachable state, when a dispatch calls handlers only for reported descriptors |
| `Handlers.ReadAsksForItsRoom` | src/iodev.c:188-190 | in every reachable state a read handler asks its descriptor for exactly the room the device has, and an answer may come if and only if it fits that |
| `Handlers.ReadStoresOrCloses` | src/iodev.c:190-202 | what arrives is stored behind what waits; end of file and errors empty both buffers and let go of the descriptor |
| `Handlers.NothingIsAskedWithoutFd` | src/iodev.c:185-187 | handlers of a device without a descriptor ask for nothing and change nothing |
| `Handlers.WriteOffersTheQueue` | src/iodev.c:215-221 | a connection with anything queued offers the whole queue, and the system may take any front of it or fail |
| `Handlers.WriteDrainsOrCloses` | src/iodev.c:222-230 | what was taken leaves the queue; an error empties both buffers and lets go of the descriptor |
| `Handlers.SerialOffersOneCharacter` | src/serial.c:173-179 | the serial device offers its first queued character if and only if its pacer has expired |
| `Handlers.SerialSendsAndWaits` | src/serial.c:183-186 | what was taken leaves the queue, and the pacer expires again exactly one pace after the write ended |
| `Handlers.SerialKeepsTheQueue` | src/serial.c:180-182 | after an error the port is closed and what was queued is kept |
| `Handlers.NothingIsWrittenBefore` | src/serial.c:173-175 | with nothing queued, or before the pacer has expired, nothing is asked and nothing changes |
| `Handlers.ExceptionCloses` | src/iodev.c:237-241 | an exception, like closing at the end, lets go of the descriptor; the slot of a connection is free then, any other device due to be opened again |
| `Handlers.MasksOpenWhatIsDue` | src/iodev.c:157-160 | devices that are new or closed, and no others, are opened by setting their masks: a descriptor is asked for and set up, and the device comes up, is given up, or is to be opened again by what the system answered |
| `Handlers.ReadyToWriteIsWritten` | src/selector.c:141-142 | a client reported ready to be written to is offered its whole queue |
| `Handlers.ReadyToReadIsRead` | src/selector.c:139-140 | a device reported readable is read for the room it has, and a listener accepts |
| `Handlers.EventAsks` | src/iodev.c:181-241 | in every reachable state an event makes only calls that are due to what the device holds then |
| `Handlers.EveryCallWasAsked` | src/iodev.c:181-241 | so every call in the record of any run was made by an event of it for what the device held at that time: a read for its room, a write of its queue or, on the serial port, of its first character when the pacer had expired, an accept on a listener |
| `Listeners.ExecListeners` | src/nettcp.c:151-163 | no event makes the first listener or takes the last |
| `Listeners.OnlyTheSerialDeviceEndsTheProgram` | src/hdmi2usbd.c:256-283 | in every run with a listener, whatever happens to it, the cycle ends the program if the serial device is inactive and otherwise hands on the result it was given; without one it ends it |
| `Listeners.CycleHandsOn` | src/hdmi2usbd.c:256-283 | the same can be told from the state after the cycle, which keeps listeners and the state of the serial device |
| `Listeners.EndsAsMeantIff` | src/hdmi2usbd.c:256-283 | the cycle asks to end when no listener is open, as it is meant to, if and only if there never was one, the serial device is unusable, or one is open |
| `Listeners.FailedStartRuns` | src/selector.c:117-130 | the first round in which the serial port opens and no listener does, for any number of listeners |
| `Listeners.FailedStartIsALoop` | src/selector.c:174-178 | that round is one lap of the selector loop, which finds no active device |
| `Listeners.EndsAsMeantOnAllRuns` | src/hdmi2usbd.c:256-283 | it does so on every run if and only if no listener was created |
| `StaleBits.FullBufferTakenForEndOfFile` | src/selector.c:174-194 | a run from the start, of three laps with only open descriptors in the sets, in which a reopened serial device with a full buffer is read, and a byte is lost |
| `StaleBits.NewClientClosed` | src/selector.c:137-145 | a run from the start in which a client, accepted on the descriptor the serial device had, is read for the serial device's bit and closed |
| `IoDevs.IoDev.Init` | src/iodev.c:271-298 | the device starts over in place, unopened, with empty buffers of its own |
| `IoDevs.IoDev.CreateSerial` | src/serial.c:205-226 | a serial device with a pacer that is expired at once |
| `IoDevs.IoDev.CreateListen` | src/nettcp.c:234-247 | a listener without buffers that records the size for its connections |
| `IoDevs.IoDev.CreateAccepted` | src/nettcp.c:261-266 | a connected device with an empty line store |
| `IoDevs.IoDev.Close` | src/serial.c:136-162 | the close functions, in every state, on the descriptor set |
| `IoDevs.IoDev.OpenSerial` | src/serial.c:97-132 | opening asks for the port and sets it up, and ends connected, closed again or inactive, by what the system answers |
| `IoDevs.IoDev.OpenListen` | src/nettcp.c:77-118 | the same for a listening socket |
| `IoDevs.IoDev.Bind` | src/nettcp.c:106-115 | a socket that cannot be bound or listened on, by the answer to a call that is made, is closed again |
| `IoDevs.IoDev.OpenTcp` | src/nettcp.c:39-46 | a connection is only ever closed here |
| `IoDevs.IoDev.SetMasks` | src/iodev.c:135-177 | the sets, the activity and the device after setting the masks, in every state |
| `IoDevs.IoDev.SetMasksListen` | src/nettcp.c:122-146 | the same for listeners |
| `IoDevs.IoDev.ReadHandler` | src/iodev.c:181-204 | asks its own descriptor for exactly what fits and stores it all; end of file and errors empty the buffers and close |
| `IoDevs.IoDev.WriteHandlerIo` | src/iodev.c:208-233 | offers all that is queued, and only that, to its own descriptor and removes exactly what was taken |
| `IoDevs.IoDev.WriteHandlerSerial` | src/serial.c:165-190 | offers the first queued character to its own descriptor, when the pacer has expired at a new reading of the clock, and the pacer restarts, by another, after it is gone |
| `IoDevs.IoDev.ExceptHandler` | src/iodev.c:237-241 | an exception closes the device |
| `IoDevs.IoDev.Write` | src/iodev.c:254-262 | queues what fits when the device is open; the result is the length handed over, or -1 |
| `IoDevs.IoDev.MoveReceived` | src/hdmi2usbd.c:184-193 | moves what was received into another ring, if the device is open |
| `IoDevs.IoDev.CopyFrom` | src/hdmi2usbd.c:272-273 | queues a copy and leaves the other ring as it is |
| `IoDevs.IoDev.CollectLine` | src/hdmi2usbd.c:204-215 | all that was received goes to the end of the line store, if there is one |
| `IoDevs.IoDev.NextLine` | src/hdmi2usbd.c:230-236 | the next whole command of the line store, if there is one |
| `Selectors.Selector.FindFree` | src/selector.c:71-80 | the first inactive slot from 1 on, or the end |
| `Selectors.Selector.Accommodate` | src/selector.c:71-106 | that slot is taken over in place, or one appended, and no other device changes |
| `Selectors.Selector.AcceptAt` | src/nettcp.c:151-163 | the accept handler of an open listener calls accept on its descriptor once, runs the accept event for the answer, and puts an accepted descriptor into a slot |
| `Selectors.Selector.IoSet` | src/selector.c:117-130 | the loop leaves in the sets, the count and the highest descriptor what the pass of mask events does |
| `Selectors.Selector.Dispatch` | src/selector.c:134-147 | the loop runs read, write and exception events, slot by slot, for exactly the set descriptors (what that means: `Passes.SlotDispatched`), and accepted connections are visited as well |
| `Selectors.Selector.CloseAll` | src/selector.c:34-40 | the closing loop leaves no descriptor open |
| `Selectors.Selector.Around` | src/selector.c:174-194 | once around the loop, from whatever sets the last time left, is a lap: select is called exactly when a device is active, with the highest descriptor plus 1 and the sets of the pass, and handlers are called for its answer |
| `Selectors.Selector.Loop` | src/selector.c:166-196 | the selector loop is a sequence of laps that begins with cleared sets and ends when nothing is active or ready; the calls of select are those of the laps; its result is 0, also when select fails |
| `Gateways.Gateway.constructor` | src/hdmi2usbd.c:100-171 | after initialisation the program is in the start state: serial device first, then the listeners |
| `Gateways.Gateway.ProcessSerialData` | src/hdmi2usbd.c:184-193 | moves the serial data into the copy buffer |
| `Gateways.Gateway.ProcessClientData` | src/hdmi2usbd.c:204-215 | collects what one client sent |
| `Gateways.Gateway.ProcessClientCommands` | src/hdmi2usbd.c:226-247 | sends the next command of one client when the pace allows it at a new reading of the clock: queued, taken off, then the pace restarted by another |
| `Gateways.Gateway.ServeAll` | src/hdmi2usbd.c:265-279 | the loop serves every slot but the first in order and counts the listeners |
| `Gateways.Gateway.Process` | src/hdmi2usbd.c:252-284 | a process cycle on the objects is a cycle event; it returns the code to end when the serial device is inactive or no listener was ever created, and otherwise the result it was given |
| `Gateways.Gateway.Turn` | src/hdmi2usbd.c:293-311 | a round of the main loop, the whole selector loop and a process cycle, is a run of events; with a listener it returns 0, to go on, exactly while the serial device is usable |
| `Gateways.Gateway.MemoryHoldsTheStreams` | src/hdmi2usbd.c:184-281 | for a live connection, the bytes its descriptor took and those in its transmit ring are what fitted of the serial stream since it was accepted; the bytes read from its descriptor are the commands taken, its line store and its receive ring |
| `Gateways.Gateway.MemoryHoldsTheLine` | src/serial.c:165-190 | since a flush, the bytes the serial port took and its transmit ring are the blocks of the commands; the bytes read from it are those moved and its receive ring |
| `Gateways.Gateway.DeviceToClient` | src/hdmi2usbd.c:184-281 | end to end, on bytes that passed through system calls: what a client took, its queue and the serial receive ring are what was read from the serial port from some point on, if every chunk fitted |
| `Gateways.Gateway.CommandsToDevice` | src/hdmi2usbd.c:226-247 | framing what the serial port took since a flush and its queue yields the commands sent, if all fitted |
| `ByteArrays.DeleteUndoesInsert` | src/array.c:176-204 | deleting what was just inserted restores the elements |
| `ByteArrays.GrownIsLeastMultiple` | src/array.c:85-104 | when it grows, the capacity becomes the least multiple of the chunk size above count and request |
| `ByteArrays.ReplaceElement` | src/array.c:132-137 | overwriting the bytes of one element replaces that element alone |
| `ByteArrays.InsertElement` | src/array.c:149-163 | moving the bytes behind a position up by one element inserts an element |
| `ByteArrays.DeleteElement` | src/array.c:193-204 | moving them down by one deletes the element |
| `ByteArrays.IndexOfElement` | src/array.c:185-189 | every byte offset inside an element leads back to its index |
| `ByteArrays.IndexIsInBounds` | src/array.c:185-189 | an offset has the index of an element if and only if it lies inside the elements; the offset just behind them passes the bounds test and gets their number |
| `ByteArrays.ByteArray.CheckAlloc` | src/array.c:85-104 | the growth loop terminates; all bytes survive, and new memory is zero |
| `ByteArrays.ByteArray.Get` | src/array.c:124-128 | the offset of an element inside the bounds, and of nothing else |
| `ByteArrays.ByteArray.Put` | src/array.c:132-137 | one element is replaced, or nothing happens |
| `ByteArrays.ByteArray.New` | src/array.c:141-145 | one element is added behind the others, with whatever its memory held |
| `ByteArrays.ByteArray.NewAt` | src/array.c:149-163 | a zeroed element is inserted at any position up to the end |
| `ByteArrays.ByteArray.Append` | src/array.c:167-172 | the element is added behind the others |
| `ByteArrays.ByteArray.Insert` | src/array.c:176-181 | the element is inserted and all others keep their values, also when the array moves |
| `ByteArrays.ByteArray.Index` | src/array.c:185-189 | the index of the element an offset lies in, if and only if it lies in one |
| `ByteArrays.ByteArray.Delete` | src/array.c:193-204 | the element goes, the others keep their values, and the capacity stays |

## Left out

- `buffer_compact` is not modelled: its test for a wrapped ring is inverted, it does not keep the contents, and nothing calls it.
- `Gateways.Gateway.Turn` is one round of the main loop; that rounds follow each other while the result is 0 is not a method here, and the runs are any sequences of events.
- `Selectors.Selector.Loop` ends: descriptors that stay ready for ever would keep the program's loop going, while here select reports something ready only finitely often in a row, as often as it likes.
- `Selectors.Selector` keeps the devices in a sequence of objects; the element array is proved separately, on bytes. Device pointers are slot numbers here, so that an accept which moves the array while a dispatch holds a pointer into it is not captured.
- `ByteArrays.ByteArray.New` returns memory that may hold an older element; the creators of devices overwrite it, as in the program.
- `Devices.FlushingCloseWaitsForRoom` is about a flag that no caller passes, so closing is only a passing state in the runs.
- `IoDevs.IoDev.CreateAccepted` replaces the buffers and the line store of a recycled slot; that the program does not free the old ones is not modelled, and neither is any freeing of memory.
- The two error flags of the device handlers that are device states passed as close flags (src/iodev.c:200 and src/iodev.c:226) are modelled by their values.
- `tcp_create_connect` is not modelled: no caller creates outgoing connections.
- The limit of descriptors a set can hold and the overflow of 64-bit sizes are not modelled; times are, in `Timer.dfy`.
- The operating system itself: termios, fcntl and socket options succeed or fail, and do nothing else.
- Address resolution, the choice of the listening addresses, the search for the serial port, the baud table, options, logging, signals, reloading on SIGHUP and becoming a daemon are not modelled: they are input and output, or finite tables.
- The error and notify callbacks are not modelled: they only print.
- The `proc` buffer and the `command_time` option of the application are not modelled: nothing uses them.
- Fairness between clients is not claimed: a client in a low slot with many commands is served first whenever the pace is over.
