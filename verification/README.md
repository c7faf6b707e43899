# FreeDCC command station: a verified model

FreeDCC is AVR firmware for a model-railway command station. A line typed at a terminal is scanned and
parsed into a DCC packet (`cs/dsl.c`, `cs/dcc.c`); a scheduler (`cs/scheduler.c`) sends one packet per
timer tick, either a new one from a ring (`cs/ring.c`) or an old one, refreshed from a broadcast-stop slot
or from a cache of every loco's latest packet (`cs/cache.c` over `cs/hash.c`); and an interrupt
(`cs/signal.c`) puts the packet on the rails bit by bit. This project models those seven files in Dafny and
proves what they are for. The standard it judges the rails by is NMRA S-9.2, section A (general packet
format) and section B (baseline packets); a decoder following it is written in `Wire.dfy` and
`Baseline.dfy` as a specification.

## How it is laid out

Every module of the firmware that keeps state appears twice: as functions on values, over which the
theorems quantify, and as a class whose methods follow the C statement by statement and are proved to
change their fields exactly as those functions say.

| file | what it holds |
|---|---|
| `Cyclic.dfy`, `Rings.dfy` | the ring: index arithmetic, refinement of a FIFO over any interleaving |
| `ProbeTable.dfy`, `HashTable.dfy` | linear probing as a finite map; the table that owns and destroys packets |
| `Packets.dfy` | packets as allocation plus bytes; the heap they are freed to |
| `Cache.dfy` | ring and table coupled |
| `Scheduler.dfy` | the state machine Add / Tick / Clear, conservation of packets, the interrupt as a method |
| `Runs.dfy` | whole runs: ownership, no use after free, broadcast-stop safety |
| `Refresh.dfy`, `Overflow.dfy` | whole runs: the cache as a map of latest packets, fairness; where 20 places are too few |
| `Casts.dfy`, `Dcc.dfy` | the packet codec in place, its setters, getters and checksum |
| `Wire.dfy`, `Baseline.dfy` | bits, the S-9.2 receiver, section B frames and their meaning |
| `Signal.dfy`, `Timing.dfy` | the serialiser, and the serialiser against the clock |
| `RoundTrip.dfy` | codec, serialiser and receiver composed |
| `Track.dfy` | scheduler, serialiser, clock and decoder composed |
| `Scanner.dfy`, `Parser.dfy` | the token scanner and the recursive-descent parser |
| `Commands.dfy`, `CommandText.dfy` | what accepted commands mean, from tokens and from characters |
| `PrintedLines.dfy`, `Sessions.dfy` | commands spelt out with literal words and spaces; one command after another on the same input |
| `Station.dfy` | everything composed, from the typed line to the decoder |

`dafny verify dfyconfig.toml` checks the whole project.

## Reading the model

- Packets in the scheduler are values `Packet(id, bytes)`: which allocation, and its bytes, which nobody
  writes to once the packet has been handed over. Destroying or reading a destroyed packet is a violated
  precondition of `Allocator`, so every call site is proved free of double free and use after free.
- A run is a list of the atomic events `Add(p)`, `Tick` and `Clear` that the environment may raise. The
  queue is never overfilled (`Ring_push` does not look) and packets have 3 to 15 bytes, the sizes for which
  every routine stays inside the packet and inside the signal buffer.
- `unsigned char` is `bv8`. The scanner's `int` is the AVR's 16-bit int with wrap-around written out, which
  C leaves undefined; up to 32767 nothing wraps. Other ints are unbounded.
- Time is counted in CPU cycles; a CTC timer with compare value c and prescaler p fires every (c + 1) * p
  cycles. A send changes the compare value while the counter runs (`cs/signal.c:84`): the bit on the rails
  turns into the first bit of the new buffer, and if the counter is already past the new value it runs
  through all its 16 bits first. `Steady` excludes just that, for buffers that begin with a one; it holds
  whenever a one is on the rails, so from power-up and after every baseline frame. Interrupt latency is not
  modelled.
- A decoder may insist on 10 to 12 preamble bits and may or may not count an end bit towards the next
  preamble; every theorem holds for each such decoder.

Where the code differs from its own comments, the model follows the code:

- the accepted language is larger than the grammar in `cs/dsl.h:17-54`, because failed alternatives do not
  give back what they have consumed: `show cache clear` and `forward addr stop` are commands. `CommandExact`
  states exactly what may be lost before a command, `ArgsExact` which shapes the arguments may have;
- a full cache answers a lookup of an unknown address with another loco's packet, and forgets a loco when a
  21st is addressed; `LookupExact` and `CacheIsLatestIffAtMost20` state exactly when. The newcomer itself is
  cached under an address nobody queues, and is refreshed only if it has its victim's home slot
  (`NewcomerIsRefreshedIff`). `Overflow.dfy` gives the runs;
- a raw packet cut short by the next send can make the timer miss the start of the frame that follows, which
  is then cut as well; `FrameSentWholeIffSteady` states exactly when, `RawPacketUpsetsTimer` gives the run;
- `Hash_create` does not set the keys its comment mentions (`cs/hash.c:47-51`); lookups are proved not to
  depend on them;
- an empty hexadecimal string is accepted (`cs/dsl.c:216-221`), and a twentieth hexadecimal digit is read
  twice (`cs/dsl.c:208-230`); `HexMeaning` states both;
- a scheduler tick is 8.7 ms, not the 8 ms of the comment (`cs/scheduler.c:18`), and `Scheduler_add_packet`
  uses one queue and no priorities (`cs/scheduler.h:26-33`).

## Model

| member | source | states |
|---|---|---|
| `Rings.FirstInFirstOut` | cs/ring.c:16-33 | over every interleaving of pushes (ring not full) and pops (ring not empty), across any number of index wraps, what comes out followed by what remains is what was there followed by what was pushed, in order |
| `Rings.Ring.constructor` | cs/ring.c:42-65 | a new ring of the given size is empty |
| `Rings.Ring.Push` | cs/ring.c:16-21 | appends one element at the end of the queue and changes the indices as the C does |
| `Rings.Ring.Pop` | cs/ring.c:23-33 | removes and returns the oldest element |
| `Rings.Ring.Reset` | cs/ring.c:35-40 | empties the ring |
| `ProbeTable.Distance` | cs/hash.c:111-120 | every slot is visited by the probe sequence of every key, after a number of steps below the size, and at no other step: the loop visits pairwise distinct slots and ends within size steps |
| `ProbeTable.FindEntryOutcome` | cs/hash.c:105-123 | the probe ends at the key if and only if it is present, at a free slot if and only if it is absent and the table not full, and otherwise, exactly when the table is full and the key absent, at the slot cyclically before the key's home |
| `ProbeTable.FindEntryByNumber` | cs/hash.c:111-122 | by number: the slots from the key modulo the size on, one further each time and round the end, up to the first that is free or holds the key, or to the last of all |
| `ProbeTable.StaleKeysAreIrrelevant` | cs/hash.c:114-116 | keys left in free slots, unset or stale, influence no lookup |
| `ProbeTable.SoundIffChained` | cs/hash.c:105-123 | "every live slot is found by its key" is the textbook invariant: unique keys and no gap between home and slot |
| `ProbeTable.GetMeaning` | cs/hash.c:97-103 | a lookup is map lookup, except that a full table answers for an absent key with another key's value, the one in the slot before the key modulo the size |
| `ProbeTable.InsertMeaning` | cs/hash.c:80-95 | insertion keeps the invariant and is map update; exactly when the table is full and the key new it costs the key before the new key's home its entry |
| `ProbeTable.InsertThenGet` | cs/hash.c:80-103 | the value just inserted is found; other keys are unchanged while the key was present or a slot free |
| `ProbeTable.NewEntryAnswersFor` | cs/hash.c:80-123 | after an insertion into a full table the new entry is the answer for at most one of the old keys, the victim, and for it if and only if both keys have the same home |
| `ProbeTable.ResetMeaning` | cs/hash.c:68-78 | a reset gives the empty map, keeps the invariant and leaves the old keys in their slots |
| `ProbeTable.ContentsSize` | cs/hash.c:80-95 | as many keys as live slots, and the table is full exactly when that is its size |
| `HashTable.Hash.constructor` | cs/hash.c:24-54 | all slots free, keys arbitrary |
| `HashTable.WithinTableExact` | cs/hash.c:111 | with C's remainder, a search starts inside the table if and only if its key is not negative or a multiple of the size |
| `HashTable.Hash.FindEntry` | cs/hash.c:105-123 | the do-while loop computes the specified slot, for every key whose search starts inside the table |
| `HashTable.Hash.Get` | cs/hash.c:97-103 | returns the value of the slot found |
| `HashTable.Hash.DestroyEntry` | cs/cache.c:123-131 | frees the packet of a slot, if any, and frees the slot |
| `HashTable.Hash.Insert` | cs/hash.c:80-95 | the table becomes the specified one and exactly the overwritten packet is destroyed |
| `HashTable.Hash.Reset` | cs/hash.c:68-78 | every cached packet is destroyed once, in slot order, and every slot freed with its key kept |
| `Cache.UpdateKeepsValid` | cs/cache.c:51-69 | whatever is cached, ring count equals live slots, each packet is filed under its own address, and ring and table agree unless the table is full; nothing but an eviction breaks exact agreement |
| `Cache.RingNeverOverruns` | cs/cache.c:60-66 | the address ring never holds more than 20, and has room whenever an address is pushed |
| `Cache.NextIsLive` | cs/cache.c:71-92 | a refresh yields a cached packet exactly when the count is positive, evicted addresses included; without evictions it is the packet of the first address queued |
| `Cache.NextKeepsValid` | cs/cache.c:71-92 | taking the next packet keeps the coupling |
| `Cache.ClearKeepsValid` | cs/cache.c:44-49 | a clear empties ring and table together |
| `Cache.LookupExact` | cs/cache.c:94-104 | a lookup answers with a packet of the address asked for if and only if that loco is cached; for another address it answers at all if and only if 20 are cached, and then with the packet in the slot before the address modulo 20 |
| `Cache.NewcomerIsAnswerIff` | cs/cache.c:51-69 | a packet that evicts another is cached under an address nobody queues; a refresh can reach it only through its victim's address, and that one reaches it if and only if both have the same home slot |
| `Cache.CacheModule.constructor` | cs/cache.c:33-42 | an empty cache |
| `Cache.CacheModule.Clear` | cs/cache.c:44-49 | ring and table cleared, exactly the cached packets destroyed |
| `Cache.CacheModule.Update` | cs/cache.c:51-69 | the new ring and table, and the one packet destroyed, are those specified |
| `Cache.CacheModule.GetNextPacket` | cs/cache.c:71-92 | returns the specified packet and moves its address to the end of the queue |
| `Cache.CacheModule.Get` | cs/cache.c:94-104 | returns the specified packet and changes nothing, for every address, negative ones included, whose search stays inside the table |
| `Scheduler.EnabledExact` | cs/scheduler.c:67-85 | a packet can be added if it has 3 to 15 bytes and fewer than 20 are queued; ticks and clears can happen at any time |
| `Scheduler.StepKeepsValid` | cs/scheduler.c:67-141 | every event keeps the invariant, in particular: while a stop is stored the address ring and the table are empty |
| `Scheduler.StepConserves` | cs/scheduler.c:87-141 | no event loses or duplicates a packet |
| `Scheduler.OnePacketPerTick` | cs/scheduler.c:87-141 | over every run, exactly one packet is sent for every timer interrupt |
| `Scheduler.RunConserves` | cs/scheduler.c:67-141 | over every run, held plus destroyed packets are those at the start plus those added |
| `Scheduler.AcceptIsSafe` | cs/scheduler.c:100-120 | while a packet is accepted, what is read and what is destroyed has not been destroyed before |
| `Scheduler.RefreshIsSafe` | cs/scheduler.c:129-139 | the packet a refresh sends has not been destroyed |
| `Scheduler.CreateIdle` | cs/scheduler.c:47-49 | the idle packet, built in place |
| `Scheduler.SchedulerModule.constructor` | cs/scheduler.c:38-52 | initialisation: empty queue and cache, no stop packet, an idle packet |
| `Scheduler.SchedulerModule.AddPacket` | cs/scheduler.c:67-85 | queues the packet |
| `Scheduler.SchedulerModule.ClearCache` | cs/sys.c:151-158 | clears the cache as one atomic step |
| `Scheduler.SchedulerModule.TimerTick` | cs/scheduler.c:87-141 | the interrupt changes queue, stop slot, cache and heap as the step function says and hands the bytes of the packet it says to the serialiser |
| `Runs.EachPacketInOnePlace` | cs/scheduler.c:67-141 | after every run from power-up, however many addresses were used, each packet added is in exactly one of queue, stop slot, one table slot and heap; none is destroyed twice and the idle packet never |
| `Runs.NeverSentAfterFree` | cs/scheduler.c:101-139 | a packet destroyed by some moment of a run is never sent from then on |
| `Runs.QueuedIsSentInTurn` | cs/scheduler.c:95-101 | the packet with k others queued before it is the one the (k+1)-th tick sends, whatever is added or cleared meanwhile |
| `Runs.AfterStopOnlyNewer` | cs/scheduler.c:103-132 | after a broadcast stop S is popped, everything sent is S, idle or a packet popped after S |
| `Runs.StopIsRepeated` | cs/scheduler.c:129-139 | until something else is popped, S is all that is sent, whatever is added or cleared |
| `Runs.NothingSentBeforeStopReturns` | cs/scheduler.c:103-115 | nothing sent before S, idle apart, is sent after it |
| `Runs.StopIsPossible` | cs/scheduler.c:95-115 | the situation the stop theorems speak of arises: a stop added at power-up |
| `Refresh.CacheIsLatestIffAtMost20` | cs/cache.c:51-69 | after every run the cache maps each address to the latest packet popped for it since the last clear or stop, each queued once, if and only if those addresses are at most 20 |
| `Refresh.RefreshedInQueueOrder` | cs/cache.c:84-91 | with at most 20 locos and no clear or stop, the (j+1)-th refresh tick sends the latest packet of the loco at queue index j, whatever arrives in between |
| `Refresh.RoundRobin` | cs/scheduler.c:122-140 | with n locos and no updates, n refresh ticks send each loco's packet once, in queue order, and restore the state |
| `Refresh.QuietTicksAnswer` | cs/cache.c:71-92 | with any cache, evictions or not, and no updates, tick number k sends what the table answers for the address at ring index k, going round |
| `Overflow.TwentyOneLocosOverflow` | cs/hash.c:111-122 | the run addressing locos 0 to 20, after which the cache is no longer the map of latest packets |
| `Overflow.FullCacheAnswersForStranger` | cs/cache.c:94-104 | the run addressing locos 0 to 19, after which a lookup of loco 20 is answered |
| `Overflow.NewcomerIsRefreshedIff` | cs/cache.c:51-92 | while nothing else arrives, a packet that has evicted another is sent again within 20 ticks if its address and its victim's agree modulo 20, and otherwise never |
| `Overflow.LocoTwentyIsNeverRefreshed` | cs/cache.c:51-92 | the run addressing locos 0 to 20, after which no number of quiet ticks ever sends loco 20's packet again |
| `Dcc.WritesCommute` | cs/dcc.c:172-241 | setters of different fields commute and a setter overwrites its own earlier call |
| `Dcc.OnlyLastWritesMatter` | cs/dcc.c:172-241 | any sequence of setter calls gives the packet of the last call per field in a fixed order |
| `Dcc.GettersInvertSetters` | cs/dcc.c:271-322 | after any sequence of setter calls the getters return the last value written to each field, reduced as the setter reduces it |
| `Dcc.FinishKeepsFields` | cs/dcc.c:243-269 | checksum and end bit leave every other field alone |
| `Dcc.FinishIdempotent` | cs/dcc.c:243-269 | setting checksum and end bit twice is setting them once |
| `Baseline.SettersWriteTheirBits` | cs/dcc.c:172-241 | on any baseline packet, each setter gives the bits of its field their values and leaves every other bit alone |
| `Baseline.FinishWritesBits` | cs/dcc.c:243-269 | checksum and end bit write bits 31 to 39 and nothing else |
| `Baseline.AddressBits` | cs/dcc.c:271-281 | the address is bits 14 to 20 of the packet, whatever its length |
| `Baseline.DirectionBit` | cs/dcc.c:313-322 | the direction is bit 24, whatever the length |
| `Baseline.SpeedBits` | cs/dcc.c:295-311 | the step is the one of the code in bits 25 to 29, whatever the length |
| `Dcc.StopsAreFinished` | cs/dcc.c:131-170 | both broadcast-stop packets are fixed points of it and are recognised |
| `Dcc.BroadcastStopExact` | cs/dcc.c:151-170 | exactly four packets, of whatever length, are taken for a broadcast stop: the two stop packets, and each with the last byte of the other |
| `Dcc.DccPacket.Baseline` | cs/dcc.c:66-82 | a new packet of five zero bytes |
| `Dcc.DccPacket.SetIdle` | cs/dcc.c:121-129 | the buffer becomes the idle packet |
| `Dcc.DccPacket.SetPreamble` | cs/dcc.c:172-184 | the buffer becomes the one with twelve preamble ones, the rest of it kept |
| `Dcc.DccPacket.SetAddress` | cs/dcc.c:186-202 | the buffer becomes the one with the seven address bits replaced, across the byte boundary |
| `Dcc.DccPacket.SetSpeedDirectionPreamble` | cs/dcc.c:204-214 | the buffer becomes the one with the two instruction bits 01 |
| `Dcc.DccPacket.SetDirection` | cs/dcc.c:216-226 | the buffer becomes the one with the direction bit replaced |
| `Dcc.DccPacket.SetSpeed` | cs/dcc.c:228-241 | the buffer becomes the one with the five-bit code of the step modulo 29 |
| `Dcc.DccPacket.SetChecksum` | cs/dcc.c:243-261 | the buffer becomes the one whose error byte, across the byte boundary, is address XOR instruction |
| `Dcc.DccPacket.SetPacketEnd` | cs/dcc.c:263-269 | the buffer becomes the one with the end bit set |
| `Dcc.DccPacket.GetSpeedStep` | cs/dcc.c:295-311 | the search loop returns the first matching table index, or 0 |
| `Casts.AddressOfCast` | cs/dsl.c:613-614 | of a number of either sign, cast to a byte and reduced by the setter, the address field keeps the residue modulo 128 |
| `Wire.ReceiveFrame` | cs/signal.c:60-121 | a frame followed by any number of ones is heard by every S-9.2 decoder as its data, once, with a valid error byte |
| `Wire.ReceiveStream` | cs/signal.c:60-121 | every list of frames, with every list of gaps of ones, is heard as exactly that list |
| `Wire.OnesSettle` | cs/dcc.c:172-184 | whatever state a receiver is in, ones make it hunt for a preamble, with all but at most nine of them counted and after at most one reception |
| `Wire.ReceiveFrameFromAnywhere` | cs/signal.c:60-121 | a frame after at least ten ones is heard by a receiver in any state, after at most one reception left over |
| `Baseline.TableFollowsRule` | cs/dcc.c:34-64 | the 29-entry speed table is the 28-step rule of S-9.2 section B |
| `Baseline.SearchFollowsRule` | cs/dcc.c:295-311 | the table search agrees with that rule on all 32 codes |
| `Baseline.OpenFinishesLegal` | cs/dcc.c:243-269 | a packet with its constant bits in place is finished to a legal section B frame |
| `Baseline.SpecialPacketsCarry` | cs/dcc.c:121-149 | idle and the two stops are complete frames with the data bytes of S-9.2 |
| `Baseline.DecoderReadsLastWrites` | cs/dcc.c:172-322 | whatever setters built a packet, with preamble and instruction bits among them, its frame is legal and a decoder reads from it the last address, step and direction written |
| `Baseline.DecoderAgreesWithGetters` | cs/dcc.c:271-322 | what a decoder reads from a legal frame is what the getters return |
| `RoundTrip.WireRoundTrip` | cs/signal.c:60-121 | for every list of (address, step, direction) and every list of gaps of ones, the setters' frames, serialised one after the other from any state, are heard by an S-9.2 decoder as exactly that list, each with a valid error byte |
| `Signal.NextBitInOrder` | cs/signal.c:88-121 | each full-bit interrupt puts the next bit of the buffer on the rails and moves one position closer to its end, then ones |
| `Signal.SerialisesBuffer` | cs/signal.c:60-121 | after a send of 1 to 15 bytes, whatever went on before, exactly the 8 * size bits, most significant first, then ones for ever |
| `Signal.OnesFromPowerUp` | cs/signal.c:31-58 | from initialisation to the first send there are ones on the rails |
| `Signal.EmptySend` | cs/signal.c:60-121 | a send of no bytes puts out one bit left over in the buffer, then ones |
| `Signal.BitsAreTwoEqualHalves` | cs/signal.c:90-92 | with the half-bit interrupts counted, every bit is two equal halves |
| `Signal.SignalModule.constructor` | cs/signal.c:31-54 | initial state: nothing to send, ones on the rails |
| `Signal.SignalModule.Send` | cs/signal.c:60-79 | copies the bytes and starts the first bit, as specified |
| `Signal.SignalModule.CompareMatch` | cs/signal.c:88-121 | the interrupt, as specified |
| `Timing.TimesAreStandard` | cs/signal.c:16-17 | at 14.7456 MHz the half periods are within the limits of S-9.1; they and the tick to the cycle |
| `Timing.SentWholeIffItFits` | cs/signal.c:81-86 | between two sends, the first in the middle of any bit, the rails carry the whole buffer if and only if its bit times fit into the time they have; otherwise they carry a proper prefix |
| `Timing.FiveBytesFit` | cs/scheduler.c:18 | five bytes fit into a tick if and only if they hold a one bit |
| `Timing.FrameLeavesTime` | cs/signal.c:16-17 | a baseline frame has at least 13 ones and leaves time for ten more |
| `Timing.FrameSentWhole` | cs/scheduler.c:87-101 | a send never truncates the previous baseline frame, provided the timer did not miss the start of that one, and at least ten ones separate them |
| `Timing.SteadyFromPowerUp` | cs/signal.c:31-58 | every moment from initialisation to the first send is one in which the timer does not miss the match |
| `Timing.FrameSentWholeIffSteady` | cs/signal.c:47-50 | and only then: a frame sent when the counter has already passed the compare value of a one is cut by the next send, whichever frame it is |
| `Timing.RawPacketUpsetsTimer` | cs/signal.c:81-86 | it happens: fifteen zero bytes sent 700 cycles into a one are cut in such a moment |
| `Timing.NextPreambleIsLongEnough` | cs/dcc.c:172-184 | with those ones the preamble of the next frame has more than the 14 ones S-9.2 section A asks of a command station |
| `Track.RailsAreHeard` | cs/scheduler.c:101-139 | packets sent one per tick, at any phase of the bit clock in which the timer does not miss the first, are heard by a decoder exactly, in order |
| `Track.DecoderHearsRun` | cs/scheduler.c:67-141 | in every run from power-up with legal packets, a decoder hears exactly the packets the scheduler sent |
| `Track.DecoderHearsRunFromPowerUp` | cs/scheduler.c:38-141 | the same with the serialiser started from its initial state too, after any number of cycles to the first tick |
| `Track.FirstAreHeard` | cs/scheduler.c:101-139 | the first n packets sent, if legal, are heard first, exactly and in order, whatever is sent afterwards, raw packets included |
| `Track.SecondOnAreHeard` | cs/scheduler.c:101-139 | a decoder in any state, just switched on or after a raw packet, loses at most the frame then on the rails and hears everything from the second on |
| `Track.OnlyStopsAreHeard` | cs/scheduler.c:129-132 | while a stop is in force a decoder hears exactly that stop, once at every tick, and nothing else |
| `Track.StopIsHeardFromSecondTick` | cs/scheduler.c:129-132 | a decoder in any state hears the stop in force from the second tick on |
| `Scanner.NextShortens` | cs/dsl.c:183-349 | every token uses up part of the text, pushed-back characters notwithstanding |
| `Scanner.DslScanner.NextNumber` | cs/dsl.c:241-261 | the number loop, with push-back and end of input |
| `Scanner.DslScanner.NextWord` | cs/dsl.c:264-334 | the keyword loop, at most 20 letters, any case |
| `Scanner.DslScanner.NextHex` | cs/dsl.c:205-232 | the hexadecimal loop, with its rejection of odd lengths |
| `Scanner.DslScanner.NextToken` | cs/dsl.c:183-349 | one call takes the first token off the specified token stream |
| `Parser.DslParser.GrammarArgs` | cs/dsl.c:500-501 | both alternatives, tried without rewinding, on tokens and packet |
| `Parser.DslParser.GrammarAddr` | cs/dsl.c:600-625 | tokens consumed and packet written, on success and on failure |
| `Parser.DslParser.GrammarSpeed` | cs/dsl.c:627-652 | tokens consumed and packet written, on success and on failure |
| `Parser.DslParser.GrammarForward` | cs/dsl.c:488-517 | result and tokens left, as specified |
| `Parser.DslParser.GrammarReverse` | cs/dsl.c:519-548 | result and tokens left, as specified |
| `Parser.DslParser.GrammarStop` | cs/dsl.c:550-598 | result and tokens left, as specified |
| `Parser.DslParser.GrammarRaw` | cs/dsl.c:654-682 | result and tokens left: a new packet of the bytes the string stands for if the uninitialised pointer, a parameter, happens not to be null, and otherwise an undefined result |
| `Parser.DslParser.PacketFromHex` | cs/dsl.c:669-673 | the loop converts two characters to a byte as sscanf does, letters beyond F included |
| `Parser.DslParser.GrammarHelp` | cs/dsl.c:393-409 | result and tokens left, as specified |
| `Parser.DslParser.GrammarShow` | cs/dsl.c:412-439 | result and tokens left, as specified |
| `Parser.DslParser.GrammarCache` | cs/dsl.c:441-486 | result and tokens left, as specified |
| `Parser.DslParser.ParseAlternatives` | cs/dsl.c:351-366 | the seven alternatives in turn, each from where the one before stopped; a packet is in the result exactly when this call has created it, so the uninitialised pointer is never destroyed or returned |
| `Parser.DslParser.Start` | cs/dsl.c:118-175 | the result for the text on standard input is the specified one, a DCC packet finished off; after a success what has not been scanned is still unread, as `TextLeft` says; after a failure the input is flushed, the result is gone, and a packet created in this call is destroyed if and only if a `forward` or `reverse` had been begun |
| `Commands.AcceptedFramesAreLegal` | cs/dsl.c:167-172 | for every token stream accepted with a DCC result, whatever failed alternatives wrote, the packet is a legal section B frame |
| `Commands.AddrExact` | cs/dsl.c:600-625 | addr succeeds exactly on the keyword with a number; otherwise it leaves the packet alone and uses up at most the keyword |
| `Commands.SpeedExact` | cs/dsl.c:627-652 | speed succeeds exactly on the keyword with a number; otherwise it leaves the packet alone and uses up at most the keyword |
| `Commands.ArgsExact` | cs/dsl.c:500-501 | the arguments accepted are exactly four shapes, the documented one and three more; in each the packet gets the last address and the speed given |
| `Commands.CommandExact` | cs/dsl.c:351-366 | the inputs accepted are exactly those with a complete command after nothing but what the alternatives before it use up in vain (a lone `raw`, `show`, `cache` or `cache show`; `forward` or `reverse` with given-up arguments), and what they use up has no effect: the result and the tokens left are those of the command alone |
| `Commands.EveryPacketWasCommanded` | cs/dsl.c:351-366 | whenever the parser returns a DCC packet, the complete command found in the input by `CommandExact` orders exactly that packet |
| `Commands.BegunByDirection` | cs/dsl.c:143-165 | when a parse fails, a packet is there to be destroyed if the input begins with a direction, and not if there is none in it |
| `Commands.DriveMeaning` | cs/dsl.c:488-548 | a drive command gives the frame a decoder reads as number mod 128, low byte of the number mod 29, and direction; it is never taken for a broadcast stop, not even for address 0 |
| `Commands.StopMeaning` | cs/dsl.c:550-598 | a stop command never fails: with an address it stops that loco, after `all` or `addr all` it is the emergency stop, otherwise the broadcast stop |
| `Commands.SystemCommands` | cs/dsl.c:393-486 | help, show status, cache clear, cache show and raw give the documented results |
| `CommandText.KeywordExact` | cs/dsl.c:281-333 | the scanner recognises exactly the vocabulary |
| `CommandText.FoldIsValue` | cs/dsl.c:243-249 | the number loop computes the value of a digit string, leading zeros or not, up to 16-bit wrap-around |
| `CommandText.FoldDecimal` | cs/dsl.c:243-249 | the number loop inverts decimal printing, up to the same wrap-around |
| `CommandText.ScanNumeral` | cs/dsl.c:205-261 | every digit string, "0" included, is scanned as its value and nothing of what follows is taken |
| `CommandText.ScanLine` | cs/dsl.c:183-349 | however a list of keywords and numbers is typed (long or short, any case, any blanks, any digits), the scanner returns those tokens and then the tokens of the rest |
| `CommandText.LineOf` | cs/dsl.c:183-349 | conversely every text whose first n tokens are keywords and numbers is such a list, typed, and a rest |
| `CommandText.HexMeaning` | cs/dsl.c:203-238 | up to 20 characters after 0x: even lengths scanned, the empty string included, odd ones rejected with the next character lost, the twentieth put back |
| `CommandText.TypedStopMeaning` | cs/dsl.c:550-598 | however typed and whatever follows, a stop line gives a legal frame, which the scheduler takes for a broadcast stop if and only if no address with a number follows |
| `CommandText.TypedShowMeaning` | cs/dsl.c:441-486 | a typed `cache show` gives its number up to 16-bit wrap-around |
| `CommandText.TypedDriveMeaning` | cs/dsl.c:118-175 | for every way of typing a drive line (long or short keywords, any case, any blanks, leading zeros, numbers of any size, any of the four argument shapes) a decoder reads the address mod 128, the low byte of the step mod 29, and the direction |
| `CommandText.EveryDriveIsTyped` | cs/dsl.c:183-349 | there is no other way: every text that scans to a drive command is such a line, with the same numbers up to 16-bit wrap-around |
| `CommandText.TypedDriveRoundTrip` | cs/dsl.c:118-175 | for addresses 0 to 127 and steps 0 to 28 the packet's getters return exactly what was typed |
| `CommandText.TypedRawMeaning` | cs/dsl.c:654-682 | a typed raw command with an even number of up to 20 letters and digits gives a packet of the bytes sscanf makes of them, or an undefined result |
| `CommandText.HexRoundTrip` | cs/dsl.c:669-673 | converting printed hexadecimal digits, as the scanner capitalises them, gives back the bytes |
| `CommandText.TypedRawRoundTrip` | cs/dsl.c:654-682 | up to ten bytes, printed and typed after `raw 0x`, are the bytes of the packet |
| `PrintedLines.PrintedDrive` | cs/dsl.c:118-175 | the words forward/fw or reverse/rv, addr/ad, speed/sp in any mixture of capitals and small letters, and printed numbers up to 127 and 28, with any number of spaces between them and in either order: the packet's getters return those numbers and the direction |
| `PrintedLines.PrintedStop` | cs/dsl.c:550-598 | likewise `stop addr` with a number, `stop all` and `stop`: the packets, the last two byte by byte |
| `PrintedLines.PrintedSystem` | cs/dsl.c:393-486 | likewise `cache show` with a number, `cache clear`, `show status` and `help` |
| `PrintedLines.Vocabulary` | cs/dsl.c:281-333 | the sixteen words that are keywords; there are no others |
| `PrintedLines.OtherCharacters` | cs/dsl.c:336-348 | spaces and tabs are skipped; every character that is no letter or digit either is a bad token by itself, and only it is consumed |
| `PrintedLines.LettersAreOneToken` | cs/dsl.c:263-334 | a run of letters is one token, at most twenty letters of it, and twenty are no keyword |
| `PrintedLines.LettersBeyondF` | cs/dsl.c:669-673 | what a raw command makes of letters that are no hexadecimal digits |
| `Sessions.SystemLeavesTail` | cs/dsl.c:411-486 | `cache clear`, `show status` and `cache show` with a number leave unread exactly what follows their last word |
| `Sessions.OthersLoseOneToken` | cs/dsl.c:368-379 | help, drive and stop commands, in every shape, leave unread what follows them without its first token |
| `Sessions.RawLosesOneToken` | cs/dsl.c:654-682 | so does raw |
| `Sessions.NextCommand` | cs/dsl.c:118-141 | that token is the newline, if one follows, or else the first word of what is parsed next |
| `Sessions.ReadCommand` | cs/io.c:60-107 | a read of the main loop swallows a newline or a space or else parses a command, leaving the text specified |
| `Sessions.LineByLine` | cs/io.c:60-107 | a command that fills its line gives the same result whatever lines follow, and those are left for the next reads |
| `Sessions.ClearThenStop` | cs/io.c:60-107 | of `cache clear stop`, however capitalised and spaced, the reads in turn give the cache clear, nothing for each space, and the broadcast stop |
| `Station.TypedShowWithinTableIff` | cs/sys.c:160-167 | the numbers typed after `cache show` that are looked up inside the table are, modulo 0x1_0000, exactly those below 0x8000 and those that wrap to a negative multiple of 20; the address is negative exactly for those from 0x8000 on |
| `Station.TypedRunIsHeard` | cs/main.c:32-38 | in every run from power-up whose packets were typed, a decoder hears one valid packet per tick and each means what its getters say |
| `Station.TypedRunIsHeardFromPowerUp` | cs/main.c:20-38 | the same from power-up of scheduler and serialiser, after any number of cycles to the first tick |
| `Station.TypedDriveIsHeardInTurn` | cs/main.c:32-38 | a drive line typed while k packets are queued is the (k+1)-th packet a decoder hears, with its address, step and direction, in every run from then on |
| `Station.TypedDriveIsHeardInRun` | cs/main.c:32-38 | in a run from power-up, with n ticks before the line and k packets queued then, a decoder hears its command at tick n + k + 1 |
| `Station.TypedStopIsAllThatIsHeard` | cs/dsl.c:575-594 | once a typed stop is popped, and until another packet is, a decoder hears at every tick that stop, the emergency stop if `all` was typed, and nothing else |
| `Station.RoundIsHeard` | cs/cache.c:71-92 | in a quiet station n ticks let a decoder hear the latest command of each of the n cached locos exactly once, in queue order |
| `Station.LatestIsHeardInRound` | cs/cache.c:51-92 | after any run from power-up of typed packets that leaves n <= 20 locos, no stop and an empty queue, n ticks let a decoder hear n commands, one for each loco: the latest typed for it |

## Left out

- Hardware: registers, pins, UART polling, LEDs and prompts (`cs/io.c` but for the reads of the main loop, `cs/utils.c`, the register lines of the init functions); standard input is a finite text followed by end of file.
- Races at instruction level: `Sys_cmd_cache_clear` runs with interrupts enabled (`cs/sys.c:151-158`); Add, Tick and Clear are atomic here.
- Overfilling the transmit ring: `Ring_push` has no check, so Add is an event only while fewer than 20 packets are queued.
- Raw packets of fewer than 3 or more than 15 bytes: the scheduler reads and copies them out of bounds.
- Whether a raw command gives a packet depends on an uninitialised pointer (`cs/dsl.c:662`): that is a parameter.
- Packets changed in place while the scheduler holds them: they are values there, since nobody writes to them any more; building them in place is modelled by `DccPacket`.
- A `cache show` whose number wraps to a negative address that is no multiple of 20 searches outside the table: lookups take all other addresses, and `TypedShowWithinTableIff` states which numbers give them.
- `DSL_parser_start(NULL)`, allocation failure, and the leak of the first packet of `forward reverse ...`; how much input the flush callback discards after a parse error is a parameter.
- The parser result's union: its members are separate fields here.
- Printing: the dumps, status output and counters of `cs/dcc.c` and `cs/sys.c`; `DCC_compare_speed` and the reset packet, which nothing uses.
- `booster/` and the drivers under `cs/test/`.
