# A model of cppBase and muduo base in Dafny

cppBase is a C++ utility library that carries a copy of muduo's `base` directory. This project models
its components with the most intricate logic and proves what they are for: the calendar and time zone
conversions, the lock-free ring buffer, the asynchronous logger, the wire format, rendezvous hashing of
channels to groups, the integer printers, the base64 and percent codecs, the blocking queue and thread
pool monitor, the LRU cache, the timer queue and the reference-counted pointer.

Every file holds one module. `dafny verify dfyconfig.toml` checks the whole project.

| file | models |
|---|---|
| `CArith.dfy`, `Sequences.dfy` | C's truncating division and conversions; sequence helpers |
| `Dates.dfy`, `TimeZone.dfy` | `muduo/base/Date.cc`, `muduo/base/TimeZone.cc` |
| `RingBuffer.dfy` | `cppBase/core/RingBuffer.h`, as an object and as a two-thread step machine |
| `LogStream.dfy`, `AsyncLogging.dfy` | `FixedBuffer`, `formatInteger`, and the front and back end of `AsyncLogging` |
| `Packet.dfy`, `PackBuffer.dfy` | the encoding of `cppBase/core/packet.h`, and its packer, unpacker and framing |
| `ChannelHash.dfy` | `cppBase/utility/sysutil.h` |
| `Decimal.dfy` | the printers of `cppBase/utility/strutil.cpp`, `strutil.h` and `muduo/base/LogStream.cc` |
| `MonitorQueue.dfy` | `muduo/base/BoundedBlockingQueue.h` and the queue of `muduo/base/ThreadPool.cc` |
| `UrlCodec.dfy`, `PercentCodec.dfy` | `cppBase/utility/url_code.cpp` |
| `LruCache.dfy` | `cppBase/utility/lrucache.h` |
| `AsyncTimer.dfy` | `cppBase/utility/AsyncTimer.cpp` |
| `SmartPtr.dfy` | `cpp-examples/3-cpp11/example_shared_ptr_impl.cpp` |

Concurrent components are state machines whose steps are the stretches of code between two points where
another thread can interfere. Their theorems speak of every finite sequence of steps from the initial
state, that is, of every interleaving. Components that change objects in place are classes whose methods
are proved against a function of the old state; the theorems are about those functions.

## What turned out to hold only in part

Each line names the theorem with the exact condition and a lemma at an input that fails.

- The day of the week is negative for most days before day number -1 (`Dates.WeekDayRange`,
  `Dates.WeekDayNegative`).
- The day of the year is off by one in the year -4800, whose 1 January lies before the formulas' range
  (`TimeZone.YearDay`, `TimeZone.YearDayOff`).
- From an instant to local time and back loses the instants whose clock reading is shown again after a
  step back other than one hour out of DST (`TimeZone.SpacedRoundTrip`, `TimeZone.HalfHourLost`).
- From a clock reading to an instant and back loses the readings the clock skips, and those called DST
  where standard time is in force (`TimeZone.ReadingRoundTrip`, `TimeZone.HourSkipped`).
- A log message of at least the buffer size is dropped, though it still hands the current buffer over
  (`AsyncLogging.KeptIff`, `AsyncLogging.LongMessageLost`).
- Unpacking rejects a packed vector of non-scalars whose elements would exceed 128 MB in memory
  (`Packets.RoundTrip`, `Packets.LongVectorFails`).
- Two groups whose ids agree modulo 2^31 tie for every channel, and the larger one never gets any
  (`ChannelHash.ScoresTie`, `ChannelHash.LargerOfTiesNeverChosen`, `ChannelHash.TieExample`).
- `UrlDecode` reads beyond the terminator of a string whose last byte is a percent sign starting an
  escape (`PercentCodec.ReadsBeyondIff`, `PercentCodec.LonePercent`).
- Section 2.1 of RFC 3986 makes lower-case digits of an escape equivalent to upper-case ones; `UrlDecode`
  misreads a lower-case second digit after half of the first ones (`PercentCodec.LowerCaseEscape`,
  `PercentCodec.LowerCaseExample`).
- `base64_decode` inverts the URL-safe encoder only where the plain text has neither '+' nor '/'
  (`UrlCodec.UrlSafeRoundTrip`, `UrlCodec.UrlSafeLoses`).
- `check` never returns when a due name repeats at an interval of zero or less
  (`AsyncTimers.CheckEndsIff`, `AsyncTimers.ZeroIntervalNeverEnds`).
- A new one-shot fires early if its name still has a pending entry (`AsyncTimers.OneShotFires`,
  `AsyncTimers.EarlyOneShot`).

Where code and comments disagree the model follows the code: `Date.h` gives years 1900 to 2500, but the
formulas serve every year from -4800 to the 32-bit limit. `PackBuffer::replace` ignores its position when
it writes. `lru_cache::erase` reads an erased map iterator; the model takes the list node first, which is
the meaning intended.

## Model

| member | source | states |
|---|---|---|
| Dates.DayNumberOfDate | muduo/base/Date.cc:30-43 | Every day number from -32044 on gives a valid Gregorian date on or after 1 March -4800 whose day number is the one given |
| Dates.DateOfDayNumber | muduo/base/Date.cc:21-28 | Every valid date from 1 March -4800 on is recovered from its day number |
| Dates.SuccessorIsNextDay | muduo/base/Date.cc:21-28 | The calendar's next date, by month lengths and the leap rule, has the next day number |
| Dates.NextDayIsSuccessor | muduo/base/Date.cc:30-43 | The date of the next day number is the calendar's next date |
| Dates.YearMonthDayFitsExactly | muduo/base/Date.cc:30-43 | No intermediate value overflows 32 bits if and only if the shifted day number is at most 536870911 |
| Dates.JulianDayNumberFitsInRange | muduo/base/Date.cc:21-28 | No intermediate value overflows 32 bits for the valid dates in that range |
| Dates.WeekDayRange | muduo/base/Date.h:95-99 | The weekday lies in 0..6 if and only if the day number is at least -1 or the day is a Sunday |
| Dates.WeekDayNegative | muduo/base/Date.h:95-99 | Day number -2 gets weekday -1 |
| Dates.WeekDayTurns | muduo/base/Date.h:95-99 | The weekday advances by one modulo seven, and 1 January 1970 is a Thursday |
| TimeZone.ToUtcParts | muduo/base/TimeZone.cc:322-348 | For every instant in range, negative ones included, truncating division with its correction rounds down, and the fields are those of that day and second |
| TimeZone.UtcRoundTrip | muduo/base/TimeZone.cc:322-363 | Breaking an instant down and reassembling it gives it back, and all fields are in range |
| TimeZone.UtcFieldsRoundTrip | muduo/base/TimeZone.cc:350-363 | Assembling valid fields and breaking the result down gives the fields back |
| TimeZone.YearDay | muduo/base/TimeZone.cc:342-346 | A requested day of the year is in 0..365, and it is the calendar's if and only if the year is after -4800 |
| TimeZone.YearDayOff | muduo/base/TimeZone.cc:342-346 | 1 March -4800 gets day 59 of the year, where the calendar has 60 |
| TimeZone.LowerBound | muduo/base/TimeZone.cc:234-237 | The binary search finds the first transition whose key is not below the given one |
| TimeZone.FindLocaltime | muduo/base/TimeZone.cc:223-255 | On sorted transitions it agrees with a linear scan for the last transition not after the key, including no transitions and a key before all of them |
| TimeZone.ComputeToLocalTime | muduo/base/TimeZone.cc:277-297 | The search-based conversion computes local time by the scan |
| TimeZone.ComputeFromLocalTime | muduo/base/TimeZone.cc:299-320 | The search-based conversion with the repeated-hour correction computes the inverse by the scan |
| TimeZone.LocalClock | muduo/base/TimeZone.cc:287-294 | With transitions in order by UTC, local time shows the instant plus the offset in force, with that offset and its DST flag |
| TimeZone.LocalDay | muduo/base/TimeZone.cc:277-297 | Date, day of the week and, after the year -4800, day of the year of local time are those of the clock reading's date |
| TimeZone.SortedByBothKeys | muduo/base/TimeZone.cc:39-63 | Transitions more than twice the largest offset change apart are sorted by either key of the comparator |
| TimeZone.SearchByLocalTime | muduo/base/TimeZone.cc:305-307 | Searching by local time finds the rules in force, or the next ones exactly when the reading is shown again |
| TimeZone.LocalRoundTrip | muduo/base/TimeZone.cc:277-320 | In any zone whose transitions are in order by both keys, from an instant to local time and back is the identity if and only if the clock reading finds the rules in force, or finds rules an hour behind while the test for the repeated hour succeeds |
| TimeZone.SpacedRoundTrip | muduo/base/TimeZone.cc:277-320 | With well-spaced transitions that is so if and only if the reading is not shown again, or is shown again by a step back of one hour out of DST |
| TimeZone.HalfHourLost | muduo/base/TimeZone.cc:277-320 | A zone that goes back half an hour out of DST loses the instant before |
| TimeZone.ZoneRoundTrip | muduo/base/TimeZone.cc:277-320 | In a well-spaced zone all instants survive the round trip if and only if every step back is one hour out of DST |
| TimeZone.ReadingRoundTrip | muduo/base/TimeZone.cc:299-320 | With well-spaced transitions, from a clock reading to an instant and back shows the same date and time if and only if the clock does not skip the reading, and the reading is not called DST in standard time unless it is the second showing of a repeated hour |
| TimeZone.HourSkipped | muduo/base/TimeZone.cc:299-320 | A reading inside a step forward of one hour is not shown again |
| RingBuffers.CountCases | cppBase/core/RingBuffer.h:55-61 | What the wrapping 32-bit subtraction yields in each order of the indices, the inconsistent ones included |
| RingBuffers.WritableIffFree | cppBase/core/RingBuffer.h:55-59 | With the read index read twice while it advances, the count is positive if and only if a slot is free at the second read |
| RingBuffers.ReadableIffFilled | cppBase/core/RingBuffer.h:55-61 | With the write index read twice while it advances, the count is positive if and only if a slot is filled at the second read |
| RingBuffers.RingBuffer.constructor | cppBase/core/RingBuffer.h:9-18 | A new buffer is empty |
| RingBuffers.RingBuffer.Write | cppBase/core/RingBuffer.h:24-33 | In one thread: succeeds if and only if fewer than size values are held, and then appends the value |
| RingBuffers.RingBuffer.Peek | cppBase/core/RingBuffer.h:35-42 | In one thread: shows the oldest value if there is one |
| RingBuffers.RingBuffer.Read | cppBase/core/RingBuffer.h:44-52 | In one thread: removes the oldest value if there is one |
| RingBuffers.StepKeepsInv | cppBase/core/RingBuffer.h:24-61 | Every producer and consumer step keeps the invariant that the unread values are in the slots between the indices |
| RingBuffers.ReadsArePrefixOfWrites | cppBase/core/RingBuffer.h:24-52 | In every interleaving the values read are the first arguments of the successful write calls, one for each successful read, at most size fewer than written; each peek shows the argument the next read would return; the indices stay in bounds |
| RingBuffers.WriteAlone | cppBase/core/RingBuffer.h:24-33 | After any run a write left undisturbed goes through if and only if a slot is free, and is refused otherwise |
| RingBuffers.ReadAlone | cppBase/core/RingBuffer.h:35-52 | After any run a read or peek left undisturbed succeeds if and only if a written value is unread |
| RingBuffers.TestsAreExact | cppBase/core/RingBuffer.h:20-22 | In every interleaving both tests answer exactly for the moment of their last read, and a positive answer stays true until it is used |
| LogStream.FixedBuffer.constructor | muduo/base/LogStream.h:28-32 | A new buffer holds nothing |
| LogStream.FixedBuffer.Append | muduo/base/LogStream.h:39-47 | The whole message is added if strictly more than its length is free, otherwise nothing |
| LogStream.FixedBuffer.Reset | muduo/base/LogStream.h:57-57 | The buffer holds nothing and all its bytes are free |
| LogStream.FixedBuffer.FormatInteger | muduo/base/LogStream.cc:238-246 | If at least 32 bytes are free, exactly the decimal text of the number is added; its terminator stays inside the buffer |
| AsyncLogging.Logger.constructor | muduo/base/AsyncLogging.cc:14-32 | The front end starts with two empty buffers and nothing handed over, which meets the invariant |
| AsyncLogging.Logger.Append | muduo/base/AsyncLogging.cc:37-62 | The critical section is the machine's append step: it adds the message to what the front end holds, or nothing if the message is as long as a buffer; the invariant is kept |
| AsyncLogging.Logger.SwapBuffers | muduo/base/AsyncLogging.cc:85-105 | The critical section is the machine's swap step: everything the front end held is handed over, in order; the invariant is kept |
| AsyncLogging.Logger.WriteBuffers | muduo/base/AsyncLogging.cc:108-124 | The drop rule and the writing loop are the machine's write step, after which the file is the rendering of all batches handed over; the invariant is kept |
| AsyncLogging.Logger.RefillSpares | muduo/base/AsyncLogging.cc:126-148 | Refilling never meets an empty batch and leaves two empty spares for the next swap; the invariant is kept |
| AsyncLogging.StepKeepsInv | muduo/base/AsyncLogging.cc:37-151 | Every step keeps the invariant, among it that a missing next buffer means a buffer is waiting and a missing second spare means the batch has two |
| AsyncLogging.NoAssertFails | muduo/base/AsyncLogging.cc:79-148 | In every interleaving all assertions of the back end hold and no null buffer is used |
| AsyncLogging.NothingLost | muduo/base/AsyncLogging.cc:37-124 | In every interleaving the arguments of the appends that fit a buffer are, in order and unsplit, the batches handed over followed by the waiting buffers and the current one; the file is the rendering of the batches written |
| AsyncLogging.KeptIff | muduo/base/AsyncLogging.cc:37-62 | An append adds its message to what the front end holds if and only if it is shorter than a buffer, and touches nothing held before |
| AsyncLogging.LongMessageLost | muduo/base/AsyncLogging.cc:37-62 | A longer first message is lost, and an empty buffer is handed over |
| AsyncLogging.BatchAccounted | muduo/base/AsyncLogging.cc:109-124 | A batch of up to 25 buffers is written whole; of a larger one the first two buffers are, and the notice counts exactly the others |
| AsyncLogging.NoticeComesFirst | muduo/base/AsyncLogging.cc:109-124 | Up to 25 buffers are written in order; of more, the notice with the number of the others precedes the first two |
| AsyncLogging.FileIsPrefix | muduo/base/AsyncLogging.cc:37-124 | While no batch exceeds 25 buffers, the file's bytes are a prefix of the accepted messages' bytes |
| Packets.LittleEndianDigit | cppBase/core/packet.h:300-321 | Byte i of a pushed integer is its i-th digit to base 256 |
| Packets.IntegerLayout | cppBase/core/packet.h:300-321 | Unsigned integers below 2^8, 2^16, 2^32 and 2^64 are pushed as exactly 1, 2, 4 and 8 bytes, each byte given as a quotient and remainder; exactly those numbers have the type |
| Packets.IntegerPops | cppBase/core/packet.h:412-465 | Any 1, 2, 4 or 8 bytes are popped as the number they spell, lowest byte first, and fewer bytes fail |
| Packets.PlainLayout | cppBase/core/packet.h:548-650 | A bool is one byte, a string two bytes of length and its characters, of which there are at most 65535, and a pair its first and then its second part |
| Packets.CollectionLayout | cppBase/core/packet.h:644-774 | A vector, set or map is four bytes of count and its elements one after the other, each at the sum of the sizes before it |
| Packets.SizeExamples | cppBase/core/packet.h:705-712 | The sizes in memory of strings, vectors, sets, maps and some pairs |
| Packets.PopPushed | cppBase/core/packet.h:412-465 | Popping a pushed integer gives it back and leaves the rest |
| Packets.DecodeAnyBool | cppBase/core/packet.h:630-634 | Any byte but zero unpacks to true |
| Packets.PackedCountPasses | cppBase/core/packet.h:705-753 | The bytes of a packed vector always justify its count of scalars; for other types the 128 MB limit decides |
| Packets.RoundTrip | cppBase/core/packet.h:548-810 | For every nested type and value below 4 GB, unpacking the packed value followed by anything gives the value and leaves the rest if every vector of non-scalars is within the limit, and fails otherwise |
| Packets.LongVectorFails | cppBase/core/packet.h:705-810 | 4194305 empty strings pack into 8388614 bytes that do not unpack |
| Packets.Extension | cppBase/core/packet.h:412-810 | Bytes that unpack give the same value when more bytes follow, which are left over |
| Packets.StrictPrefixFails | cppBase/core/packet.h:412-810 | Every strict prefix of a packed value fails to unpack |
| Packets.PrefixFree | cppBase/core/packet.h:548-810 | No packed value starts another one, and packing is injective |
| Packets.AddKeepsAscending | cppBase/core/packet.h:755-810 | Inserting keeps the keys of a set or map strictly ascending |
| Packets.AddKeepsKeys | cppBase/core/packet.h:755-810 | Inserting keeps every element present, and adds the new one unless its key is already there |
| Packets.DecodedIsTyped | cppBase/core/packet.h:412-810 | Whatever bytes unpack, malformed counts and duplicates included, the value has its type: numbers in range, sets and maps strictly ascending |
| Packets.UnpackedSetAscends | cppBase/core/packet.h:800-810 | An unpacked set of numbers ascends strictly as integers, and one of strings lexicographically by bytes |
| Packets.UnpackedMapAscends | cppBase/core/packet.h:755-765 | An unpacked map ascends strictly by its keys in the same way |
| Packets.TextOrder | cppBase/core/packet.h:755-810 | A string is before another if and only if it ends or has the smaller byte at the first place where they differ |
| Packets.BigCountRejected | cppBase/core/packet.h:705-753 | A vector is rejected at once if its scalars exceed the bytes left modulo 2^32, or its other elements 128 MB |
| PackBuffers.HeaderRoundTrip | cppBase/core/packet.h:118-136 | A raw header parses back to its three fields |
| PackBuffers.HeaderLayout | cppBase/core/packet.h:118-136 | A packet is its size in bytes 0 to 3, the uri in bytes 4 to 7, the code 200 in bytes 8 and 9, each lowest byte first, and the body |
| PackBuffers.FrameRoundTrip | cppBase/core/packet.h:256-267 | A packet's header carries its total size, the uri and code 200, and its body unpacks to the value with nothing left |
| PackBuffers.PackBuffer.constructor | cppBase/core/packet.h:151-156 | A new buffer is empty with the given capacity |
| PackBuffers.PackBuffer.Reserve | cppBase/core/packet.h:209-215 | The capacity grows to the request and every byte stays |
| PackBuffers.PackBuffer.Append | cppBase/core/packet.h:184-193 | The data follows the old contents, also when the buffer has to grow |
| PackBuffers.PackBuffer.Seek | cppBase/core/packet.h:195-200 | The length becomes the position, or the call fails beyond the capacity |
| PackBuffers.PackBuffer.Replace | cppBase/core/packet.h:202-207 | The front of the contents is overwritten, or the call fails if the range does not fit |
| PackBuffers.Push | cppBase/core/packet.h:548-649 | Succeeds if and only if no string is longer than 65535 bytes, and then appends the encoding; a failure has appended a prefix of it |
| PackBuffers.PushAll | cppBase/core/packet.h:767-774 | Appends the count and the elements in order, or a prefix of that |
| PackBuffers.Marshall | cppBase/core/packet.h:256-267 | Leaves exactly the framed packet in the buffer |
| PackBuffers.Unpacker.constructor | cppBase/core/packet.h:379-383 | Starts at the given bytes |
| PackBuffers.Unpacker.PopNumber | cppBase/core/packet.h:412-465 | Pops an integer, or fails and consumes nothing |
| PackBuffers.Unpacker.Get | cppBase/core/packet.h:591-665 | Unpacks the value that the decoder gives and leaves its rest, or fails where it fails; what is left is a suffix in either case |
| PackBuffers.Unpacker.GetAll | cppBase/core/packet.h:755-810 | The same for vectors, sets and maps, element by element |
| ChannelHash.HashIntIsPermutation | cppBase/utility/sysutil.h:29-37 | The mix has an inverse on both sides, so it permutes the 32-bit words |
| ChannelHash.MixExample | cppBase/utility/sysutil.h:29-37 | The mix of 1 is 0x12D60BF6 |
| ChannelHash.ComputeHashString | cppBase/utility/sysutil.h:41-47 | The loop computes the polynomial hash of the bytes before the first NUL |
| ChannelHash.HashIsPolynomial | cppBase/utility/sysutil.h:41-47 | Without NUL the hash of a string of length n is g * 131^n plus the sum of s[i] * 131^(n-1-i), modulo 2^31, for start value g |
| ChannelHash.NulEndsString | cppBase/utility/sysutil.h:41-47 | What follows a NUL does not change the hash |
| ChannelHash.OneCharacterMatters | cppBase/utility/sysutil.h:41-61 | Channels that differ in one character have different hashes in every group |
| ChannelHash.BkdrIsInjective | cppBase/utility/sysutil.h:41-47 | For every string, two start values give the same low 31 bits if and only if their own low 31 bits agree |
| ChannelHash.ScoresTie | cppBase/utility/sysutil.h:52-54 | Two groups have the same final hash for a channel if and only if their ids agree modulo 2^31 |
| ChannelHash.ScoreIsPositive | cppBase/utility/sysutil.h:50-58 | No final hash is zero, so the initial maximum never hides a group |
| ChannelHash.HashChannelGroup | cppBase/utility/sysutil.h:49-61 | The loop computes the choice for its iteration order; in the order of a set that is the smallest id with the highest hash |
| ChannelHash.ChoiceIsBest | cppBase/utility/sysutil.h:49-61 | For every non-empty set of ids the choice is in the set, and every other member has a lower hash, or the same hash and a larger id |
| ChannelHash.ChoiceIsStrict | cppBase/utility/sysutil.h:49-61 | Another member has a strictly lower hash if and only if its id differs from the choice modulo 2^31 |
| ChannelHash.OrderDoesNotMatter | cppBase/utility/sysutil.h:52-59 | For ids distinct modulo 2^31 any iteration order gives the same choice |
| ChannelHash.LargerOfTiesNeverChosen | cppBase/utility/sysutil.h:52-59 | A group is never chosen, for any channel, while a smaller id equal modulo 2^31 is in the set |
| ChannelHash.TieExample | cppBase/utility/sysutil.h:52-59 | Ids 2^31 apart have the same hash for every channel, and the smaller is chosen |
| ChannelHash.AddingMovesOnlyToNew | cppBase/utility/sysutil.h:49-61 | Adding any group to any set, the empty one included, leaves a channel's choice or moves it to the new group |
| ChannelHash.RemovingOthersKeepsChoice | cppBase/utility/sysutil.h:49-61 | Removing any group that was not chosen from any set leaves the choice |
| Decimals.DecimalIsCanonical | cppBase/utility/strutil.cpp:92-253 | The text that the printers are proved to emit has digits only, no leading zero, and the number's value |
| Decimals.CanonicalIsDecimal | cppBase/utility/strutil.cpp:92-253 | It is the only such text |
| Decimals.LutEntry | cppBase/utility/strutil.cpp:5-19 | Table entries 2i and 2i+1 are the two digits of i |
| Decimals.PutBelowTen8 | cppBase/utility/strutil.cpp:104-140 | Values below 10^8 are printed without leading zeros |
| Decimals.PutBelowTen16 | cppBase/utility/strutil.cpp:141-187 | Values from 10^8 to 10^16 are printed without leading zeros, each digit behind its own comparison |
| Decimals.PutFromTen16 | cppBase/utility/strutil.cpp:188-250 | Larger values are printed as a leading group and sixteen digits |
| Decimals.U32toa | cppBase/utility/strutil.cpp:21-90 | For every 32-bit value exactly the decimal text is written at the position, and the end is returned |
| Decimals.U64toa | cppBase/utility/strutil.cpp:92-253 | For every 64-bit value exactly the decimal text is written, in at most 20 bytes |
| Decimals.I32toa | cppBase/utility/strutil.h:18-26 | The same with a sign for every 32-bit value, the minimum included |
| Decimals.I64toa | cppBase/utility/strutil.h:30-38 | The same with a sign for every 64-bit value, the minimum included, in at most 21 bytes |
| Decimals.Int64ToString | cppBase/utility/strutil.h:92-98 | For every 64-bit value the string is its decimal text, and printing it stays inside the 32 bytes reserved |
| Decimals.SignedDigit | muduo/base/LogStream.cc:38-39 | The centred table gives the digit of a remainder of either sign |
| Decimals.ConvertDigits | muduo/base/LogStream.cc:50-58 | The do-while loop writes the digits of the magnitude, last one first, for remainders of either sign |
| Decimals.ReverseRange | muduo/base/LogStream.cc:65-65 | The range is reversed in place and nothing else changes |
| Decimals.Convert | muduo/base/LogStream.cc:47-68 | For every signed and unsigned 64-bit value exactly the decimal text and a terminator are written: the text that the table printer writes |
| MonitorQueue.StepKeepsInv | muduo/base/BoundedBlockingQueue.h:30-66 | Every critical section, spurious wakeup and stop keeps the invariant |
| MonitorQueue.FirstInFirstOut | muduo/base/BoundedBlockingQueue.h:30-66 | In every run the elements of the putters that found room, in order, are the elements taken, one for each taker that found one, followed by the queue, which stays within its bound |
| MonitorQueue.NoLostWakeup | muduo/base/BoundedBlockingQueue.h:30-66 | In every run with spurious wakeups and barging, while takers wait unsignalled every queued element has a woken taker, and while putters wait every free place has a woken putter |
| MonitorQueue.NoDeadlock | muduo/base/BoundedBlockingQueue.h:30-66 | With capacity at least one, if nobody is awake the waiters are all takers of an empty queue or all putters to a full one |
| MonitorQueue.TakeAfterStop | muduo/base/ThreadPool.cc:91-110 | After a stop a taker gets the front of the queue, or nothing if it is empty, and never waits |
| MonitorQueue.StopWakesAll | muduo/base/ThreadPool.cc:52-110 | After a stop no worker is ever waiting without a signal |
| UrlCodec.Alphabets | cppBase/utility/url_code.cpp:7-15 | Both alphabets are the letters, the digits and two further characters, in the order of RFC 4648 |
| UrlCodec.AlphabetIsValid | cppBase/utility/url_code.cpp:104-106 | The decoder accepts exactly the characters of the plain alphabet |
| UrlCodec.SextetsAreDigits | cppBase/utility/url_code.cpp:159-162 | The four sextets are the base-64 digits of the three bytes read as one number, as in section 4 of RFC 4648 |
| UrlCodec.EncodedLength | cppBase/utility/url_code.cpp:149-187 | The text has four characters for every three bytes begun |
| UrlCodec.EncodeParts | cppBase/utility/url_code.cpp:149-187 | The text of whole groups followed by more is the text of the groups followed by that of the rest |
| UrlCodec.WholeGroupText | cppBase/utility/url_code.cpp:159-165 | The four characters of a whole group |
| UrlCodec.LastGroupText | cppBase/utility/url_code.cpp:170-184 | A last group of two bytes or one is filled up with zero bits and ends in one or two '=' |
| UrlCodec.Base64Encode | cppBase/utility/url_code.cpp:149-187 | The byte-by-byte loop computes the text group by group, for either alphabet |
| UrlCodec.EncodeLast | cppBase/utility/url_code.cpp:170-184 | One or two bytes left over give two or three characters and the padding |
| UrlCodec.Base64Decode | cppBase/utility/url_code.cpp:190-231 | For every text the loop decodes its longest leading run of base64 characters |
| UrlCodec.DecodeLast | cppBase/utility/url_code.cpp:215-228 | A last group of i characters gives i-1 bytes, which the failed lookups of the filling do not touch |
| UrlCodec.Base64RoundTrip | cppBase/utility/url_code.cpp:149-231 | Decoding inverts encoding for every byte string of every length |
| UrlCodec.UrlSafeIsPlainRenamed | cppBase/utility/url_code.cpp:108-146 | The URL-safe text is the plain one with '+' and '/' replaced by '-' and '_' |
| UrlCodec.UrlSafeRoundTrip | cppBase/utility/url_code.cpp:108-231 | Decoding inverts the URL-safe encoding if and only if the plain text has neither '+' nor '/' |
| UrlCodec.UrlSafeLoses | cppBase/utility/url_code.cpp:108-231 | Three bytes 255 do not come back |
| PercentCodec.HexRoundTrip | cppBase/utility/url_code.cpp:17-23 | Every hexadecimal digit is read back |
| PercentCodec.ComputeUrlEncode | cppBase/utility/url_code.cpp:25-40 | The loop appends the escapes of the bytes to what the output held |
| PercentCodec.EscapeIs | cppBase/utility/url_code.cpp:25-40 | Letters and digits stay, and any other byte becomes a percent sign and two upper-case digits |
| PercentCodec.ComputeUrlDecode | cppBase/utility/url_code.cpp:42-61 | For every C string the loop decodes escapes, plus signs and plain bytes, up to a read beyond the terminator |
| PercentCodec.PlainDecode | cppBase/utility/url_code.cpp:42-61 | Without a percent sign every byte 43 becomes 32 and every other byte stays |
| PercentCodec.DecodeParts | cppBase/utility/url_code.cpp:42-61 | A string of plain bytes and complete escapes is decoded on its own, whatever follows it |
| PercentCodec.CutEscape | cppBase/utility/url_code.cpp:46-51 | A last escape with one digit takes the terminator, read as 201, for its second |
| PercentCodec.ReadsBeyondIff | cppBase/utility/url_code.cpp:46-51 | The loop reads beyond the terminator if and only if the last byte is a percent sign and the bytes before it are plain bytes and complete escapes |
| PercentCodec.LonePercent | cppBase/utility/url_code.cpp:46-51 | It does for a lone percent sign |
| PercentCodec.LowerCaseEscape | cppBase/utility/url_code.cpp:21-23 | An escape with digits in either case decodes to its byte if and only if its second digit is no lower-case letter, or the second lowest bit of its first digit is set |
| PercentCodec.LowerCaseExample | cppBase/utility/url_code.cpp:21-23 | "%0a" decodes to an asterisk |
| PercentCodec.UrlRoundTrip | cppBase/utility/url_code.cpp:25-61 | Decoding inverts encoding for every NUL-free string |
| PercentCodec.FormRoundTrip | cppBase/utility/url_code.cpp:25-61 | Writing any of the encoded spaces as plus signs does not change what is decoded |
| PercentCodec.UrlEncodedAlphabet | cppBase/utility/url_code.cpp:25-40 | The encoding consists of letters, digits and percent signs |
| LruCaches.SameSize | cppBase/utility/lrucache.h:86-88 | Map and list always have the same size |
| LruCaches.LruCache.constructor | cppBase/utility/lrucache.h:18-18 | A new cache is empty |
| LruCaches.LruCache.Put | cppBase/utility/lrucache.h:20-35 | The entry comes to the front, an old one of its key goes, the last one goes if the capacity is exceeded, and index and list still agree |
| LruCaches.LruCache.Get | cppBase/utility/lrucache.h:37-45 | Gives the value of a present key and moves its entry to the front, or none and no change |
| LruCaches.LruCache.GetIter | cppBase/utility/lrucache.h:47-55 | Gives the node of a present key and moves it to the front |
| LruCaches.LruCache.Find | cppBase/utility/lrucache.h:57-64 | Gives the node of a present key |
| LruCaches.LruCache.Erase | cppBase/utility/lrucache.h:70-79 | Removes the entry of a key and tells whether there was one |
| LruCaches.RunIsLeastRecentlyUsed | cppBase/utility/lrucache.h:20-84 | After any run of operations the keys are distinct and within capacity, the list is strictly ordered by the time of the last successful touch, and every value is the one last put |
| LruCaches.EvictsLeastRecent | cppBase/utility/lrucache.h:29-34 | A put loses another key if and only if the cache is full, the key put is new, and the lost key was touched longest ago |
| LruCaches.PresentIff | cppBase/utility/lrucache.h:20-84 | While nothing is erased after its last touch, a key is in the cache if and only if fewer distinct keys than the capacity were touched since |
| AsyncTimers.AsyncTimer.constructor | cppBase/utility/AsyncTimer.h:16-16 | Nothing is registered or pending |
| AsyncTimers.AsyncTimer.AddTimer | cppBase/utility/AsyncTimer.cpp:26-36 | A check at any time selects the name once for each of its old due entries and once more from the first time on, and every other name as before; queue order, pending names and distinct registrations are kept |
| AsyncTimers.AsyncTimer.AddAfter | cppBase/utility/AsyncTimer.cpp:44-55 | A check selects the name once if its time or an old entry of the name is due, and every other name as before; the same invariant is kept |
| AsyncTimers.AsyncTimer.Delete | cppBase/utility/AsyncTimer.cpp:38-42 | No check selects the name any more, and every other name is selected as before, though the pending entries stay |
| AsyncTimers.AsyncTimer.Check | cppBase/utility/AsyncTimer.cpp:79-105 | A stopped timer answers false and changes nothing; a started one selects every name as often as its due entries call for and in their order, leaves only later entries, and keeps the invariant |
| AsyncTimers.CheckEndsIff | cppBase/utility/AsyncTimer.cpp:88-104 | The loop ends if and only if no due registered name repeats at an interval of zero or less |
| AsyncTimers.ZeroIntervalNeverEnds | cppBase/utility/AsyncTimer.cpp:88-104 | A name registered at interval zero keeps its first check busy for ever |
| AsyncTimers.CheckSelects | cppBase/utility/AsyncTimer.cpp:88-104 | A check selects a registered repeating name once for each of its due entries, a registered one-shot once if it has any, and nothing else |
| AsyncTimers.CheckRunsInOrder | cppBase/utility/AsyncTimer.cpp:83-110 | The callbacks run in the order of the due entries in the queue, unregistered names left out and a one-shot taken the first time only |
| AsyncTimers.CheckLeaves | cppBase/utility/AsyncTimer.cpp:88-104 | Afterwards only entries after now are pending, exactly the selected one-shots are unregistered |
| AsyncTimers.CheckPending | cppBase/utility/AsyncTimer.cpp:88-104 | After a check each later entry is pending as often as before, and once more for each due entry of its name if the name repeats and the entry is one interval after the check |
| AsyncTimers.CheckKeepsCount | cppBase/utility/AsyncTimer.cpp:88-104 | A check keeps the number of pending entries of a repeating name, so that one registered twice goes on firing twice, and takes exactly the due entries of any other name |
| AsyncTimers.TimerFires | cppBase/utility/AsyncTimer.cpp:26-36 | A new repeating registration adds one selection to a check if and only if its first time is not after it |
| AsyncTimers.TimerPeriod | cppBase/utility/AsyncTimer.cpp:26-104 | Registered at now with interval d, a name with nothing pending is selected once by a first check at t >= now + d, and by the next at u once if u >= t + d and not at all otherwise |
| AsyncTimers.InsertsBehindEqual | cppBase/utility/AsyncTimer.cpp:34-34 | A new entry goes behind all entries that are not later, those of the same time included |
| AsyncTimers.OneShotFires | cppBase/utility/AsyncTimer.cpp:44-55 | A new one-shot is selected by a check if and only if its time has come or its name had an entry due by then |
| AsyncTimers.EarlyOneShot | cppBase/utility/AsyncTimer.cpp:38-55 | A one-shot added, deleted and added again for later is selected at the first time |
| AsyncTimers.RunIsFaithful | cppBase/utility/AsyncTimer.cpp:26-104 | In every run of calls and iterations the queue stays sorted, every registered name keeps a pending entry, and a one-shot registration is selected at most once |
| SmartPtr.StepKeepsInv | cpp-examples/3-cpp11/example_shared_ptr_impl.cpp:50-121 | Every construct, copy, move, cast, swap and destroy keeps the ownership invariant |
| SmartPtr.NoUseAfterFree | cpp-examples/3-cpp11/example_shared_ptr_impl.cpp:50-121 | In every run no operation uses a deleted control block |
| SmartPtr.CountIsHolders | cpp-examples/3-cpp11/example_shared_ptr_impl.cpp:22-115 | In every run each count is the number of live non-null handles on its block, and positive |
| SmartPtr.DeletedOnceWhenUnused | cpp-examples/3-cpp11/example_shared_ptr_impl.cpp:57-62 | In every run a block is deleted if and only if it has no handle left, once, and its object once with it |
| SmartPtr.AssignRedirects | cpp-examples/3-cpp11/example_shared_ptr_impl.cpp:125-128 | Copy, swap and destroy redirect the target and no other handle; assigning a handle to itself changes nothing |
| SmartPtr.PointerHeap.New | cpp-examples/3-cpp11/example_shared_ptr_impl.cpp:50-54 | The new handle points to the object given and is the only one on its object, the holders of every other block stay, and the ownership invariant is kept |
| SmartPtr.PointerHeap.CopyFrom | cpp-examples/3-cpp11/example_shared_ptr_impl.cpp:65-85 | The copy joins the holders of the other handle's block, if it points to one; no other holder changes, nothing is deleted, and the invariant is kept |
| SmartPtr.PointerHeap.CastFrom | cpp-examples/3-cpp11/example_shared_ptr_impl.cpp:109-115 | The same where the cast yields the pointer; where it yields null no block gets a holder |
| SmartPtr.PointerHeap.Take | cpp-examples/3-cpp11/example_shared_ptr_impl.cpp:95-103 | The moved-to handle has the pointer, the moved-from one is null, no count changes, and the invariant is kept |
| SmartPtr.PointerHeap.Exchange | cpp-examples/3-cpp11/example_shared_ptr_impl.cpp:117-121 | Each handle gets the other's place, a handle and itself included; every other handle and the number of holders of every block stay, and the invariant is kept |
| SmartPtr.PointerHeap.Release | cpp-examples/3-cpp11/example_shared_ptr_impl.cpp:57-62 | Object and block are deleted if and only if no other handle holds the block; the invariant is kept |
| SmartPtr.PointerHeap.UseCount | cpp-examples/3-cpp11/example_shared_ptr_impl.cpp:135-141 | The count reported is the number of handles on the block, or zero for a null handle |

## Left out

- PackBuffers.Push: after a string that is too long, says that a prefix of the encoding was appended and not how long it is, since the exception abandons the buffer.
- PackBuffers.Unpacker.Get: after a failure, says that a suffix is left and not how long it is, since the exception abandons it; models empty targets, while unpacking into a filled container keeps or extends old elements.
- PackBuffers.Unpacker.GetAll: the same, and takes `sizeof` from the x86-64 GNU C++ library, and includes vectors of bool, which the C++ templates do not compile.
- TimeZone.ComputeFromLocalTime: asks for transitions in order by local time too, which the source's binary search relies on without checking; what it finds otherwise is not modelled.
- TimeZone.LocalRoundTrip: asks for transitions in order by both keys for the same reason.
- TimeZone.LocalClock: asks for transitions in order by UTC for the same reason.
- TimeZone.SearchByLocalTime: asks for transitions further apart than twice the largest offset change, so that one step of the clock is over before the next.
- TimeZone.SpacedRoundTrip: asks for the same spacing, under which the condition of LocalRoundTrip takes this simple form.
- TimeZone.ZoneRoundTrip: asks for the same spacing.
- TimeZone.ReadingRoundTrip: asks for the same spacing.
- AsyncTimers.AsyncTimer.Check: requires, of a started timer, the condition under which the loop ends; what happens otherwise is the subject of CheckEndsIff.
- SmartPtr.PointerHeap.New: handles, blocks and objects are numbers in maps instead of heap objects, so pointer types and address adjustment by casts are not captured; a casting constructor given an unrelated pointer is left out.
- AsyncLogging.Logger.Append: buffers are values owned by one variable each, as unique pointers are; the bytes of a buffer are tied to its messages in FixedBuffer.
- Memory ordering: the ring buffer's volatile accesses are taken as sequentially consistent, with one producer and one consumer, and a size below 2^32 - 1 so that the extra slot can be allocated.
- Time zone names, reading zone files, leap seconds, and instants whose day number does not fit the calendar's range; `gmtime_r` and `timegm` are taken to be `toUtcTime` and `fromUtcTime`.
- Clocks, threads and callbacks: times are parameters, and only the code under a lock is modelled.
- `AsyncLogging::stop` and what is still buffered then, the wait's timeout, and log file rolling.
- `ThreadPool::start`, `run` without threads, and producers still blocked after `stop`.
- The convenience overloads of packet.h (`Varstr`, 32-bit strings, tracing), and packets of 4 GB or more.
- Hexadecimal and floating-point formatting, `formatSI`, `formatIEC`, string splitting and trimming, `IsUTF8`.
- The Redis client, syslog client, and the file, process and thread wrappers: they are system calls with no state of their own to prove anything about.
- Third-party headers and the tutorial examples other than the shared pointer: they are not part of the library.
