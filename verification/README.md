# KiCon badge firmware: a verified model

This project models the parts of the KiCon 2019 badge software that carry real
protocol, arithmetic or concurrency, and proves what they do for every input and
every run. `dafny verify dfyconfig.toml` checks all of it.

The pieces, flagship first:

- **Capture path.** Four buffers filled by DMA form a ring; an interrupt queues the
  buffer after next and calls a finish handler that looks for the trigger, shrinks the
  triggered buffer and marks it last, so that the ring stops exactly one turn after
  the trigger. `IoCapture` is the driver with any finish handler, `LogicAnalyzer` the
  analyzer's handler and invariants, `LogicAnalyzerRuns` all interleavings of DMA
  transfers and interrupts, `LogicAnalyzerReadout` what is sent from a memory,
  `LogicAnalyzerEndToEnd` what the host receives over all runs, and
  `LogicAnalyzerDevice` the code on its static variables.
- **FIFO.** `Fifo` is the double-index ring on its 8-bit indices, `FifoConcurrent` one
  producer and one consumer interleaved micro-step by micro-step, against a queue that
  only counts.
- **CRC-32.** `Crc32` proves the word-at-a-time code against the bit-serial shift
  register, and `Crc32Polynomial` that register against the division by the generator
  polynomial of clause 3.2.9 of IEEE Std 802.3.
- **Calendar.** `Calendar`, `CalendarTick`, `CalendarClock` and `CalendarDate` prove the
  conversions, the carry chain and a running clock against the formula of "Seconds Since the Epoch", section 4.16 of the
  Base Definitions of IEEE Std 1003.1-2017.
- **ADP.** `Adp` is the byte-stuffing sender and the receiver's state machine,
  `AdpHeaders` what the receiver does with bytes that no sender of whole frames produces,
  `AdpRoom` the room that it needs in its caller's buffer, `AdpWait` the two loops that
  wait for a response, and `AdpDevice` the code on its static variables.
- **Badge commands.** `Commands`, `CommandRecovery`, `CommandResponses`,
  `CommandSession` and `CommandDevice` are the device's parser and response buffer, the
  host's packets and whole conversations.
- **Flash programmer and oscilloscope.** `FlashLoader` and `Scope`.

`Bits`, `Bytes`, `Remainders`, `Folds` and `Options` hold the shared bits, arithmetic,
folds and the optional value. The main theorems name what is delivered, executed or
computed by bit positions, type numbers, exponents and closed formulas, not by the
functions of the model.

Code that works on static variables, a struct or a buffer is a class or a method with
loops (`Fifo.Fifo`, `CalendarDate.CalendarDate`, `AdpDevice.AdpReceiver`,
`CommandDevice.CommandDevice`, `LogicAnalyzerDevice.Device`, `FlashLoader.Flash`,
`Scope.Oscilloscope`, `Crc32.Recalculate`); its contract ties the new state to a
function on values, and the theorems are about those functions.

## What the code does and does not keep

Where a promise of the documentation does not hold of the code, the model keeps the
code and the theorem gives the exact condition:

- `crc32_recalculate` promises blocks of any size and alignment. A block of one to three
  bytes is read from the end of its first word, so the result is the CRC of the block
  exactly when the block is empty, has four bytes or more, or ends at the end of its
  first word (`Crc32.RecalculateExact`).
- `calendar_add_second_to_date` keeps the year in eight bits while it looks up the
  length of the month, and stops at 2105. It gives the next second for every valid date
  except the last seconds of 28 and 29 February 1992, 28 February 2100 and 31 December
  2105 (`CalendarTick.AddSecondExact`). A clock that runs through one of these seconds is
  never right again, and every other clock agrees with the conversion
  (`CalendarClock.ClockIsConversion`).
- Timestamps from the year 2106 on have a date, but converting it back gives zero
  (`Calendar.TimestampRoundTrip`).
- The analyzer's ring ends after 16 times the sample count when fewer than 4096 samples
  are asked for, but the readout wraps at the end of the whole memory. The host receives
  the right samples from every memory and over every run exactly when 4096 samples or
  more are asked for, or the trigger sample is at most 15 times the sample count into
  its turn of the ring (`LogicAnalyzerEndToEnd.EndToEnd`). With 2048 samples and the
  trigger at sample 32000 it does not (`LogicAnalyzerEndToEnd.LateTriggerFails`).
- SET_READ_COUNT and SET_READ_DLY_CNT take more samples than the 65536 bytes of memory.
  No such count is delivered right for all inputs (`LogicAnalyzerEndToEnd.ReadoutExact`);
  cells that the window comes to twice keep the hardware order
  (`LogicAnalyzerReadout.FixingTooMuch`), and a window that ends behind twice the memory
  reads outside it (`LogicAnalyzerReadout.SentIsReversedWindow`).
- Behind a last buffer the handler writes no counter, so its interrupt is raised again
  and again and the analyzer's state becomes ACQUIRED before that buffer is full
  (`LogicAnalyzer.InterruptTooEarly`). The main loop never sees this: whenever it can run,
  the state is ACQUIRED exactly when the transfer has ended
  (`LogicAnalyzerRuns.MainLoopSeesTheEnd`).
- A requested stop takes effect at an interrupt only if all samples have been taken by
  then; otherwise the request is lost, and the interrupt is raised again
  (`LogicAnalyzerRuns.StopRequestExact`).
- `adp_protocol_add_byte` stores what it receives without looking at the size of its
  caller's buffer, and most callers wait for one byte. The stores stay inside the buffer
  exactly when no packet up to the match, whatever its id, delivers more data bytes than
  the buffer has (`AdpRoom.ListenRoomExact`); a two-byte status that comes before a
  one-byte acknowledgement does not (`AdpRoom.StatusOverrunsAcknowledgement`).
- `adp_wait_for_response` and `adp_check_for_response` stop between two reads when any
  packet has come. They end with the awaited response exactly when no chunk ends at the
  end of a frame before it (`AdpWait.WaitExact`). A caller that waits for a one-byte
  acknowledgement can take the byte of another frame for it
  (`AdpWait.OtherFrameIsTaken`); `adp_check_for_response` at least reports that
  (`AdpWait.CheckExact`).
- `commands.h` allows payloads of 1 to 255 bytes. The parser cannot take 255, so a
  command with 254 bytes of data is packed by the host and never executed
  (`CommandRecovery.CommandArrivesExact`). A handler may write any number of bytes; the
  host reads them exactly when the payload has at most 253
  (`CommandResponses.ResponseRoundTrip`), and a conversation is read right by the host
  exactly when all its responses are that short (`CommandSession.SessionRoundTrip`).
- Both scope channels are configured with the threshold 32; with two channels it never
  selects a later sample (`Scope.TwoTracesAreApart`).
- The comment of `fifo_push_uint8` names the underflow error; the code returns overflow.

## Modelling assumptions

- Capture: the interrupt flag of a completed buffer stays until a counter of the PDC is
  written, by any write and by nothing else; RXBUFF is the level of both counters. The
  handler runs at least once between two completions, which the field `pending` says; a
  queued buffer of size zero completes at once. The main loop runs only while no
  interrupt is raised. The handler is one step; that this loses nothing is
  `LogicAnalyzerRuns.HandlerAndDmaCommute`.
- CRC: the memory starts and ends on a word boundary, so that the words around a block
  can be read. Addresses and lengths are not bounded by 32 bits.
- Flash: an erase sets every byte of sixteen pages to 0xFF, programming clears bits, and
  no command reports an error.
- The runs of `LogicAnalyzerRuns` are those without a stop request.
- Reads outside the sample memory have no value: what is sent is then `None`. What an ADP
  store behind the caller's buffer does is not modelled; that there is one is.
- Commands: a handler is a function from the data of a command to a status other than
  CMD_RESP_NULL and a list of writes, single bytes or blocks that end inside the response
  buffer.
- Scope: conversions are 16-bit words with the channel number in the upper four bits.

## Model

The rows are the results and the methods with loops; the lemmas on the way to them have
none.

| member | source | states |
|---|---|---|
| LogicAnalyzerEndToEnd.EndToEnd | logic_analyzer.c:116-141 | From the start command to the host, for every count up to the memory, trigger configuration and input with a trigger sample: from every initial memory and over every run that acquires the bytes sent are the input from the trigger sample on, last one first, bit k of each being pin k for the lower four channels and pin 11 - k for the upper four, if and only if 4096 samples or more are asked for or the trigger position modulo 16 times the count is at most 15 times the count |
| LogicAnalyzerEndToEnd.ReadoutExact | logic_analyzer.c:277-288 | For every 32-bit count with a nonzero buffer size: all inputs with the trigger at a given sample are delivered right if and only if the count is at most 65536 and that condition holds |
| LogicAnalyzerEndToEnd.StaleRunFails | logic_analyzer.c:303-313 | Otherwise every run that acquires from a given initial memory sends a wrong byte |
| LogicAnalyzerEndToEnd.SomeRunAcquires | io_capture.c:188-212 | From every memory and for every input with a trigger sample there is a run that acquires |
| LogicAnalyzerEndToEnd.LateTriggerFails | logic_analyzer.c:123-124 | 2048 samples with the trigger at sample 32000 are not delivered right |
| LogicAnalyzerRuns.AcquisitionIsRight | logic_analyzer.c:325-353 | Every run makes a bounded number of changes, takes at most one ring of samples after the trigger, can change something until the transfer has ended and nothing afterwards; whenever the main loop can run, the state is ACQUIRED exactly if the transfer has ended, and then the trigger offset is the trigger position modulo the ring and the ring, read circularly from there, is the input from the first trigger sample on |
| LogicAnalyzerRuns.MainLoopSeesTheEnd | logic_analyzer.c:432-437 | In every reachable state without a raised interrupt, ACQUIRED means that the transfer has ended with the samples in the ring |
| LogicAnalyzerRuns.AcquiredMeansTriggered | logic_analyzer.c:345-349 | When the main loop finds ACQUIRED, the input has a trigger sample, to which the ring belongs |
| LogicAnalyzerRuns.HandlerAndDmaCommute | io_capture.c:188-211 | In every reachable state where the interrupt handler and a DMA transfer can both go on, either order leads to the same state, at the very last sample after one more interrupt |
| LogicAnalyzerRuns.HandlerMeetsContract | logic_analyzer.c:325-353 | The analyzer's finish handler keeps, in every reachable state, the contract under which the ring is safe |
| LogicAnalyzerRuns.AnalyzerRingIsSafe | io_capture.c:188-200 | Every run of the analyzer is a run of the driver with the same registers and variables, and the ring is safe in it |
| LogicAnalyzerRuns.RunStaysInRing | logic_analyzer.c:123-130 | No run changes the memory behind the ring |
| LogicAnalyzerRuns.StopRequestExact | io_capture.c:193-211 | In every reachable state a requested stop ends the transfer at an interrupt if and only if all samples have been taken; otherwise the request is gone and nothing else changes, so that the interrupt is raised again |
| LogicAnalyzerRuns.StepKeepsInv | io_capture.c:122-141 | Every transfer and interrupt keeps the invariant of ring data, buffer marks and PDC registers |
| LogicAnalyzer.CaptureWhileStopping | io_capture.c:122-141 | A DMA transfer after the trigger is found keeps the distance to the stop, also into the shrunk and the empty buffer |
| LogicAnalyzer.ScannedIsInput | logic_analyzer.c:328-331 | The buffer that the handler scans holds the input samples in order, and none before it met the trigger |
| LogicAnalyzer.InterruptWithHit | logic_analyzer.c:333-343 | A hit marks the buffer so that the ring stops one turn after the first trigger sample |
| LogicAnalyzer.InterruptAtStop | logic_analyzer.c:345-349 | The interrupt of the last buffer, when it is full, ends the acquisition with the input from the trigger on in the ring |
| LogicAnalyzer.InterruptTooEarly | io_capture.c:126-129 | An interrupt of the last buffer before it is full sets the state ACQUIRED and changes nothing else |
| LogicAnalyzerReadout.SentIsReversedWindow | logic_analyzer.c:303-322 | For every 32-bit size the chunks sent are the circular window in reverse, in the straight and in the wrapped case, as long as the reads stay in the memory |
| LogicAnalyzerReadout.FixingTheWindow | logic_analyzer.c:70-81 | Each byte of a circular window of at most the memory gets the user's channels, and no other byte changes |
| LogicAnalyzerReadout.FixingTooMuch | logic_analyzer.c:70-81 | The cells that a window longer than the memory comes to twice keep the hardware order |
| LogicAnalyzerDevice.Device.FixChannels | logic_analyzer.c:70-81 | For every size the loop in place permutes each cell as often as it comes to it |
| LogicAnalyzerDevice.Device.UsbSend | logic_analyzer.c:303-322 | The two reverse loops send the chunks of the window model |
| LogicAnalyzerDevice.Device.FindTriggerUnfixed | logic_analyzer.c:88-106 | The search loop returns the position of the trigger search model |
| LogicAnalyzerDevice.Device.StartAcq | logic_analyzer.c:116-141 | Outside IDLE nothing changes; from IDLE the variables and registers are those of the start model |
| LogicAnalyzerDevice.Device.AcqFinished | logic_analyzer.c:325-353 | The handler updates descriptor, offset and state as the handler model does |
| LogicAnalyzerDevice.Device.PioaHandler | io_capture.c:188-212 | Without a requested stop one interrupt on the static variables is one interrupt step of the runs; with one it ends a transfer that has run out or does nothing but clear the request |
| LogicAnalyzerDevice.Device.SendAcquired | logic_analyzer.c:433-437 | The main loop sends the readout once and goes back to IDLE |
| Channels.FindTriggerIsFirstHit | logic_analyzer.c:88-106 | Searching raw samples in hardware order gives the least position at which each masked channel has the level of the value, and UINT_MAX exactly when there is none |
| Channels.FixOrderIsUserOrder | logic_analyzer.c:62-68 | Bit k of a fixed byte is pin k of the raw sample for the lower four channels and pin 11 - k for the upper four |
| IoCapture.RingIsSafe | io_capture.c:122-165 | For three buffers or more, any finish handler of the contract and any run: circular completion order with the DMA pointer inside the buffer that is logged next and the one after it queued; the handler called in that order, once for each buffer before the last and when it is complete, with the DMA in another buffer, and then only for the last; nothing queued behind a last buffer; busy until the handler has been called for that buffer when it is full |
| IoCapture.TwoBuffersAreTooFew | io_capture.c:130-138 | With two buffers the scanned buffer is the one just queued |
| FifoConcurrent.PulledIsPrefixOfPushed | common/services/fifo/fifo.h:187-204 | For every interleaving of micro-steps the items that the pulls return are a prefix of the items of the pushes that were not refused, which are computed from the schedule; at most a buffer behind, and every published item in between is intact in its slot |
| FifoConcurrent.ProducerRefines | common/services/fifo/fifo.h:187-204 | Each micro-step of a push is one of a queue that only counts, which takes the caller's item and refuses it exactly when a buffer of items is unread |
| FifoConcurrent.ConsumerRefines | common/services/fifo/fifo.h:338-355 | Each micro-step of a pull is one of that queue, refused exactly when nothing is unread, and returns its oldest unread item |
| Fifo.Fifo.Push | common/services/fifo/fifo.h:187-204 | Appends to the queue of contents, or returns overflow and changes nothing exactly when all slots are used |
| Fifo.Fifo.Pull | common/services/fifo/fifo.h:338-355 | Takes the oldest element, or returns underflow exactly on an empty queue |
| Fifo.UsedIsDifference | common/services/fifo/fifo.h:112-115 | For every allowed size, across the wrap of the 8-bit indices, the masked difference is the number of elements |
| Fifo.MaskIsRemainder | common/services/fifo/fifo.c:52-66 | For every number that passes the power-of-two assertion, masking with it less one is the remainder |
| Fifo.SizesArePowers | common/services/fifo/fifo.c:46-72 | The sizes that pass the three assertions are exactly the powers of two up to 128 |
| Crc32.RecalculateExact | common/services/crc32/crc32.c:115-161 | For every address, length and seed the result is the standard's CRC of the block for all memory contents if and only if the block is empty, has at least four bytes or ends with its first word |
| Crc32.Recalculate | common/services/crc32/crc32.c:115-161 | Head, word loop and tail compute the bit-serial CRC of the bytes that they use |
| Crc32Polynomial.CrcIsRemainder | common/services/crc32/crc32.c:74-90 | For every seed and message the complement of the CRC is the remainder of the complemented seed, moved up by the message's length, and the message, moved up by 32, modulo the generator with the exponents 32, 26, 23, 22, 16, 12, 11, 10, 8, 7, 5, 4, 2, 1, 0 |
| Crc32Polynomial.PolynomialIsGenerator | common/services/crc32/crc32.c:49-50 | Bit k of the constant is set exactly when 31 - k is one of these exponents |
| Crc32.RecalculateBytes | common/services/crc32/crc32.c:74-90 | The bit loop steps the register eight times per byte with the word mixed in |
| Crc32.WordStepsAreReference | common/services/crc32/crc32.c:74-90 | Mixing in one to four bytes at once and stepping is the reference fed bit by bit |
| Crc32.ShortBlocksDiffer | common/services/crc32/crc32.c:115-161 | From any seed, different blocks of equal length up to four bytes have different CRCs |
| Crc32.BlocksCompose | common/services/crc32/crc32.h:89-90 | The CRC of a second block from the CRC of the first is the CRC of both joined |
| Crc32.CalculateTwoBlocks | common/services/crc32/crc32.h:92-98 | Calculate then recalculate gives the CRC of the joined blocks for all blocks that are read right |
| Calendar.DateOfIsTheDate | common/services/calendar/calendar.c:248-276 | For every timestamp the year and month loops over the table give a date in range whose seconds since the epoch, by closed formulas for the days before a year and a month, are the timestamp, with the right weekday |
| Calendar.MonthStep | common/services/calendar/calendar.c:53-56 | The table's lengths of the months are the differences of the closed formula |
| Calendar.TimestampRoundTrip | common/services/calendar/calendar.c:239-276 | Converting to a date and back returns every timestamp before 2106 and zero for every other |
| Calendar.DateRoundTrip | common/services/calendar/calendar.c:314-345 | Converting a valid date to a timestamp and back returns it with the weekday put right |
| Calendar.OrderIsReflected | common/services/calendar/calendar.c:314-345 | Calendar order is the order of timestamps, and equal timestamps mean equal dates |
| Calendar.ValidIsBelowLimit | common/services/calendar/calendar.c:214-237 | Among dates with fields in range, the valid ones are exactly those before timestamp 4291747200 |
| CalendarTick.AddSecondExact | common/services/calendar/calendar.c:473-482 | The next date is valid, one second later and on the right weekday if and only if the date is not the last second of one of four days |
| CalendarClock.ClockIsConversion | common/services/calendar/calendar.c:473-482 | A clock set to any timestamp and ticked n times shows the date of the timestamp n seconds later if and only if it does not run through one of three lost seconds, given as timestamps, or to the end of 2105 |
| CalendarClock.AstrayForever | common/services/calendar/calendar.c:145-161 | A clock on a date that does not exist, a day ahead or past the end of the calendar is never right again |
| CalendarTick.TimestampRoundTripTz | common/services/calendar/calendar.c:290-301 | To local time and back returns a 32-bit timestamp if and only if local time lies strictly between zero and 2106 or the timestamp is zero |
| CalendarTick.DateRoundTripTz | common/services/calendar/calendar.c:360-376 | Every valid local date but the epoch comes back from its timestamp for every offset |
| CalendarTick.LocalTimeIs | common/services/calendar/calendar.c:290-301 | The local date is that of the timestamp plus the hours and, with their sign, the minutes of the zone, in 32 bits |
| CalendarTick.TimestampOfLocalTime | common/services/calendar/calendar.c:360-376 | The timestamp of a valid local date is its seconds less that offset, in 32 bits, and zero for the epoch and for dates that are not valid |
| CalendarDate.CalendarDate.SetFromTimestamp | common/services/calendar/calendar.c:248-276 | The loops on the struct fields set the date of the timestamp |
| CalendarDate.CalendarDate.ToTimestamp | common/services/calendar/calendar.c:314-345 | The 32-bit sums give the seconds since the epoch of a valid date, without overflow, and zero otherwise |
| CalendarDate.CalendarDate.AddSecond | common/services/calendar/calendar.c:473-482 | The carry chain on the fields is the tick of the value model |
| Adp.StreamRoundTrip | common/services/adp/adp.c:80-166 | Every list of frames that each have room in the buffer, encoded and fed byte by byte from rest, is delivered with its ids and payloads in order |
| AdpHeaders.FrameAfterNoise | common/services/adp/adp.c:91-108 | From rest, any bytes but start tokens, then any number of start tokens, then a frame: the frame is delivered as if it had come alone |
| AdpHeaders.LengthIsRead | common/services/adp/adp.c:110-143 | Any 16-bit length is read from its two bytes, each doubled if it is the token; behind length zero the packet is complete |
| AdpHeaders.LoneTokenAborts | common/services/adp/adp.c:84-87 | A lone token in the data ends the packet, and the byte behind it is the first length byte of another with the same id |
| AdpHeaders.PlainFrames | common/services/adp/adp.h:60 | Without tokens 1 to 254 bytes make a frame, sent as token, id, length in little endian and the payload as it is |
| AdpRoom.OverrunExact | common/services/adp/adp.c:186-189 | Over any byte stream every accepted byte is stored inside the caller's buffer if and only if no packet delivers more data bytes than the buffer has |
| AdpRoom.ListenRoomExact | common/services/adp/adp.c:181-196 | The same of one call, for the packets up to the match |
| AdpRoom.PacketsOfFrames | common/services/adp/adp.c:145-163 | An encoded stream delivers, packet by packet, exactly the payloads of its frames |
| AdpRoom.FramesFitExact | common/services/adp/adp.c:181-196 | An encoded stream stays inside the buffer if and only if each payload fits it |
| AdpRoom.StatusOverrunsAcknowledgement | common/services/adp/adp.c:362 | A caller that waits for one byte has no room for a two-byte status that comes first |
| AdpWait.WaitExact | common/services/adp/adp.c:219-230 | For frames with other ids, the response and anything behind it, over reads of any size that may fail: the wait ends with a packet of the stream whole in the buffer, and with the response if and only if no chunk ends at the end of a frame before it |
| AdpWait.CheckExact | common/services/adp/adp.c:198-217 | With at most 50 reads the other loop ends with the same packet, and reports success if and only if it is the response |
| AdpWait.FiftyReads | common/services/adp/adp.c:204-215 | The result depends on the first 50 reads only, and 50 failing ones end without a response |
| AdpWait.OtherFrameIsTaken | common/services/adp/adp.c:362-365 | A caller that waits for a one-byte acknowledgement gets the byte of a frame with another id that is read first |
| Adp.ResponseIsFound | common/services/adp/adp.c:181-196 | One call passes over frames with other ids and ends with the first that has the awaited id, its payload in the buffer, whatever follows |
| Adp.ChunkingDoesNotMatter | common/services/adp/adp.c:181-196 | Cutting a stream into any chunks gives the receiver, buffer and answer of the whole stream up to the first match |
| Adp.InvAlways | common/services/adp/adp.c:80-166 | The invariant holds after every byte stream |
| Adp.AddSendByte | common/services/adp/adp.c:57-69 | Appends exactly the stuffed data at the index and leaves the rest of the buffer |
| AdpDevice.AdpReceiver.AddByte | common/services/adp/adp.c:80-166 | The state machine on the static variables |
| AdpDevice.AdpReceiver.ProtocolAddByte | common/services/adp/adp.c:181-196 | With a buffer of any size that is not overrun up to the match, the loop stores accepted bytes in place and stops at the first match |
| AdpDevice.AdpReceiver.WaitForResponse | common/services/adp/adp.c:219-230 | The loop on the static variables ends as the waiting loop of the model |
| AdpDevice.AdpReceiver.CheckForResponse | common/services/adp/adp.c:198-217 | The loop with its retries ends and reports as the checking loop of the model |
| Commands.StreamRoundTrip | commands.c:121-185 | Every list of host commands with 1 to 254 payload bytes, received one byte at a time, leads to exactly one outcome per command, in order: for the types 1, 2, 3, 5, 6 and 7 a handler is called with the type and data sent, for any other the command is invalid |
| Commands.FrameIsDecided | commands.c:135-142 | A frame of any content is decided at its last byte, and not before: by its CRC, then by its type, with its data |
| CommandRecovery.CommandArrivesExact | python/kicon_badge.py:67-74 | A command that the host makes leads to its handler's call with its type and data, or for a type without one to an invalid command, if and only if it has at most 253 bytes of data; with 254 it overflows the device, with more it is not packed |
| CommandRecovery.LongestLengthOverflows | commands.c:46-55 | A length byte of 255 ends in an overflow at the 257th byte, whatever the bytes, with no outcome before |
| CommandRecovery.ZerosResynchronise | commands.c:121-185 | From every state between two bytes, length + 3 - index zero bytes, at most 257, bring a reset and an empty buffer, with one other outcome on the way at most |
| CommandRecovery.CorruptedCommandIsRejected | commands.c:105-110 | A command with one wrong type, data or CRC byte gets a CRC error and reaches no handler |
| CommandRecovery.CrcByteMatters | commands.c:93-102 | Changing one byte of a payload of any length changes its CRC |
| CommandRecovery.CrcIsParity | commands.c:93-102 | Each bit of the CRC is the parity of that bit over all bytes |
| CommandResponses.ResponseRoundTrip | commands.c:65-83 | For every status and every mixture of writes that ends inside the buffer, however often the length byte wraps: the host reads exactly what was written if and only if the payload has at most 253 bytes |
| CommandResponses.LongTransferIsNotRead | spi_master.c:112-118 | An SPI transfer of 255 bytes is not read back |
| CommandResponses.FrameIsRead | python/kicon_badge.py:77-93 | The host reads a frame as its status and data and consumes nothing beyond it |
| CommandResponses.SentWholeUpTo253 | commands.c:58-62 | The response is sent whole if and only if its payload has at most 253 bytes; with 254 nothing is sent and with 255 only the length byte |
| CommandResponses.CorruptedResponseIsRefused | python/kicon_badge.py:77-87 | A response with one wrong status, data or CRC byte is refused by the host |
| CommandDevice.CommandDevice.CrcOf | commands.c:93-102 | The loop computes the exclusive or of the payload |
| CommandSession.SessionRoundTrip | commands.c:237-265 | For every list of commands that fit and any handlers, however much they write: from the bytes that come back the host reads exactly one answer per command, what the handler of its type wrote when called with its data or status 3 for a type without one, and no byte more, if and only if no handler writes more than 252 bytes behind its status |
| CommandSession.ResponsesReadExact | python/kicon_badge.py:77-93 | The same for any list of outcomes, error responses included |
| CommandSession.ErrorsAreSent | commands.c:125-175 | The bytes that answer a reset, an invalid command, an overflow and a CRC error |
| CommandSession.SessionSends | commands.c:250-263 | Over any received bytes the bytes written are the responses to the outcomes, in order |
| CommandDevice.CommandDevice.Round | commands.c:251-263 | One round of the command loop on the static buffers is one round of the conversation |
| CommandDevice.CommandDevice.TryExecute | commands.c:121-207 | The buffer is decided as the model says, reset unless more data is awaited, and answered with the response of the outcome, its length kept in eight bits |
| CommandDevice.CommandDevice.Respond | commands.c:58-83 | Starting, the loop of writes and completing leave the response of the model in the buffer, and its 8-bit length |
| FlashLoader.Flash.Program | python/kicon-badge-loader.py:243-271 | From any flash content, programming leaves the image's pages, erased pages up to the end of the last sector and all other pages as they were, and verification succeeds |
| FlashLoader.ProgrammedHoldsImage | python/kicon-badge-loader.py:248-259 | Byte i of the flash is byte i of the image, followed by zeros to the end of the page |
| FlashLoader.ProgramErased | python/kicon-badge-loader.py:191-207 | On an erased page, programming, which can only clear bits, stores the data |
| FlashLoader.Flash.EraseSector | python/kicon-badge-loader.py:191-194 | The sixteen pages of the sector are erased and no other |
| Scope.Oscilloscope.Handler | scope.c:197-284 | Each channel's buffer holds, in order, its scaled conversions before the first foreign tag up to a display width behind the drawing position, which is the first of 128 samples at the threshold or else the first; while the buffers wait to be drawn nothing changes |
| Scope.SampleKeeps | scope.c:240-254 | Storing or dropping a sample keeps the cut-off and the first-at-threshold drawing position, within 256 entries |
| Scope.TwoTracesAreApart | scope.c:117-131 | With two channels configured the traces share no pixel row and both are drawn from their first sample |
| Scope.ValuesArePixels | scope.c:241-246 | A channel's samples are, in order, the pixels of the twelve-bit values that the hardware tagged with its number: zero on its first row, 4095 on its last, any other on the row that its share reaches |

## Left out

- LogicAnalyzerRuns.AcquisitionIsRight: asks for a nonzero buffer size; a read count of zero (also the one that the 16-bit cast of SET_READ_DLY_CNT makes of 65536 * 4 samples) or of a multiple of 2 to the 30th makes buffers of no size.
- LogicAnalyzerEndToEnd.ReadoutExact: asks for a nonzero buffer size for the same reason.
- LogicAnalyzerRuns.StopRequestExact: is about one interrupt; the SUMP reset, which waits for the driver and then resets the analyzer, is left out.
- FlashLoader.Flash.Program: asks for the n / 512 + 1 pages that it writes to exist; what the device does with a page it does not have is not in the source, and flash errors, the progress callback (without which the original fails) and locking are left out.
- AdpWait.CheckExact: is about at most 50 reads; those behind them do not count (`AdpWait.FiftyReads`).
- Adp.StreamRoundTrip: covers frames with a payload; noise, repeated tokens, empty packets and a lone token inside the data are results of their own (`AdpHeaders`).
- Crc32.Recalculate: is split after the first word into two methods.
- CalendarDate.CalendarDate.ToTimestamp: its two loops are methods of their own.
- Fifo.Fifo.Push: one generic element type stands for the 8, 16 and 32-bit variants; the variants without check, whose callers must know that there is room, are left out.
- CommandDevice.CommandDevice.TryExecute: a handler is represented by what it writes; what UART, I2C, SPI, LED, LCD and button handlers do is left out, and so is the SUMP mode of the parser.
- Scope.Oscilloscope.Handler: the draw pointers are written once at the end of the handler; drawing, the DMA restart and ADC setup are left out.
- calendar_time_between_dates: its borrows do not propagate through zero fields, so there is no general theorem.
- la_get_clock, clock and PLL setup, NVIC, USB CDC, busy-wait loops: registers and library calls.
- SUMP command decoding and the identification strings: small table lookups.
- ADP message builders and configuration messages: sequences of calls of the modelled sender.
- Host retries and timeouts in KiconBadge.init and the SAM-BA text commands: input and output.
- Menus, fonts, LCD drawing, LEDs, buttons, sensors: no state worth a theorem.
