# Verified model of the W80x SDK demo core

This project models the self-contained logic of the wm-sdk-w80x repository in Dafny 4.11 and proves what
that logic promises over every input, every interleaving or every run:

- the console's receive path: the UART ring buffer, the credit-limited wake-up protocol between the
  receive callback and the console task, and the in-place parser of quoted, comma-separated arguments;
- the intrusive circular list of `include/list.h`, on the heap;
- the ST7789 driver's staging buffer, its drawing routines, and the picture they leave on the panel;
- the socket server's connection table, once with whole handlers as steps and once with single
  statements as steps, and its send accounting;
- the WebSocket session machine with library callbacks and a watchdog;
- the CIRC_* ring arithmetic for every power-of-two size;
- the AT24Cxx EEPROM routines over a bus-level chip.

`dafny verify dfyconfig.toml` checks the whole project.

| file | models |
|---|---|
| `CTypes.dfy` | C integer widths, `Option` |
| `CircBuffer.dfy`, `UartRx.dfy` | index arithmetic; the UART0 receive interrupt and `tls_uart_read` |
| `ConsoleProtocol.dfy` | `demo_console_rx` against the statements of `demo_console_task` |
| `ConsoleArgs.dfy` | what an argument list means |
| `ConsoleText.dfy`, `ConsoleParser.dfy` | the receive buffer as a sequence; the code that cuts and rewrites it |
| `DlList.dfy` | `dl_list_*` and its iteration macros |
| `St7789Glyph.dfy`, `St7789Panel.dfy`, `St7789Driver.dfy` | per-pixel pictures; the panel automaton; the driver |
| `SocketTable.dfy`, `SocketRace.dfy` | slot counting; statement interleavings |
| `SocketHandlers.dfy` | the connection table with whole handlers as steps |
| `SocketSend.dfy`, `SocketLoop.dfy`, `SocketServer.dfy` | one send pass as a function; the send loop against the other tasks; the record and its methods |
| `WebSocketSession.dfy` | `lwsRecvTask`, `lwsCallbackNotify`, `demoLwsSend` |
| `Eeprom.dfy` | `AT24CXX_*` |

State that the source updates in place is a class whose methods are proved against a step function; what
holds in every run is then proved about that function. I/O, clocks and library calls are parameters or
events. Where a promise does not hold of the code, the exact condition is proved, with a concrete
counterexample beside it:

- Quoted arguments: an encoded list comes back unchanged if and only if every string's encoded form has at
  most 256 characters (the length is a `u8` that wraps once; `ConsoleArgs.TooLong`) and no string but the
  last ends in a backslash.
- A string argument that is a single quote: the length wraps to 255, so the filter rewrites the 256
  characters behind the quote. The arguments behind it keep their text if and only if none of their
  backslashes is in reach and the terminator does not fall inside one of them
  (`ConsoleParser.LoneQuoteSpares`); in `( ",a\b)` the second argument arrives as `ab`
  (`ConsoleParser.DamagedNeighbour`). For the parameters that is sufficient and not necessary: in `( ","\a")`
  the second text loses early the backslash that it would have lost anyway (`ConsoleParser.HarmlessNeighbour`).
  What the command gets in every other case is stated by the buffer function `ConsoleText.Convert`.
- Console wake-ups: the console can go deaf for ever exactly when the interrupt may report zero bytes,
  which the UART0 handler does when every byte of the FIFO was erroneous or refused. Otherwise at most two
  credits are ever lost, and bytes can be stranded until the next callback only after both were.
- Console receive buffer: the 513 bytes are never exceeded if the sender paces itself; for an idle console
  the read that answers a callback goes past the end if and only if the unfinished command, the unread bytes
  and the new ones exceed 513. Nine interrupts with a full FIFO before the task runs are enough
  (`ConsoleProtocol.BeyondHappens`).
- UART0 with hardware flow control: every interrupt that finds no room queues one byte all the same (the call
  that should switch the receiver off acts on UART1 only), and over any interrupts without a read the ring
  loses what it held if and only if three of them do (`UartRx.LapsAfterThree`; `UartRx.RingLaps`).
- `CIRC_SPACE_TO_END_FULL` reports one byte too many exactly when tail is 0 (`CircBuffer.FullMiscounts`).
- EEPROM: data longer than the chip reads back exactly when it repeats with period 256 (`Eeprom.TooLong`); a
  zero-length `AT24CXX_ReadLenByte` still stores one byte.
- Display: `DrawChar` sends a colour's bytes in host (little-endian) order and `Fill` sends the high byte
  first, so both show the same colour exactly when its two bytes are equal (`St7789Driver.BlueDiffers`).
- Display: `Fill` transmits full buffers only, so from an empty one the panel shows the first
  576 * (w * h / 576) pixels, and the whole rectangle if and only if the others had the colour already; the
  demo's own `Fill(0, 0, 240, 240, c)` leaves the last visible row unfinished
  (`St7789Driver.DemoFillUnfinished`). Left-over pixels shift the next character around its box; on the demo's
  start-up screen the first character is shifted by 386 places and the rest is as meant
  (`St7789Driver.DemoScreen`).
- Socket server: at statement granularity a new descriptor that passes the check can be neither stored nor
  closed if and only if no slot is free at that moment.
- Socket server: over any rounds of the send loop, with clients coming and going and requests arriving during
  its waits, every remaining length stays meaningful if and only if in every pass no ready, targeted slot of
  length 0 takes bytes. Such a slot arises in exactly two ways: by a request of length 0
  (`SocketServer.ZeroRequestDuringSelect`), or by a newcomer that gets a descriptor number of the select set and
  a slot with nothing left (`SocketServer.ReusedDescriptor`); its length can then become the unlimited one.
- Socket server: a newcomer takes over its slot's remaining length, so it is sent the rest of an earlier
  client's request exactly when there is one (`SocketLoop.NewcomerInherits`).
- WebSocket: an expired watchdog ends the session if and only if the callbacks of the library call that
  follows do not finish by establishing a connection (`WebSocketSession.WatchdogOverruled`).
- WebSocket: `lws_write` is given the length of the message in the buffer if and only if the last send before it
  was not too long (`WebSocketSession.OversizeWritten`).

## Model

| member | source | states |
|---|---|---|
| CircBuffer.AndIsMod | include/driver/wm_uart.h:52 | masking a two's-complement value with 2^k - 1, bit by bit, is the remainder modulo 2^k |
| CircBuffer.WrapIsHarmless | include/driver/wm_uart.h:52 | computing the operand modulo 2^32 first never changes a masked result |
| CircBuffer.CntPlusSpace | include/driver/wm_uart.h:52-57 | for every power-of-two size and all indices, in range or not, used plus free is size - 1 |
| CircBuffer.ToEndAreMinima | include/driver/wm_uart.h:62-71 | for in-range indices the TO_END macros are min(count, size - tail) and min(space, size - head) |
| CircBuffer.FullVariant | include/driver/wm_uart.h:68-76 | the FULL variant exceeds CIRC_SPACE_TO_END by one exactly when tail is 0 |
| CircBuffer.FillReported | include/driver/wm_uart.h:68-76 | filling the reported space counts up exactly; for the FULL variant if and only if tail is not 0 |
| CircBuffer.FullMiscounts | include/driver/wm_uart.h:68-76 | a ring in which the FULL variant miscounts |
| CircBuffer.SegmentsTile | include/driver/wm_uart.h:60-65 | two successive CIRC_CNT_TO_END segments are exactly the pending bytes, in order |
| UartRx.Ring.Receive | include/driver/wm_uart.h:219-224 | the UART0 handler's receive loop (body in platform/drivers/uart/wm_uart.c), with receive errors, hardware flow control and both callback modes: exactly which of the FIFO's bytes are queued, in order, and what the callback is told; nothing is queued after an error |
| UartRx.Ring.Insert | include/driver/wm_uart.h:52-57 | the handler's insertion (body in platform/drivers/uart/wm_uart.c): the byte is appended, but into a ring that counts 4095 it makes all of them disappear |
| UartRx.LapsIff | include/driver/wm_uart.h:52-57 | queued bytes are lost if and only if flow control inserts into a ring that counts 4095 |
| UartRx.LapsAfterThree | include/driver/wm_uart.h:52-57 | over any interrupts without a read, from a ring within its capacity: queued bytes are lost if and only if three interrupts overrun; until then the ring holds what it held and what was queued, in order |
| UartRx.Ring.ReceiveAll | include/driver/wm_uart.h:219-224 | any interrupts one after the other, on the ring |
| UartRx.RingLaps | include/driver/wm_uart.h:219-224 | a run from an empty ring in which 4096 bytes are queued and none is left |
| UartRx.Ring.Read | include/driver/wm_uart.h:394-405 | `tls_uart_read` (body in platform/drivers/uart/wm_uart.c): the oldest bytes in order, removed, also across the end of the ring, as many as requested or all there are; nothing else of the target changes; -1 for an empty request |
| ConsoleProtocol.CreditsAreAccounted | demo/console/wm_demo_console_task.c:46-57 | in every interleaving queued messages <= MsgNum <= 3, every credit is queued, in hand or lost, and rx_data_len is exact |
| ConsoleProtocol.AtMostTwoCreditsLost | demo/console/wm_demo_console_task.c:499-522 | if every callback brings bytes, at most two credits are ever lost to empty reads |
| ConsoleProtocol.NextCallbackWakes | demo/console/wm_demo_console_task.c:50-54 | an idle console with an empty queue is woken by the next callback |
| ConsoleProtocol.StrandedOnlyAfterTwoLosses | demo/console/wm_demo_console_task.c:499-521 | unread bytes without a wake-up in flight imply exactly two lost credits |
| ConsoleProtocol.StrandingHappens | demo/console/wm_demo_console_task.c:499-521 | such a state is reachable |
| ConsoleProtocol.WedgesIffZeroLengthReports | demo/console/wm_demo_console_task.c:50-54 | the console can lose all three credits if and only if zero-length reports are possible |
| ConsoleProtocol.WedgedForever | demo/console/wm_demo_console_task.c:46-57 | having lost them it stays deaf whatever arrives |
| ConsoleProtocol.PacedStaysInside | demo/console/wm_demo_console_task.c:499-514 | in every interleaving with a sender that never sends more than rx_buf has room for, no read goes past its end |
| ConsoleProtocol.BeyondIff | demo/console/wm_demo_console_task.c:499-514 | for an idle console in any run, the read that answers a callback goes past the end of rx_buf if and only if stored, unread and new bytes exceed 513 |
| ConsoleProtocol.BeyondHappens | demo/console/wm_demo_console_task.c:499 | a run with such a read |
| ConsoleProtocol.PiecesInOrder | demo/console/wm_demo_console_task.c:499-518 | in every interleaving rptr is, modulo 2^16, the number of bytes read since the last finished command, and each read is stored right behind the one before |
| ConsoleProtocol.NeverOverwritten | demo/console/wm_demo_console_task.c:499-518 | so no byte of an unfinished command that fits the buffer is overwritten |
| ConsoleProtocol.Console.DemoConsoleRx | demo/console/wm_demo_console_task.c:46-57 | the callback, on the counters |
| ConsoleProtocol.Console.TaskStatement | demo/console/wm_demo_console_task.c:491-526 | one statement of the console task, on the counters: what is read and stored, that rptr is kept for an incomplete command, and what becomes of the credit |
| ConsoleProtocol.Console.Run | demo/console/wm_demo_console_task.c:46-57 | any schedule run on the counters keeps the accounting |
| ConsoleArgs.FirstSeparator | demo/console/wm_demo_console_task.c:59-83 | the first comma that ends the argument, and none before it |
| ConsoleArgs.SplitAllCuts | demo/console/wm_demo_console_task.c:294-325 | the arguments of a text are its pieces between the separators |
| ConsoleArgs.SplitIsPrefix | demo/console/wm_demo_console_task.c:304-320 | the limit cuts off whole arguments behind the first ones, and nothing else |
| ConsoleArgs.PlainSplit | demo/console/wm_demo_console_task.c:59-83 | without quotes every comma separates: one argument more than commas |
| ConsoleArgs.TrimMeans | demo/console/wm_demo_console_task.c:328-337 | trimming removes all spaces at either end and nothing else |
| ConsoleArgs.UnquoteMeans | demo/console/wm_demo_console_task.c:97-132 | what becomes of quoted, half-quoted and bare text |
| ConsoleArgs.ParamsMeans | demo/console/wm_demo_console_task.c:326-361 | a command is rejected exactly when one of its numbers is; otherwise each argument gives its own parameter |
| ConsoleArgs.UnescapeEscaped | demo/console/wm_demo_console_task.c:111-119 | unescaping an escaped string followed by anything gives the string back, then the rest |
| ConsoleArgs.OuterSeparator | demo/console/wm_demo_console_task.c:70-76 | the comma after an encoded string is seen exactly when the string does not end in a backslash |
| ConsoleArgs.DecodeQuoted | demo/console/wm_demo_console_task.c:97-132 | an encoded string decodes to itself exactly when it has at most 256 characters |
| ConsoleArgs.TooLong | demo/console/wm_demo_console_task.c:97-104 | 255 plain characters do not come back |
| ConsoleArgs.RoundTrip | demo/console/wm_demo_console_task.c:294-347 | for every list and limit, the encoded list decodes to its first strings if and only if each of them survives |
| ConsoleArgs.LoneQuoteArises | demo/console/wm_demo_console_task.c:97-110 | a list outside that condition can split into a single-quote argument |
| ConsoleArgs.DamagingText | demo/console/wm_demo_console_task.c:97-119 | a text with a single-quote argument that does not spare its neighbour, and what it should decode to |
| ConsoleArgs.HarmlessText | demo/console/wm_demo_console_task.c:97-119 | that text, its split and its meaning |
| ConsoleArgs.EmptyList | demo/console/wm_demo_console_task.c:338-341 | no argument at all is one NULL parameter |
| ConsoleParser.GetFirstComma | demo/console/wm_demo_console_task.c:59-83 | the position of the first separator, or none |
| ConsoleParser.SplitArgs | demo/console/wm_demo_console_task.c:294-325 | min(param_cnt, separators + 1) NUL-terminated arguments right behind each other, one at least, exactly those of the specification; nothing outside the parentheses changes |
| ConsoleParser.TrimArg | demo/console/wm_demo_console_task.c:328-337 | the argument without leading and trailing spaces, in place; exactly the trailing spaces are overwritten |
| ConsoleParser.UnescapeInPlace | demo/console/wm_demo_console_task.c:111-119 | the exact buffer afterwards: the text with backslashes removed and terminated, copies of its last character in the places it no longer needs, nothing else changed |
| ConsoleText.StrAtEnds | demo/console/wm_demo_console_task.c:332 | a string read at any place before a NUL ends there or earlier |
| ConsoleText.EffectTail | demo/console/wm_demo_console_task.c:326-347 | converting any string keeps the zeros at the end of the buffer |
| ConsoleParser.QuotationFilter | demo/console/wm_demo_console_task.c:97-132 | the unquoted text, the return code and the exact buffer afterwards, a single quote included |
| ConsoleParser.LoneQuoteSpares | demo/console/wm_demo_console_task.c:97-119 | converting a single quote leaves every later argument intact if and only if it meets none of their backslashes and its terminator falls inside none of them |
| ConsoleParser.DamagedNeighbour | demo/console/wm_demo_console_task.c:326-347 | split and converted, the damaging text loses a backslash of its second argument |
| ConsoleParser.HarmlessNeighbour | demo/console/wm_demo_console_task.c:326-347 | another text is rewritten and still gives the specified parameter |
| ConsoleParser.OneParam | demo/console/wm_demo_console_task.c:326-361 | one parameter and the exact buffer afterwards: NULL or -1 for an empty argument, what strtodec gives, or the unquoted text, confined to its argument except for a single quote |
| ConsoleParser.ParseArgs | demo/console/wm_demo_console_task.c:326-361 | every argument converted as its turn finds it, in every case; the specified parameters, or a rejected command, if no single quote damages a later argument |
| ConsoleParser.Arguments | demo/console/wm_demo_console_task.c:294-373 | the text between the parentheses cut, converted in every case, and missing parameters defaulted; exactly the specified parameters if no single quote damages a later argument |
| ConsoleParser.EncodedArguments | demo/console/wm_demo_console_task.c:294-373 | an encoded list that survives reaches the command as the same strings, all of them if it has no more than param_cnt |
| DlList.RingIsUnique | include/list.h:21-25 | the member sequence of a ring is determined by its pointers |
| DlList.Init | include/list.h:56-60 | an empty ring |
| DlList.AddAfter | include/list.h:72-78 | insertion after any node of a ring, changing only it, its neighbours' links and the item |
| DlList.Add | include/list.h:72-78 | members become [x] + s |
| DlList.AddTail | include/list.h:90-93 | members become s + [x] |
| DlList.Del | include/list.h:104-110 | exactly that member goes; only it and its neighbours' links change |
| DlList.AddThenDel | include/list.h:72-110 | every pointer of the ring is restored |
| DlList.IsEmpty | include/list.h:122-125 | true exactly for no members |
| DlList.Len | include/list.h:136-143 | terminates with the number of members |
| DlList.ForEach | include/list.h:214-217 | visits the members in order |
| DlList.ForEachReverse | include/list.h:250-253 | visits them from the last to the first |
| DlList.ForEachSafe | include/list.h:232-236 | for every choice of deleted cursors, visits every original member once in order and leaves the ring of the others |
| DlList.SurvivorsBelong | include/list.h:232-236 | the ring left holds exactly the members not deleted |
| DlList.Run | include/list.h:56-110 | any legal run of additions and deletions leaves a valid ring of the expected members |
| St7789Glyph.TopBitTest | demo/st7789/st7789.c:250 | the shifted mask test of order-0 fonts is the bit 7 - k |
| St7789Glyph.BottomBitTest | demo/st7789/st7789.c:264 | the mask test of the other fonts is the bit k |
| St7789Glyph.ChunkBetween | demo/st7789/st7789.c:245 | pieces of a table lie one behind the other: what follows n of them is the n-th |
| St7789Glyph.GlyphIsBlock | demo/st7789/st7789.c:245 | the glyph of ch is the block behind those of the ch - 32 characters before it, height rows of ceil(width / 8) bytes, each pixel its bit |
| St7789Glyph.RowInTable | demo/st7789/st7789.c:245 | the driver's index finds byte j of a row of that block |
| St7789Panel.FeedWindow | demo/st7789/st7789.c:121-136 | the window commands select the rectangle and start a write, whatever the panel was doing |
| St7789Panel.FeedStream | demo/st7789/st7789.c:121-150 | however many pixels follow, the window shows the last one written to each place, and the pointer goes on around its end |
| St7789Panel.FeedBoxWire | demo/st7789/st7789.c:121-136 | a window and its row-major pixels paint the box and nothing else |
| St7789Panel.FeedText | demo/st7789/st7789.c:279-287 | character boxes side by side paint pixel (px, py) from character (px - x) / width and nothing else |
| St7789Driver.Display.GpioData | demo/st7789/st7789.c:38-45 | the D/C pin is at data level and the cached flag agrees with it |
| St7789Driver.Display.SetAddrWindow | demo/st7789/st7789.c:121-136 | exactly the eleven window bytes with their D/C levels; staged bytes stay staged |
| St7789Driver.Display.WriteBuff | demo/st7789/st7789.c:139-150 | sent plus staged grows by exactly the source, in full-buffer transmissions, also when the source is the staging buffer and it is empty or of one colour |
| St7789Driver.Display.FlushBuff | demo/st7789/st7789.c:152-159 | everything staged is sent once, nothing is added |
| St7789Driver.Display.Replay | demo/st7789/st7789.c:139-159 | over any sequence of writes and flushes the buffer is invisible in the stream and only flushes send short |
| St7789Driver.Display.Fill | demo/st7789/st7789.c:162-200 | width * height big-endian copies of the colour although the source is the staging buffer, behind the staged pixels recoloured; the panel shows exactly the transmitted ones and the rest stays staged |
| St7789Driver.Display.FillThenFlush | demo/st7789/st7789.c:162-200 | once flushed, every place with x_start <= x <= x_end and y_start <= y <= y_end has the colour and no other place changed |
| St7789Driver.Display.Clear | demo/st7789/st7789.c:289-311 | exactly 240 * 240 pixels of the colour sent, staged pixels recoloured, as many staged afterwards |
| St7789Driver.FillPaints | demo/st7789/st7789.c:162-200 | n of Fill's pixels paint the first n places of the rectangle and nothing else |
| St7789Driver.FirstIsAll | demo/st7789/st7789.c:162-200 | that is the whole rectangle if and only if the other places had the colour already |
| St7789Driver.DemoFillUnfinished | demo/console/wm_demo_console_task.c:441 | the demo's first rectangle leaves visible pixels of its last row as they were |
| St7789Driver.Display.FillThenDrawChar | demo/st7789/st7789.c:162-277 | the rectangle's left-over pixels go into the character's window, and the glyph appears shifted by their number, around its end |
| St7789Driver.NoShift | demo/st7789/st7789.c:233-277 | with none left over it is the glyph in its place |
| St7789Driver.DemoBackground | demo/console/wm_demo_console_task.c:441-452 | the start-up rectangles and Clear: the whole screen black, 386 pixels staged |
| St7789Driver.DemoScreen | demo/console/wm_demo_console_task.c:441-457 | the start-up screen, pixel by pixel |
| St7789Driver.ClearPaints | demo/st7789/st7789.c:289-311 | Clear gives every pixel the colour |
| St7789Driver.BitIsPixel | demo/st7789/st7789.c:245-272 | in both bit orders the tested bit is the glyph bit of that pixel |
| St7789Driver.Display.DrawChar | demo/st7789/st7789.c:233-277 | the window, then exactly width * height pixels in row-major order, each the bit of its row and column in the (ch - 32)-th block of the table; nothing staged afterwards |
| St7789Driver.Display.DrawString | demo/st7789/st7789.c:279-287 | the panel shows the text box painted glyph by glyph and every other pixel unchanged, wherever the chunks end; staged pixels shift the first character in its box and only that |
| St7789Driver.TextShowsGlyphs | demo/st7789/st7789.c:279-287 | column r of the q-th character of the text box shows that column of the character's block of the table |
| St7789Driver.ByteOrders | demo/st7789/st7789.c:252 | each byte order is the colour's two bytes; DrawChar's and Fill's agree exactly for colours with equal bytes |
| St7789Driver.BlueDiffers | demo/st7789/st7789.c:252 | blue, for example, differs |
| SocketRace.CounterIsExact | demo/wm_socket_server_demo.c:136-152 | in every interleaving occupied slots = conn_num plus the two open windows, so -1 <= conn_num <= 7 and it is exact outside them |
| SocketRace.DescriptorsAreConserved | demo/wm_socket_server_demo.c:571-608 | in every interleaving each accepted descriptor is in a slot, closed, dropped or still in the accept loop's hand, counted with multiplicity |
| SocketRace.DroppedIffNoSlotFree | demo/wm_socket_server_demo.c:582-598 | in every interleaving, a descriptor that passes the check can be dropped if and only if no slot is free at the check; the receive task is then between its decrement and its slot clear |
| SocketRace.PassCompletes | demo/wm_socket_server_demo.c:130-173 | whichever clients have left, the receive loop on its own goes through all slots, frees exactly theirs and comes to rest |
| SocketRace.AdmissionCompletes | demo/wm_socket_server_demo.c:582-598 | the accept loop on its own takes a descriptor that passed the check to the first free slot, counts it and listens again |
| SocketRace.DropHappens | demo/wm_socket_server_demo.c:582-598 | a run in which one is dropped |
| SocketRace.MinusOneHappens | demo/wm_socket_server_demo.c:146-151 | conn_num can read -1 |
| SocketHandlers.EveryRun | demo/wm_socket_server_demo.c:571-608 | in every run of handlers conn_num is the number of occupied slots, held descriptors are distinct, and accepted = held + closed |
| SocketHandlers.AcceptKeeps | demo/wm_socket_server_demo.c:573-607 | accepting keeps that, and stores the descriptor whenever conn_num < 7 |
| SocketHandlers.GoneKeeps | demo/wm_socket_server_demo.c:140-152 | closing a client keeps that |
| SocketHandlers.LeaveKeeps | demo/wm_socket_server_demo.c:130-173 | a pass of the receive task frees exactly the slots whose client was ready and whose recv returned 0 or less, and keeps that |
| SocketServer.Server.Accept | demo/wm_socket_server_demo.c:573-607 | the accept handler on the record: ignored, stored in a free slot and counted, or closed |
| SocketServer.Server.ReceivePass | demo/wm_socket_server_demo.c:130-173 | afterwards a slot is free if and only if it was free, or its descriptor was ready and its recv returned 0 or less; all others keep their client |
| SocketServer.Server.RequestSend | demo/wm_socket_server_demo.c:324-374 | the request on the record: the requested slots, and only those, are targeted with the requested length, 0 and -1 included |
| SocketServer.Server.SelectSet | demo/wm_socket_server_demo.c:202-219 | exactly the connected, targeted descriptors with a length other than 0 |
| SocketSend.PassLedger | demo/wm_socket_server_demo.c:286-306 | that if and only if, for the pass as a function over the slots |
| SocketSend.SlotKept | demo/wm_socket_server_demo.c:286-306 | one slot: its length stays meaningful if and only if it was not a length of 0 that sent bytes |
| SocketSend.ChunkMeans | demo/wm_socket_server_demo.c:286-294 | 1024 bytes are offered for an unlimited or longer request, otherwise what is left |
| SocketSend.LenMeans | demo/wm_socket_server_demo.c:183-294 | the length offered for an empty request is the one of the slot served before, or of the pass before |
| SocketSend.SlotMeans | demo/wm_socket_server_demo.c:296-306 | a failed send changes nothing; otherwise what was taken is counted and subtracted, except from an unlimited length |
| SocketLoop.PassIntact | demo/wm_socket_server_demo.c:261-310 | the same for a pass on the whole record |
| SocketLoop.PassMeans | demo/wm_socket_server_demo.c:261-306 | exactly the ready, targeted connections are served, each as above |
| SocketLoop.LoopIntact | demo/wm_socket_server_demo.c:199-311 | over any number of rounds the ledger is intact after every pass if and only if in every pass no ready, targeted slot of length 0 takes bytes |
| SocketLoop.HotUnless | demo/wm_socket_server_demo.c:202-232 | what empties a slot of the select set during the wait: exactly a request of length 0 to it, or a newcomer that gets a descriptor number of the set and a finished slot |
| SocketLoop.CleanUnlessCooled | demo/wm_socket_server_demo.c:202-310 | a round without such an act is clean |
| SocketLoop.NewcomerInherits | demo/wm_socket_server_demo.c:582-590 | a newcomer is sent the rest of an earlier request exactly when its slot is targeted and has one |
| SocketServer.Server.SendPass | demo/wm_socket_server_demo.c:261-310 | exactly the ready, targeted connections are served, and what is then left and sent on every slot; from an intact ledger sent plus remaining equals the request, and no remaining length turns negative or unlimited if and only if no served slot of length 0 takes bytes; then chunks are 1..1024 |
| SocketServer.Server.Perform | demo/wm_socket_server_demo.c:227 | any act of the other tasks during the wait, on the record |
| SocketServer.ZeroRequestDuringSelect | demo/wm_socket_server_demo.c:202-306 | one way to a pass that is not clean: a request of length 0 during the wait in select, one byte taken, and the length is -1, unlimited |
| SocketServer.ReusedDescriptor | demo/wm_socket_server_demo.c:202-306 | the other: during the wait a newcomer gets a descriptor number of the select set and a finished slot, and its length becomes -1 |
| SocketServer.Server.SendLoop | demo/wm_socket_server_demo.c:199-311 | with any clients coming and going and any requests during its first waits: if the passes of those rounds are clean, no request is unlimited after them and every ready send then takes a byte, the loop ends with what was last asked for every targeted slot sent exactly |
| WebSocketSession.EveryRun | demo/wm_websockets_demo.c:149-246 | in every run each context is destroyed once before the next is made, a handled session has a connection on a live context, watchDog is 0..6 |
| WebSocketSession.IllegalContextUnreachable | demo/wm_websockets_demo.c:154-189 | INIT_SESSION never finds a context |
| WebSocketSession.UnansweredTicks | demo/wm_websockets_demo.c:212-224 | over any mix of sends and quiet turns, a session survives exactly 6 - watchDog unanswered ticks and the next one ends it |
| WebSocketSession.WatchdogCounts | demo/wm_websockets_demo.c:97-224 | in every run the watchdog is the number of ticks elapsed since the last Writeable callback or the last exit, six at most |
| WebSocketSession.AnsweredTicks | demo/wm_websockets_demo.c:97-224 | if every elapsed tick is answered by a Writeable callback, the watchdog stays 0 and only a callback can end the session |
| WebSocketSession.CallbacksDecide | demo/wm_websockets_demo.c:73-116 | the last callback that writes now_state decides it |
| WebSocketSession.WatchdogOutcome | demo/wm_websockets_demo.c:212-226 | an expired watchdog ends the session if and only if the callbacks, with sends between them, do not finish by establishing |
| WebSocketSession.WatchdogOverruled | demo/wm_websockets_demo.c:218-225 | a run with six unanswered ticks whose seventh does not end the session |
| WebSocketSession.NetworkOutcome | demo/wm_websockets_demo.c:212-224 | a tick with the network down ends the session if and only if the callbacks do not finish by establishing |
| WebSocketSession.WriteLengths | demo/wm_websockets_demo.c:55-105 | in every run, every lws_write is given the length of the message in the buffer if and only if the last send before it was not too long |
| WebSocketSession.OversizeWritten | demo/wm_websockets_demo.c:55-105 | a run in which a message of 10 bytes is written with length 1000 |
| WebSocketSession.Client.LwsCallbackNotify | demo/wm_websockets_demo.c:73-116 | one callback on the globals: the state it sets, the watchdog reset by Writeable and by nothing else, and the write it makes |
| WebSocketSession.Client.DemoLwsSend | demo/wm_websockets_demo.c:55-71 | a short message becomes pending exactly when connected; data_length is set also for one that is too long |
| WebSocketSession.Client.Watch | demo/wm_websockets_demo.c:212-224 | the once-a-second check on the globals: nothing before the tick, exit with the network down or after the sixth tick, a count otherwise |
| WebSocketSession.Client.RecvTurn | demo/wm_websockets_demo.c:149-246 | one turn of `lwsRecvTask` on the globals, keeping the session invariant, with the outcome of creation, connection and exit |
| Eeprom.StoredAt | demo/wm_i2c_demo.c:128-136 | the last 256 bytes of a write are in the chip afterwards |
| Eeprom.StoredElsewhere | demo/wm_i2c_demo.c:128-136 | a write touches no other cell |
| Eeprom.WriteThenRead | demo/wm_i2c_demo.c:112-136 | reading back gives the data if and only if it has period 256 |
| Eeprom.TooLong | demo/wm_i2c_demo.c:128-136 | 257 bytes that do not come back |
| Eeprom.Bus.ReadOneByte | demo/wm_i2c_demo.c:23-37 | the addressed cell, modulo 256; bus idle, memory unchanged |
| Eeprom.Bus.ReadLenByte | demo/wm_i2c_demo.c:46-62 | one transfer returns the consecutive cells, one at least; bus idle |
| Eeprom.Bus.WriteOneByte | demo/wm_i2c_demo.c:69-79 | exactly that cell is programmed; bus idle |
| Eeprom.Bus.Check | demo/wm_i2c_demo.c:89-103 | 0 exactly when the chip answers, which then holds the mark |
| Eeprom.Bus.Read | demo/wm_i2c_demo.c:112-119 | byte-at-a-time reads return the same cells as one transfer |
| Eeprom.Bus.Write | demo/wm_i2c_demo.c:128-136 | the memory is the specified one; bus idle |
| Eeprom.Bus.WriteAndReadBack | demo/wm_i2c_demo.c:155-159 | up to 256 bytes written come back from the sequential read |

## Left out

- API headers without bodies, font and DSP tables, and the TLS, HTTP, crypto, Wi-Fi and hardware demos: data tables, and code whose behaviour lies in libraries and peripherals that are not part of the repository.
- Command lookup (demo/console/wm_demo_console_task.c:211-292): the model starts from a located "(" and ")"; `strtodec` is a parameter.
- ConsoleProtocol: what a read past the end of `rx_buf` overwrites; the model says when it happens and goes on as if the memory were there.
- ConsoleParser.Arguments: where a single quote damages a later argument, the buffer is to end in 257 zeros, so that the strings then found have an end; the code could read past its buffer otherwise. The damage is exact for the texts of the arguments; which damaged texts still give the specified parameters has no shorter description than ConsoleText.Convert.
- ConsoleParser.ParseArgs: the same.
- ConsoleParser.UnescapeInPlace: the overlapping memcpy is read as memmove.
- UartRx.Ring.Receive: the callback is taken to be registered, and runs after the bytes of the interrupt were queued.
- The two tasks of the console and of the socket server interleave at statement boundaries; `x--` and `x += n` are taken as atomic.
- DlList: `dl_list_entry`'s pointer arithmetic; a node stands for the structure that embeds it.
- St7789Driver.Display.Fill: with an odd number of bytes staged, which no routine leaves, only the byte count is promised; with a rectangle smaller than one buffer behind staged pixels, the bytes but not the picture.
- St7789Driver.Display.Clear: with an odd number of bytes staged only the byte count is promised.
- St7789Driver.Display.DrawString: with an odd number of bytes staged the picture is not promised.
- `ST7789_DrawImage` (demo/st7789/st7789.c:218-230): it does not switch to data level after the window commands, so its bytes are commands to the panel; initialisation, delays and SPI set-up are not modelled.
- The UART-forwarding branches of the socket server (demo/wm_socket_server_demo.c:234-259, 271-283), the memset of the send buffer, which a negative length would overrun, and `socket_ok`.
- SocketServer.Server.SendLoop: it need not end while a request is unlimited; for passes that are not clean, SocketLoop.LoopIntact says that the ledger breaks, and nothing is promised afterwards. "Asked for" and "sent" are per slot, not per client (SocketLoop.NewcomerInherits). The other tasks run while it waits in select, not inside a pass; requested lengths below -1, which have no meaning, are not made during the waits.
- SocketRace: building the descriptor set for select and returning from it are one step.
- WebSocketSession: message contents; a message set between `lws_write` and the clearing of `data_2send`; `lws_client_connect_via_info` is assumed to succeed only on an existing context.
- Eeprom: acknowledge bits (the routines ignore them), write-cycle timing, and page writes, which the routines do not use.
