# TinyGSM AT-command session engine, in Dafny

TinyGSM drives GSM, LTE and WiFi modems from a microcontroller over a serial line. It
speaks the modem's AT command language. Each chipset dialect has three parts:

- a modem object, which writes command lines and scans the replies;
- a table of socket clients, indexed by "mux", the modem's connection number;
- the clients, each with a connected flag, a count of bytes the modem still holds for it,
  and a receive FIFO.

The scanner, `waitResponse`, reads the line byte by byte and appends each byte to an
accumulated text. It stops at the first of up to five expected terminators, in priority
order. Between terminators it consumes unsolicited notifications, which update the client
registered at the mux they name.

This project models three dialects:

| dialect | source file | newline | table | FIFO |
|---|---|---|---|---|
| SIM7600 | `src/TinyGsmClientSIM7600.h` | CR LF | 10 entries | 64 bytes |
| SIM800 | `TinyGsmClient.h` | CR LF | 5 entries | 64 bytes |
| XBee | `TinyGsmClientXBee.h` | CR only | 1 entry as declared | 256 bytes |

The XBee does its configuration inside a "+++" … "ATCN" command mode.

Each dialect is written twice:

- A pure module (`Sim7600Spec`, `Sim800Spec`, `XBeeSpec`) describes every operation as a
  function on a value `State(input, output, table)`, and proves the properties there.
  - `input` is what the modem will send. `output` is what has been written to it.
  - `table` holds one optional socket entry per mux.
- An imperative module (`Sim7600`, `Sim800`, `XBee`) holds the classes `Modem` and
  `GsmClient`, with the source's fields.
  - `Modem.sockets` is an `array<GsmClient?>`. The serial line is a `Serial.Stream` object.
  - Each method proves that its result, and the new state read back from the objects,
    equal the pure function applied to the old state.
  - Loops carry invariants stated with step functions of the pure module. Examples:
    `Filling`/`FillingStep` for the byte loop of `modemRead`, and `ReadLoop` for
    `GsmClient::read`.

Shared modules:

| module | contents |
|---|---|
| `Arduino` | the parts of the Arduino `String` class and integer conversions that the source relies on |
| `Serial` | the stream; reads up to a delimiter; the text `Print` writes for a command line |
| `RxFifo` | the receive FIFO |
| `Terminators` | the priority chain of the scanner |
| `Script` | fail-fast command sequences |

The serial line is a sequence of `Rx` values:

- a byte 0..255; or
- `SILENCE` (-1): the line stays quiet long enough for the pending wait or read to time out.

The end of the sequence is endless silence.

## Model

| member | source | states |
|---|---|---|
| Terminators.FirstMatch | src/TinyGsmClientSIM7600.h:798-813 | the index is 0 or the first present terminator that is a suffix of the accumulated text; every terminator before it fails to match |
| Terminators.NoneNeverMatches | TinyGsmClient.h:231-235 | a wait given no terminators (as `maintain` calls it) never reports a match |
| Serial.RenderCommand | TinyGsmClient.h:563-581 | `sendAT` writes "AT", then each argument as printed, in order, then the newline |
| Serial.Stream.StreamWrite | TinyGsmClient.h:563-575 | `streamWrite` appends exactly the printed arguments, in order, and reads nothing |
| Arduino.HexPairDecodes | src/TinyGsmClientSIM7600.h:721-727 | `strtol` of the two hex digits of a byte, in either case, cast to a byte, gives the byte back |
| Arduino.HexRoundTrip | TinyGsmClientXBee.h:503 | `String(port, HEX)` is all hex digits and reads back as the port |
| Arduino.DottedQuadRoundTrip | TinyGsmClientXBee.h:492-502 | the dotted quad built from an IP address parses back to the same four octets |
| Arduino.DecimalRoundTrip | TinyGsmClient.h:120-130 | an integer printed in decimal reads back through `toInt` as the same integer |
| Arduino.DigitsReadBack | src/TinyGsmClientSIM7600.h:826-828 | a mux or length printed by the modem reads back through `toInt` unchanged |
| Arduino.DigitsLineReadBack | src/TinyGsmClientSIM7600.h:698 | a count followed by the carriage return of its line reads back through `toInt` unchanged |
| Arduino.ToInt16 | src/TinyGsmClientSIM7600.h:685 | the `int16_t` result is congruent to the value modulo 65536, lies in the int16 range, and equals the value when that already fits |
| RxFifo.Put | TinyGsmClientXBee.h:447 | `put` appends the byte when there is room; a full FIFO is unchanged |
| RxFifo.Get | TinyGsmClient.h:159-160 | `get(buf, n)` takes the first n bytes in order and leaves the rest |
| RxFifo.PutAllKeepsOrder | src/TinyGsmClientSIM7600.h:719-731 | putting a run of bytes appends its longest prefix that fits, in arrival order |
| RxFifo.PutThenGet | TinyGsmClient.h:154-164 | bytes put into an empty FIFO of sufficient size come out by `get` in the same order |
| RxFifo.PutAllFills | TinyGsmClientXBee.h:440-448 | a run at least as long as the free space leaves the FIFO full |
| Script.ChainStopsAtFailure | TinyGsmClient.h:398-445 | once a mandatory step fails, no later step runs: the outcome is that of the prefix ending at the failure |
| Script.ChainSucceedsIffAllPass | TinyGsmClient.h:398-445 | a command chain succeeds if and only if every step passes in the state the steps before it left |
| Sim7600Spec.FreshSock | src/TinyGsmClientSIM7600.h:67-78 | a client just set up is disconnected, has 0 available, no pending data and an empty 64-byte FIFO |
| Sim7600Spec.EmptyTable | src/TinyGsmClientSIM7600.h:127-131 | the constructor's table holds no client at any of the ten muxes |
| Sim7600Spec.Register | src/TinyGsmClientSIM7600.h:67-78 | `init` places a fresh client at its mux and leaves every other entry as it was |
| Sim7600Spec.NoteData | src/TinyGsmClientSIM7600.h:814-821 | a mode-1 `+CIPRXGET` sets `got_data` of the client at that mux only, if it is in range and registered; otherwise the table is unchanged |
| Sim7600Spec.NoteReceive | src/TinyGsmClientSIM7600.h:826-834 | `+RECEIVE` sets `got_data` and `sock_available` (as uint16) of the in-range registered client at that mux; its connection flag, its FIFO and all other entries are unchanged |
| Sim7600Spec.NoteClose | src/TinyGsmClientSIM7600.h:835-842 | `+IPCLOSE` clears only `sock_connected` of the in-range registered client at that mux; FIFOs and other entries are unchanged |
| Sim7600Spec.RxGetNote | src/TinyGsmClientSIM7600.h:814-825 | a `+CIPRXGET` notification writes nothing and only touches notification fields; in a mode other than 1 it leaves the table alone |
| Sim7600Spec.Scan | src/TinyGsmClientSIM7600.h:779-857 | the index is at most 5; on index 0 the data is emptied; a non-zero index is the first matching terminator for the returned data; each call consumes input; only notification fields of the table change |
| Sim7600Spec.ScanDropsZeros | src/TinyGsmClientSIM7600.h:796-797 | zero bytes are skipped and never reach the accumulated data |
| Sim7600Spec.ScanAppends | src/TinyGsmClientSIM7600.h:795-813 | a byte that completes neither a terminator nor a notification is appended and the scan goes on |
| Sim7600Spec.ScanMatchesHere | src/TinyGsmClientSIM7600.h:798-813 | the scan stops at the byte that completes a terminator, returns its priority index and the text, and leaves the rest of the line unread |
| Sim7600Spec.ScanStopsAtMatch | src/TinyGsmClientSIM7600.h:798-813 | over a run of non-zero bytes that completes a terminator only at its last byte, the scan consumes exactly that run |
| Sim7600Spec.ScanTakesRxGet | src/TinyGsmClientSIM7600.h:814-825 | after "\r\n+CIPRXGET:" the scan handles the notification; in mode 1 it restarts with empty data, otherwise it appends the mode text and goes on |
| Sim7600Spec.ScanTakesReceive | src/TinyGsmClientSIM7600.h:826-834 | after "\r\n+RECEIVE:" the scan reads the notification and goes on with empty data |
| Sim7600Spec.ScanTakesClose | src/TinyGsmClientSIM7600.h:835-842 | after "+IPCLOSE:" the scan reads the notification and goes on with empty data |
| Sim7600Spec.RxGetNoteReads | src/TinyGsmClientSIM7600.h:814-821 | "1,<mux>\n" sets `got_data` at that mux and consumes exactly that field |
| Sim7600Spec.RxGetOtherMode | src/TinyGsmClientSIM7600.h:822-824 | any other mode number is handed back as text, and the table is untouched |
| Sim7600Spec.ReceiveNoteReads | src/TinyGsmClientSIM7600.h:826-834 | "<mux>,<len>\n" records len at that mux and consumes exactly that field |
| Sim7600Spec.CloseNoteReads | src/TinyGsmClientSIM7600.h:835-842 | "<mux>,<reason>\n" disconnects that mux and consumes exactly that field |
| Sim7600Spec.ClientStop | src/TinyGsmClientSIM7600.h:91-96 | `stop` leaves the client disconnected with its FIFO intact; the wait after the close command changes only notification fields |
| Sim7600Spec.ModemConnect | src/TinyGsmClientSIM7600.h:667-683 | if `+CIPRXGET=1` is not answered OK, the result is false and nothing else is sent; otherwise the result is true exactly when the `+CIPOPEN` wait ends at its first terminator; success means both commands were sent |
| Sim7600Spec.ConnectIffOpened | src/TinyGsmClientSIM7600.h:667-683 | `modemConnect` succeeds if and only if "OK" answered `+CIPRXGET=1` and the reply to `+CIPOPEN` reached `\r\n+CIPOPEN:`; an ERROR or a timeout at either step is failure |
| Sim7600Spec.ClientConnect | src/TinyGsmClientSIM7600.h:81-87 | `connect` returns 1 exactly when `modemConnect`, run after `stop` and the emptied FIFO, succeeds, and 0 otherwise; `sock_connected` is true exactly when it returns 1; the FIFO is empty; the `stop` output comes first |
| Sim7600Spec.ModemSend | src/TinyGsmClientSIM7600.h:685-699 | without a ">" prompt the result is 0 and the payload is not written; after the prompt the payload follows the command; without `\r\n+CIPSEND:` after the payload the result is 0; the result fits an int16 |
| Sim7600Spec.SendReplyReads | src/TinyGsmClientSIM7600.h:692-698 | after a `+CIPSEND: <mux>,<requested>,<sent>` line, `modemSend` returns `sent` cast to int16 (so `sent` itself when it is below 32768) and leaves the input after that line |
| Sim7600Spec.ConfirmationReads | src/TinyGsmClientSIM7600.h:695-698 | skipping two fields and reading the rest of the line with `toInt` yields the third field of the confirmation and the input after its line |
| Sim7600Spec.Payload | src/TinyGsmClientSIM7600.h:719-731 | the byte loop yields exactly `len_requested` bytes |
| Sim7600Spec.FillingStep | src/TinyGsmClientSIM7600.h:719-732 | each round of the loop takes one byte (raw, or two hex digits) and puts it into the FIFO of that mux |
| Sim7600Spec.ModemRead | src/TinyGsmClientSIM7600.h:701-710 | without a `+CIPRXGET:` header, `modemRead` returns 0, has sent only the read command, and changes only notification fields |
| Sim7600Spec.Filled | src/TinyGsmClientSIM7600.h:719-735 | after the byte loop, `sock_available` is `len_confirmed` as uint16; the flags of that client and every other client are unchanged; the input continues after the payload |
| Sim7600Spec.ModemReadFills | src/TinyGsmClientSIM7600.h:711-737 | with the header, it returns `len_requested`; the FIFO holds its old bytes followed by the payload bytes that fit; `sock_available` is `len_confirmed` before the final `waitResponse`, which alone decides the state afterwards |
| Sim7600Spec.ModemReadKeepsConfirmed | src/TinyGsmClientSIM7600.h:735-736 | when "OK" follows the payload, `sock_available` is still `len_confirmed` once `modemRead` returns, and the input after the "OK" is left |
| Sim7600Spec.ScanReadsOk | src/TinyGsmClientSIM7600.h:798-813 | a default `waitResponse` that reads "OK\r\n" first returns 1 with that text and changes nothing else |
| Sim7600Spec.LinkStep | src/TinyGsmClientSIM7600.h:762-764 | one field of the link list sets the connection flag of that mux to "field is non-zero", and nothing else |
| Sim7600Spec.LinkStatesRead | src/TinyGsmClientSIM7600.h:759-765 | after the loop, every registered mux holds whether its own field read as non-zero |
| Sim7600Spec.ModemGetConnected | src/TinyGsmClientSIM7600.h:756-767 | `modemGetConnected` with the braces and the bound as intended keeps every client registered; see GetConnectedFollowsReply for its result |
| Sim7600Spec.GetConnectedFollowsReply | src/TinyGsmClientSIM7600.h:756-767 | the intended `modemGetConnected` reports a link as connected only if the reply header came and the field of that link read as non-zero |
| Sim7600Spec.ModemGetConnectedAsWritten | src/TinyGsmClientSIM7600.h:759-765 | as written, the loop runs, and indexes past the table, exactly when the reply header is missing |
| Sim7600Spec.AsWrittenIgnoresReply | src/TinyGsmClientSIM7600.h:759-766 | as written, a client not marked connected is never reported connected, whatever the modem answers |
| Sim7600Spec.ModemGetAvailable | src/TinyGsmClientSIM7600.h:740-754 | when the count is 0, the connection flag of the mux is refreshed from `modemGetConnected` |
| Sim7600Spec.AvailableReply | src/TinyGsmClientSIM7600.h:741-749 | the query keeps every client registered |
| Sim7600.GsmClient.constructor | src/TinyGsmClientSIM7600.h:61-78 | the new client is registered at its mux with fresh fields; all other entries are unchanged |
| Sim7600.GsmClient.Stop | src/TinyGsmClientSIM7600.h:91-96 | the modem state afterwards is ClientStop of the old state |
| Sim7600.GsmClient.Connect | src/TinyGsmClientSIM7600.h:81-87 | the result and the modem state afterwards are ClientConnect of the old state |
| Sim7600.Modem.constructor | src/TinyGsmClientSIM7600.h:127-131 | the table starts empty on the given stream |
| Sim7600.Modem.HandleRxGet | src/TinyGsmClientSIM7600.h:814-825 | performs RxGetNote on the objects |
| Sim7600.Modem.HandleReceive | src/TinyGsmClientSIM7600.h:826-834 | performs ReceiveNote on the objects |
| Sim7600.Modem.HandleClose | src/TinyGsmClientSIM7600.h:835-842 | performs CloseNote on the objects |
| Sim7600.Modem.WaitResponse | src/TinyGsmClientSIM7600.h:779-857 | the index, the data and the state afterwards are those of Scan |
| Sim7600.Modem.WaitIndex | src/TinyGsmClientSIM7600.h:859-872 | the overloads return Scan's index and leave Scan's state |
| Sim7600.Modem.ModemConnect | src/TinyGsmClientSIM7600.h:667-683 | the result and the state afterwards are those of Sim7600Spec.ModemConnect |
| Sim7600.Modem.ModemSend | src/TinyGsmClientSIM7600.h:685-699 | the result and the state afterwards are those of Sim7600Spec.ModemSend |
| Sim7600.Modem.ReadReplyHeader | src/TinyGsmClientSIM7600.h:717-720 | the two skipped fields and the two lengths are read as ReadHeader says |
| Sim7600.Modem.FillRx | src/TinyGsmClientSIM7600.h:719-732 | after n rounds the state is Filling of the old state |
| Sim7600.Modem.ModemRead | src/TinyGsmClientSIM7600.h:701-738 | the result and the state afterwards are those of Sim7600Spec.ModemRead |
| Sim7600.Modem.ModemGetAvailable | src/TinyGsmClientSIM7600.h:740-754 | the result and the state afterwards are those of Sim7600Spec.ModemGetAvailable |
| Sim7600.Modem.ReadLink | src/TinyGsmClientSIM7600.h:762-764 | performs LinkStep |
| Sim7600.Modem.ReadLinks | src/TinyGsmClientSIM7600.h:759-765 | performs the ten LinkSteps in order |
| Sim7600.Modem.ModemGetConnected | src/TinyGsmClientSIM7600.h:756-767 | the result and the state afterwards are those of Sim7600Spec.ModemGetConnected |
| Sim800Spec.FreshSock | TinyGsmClient.h:104-111 | a client just set up is disconnected, has 0 available and an empty 64-byte FIFO |
| Sim800Spec.EmptyTable | TinyGsmClient.h:668 | the table starts with no client at any of the five muxes |
| Sim800Spec.Register | TinyGsmClient.h:104-111 | `init` places a fresh client at its mux and leaves every other entry as it was |
| Sim800Spec.ClosedMuxReads | TinyGsmClient.h:626-630 | for "...\r\n<mux>,<text>CLOSED\r\n", the text between the last CRLF and the next comma reads back as the mux |
| Sim800Spec.NoteClosed | TinyGsmClient.h:631-634 | a non-zero mux that holds a client is disconnected; mux 0, or an empty entry, leaves the table as it was; other entries are untouched |
| Sim800Spec.NoteClosedAsWritten | TinyGsmClient.h:631-633 | as written, the write goes through `sockets[mux]` for every non-zero mux, and fails exactly when that entry holds no client |
| Sim800Spec.ClosedOutsideTable | TinyGsmClient.h:626-633 | "\r\n7, CLOSED\r\n" yields mux 7, past the five-entry table |
| Sim800Spec.Scan | TinyGsmClient.h:600-641 | the index is at most 5; on index 0 the data is emptied; a non-zero index is the first matching terminator; a pending data flag is only ever raised by consuming input; only notification fields change |
| Sim800Spec.ScanDropsZeros | TinyGsmClient.h:602-603 | zero bytes are skipped and never reach the accumulated data |
| Sim800Spec.ScanAppends | TinyGsmClient.h:601-616 | a byte that completes neither a terminator nor a notification is appended and the scan goes on |
| Sim800Spec.ScanMatchesHere | TinyGsmClient.h:605-616 | the scan stops at the byte that completes a terminator and leaves the rest of the line unread |
| Sim800Spec.ScanStopsAtMatch | TinyGsmClient.h:605-616 | over a run of non-zero bytes that completes a terminator only at its last byte, the scan consumes exactly that run |
| Sim800Spec.ScanTakesClosed | TinyGsmClient.h:626-636 | after "CLOSED\r\n" the scan disconnects the parsed mux; the data is reset only when that mux is non-zero |
| Sim800Spec.ScanTakesRxGet | TinyGsmClient.h:617-625 | after a mode-1 "\r\n+CIPRXGET:" the scan remembers the mux, raises the data flag and restarts with empty data |
| Sim800Spec.Send | TinyGsmClient.h:577-581 | `sendAT` appends exactly the command line and changes nothing else |
| Sim800Spec.Response | TinyGsmClient.h:584-650 | the index and data are those of the scan; after a mode-1 `+CIPRXGET`, the mux's `sock_available` becomes what `modemGetAvailable` returns; otherwise the state is the scan's; FIFOs are never touched |
| Sim800Spec.RefreshAsWritten | TinyGsmClient.h:646-648 | as written, the refresh fails exactly when the mux from the notification holds no client |
| Sim800Spec.RefreshOutsideTable | TinyGsmClient.h:646-648 | a notification for mux 7 makes the refresh index past the table |
| Sim800Spec.Poll | TinyGsmClient.h:538-547 | one round of the two-round poll keeps the FIFOs and only appends output |
| Sim800Spec.Polls | TinyGsmClient.h:537-548 | the count found fits a size_t |
| Sim800Spec.ModemGetAvailable | TinyGsmClient.h:535-553 | sends the query first, keeps every FIFO, and returns a size_t |
| Sim800Spec.GetAvailableRefreshesConnected | TinyGsmClient.h:549-551 | when both rounds end and the count is 0, the mux's connection flag is set from `modemGetConnected` |
| Sim800Spec.ModemGetConnected | TinyGsmClient.h:555-560 | sends `+CIPSTATUS=<mux>` first and keeps every FIFO |
| Sim800Spec.GetConnectedIffConnected | TinyGsmClient.h:555-560 | `modemGetConnected` is true if and only if the reply ends in ",\"CONNECTED\"" |
| Sim800Spec.Maintain | TinyGsmClient.h:231-235 | `maintain` consumes the pending input, keeps every FIFO and only appends output |
| Sim800Spec.ModemConnect | TinyGsmClient.h:478-485 | sends `+CIPSTART` first and keeps every FIFO |
| Sim800Spec.ConnectIffConnectOk | TinyGsmClient.h:478-485 | `modemConnect` is true if and only if the reply ends in "CONNECT OK\r\n"; "CONNECT FAIL", "ALREADY CONNECT" and a timeout give false |
| Sim800Spec.ClientConnect | TinyGsmClient.h:114-118 | `connect` returns 1 or 0, as `modemConnect` answered after the FIFO was cleared; `sock_connected` is true exactly when it returns 1 |
| Sim800Spec.ClientStop | TinyGsmClient.h:132-136 | `stop` sends `+CIPCLOSE=<mux>` and keeps the FIFO; the client ends disconnected unless a data notification arrives during the wait |
| Sim800Spec.ModemSend | TinyGsmClient.h:487-499 | without a ">" prompt the result is -1 and the payload is not written; after the prompt the payload follows; a missing "DATA ACCEPT:" also gives -1 |
| Sim800Spec.ClientWrite | TinyGsmClient.h:138-141 | `write` returns a size_t and keeps every FIFO |
| Sim800Spec.WriteFailureAsSizeT | TinyGsmClient.h:138-141 | a refused send, -1 as size_t, reaches the caller as 2^32 - 1 |
| Sim800Spec.ReadHeader | TinyGsmClient.h:513-516 | the requested length is a size_t |
| Sim800Spec.AwaitedByte | TinyGsmClient.h:519-528 | a payload byte is taken once the line has one; at the end of the line none comes |
| Sim800Spec.Payload | TinyGsmClient.h:518-530 | the loop yields at most `len` bytes, and fewer only where the line ends |
| Sim800Spec.FillingStep | TinyGsmClient.h:518-530 | each round waits for a byte (raw or two hex digits) and puts it into the FIFO of that mux |
| Sim800Spec.Filled | TinyGsmClient.h:516-530 | after the header, `sock_available` holds the second length |
| Sim800Spec.ModemRead | TinyGsmClient.h:501-512 | without a `+CIPRXGET:` header, `modemRead` returns 0 and keeps every FIFO |
| Sim800Spec.ModemReadFills | TinyGsmClient.h:501-533 | with the header, it returns the requested length and the FIFO holds its old bytes followed by the payload bytes that fit |
| Sim800Spec.ReadLoop | TinyGsmClient.h:156-172 | the loop never takes more than `size` and only adds to what it has; it stops short only when the FIFO is empty and nothing is available (or the line ended) |
| Sim800Spec.ClientRead | TinyGsmClient.h:154-174 | `read` returns at most `size` bytes; fewer only when the FIFO is empty and `sock_available` is 0 (or the line ended) |
| Sim800Spec.ReadLoopTakes | TinyGsmClient.h:158-164 | with bytes in the FIFO, the loop takes `min(size - cnt, rx.size())` of them in FIFO order |
| Sim800Spec.ReadLoopAsks | TinyGsmClient.h:166-171 | with an empty FIFO it polls, then calls `modemRead(rx.free(), mux)` if and only if `sock_available > 0`, and otherwise stops |
| Sim800Spec.ReadDeliversBufferFirst | TinyGsmClient.h:154-174 | the bytes already in the FIFO are delivered first and in order |
| Sim800Spec.ReadFromBuffer | TinyGsmClient.h:154-164 | a read the FIFO can serve returns its first `size` bytes and leaves the rest |
| Sim800Spec.ReadLoopDone | TinyGsmClient.h:156 | the loop stops once `cnt == size` |
| Sim800Spec.ClientReadByte | TinyGsmClient.h:176-182 | `read()` returns the first FIFO byte when there is one; -1 only when no byte could be had |
| Sim800Spec.ClientAvailable | TinyGsmClient.h:147-152 | `available` is `rx.size() + sock_available`, and polls only when the FIFO is empty |
| Sim800Spec.ClientConnected | TinyGsmClient.h:187-192 | `connected` is false exactly when `available` is 0 and `sock_connected` is false |
| Sim800Spec.ClientConnectIp | TinyGsmClient.h:120-130 | sends `+CIPSTART` with the dotted quad of the address; the result is 1 exactly when `modemConnect` to that text (after the FIFO is emptied) succeeds, and matches `sock_connected` |
| Sim800Spec.GprsSteps | TinyGsmClient.h:370-445 | the steps after `+CIPSHUT`: the user and password steps only when given, and the last nine, from `+SAPBR=2,1`, mandatory |
| Sim800Spec.StepRun | TinyGsmClient.h:372-445 | a step sends its command and passes if it is optional or its reply is OK |
| Sim800Spec.GprsDisconnect | TinyGsmClient.h:448-451 | `gprsDisconnect` is true if and only if `+CIPSHUT` is answered OK |
| Sim800Spec.GprsConnect | TinyGsmClient.h:370-446 | true if and only if every mandatory step is answered OK; on the first failure the result is that of the steps up to it |
| Sim800Spec.ChainKeepsBuffers | TinyGsmClient.h:370-446 | a command chain keeps every FIFO and only appends output |
| Sim800.GsmClient.constructor | TinyGsmClient.h:100-111 | the new client is registered at its mux with fresh fields; all other entries are unchanged |
| Sim800.GsmClient.Connect | TinyGsmClient.h:114-118 | the result and the modem state afterwards are ClientConnect of the old state |
| Sim800.GsmClient.ConnectIp | TinyGsmClient.h:120-130 | the result and the modem state afterwards are ClientConnectIp of the old state |
| Sim800.GsmClient.Stop | TinyGsmClient.h:132-136 | the modem state afterwards is ClientStop of the old state |
| Sim800.GsmClient.Write | TinyGsmClient.h:138-141 | the result and the modem state afterwards are ClientWrite of the old state |
| Sim800.GsmClient.WriteByte | TinyGsmClient.h:143-145 | writing one byte is ClientWrite of that one byte |
| Sim800.GsmClient.Available | TinyGsmClient.h:147-152 | the result and the modem state afterwards are ClientAvailable of the old state |
| Sim800.GsmClient.Read | TinyGsmClient.h:154-174 | the bytes and the modem state afterwards are ClientRead of the old state |
| Sim800.GsmClient.ReadStep | TinyGsmClient.h:157-171 | one round of the loop: it either finishes ReadLoop or leaves a state from which ReadLoop gives the same result |
| Sim800.GsmClient.ReadByte | TinyGsmClient.h:176-182 | the result and the modem state afterwards are ClientReadByte of the old state |
| Sim800.GsmClient.Connected | TinyGsmClient.h:187-192 | the result and the modem state afterwards are ClientConnected of the old state |
| Sim800.Modem.constructor | TinyGsmClient.h:84-86 | the table starts empty on the given stream |
| Sim800.Modem.SendAT | TinyGsmClient.h:577-581 | performs Send on the stream |
| Sim800.Modem.HandleRxGet | TinyGsmClient.h:617-625 | reads the mode and the mux of a `+CIPRXGET` notification as RxGetNote says |
| Sim800.Modem.HandleClosed | TinyGsmClient.h:631-634 | performs NoteClosed on the objects |
| Sim800.Modem.WaitResponse | TinyGsmClient.h:584-650 | the index, the data and the state afterwards are those of Response |
| Sim800.Modem.WaitIndex | TinyGsmClient.h:652-664 | the overloads return Response's index and leave Response's state |
| Sim800.Modem.Maintain | TinyGsmClient.h:231-235 | performs Sim800Spec.Maintain |
| Sim800.Modem.Poll | TinyGsmClient.h:538-547 | performs one round of Sim800Spec.Poll |
| Sim800.Modem.ModemGetAvailable | TinyGsmClient.h:535-553 | the result and the state afterwards are those of Sim800Spec.ModemGetAvailable |
| Sim800.Modem.ModemGetConnected | TinyGsmClient.h:555-560 | the result and the state afterwards are those of Sim800Spec.ModemGetConnected |
| Sim800.Modem.ModemConnect | TinyGsmClient.h:478-485 | the result and the state afterwards are those of Sim800Spec.ModemConnect |
| Sim800.Modem.ModemSend | TinyGsmClient.h:487-499 | the result and the state afterwards are those of Sim800Spec.ModemSend |
| Sim800.Modem.ReadReplyHeader | TinyGsmClient.h:513-516 | reads the two lengths as ReadHeader says |
| Sim800.Modem.FillRx | TinyGsmClient.h:518-530 | after n rounds the state is Filling of the old state |
| Sim800.Modem.ModemRead | TinyGsmClient.h:501-533 | the result and the state afterwards are those of Sim800Spec.ModemRead |
| Sim800.Modem.RunStep | TinyGsmClient.h:398-445 | performs StepRun |
| Sim800.Modem.RunSteps | TinyGsmClient.h:398-445 | runs the steps fail-fast, as Chain of StepRun |
| Sim800.Modem.GprsDisconnect | TinyGsmClient.h:448-451 | the result and the state afterwards are those of Sim800Spec.GprsDisconnect |
| Sim800.Modem.GprsConnect | TinyGsmClient.h:370-446 | the result and the state afterwards are those of Sim800Spec.GprsConnect |
| XBeeSpec.FreshSock | TinyGsmClientXBee.h:55-63 | a client just set up is disconnected with an empty 256-byte FIFO |
| XBeeSpec.EmptyTable | TinyGsmClientXBee.h:37-39 | the table starts with no client |
| XBeeSpec.Register | TinyGsmClientXBee.h:55-63 | `init` places a fresh client at its mux and leaves the other entry as it was |
| XBeeSpec.RegisterAsWritten | TinyGsmClientXBee.h:55-60 | as written, registration succeeds only for a mux inside the declared table |
| XBeeSpec.DefaultClientOutsideDeclaredTable | TinyGsmClientXBee.h:51-60 | the default mux 1 is outside the one-entry table as declared, but inside the model's table |
| XBeeSpec.PayloadTakesArrivals | TinyGsmClientXBee.h:445-448 | where the `len` bytes are on the line, the loop takes exactly those bytes in arrival order and leaves the rest |
| XBeeSpec.NoteData | TinyGsmClientXBee.h:437-450 | `+IPD` bytes are put into the FIFO of the client at that mux only, keeping its connection flag; an unregistered mux leaves the table as it was |
| XBeeSpec.NoteDataAsWritten | TinyGsmClientXBee.h:440-448 | as written, the put succeeds exactly when the mux holds a client |
| XBeeSpec.DataOutsideTable | TinyGsmClientXBee.h:437-448 | `+IPD` for mux 3, or for an empty mux 0, has no client to write to |
| XBeeSpec.IpdNoteReads | TinyGsmClientXBee.h:437-450 | "<mux>,<len>:" followed by len bytes puts exactly those bytes, in order, at that mux and consumes exactly the notification |
| XBeeSpec.FilledStep | TinyGsmClientXBee.h:445-448 | each round waits for a byte and puts it at the mux |
| XBeeSpec.NoteClosed | TinyGsmClientXBee.h:451-454 | "1,CLOSED" clears only the connection flag of the client at mux 1 |
| XBeeSpec.Scan | TinyGsmClientXBee.h:403-466 | the index is at most 5; on index 0 the data is emptied; a non-zero index is the first matching terminator; each call consumes input; only notification fields change |
| XBeeSpec.Response | TinyGsmClientXBee.h:403-466 | the wait writes nothing, consumes input and changes only notification fields |
| XBeeSpec.ScanDropsZeros | TinyGsmClientXBee.h:419-420 | zero bytes are skipped and never reach the accumulated data |
| XBeeSpec.ScanAppends | TinyGsmClientXBee.h:419-436 | a byte that completes neither a terminator nor a notification is appended and the scan goes on |
| XBeeSpec.ScanMatchesHere | TinyGsmClientXBee.h:422-436 | the scan stops at the byte that completes a terminator and leaves the rest of the line unread |
| XBeeSpec.ScanStopsAtMatch | TinyGsmClientXBee.h:422-436 | over a run of non-zero bytes that completes a terminator only at its last byte, the scan consumes exactly that run |
| XBeeSpec.ScanTakesIpd | TinyGsmClientXBee.h:437-450 | after "\r+IPD," the wait takes the payload, empties the data and returns 0 at once |
| XBeeSpec.ScanTakesClosed | TinyGsmClientXBee.h:451-454 | after "\r1,CLOSED\r" the scan disconnects mux 1 and goes on with empty data |
| XBeeSpec.Send | TinyGsmClientXBee.h:375-381 | `sendAT` appends exactly "AT", the arguments and a CR |
| XBeeSpec.CommandMode | TinyGsmClientXBee.h:383-388 | `commandMode` writes "+++" and is true if and only if the second wait returns 1 |
| XBeeSpec.WriteChanges | TinyGsmClientXBee.h:390-395 | `writeChanges` writes "ATWR\r" then "ATAC\r" and changes only notification fields |
| XBeeSpec.ExitCommand | TinyGsmClientXBee.h:397-400 | `exitCommand` writes "ATCN\r" and changes only notification fields |
| XBeeSpec.NetworkConnect | TinyGsmClientXBee.h:290-317 | every path ends with "ATCN": the output is one of three sequences, each closed by `exitCommand`; true if and only if `ID` and `PK` were both answered OK, and then the changes were stored |
| XBeeSpec.FactoryDefault | TinyGsmClientXBee.h:179-186 | writes "+++", "ATRE", the store commands and "ATCN"; true if and only if `RE` was answered OK |
| XBeeSpec.RegCode | TinyGsmClientXBee.h:24-31 | every status has a code from 0 to 5 |
| XBeeSpec.RegCodeInjective | TinyGsmClientXBee.h:24-31 | no two statuses share a code |
| XBeeSpec.RegStatusOf | TinyGsmClientXBee.h:253-265 | "0x00" is home; "0x13" and "0x2A" unregistered; six codes searching; "0x24" denied; everything else unknown; roaming never |
| XBeeSpec.GetRegistrationStatus | TinyGsmClientXBee.h:246-266 | enters command mode, asks `AI`, leaves command mode, and maps the trimmed reply line by RegStatusOf |
| XBeeSpec.ModemGetConnected | TinyGsmClientXBee.h:513-519 | brackets `AI` in command mode; true if and only if the wait after `AI` ends on the terminator "0" |
| XBeeSpec.AddressTextsReadBack | TinyGsmClientXBee.h:492-503 | the `DL` dotted quad parses back to the address and the `DE` hex text reads back as the port |
| XBeeSpec.ModemConnectIp | TinyGsmClientXBee.h:492-506 | writes exactly `DL` with the dotted quad and `DE` with the hex port; the result is the raw index of the second wait |
| XBeeSpec.ModemConnect | TinyGsmClientXBee.h:483-490 | writes `LA <host>`, then connects to the address read back from the reply line |
| XBeeSpec.ConnectsToEchoedAddress | TinyGsmClientXBee.h:483-490 | when the modem answers `LA` with a dotted quad, `modemConnect(host)` is `modemConnect(ip)` on that address |
| XBeeSpec.DottedQuadTrimmed | TinyGsmClientXBee.h:535-542 | `streamReadUntil`'s trim leaves a dotted quad intact |
| XBeeSpec.ModemSend | TinyGsmClientXBee.h:508-511 | `modemSend` writes the payload and returns its length unchanged |
| XBeeSpec.Maintain | TinyGsmClientXBee.h:173-177 | `maintain` writes nothing, consumes input and changes only notification fields |
| XBeeSpec.Opening | TinyGsmClientXBee.h:66-70 | clears the FIFO, enters command mode, and keeps the client registered |
| XBeeSpec.Closing | TinyGsmClientXBee.h:71-73 | stores the changes and leaves command mode; the result is 1 exactly when the reply index was 1, and the client is connected only then |
| XBeeSpec.ClosingAsWritten | TinyGsmClientXBee.h:71-73 | as written, any non-zero reply index, including ERROR (2), counts as connected |
| XBeeSpec.ErrorReplyConnects | TinyGsmClientXBee.h:504-505 | an ERROR reply connects as written but not in the corrected model |
| XBeeSpec.ClientConnect | TinyGsmClientXBee.h:66-74 | `connect(host)` is bracketed by "+++" … "ATWR/ATAC" … "ATCN"; its result is 1 exactly when `modemConnect` returned 1 |
| XBeeSpec.ClientConnectIp | TinyGsmClientXBee.h:76-84 | `connect(ip)` is bracketed the same way; its result is 1 exactly when `modemConnect(ip)` returned 1 |
| XBeeSpec.ClientStop | TinyGsmClientXBee.h:86-88 | `stop` only clears `sock_connected`: nothing is sent or read, and the FIFO and other entries are unchanged |
| XBeeSpec.ClientWrite | TinyGsmClientXBee.h:90-98 | `write` writes the payload, returns its length, and changes nothing else |
| XBeeSpec.ClientAvailable | TinyGsmClientXBee.h:100-106 | `available` is `rx.size()`; it polls with `maintain` only when the FIFO is empty |
| XBeeSpec.ReadLoop | TinyGsmClientXBee.h:110-124 | the loop never takes more than `size`; it stops short only where the line ends |
| XBeeSpec.ClientRead | TinyGsmClientXBee.h:108-126 | `read` returns exactly `size` bytes unless the line ends |
| XBeeSpec.ReadLoopTakes | TinyGsmClientXBee.h:112-118 | with bytes in the FIFO, the loop takes `min(size - cnt, rx.size())` of them in FIFO order |
| XBeeSpec.ReadLoopWaits | TinyGsmClientXBee.h:119-123 | with an empty FIFO it keeps calling `maintain` |
| XBeeSpec.ReadLoopDone | TinyGsmClientXBee.h:111 | the loop stops once `cnt == size` |
| XBeeSpec.ReadDeliversBufferFirst | TinyGsmClientXBee.h:108-126 | the bytes already in the FIFO are delivered first and in order |
| XBeeSpec.ClientReadByte | TinyGsmClientXBee.h:128-134 | `read()` returns the first FIFO byte when there is one; -1 only at the end of the line |
| XBeeSpec.ClientConnected | TinyGsmClientXBee.h:139-144 | `connected` is true if and only if `available` is non-zero or `sock_connected` is set |
| XBee.GsmClient.constructor | TinyGsmClientXBee.h:51-63 | the new client is registered at its mux with fresh fields; the other entry is unchanged |
| XBee.GsmClient.Connect | TinyGsmClientXBee.h:66-74 | the result and the modem state afterwards are ClientConnect of the old state |
| XBee.GsmClient.ConnectIp | TinyGsmClientXBee.h:76-84 | the result and the modem state afterwards are ClientConnectIp of the old state |
| XBee.GsmClient.Stop | TinyGsmClientXBee.h:86-88 | the modem state afterwards is ClientStop of the old state |
| XBee.GsmClient.Write | TinyGsmClientXBee.h:90-92 | the result and the modem state afterwards are ClientWrite of the old state |
| XBee.GsmClient.WriteByte | TinyGsmClientXBee.h:94-96 | writing one byte is ClientWrite of that one byte |
| XBee.GsmClient.Available | TinyGsmClientXBee.h:100-106 | the result and the modem state afterwards are ClientAvailable of the old state |
| XBee.GsmClient.Read | TinyGsmClientXBee.h:108-126 | the bytes and the modem state afterwards are ClientRead of the old state |
| XBee.GsmClient.ReadByte | TinyGsmClientXBee.h:128-134 | the result and the modem state afterwards are ClientReadByte of the old state |
| XBee.GsmClient.Connected | TinyGsmClientXBee.h:139-144 | the result and the modem state afterwards are ClientConnected of the old state |
| XBee.Modem.constructor | TinyGsmClientXBee.h:37-39 | the table starts empty on the given stream |
| XBee.Modem.SendAT | TinyGsmClientXBee.h:375-381 | performs Send on the stream |
| XBee.Modem.StreamReadUntil | TinyGsmClientXBee.h:535-542 | reads up to the delimiter and trims, as ReadTrimmed says |
| XBee.Modem.FillRx | TinyGsmClientXBee.h:445-448 | after n rounds the state is Filled of the old state |
| XBee.Modem.HandleIpd | TinyGsmClientXBee.h:437-450 | performs IpdNote on the objects |
| XBee.Modem.HandleClosed | TinyGsmClientXBee.h:451-454 | performs NoteClosed on the objects |
| XBee.Modem.WaitResponse | TinyGsmClientXBee.h:403-466 | the index, the data and the state afterwards are those of Response |
| XBee.Modem.WaitIndex | TinyGsmClientXBee.h:468-481 | the overloads return Response's index and leave Response's state |
| XBee.Modem.Maintain | TinyGsmClientXBee.h:173-177 | performs XBeeSpec.Maintain |
| XBee.Modem.CommandMode | TinyGsmClientXBee.h:383-388 | the result and the state afterwards are those of XBeeSpec.CommandMode |
| XBee.Modem.WriteChanges | TinyGsmClientXBee.h:390-395 | performs XBeeSpec.WriteChanges |
| XBee.Modem.ExitCommand | TinyGsmClientXBee.h:397-400 | performs XBeeSpec.ExitCommand |
| XBee.Modem.NetworkConnect | TinyGsmClientXBee.h:290-317 | the result and the state afterwards are those of XBeeSpec.NetworkConnect |
| XBee.Modem.FactoryDefault | TinyGsmClientXBee.h:179-186 | the result and the state afterwards are those of XBeeSpec.FactoryDefault |
| XBee.Modem.GetRegistrationStatus | TinyGsmClientXBee.h:246-266 | the status and the state afterwards are those of XBeeSpec.GetRegistrationStatus |
| XBee.Modem.ModemGetConnected | TinyGsmClientXBee.h:513-519 | the result and the state afterwards are those of XBeeSpec.ModemGetConnected |
| XBee.Modem.ModemConnect | TinyGsmClientXBee.h:483-490 | the result and the state afterwards are those of XBeeSpec.ModemConnect |
| XBee.Modem.ModemConnectIp | TinyGsmClientXBee.h:492-506 | the result and the state afterwards are those of XBeeSpec.ModemConnectIp |
| XBee.Modem.Opening | TinyGsmClientXBee.h:66-70 | performs XBeeSpec.Opening |
| XBee.Modem.Closing | TinyGsmClientXBee.h:71-73 | the result and the state afterwards are those of XBeeSpec.Closing |
| XBee.Modem.ModemSend | TinyGsmClientXBee.h:508-511 | the result and the state afterwards are those of XBeeSpec.ModemSend |

## Left out

- Time. Timeouts, `millis()`, `delay()` and the one-second guard of `commandMode` are not modelled.
  - A wait or a timed read ends at a `SILENCE` element of the line, or at its end.
  - The timeout values themselves are not modelled.
- Busy-waits. Three loops wait for a byte: the SIM800 `modemRead` byte loop, the XBee `+IPD` loop, and the XBee `read` loop.
  - At the end of the line, the source would wait for ever. The model stops there instead.
  - Sim800Spec.Payload, XBeeSpec.Payload, XBeeSpec.ReadLoop and XBeeSpec.ClientRead state their lengths as "exactly `len`/`size`, unless the line ends" for this reason.
- Sim800Spec.ReadLoop: the SIM800 `read` loop (TinyGsmClient.h:157-171) never ends in the source while `sock_available > 0` and the modem stays silent, because each `modemRead` then returns 0. The model stops once the line has ended. Sim800Spec.ClientRead and Sim800.GsmClient.Read/ReadStep stop there too, so "fewer than `size` bytes" also covers this stop.
- XBeeSpec.IpdNote: a negative `+IPD` length makes `while (len--)` run (practically) for ever in the source; the model runs no round.
- Sim7600Spec.ModemGetConnected: its own contract only keeps the registrations. What it reports is stated by GetConnectedFollowsReply, in one direction only.
- Sim800Spec.ClientStop: the client ends disconnected except when a data notification arrives during the wait after `+CIPCLOSE`. The refresh it triggers may then set the flag again.
- `TinyGsmFifo` is not part of this model. The FIFO is a bounded queue of bytes. `put` on a full FIFO drops the byte.
- `String::toInt` reads optional white space, an optional sign and then decimal digits. The overflow of `atol` on digit runs beyond 32 bits is not modelled.
- `IPAddress::fromString` on text that is not four decimal octets gives 0.0.0.0 in the model.
- The default constructor `GsmClient()` is not modelled. In SIM800 it calls `init(NULL, -1)` and dereferences null; in the others it leaves the fields unset.
- Aliasing between clients.
  - A client is usable in the model only while the table entry of its mux still points at it.
  - A second client registered at the same mux takes the entry over.
- Zeroed tables. The SIM800 and XBee constructors do not clear the table; the model starts it empty, as the zeroed static storage of these objects does.
- XBee table size. The XBee table has two entries in the model so that the default mux 1 has somewhere to go (see Findings). Only the writes at index 1 are out of bounds in the source.
- SIM7600 client macros.
  - `TINY_GSM_CLIENT_WRITE`, `..._AVAILABLE_WITH_BUFFER_CHECK`, `..._READ_WITH_BUFFER_CHECK`, `..._PEEK_FLUSH_CONNECTED`, the connect overloads and `TINY_GSM_MODEM_STREAM_UTILITIES` come from TinyGsmCommon.h, which is not part of this model.
  - The SIM7600 `sendAT` is taken in the form of TinyGsmClient.h.
  - SIM7600 `write`, `available`, `read` and `connected` are not modelled.
- SIM7600 `stop(maxWaitMs)`: `TINY_GSM_CLIENT_DUMP_MODEM_BUFFER` and the wait time are not modelled.
- XBee operations not modelled: `gprsConnect`, `restart`, `getSimCCID`, `getIMEI`, `getSignalQuality`, `getOperator`, `sendSMS`, `waitForNetwork` and `networkDisconnect`.
  - These are peripheral queries, or they rest on time.
- Peripheral code: SIM/PIN, USSD, SMS, GPS, battery, power pins, `autoBaud`, `restart`, and the `DBG` output.
- `peek` and `flush`: the stream's flush changes nothing in the model.

## Findings

| source | as written | input that shows it | evidently intended | confidence | as-written member | corrected member |
|---|---|---|---|---|---|---|
| src/TinyGsmClientSIM7600.h:759-765 | `return false` is commented out, so the `for` loop is the body of the `if`. It runs only when the `+CIPCLOSE:` header is missing, and then indexes `sockets[10]` of a 10-entry table. | the reply "+CIPCLOSE: 1,0,0,0,0,0,0,0,0,0\r\nOK\r\n" for the client at mux 0, not yet marked connected: the link state is never read, and false is returned | return false without the header; otherwise read the ten link states | not executed | Sim7600Spec.ModemGetConnectedAsWritten, Sim7600Spec.AsWrittenIgnoresReply | Sim7600Spec.ModemGetConnected, Sim7600Spec.GetConnectedFollowsReply |
| TinyGsmClient.h:631-633 | `sockets[mux]->sock_connected = false` for any non-zero mux parsed from the text | "\r\n7, CLOSED\r\n" gives mux 7, past the five-entry table | write only to an in-range registered client | not executed | Sim800Spec.NoteClosedAsWritten, Sim800Spec.ClosedOutsideTable | Sim800Spec.NoteClosed |
| TinyGsmClient.h:646-648 | `sockets[mux]->sock_available = modemGetAvailable(mux)` with the mux from the notification, unchecked | "\r\n+CIPRXGET: 1,7\r\n" during a wait | refresh only an in-range registered client | not executed | Sim800Spec.RefreshAsWritten, Sim800Spec.RefreshOutsideTable | Sim800Spec.Response |
| TinyGsmClientXBee.h:55-60 | `GsmClient* sockets[1]`, but the default mux is 1, so `init` writes `sockets[1]` | constructing a client with the default mux | a table with an entry for mux 1 | not executed | XBeeSpec.RegisterAsWritten, XBeeSpec.DefaultClientOutsideDeclaredTable | XBeeSpec.Register |
| TinyGsmClientXBee.h:437-450 | `sockets[mux]->rx.put` with the mux from the line, unchecked | "\r+IPD,3,1:x" | put only into an in-range registered client | not executed | XBeeSpec.NoteDataAsWritten, XBeeSpec.DataOutsideTable | XBeeSpec.NoteData |
| TinyGsmClientXBee.h:504-505 | `modemConnect` returns the raw wait index, and `connect` stores it as `sock_connected` | the `DE` command answered with "ERROR\r" (index 2): the client is marked connected | connected only on "OK" (index 1) | not executed | XBeeSpec.ClosingAsWritten, XBeeSpec.ErrorReplyConnects | XBeeSpec.Closing |
