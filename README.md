# IndustruinoEMeter core, modelled in Dafny

The firmware reads an electricity meter over RS-485, keeps a ring of log
messages, pushes readings and messages to a web service over HTTP, and
answers a small administrative web server. This project models four parts
of it and proves properties about each.

- **The message ring** (`msgbuf.cpp`, module `MsgRing`, file `msgbuf.dfy`).
  `MsgBufClass` is a class `MsgBuf` over a 300-byte `array`. Its ghost
  state comes in three parts:
  - the committed entries, each with text, a time stamp and an index;
  - the draft being written;
  - the circular contents, which the fields must describe.

  Each method is proved against specification functions:
  - `Evicted` for `ensureFreeSpace`;
  - `Removed` and `FindIdx` for `removeMessages`;
  - `EncodeFrom` and `Lines` for `encodeMessages`.

  Lemmas relate these functions: an encode followed by acknowledging its
  index drops exactly the lines sent, and the indices cycle through 1..99.
- **The meter poll engine** (`Mercury.cpp`, module `Mercury`, file
  `mercury.dfy`).
  - The request list is a sequence of `Req` values. The engine's globals
    are a class `Poller` with the frame buffer `buf` as an `array`.
  - `Req::check` is a method over the three phases.
  - `checkMercury`, `checkNext` and `reinitLoop` change the scheduler's
    state. Their contracts go through ghost predicates (`Outcome`,
    `Advanced`, `Restarted`).
  - The decoders (`bcd`, and the value and energy byte orders) come with
    round-trip lemmas.
- **The push client** (`push.cpp`, modules `Push` and `Destinations`, files
  `push.dfy` and `destinations.dfy`).
  - The shared state is a class `Net`: the item registry, the packet and
    response buffers, the response splitter and `clientBusy`.
  - The data destination is a class `DataDest` and the message destination
    a class `MsgDest`. The message destination works against the `MsgBuf`
    ring.
  - The splitter, the cookie matcher and the body parser are step
    functions, run over byte sequences by `Run`. Their lemmas state:
    - which bytes reach which parser;
    - when the verdict is `HTTP/1.1 200 OK`;
    - that a cookie is captured, and stays within `MAX_COOKIE_LEN`;
    - that an inbound message's index is parsed to its value.
- **The admin web server** (`HttpServer.cpp`, module `HttpServer`, file
  `http.dfy`).
  - The request line is collected by the class `Server` over the 257-byte
    `http_req` array.
  - `httpParse` and the route list are pure functions over the line and a
    newest-first sequence of routes.
  - `Scan` says where one tick's bytes leave the line. The lemma
    `ScanSpec` characterises it by the position of the first CR.

Shared pieces are in `common.dfy` (module `Bytes`):
- bytes;
- C strings as the text before the first NUL;
- decimal text;
- the 32-bit wrap of a C `long`;
- the formatter of FixNum.h, which is not part of this model, as a function
  parameter clipped to its width.

The socket, the serial line, the clock and the timers enter as parameters:
- `Wire`: whether the socket is connected, the bytes available and whether
  the timer has run out;
- `connects`, `accepts`, `elapsed`, `timedOut`, `periodDue`;
- `now`.

A request that goes out is returned as a structured `Http` value. `Request`
renders it to the bytes on the wire.

Several quirks of the C++ are modelled as written:
- `cur->updated & mask == 0` parses as `updated & (mask == 0)`, so no item is
  ever skipped for a non-zero mask (`Push.Skipped`).
- `composeDataPacket` returns the packet size truncated to a byte, so
  Content-Length is only correct below 256.
  - A packet whose size is a multiple of 256 is not sent.
  - Its items stay marked as being sent, until `markSent` runs on a later
    exchange.
- `pushTag` never advances its search pointer. The model returns `Hangs`
  when the newest item has another tag.
- The web server's second header is spelt `Connnection: close`.

## Model

| member | source | states |
|---|---|---|
| Bytes.Decimal | push.cpp:151 | `print(n, DEC)` writes at least one character, all decimal digits |
| Bytes.DecimalRoundTrip | push.cpp:151 | the decimal text of `n` reads back as `n` |
| Bytes.CStrCut | HttpServer.cpp:105 | a NUL at position `n` ends the C string there |
| Bytes.Format | msgbuf.cpp:89 | the formatted text never exceeds the width `formatDecimal` is given, and is the formatter's text when that fits |
| Bytes.ToInt32 | push.h:52 | a `long` holds the value reduced into the signed 32-bit range, congruent modulo 2^32 |
| Bytes.ToInt32Add | push.cpp:345-346 | wrapping after `*= 10` and again after `+= d` gives the wrap of the exact result |
| MsgRing.StampRoundTrip | msgbuf.cpp:47-51 | the four stamp bytes saved at commit reassemble to the clock value |
| MsgRing.ValueRoundTrip | msgbuf.cpp:84-87 | any four stored bytes are the stamp of the value they reassemble to |
| MsgRing.Layout | msgbuf.cpp:46-54 | an entry takes its text plus six bytes: NUL, four stamp bytes, index |
| MsgRing.WellFormedAt | msgbuf.cpp:52-54 | each entry is well formed and the next one carries the following index in 1..99 |
| MsgRing.WellFormedAppend | msgbuf.cpp:52-55 | committing an entry with the next index keeps the ring well formed |
| MsgRing.HeadOfFlatten | msgbuf.cpp:110-114 | the committed bytes start with the oldest entry, followed by the rest |
| MsgRing.HeadView | msgbuf.cpp:111-114 | at the head, the C string is the entry's text, then its four stamp bytes and its index byte |
| MsgRing.Evicted | msgbuf.cpp:8-11 | eviction drops head entries, leaves a suffix of at most FREE_LIMIT committed bytes, and stops as soon as that is reached |
| MsgRing.EvictStep | msgbuf.cpp:8-11 | one eviction is `removeMessages(MAX_MESSAGE_INDEX)`: it drops the oldest entry and shrinks the committed bytes |
| MsgRing.FindIdx | msgbuf.cpp:110-118 | the first entry carrying index `k`, or none, with no earlier entry carrying it |
| MsgRing.Line | msgbuf.cpp:72-94 | the line `1,<text>,<time>,<index>\n` of an entry is at most 17 bytes longer than its text |
| MsgRing.Writer | msgbuf.cpp:88-94 | the writer used by `encodeMessages` keeps every line within text length + 17 |
| MsgRing.EncodeFrom | msgbuf.cpp:68-97 | an encode emits at most the entries left, and no text when it emits none |
| MsgRing.EncodeText | msgbuf.cpp:68-97 | the encoded text is the lines of the emitted entries, in order |
| MsgRing.EncodeIndex | msgbuf.cpp:91 | the index handed back is that of the last entry emitted, or the one passed in when none was |
| MsgRing.EncodeFits | msgbuf.cpp:77-82 | the encoded text leaves room for the terminating NUL |
| MsgRing.EncodeSession | msgbuf.cpp:95-96 | an encode never goes past an entry carrying index 99 |
| MsgRing.EncodeMaximal | msgbuf.cpp:68-82 | an encode that stops early, not at index 99, stops because the next line would not fit |
| MsgRing.IndexAfter | msgbuf.cpp:52-54 | the index `k - j` entries later is the index advanced `k - j` steps around 1..99 |
| MsgRing.IndicesDistinct | msgbuf.cpp:52-54 | fewer than 99 consecutive entries never repeat an index |
| MsgRing.EntryBound | msgbuf.h:6 | at most 50 entries fit into the 300-byte ring |
| MsgRing.RemoveZero | msgbuf.cpp:105-122 | `removeMessages(0)` changes nothing: no entry carries index 0 |
| MsgRing.EncodeThenRemove | msgbuf.cpp:64-122 | acknowledging the index an encode returned drops exactly the entries that encode emitted |
| MsgRing.PutStep | msgbuf.cpp:26-34 | appending a non-NUL byte below the draft bound keeps the counters consistent with the contents |
| MsgRing.UndoStep | msgbuf.cpp:36-39 | dropping the draft keeps the counters consistent |
| MsgRing.SaveStep | msgbuf.cpp:41-58 | the six bytes written after the draft are the new entry's layout, and the counters stay consistent and within the ring |
| MsgRing.RemoveStep | msgbuf.cpp:105-122 | what `removeMessages` leaves is consistent and no larger |
| MsgRing.FlattenSuffix | msgbuf.cpp:110-118 | a suffix of the entries takes no more room than all of them |
| MsgRing.NextEntry | msgbuf.cpp:69-76 | after `n` entries the head is entry `n`, and consuming its layout leaves the rest |
| MsgRing.RemovedAt | msgbuf.cpp:110-117 | `removeMessages` stops after the first entry with index `k`, or after the head entry for MAX_MESSAGE_INDEX |
| MsgRing.RemovedNone | msgbuf.cpp:119-121 | when no entry matches, `_head` and `_size` are restored and nothing is removed |
| MsgRing.EncodeAdvance | msgbuf.cpp:69-97 | a fitting line of an entry with index other than 99 is followed by the encode of the rest |
| MsgRing.EncodeLast | msgbuf.cpp:95-96 | a fitting entry with index 99 ends the batch |
| MsgRing.EncodeStop | msgbuf.cpp:68-82 | with no entry left, or a next line that does not fit, the batch ends |
| MsgRing.MsgBuf.constructor | msgbuf.cpp:6 | the global ring starts empty, with no draft and index 0 |
| MsgRing.MsgBuf.PutInternal | msgbuf.cpp:13-17 | stores a byte at `_cur`, wrapping, and grows the draft region by one |
| MsgRing.MsgBuf.GetInternal | msgbuf.cpp:19-24 | takes the head byte, advances `_head` with wrap-around, shrinks `_size` |
| MsgRing.MsgBuf.EnsureFreeSpace | msgbuf.cpp:8-11 | the entries become `Evicted(old entries)`, with at most FREE_LIMIT committed bytes; the draft is kept |
| MsgRing.MsgBuf.PutChar | msgbuf.cpp:26-34 | NUL is ignored; the first byte of a draft evicts first; a byte beyond MAX_MESSAGE_SIZE is dropped; otherwise it is appended |
| MsgRing.MsgBuf.UndoMessage | msgbuf.cpp:36-39 | the draft is dropped and the committed entries are kept |
| MsgRing.MsgBuf.SaveMessage | msgbuf.cpp:41-58 | an oversized draft is dropped; otherwise the entry (draft, stamp of `now`, next index) is appended and the size grows by draft + 6 |
| MsgRing.MsgBuf.AppendEntry | msgbuf.cpp:46-57 | a fitting draft becomes the newest entry with the next index |
| MsgRing.MsgBuf.Commit | msgbuf.cpp:55-57 | the draft region joins the committed bytes |
| MsgRing.MsgBuf.Append5 | msgbuf.cpp:46-51 | the NUL and four stamp bytes are appended to the draft region |
| MsgRing.MsgBuf.Available | msgbuf.cpp:60-62 | true exactly when a committed entry is waiting |
| MsgRing.MsgBuf.SkipText | msgbuf.cpp:111 | consumes the head C string and its NUL |
| MsgRing.MsgBuf.SkipEntry | msgbuf.cpp:111-114 | consumes the head entry's layout and returns its index |
| MsgRing.MsgBuf.RemoveMessages | msgbuf.cpp:105-122 | the entries become `Removed(old entries, k)`; the draft and index are kept |
| MsgRing.MsgBuf.DropThrough | msgbuf.cpp:108-121 | the loop leaves the layout of `Removed(es, k)` in the ring |
| MsgRing.MsgBuf.ReadText | msgbuf.cpp:75-76 | copies the head text while room is left, consuming the NUL only when the whole text fit |
| MsgRing.MsgBuf.EncodeEntry | msgbuf.cpp:69-94 | exactly when it fits, the entry's line is written and the entry consumed; otherwise head and size are restored |
| MsgRing.MsgBuf.ReadTail | msgbuf.cpp:84-93 | reads the stamp and the index back and formats the line's tail |
| MsgRing.MsgBuf.EncodeMessages | msgbuf.cpp:64-102 | returns `EncodeFrom(entries)` NUL-terminated, with its length and index, and leaves the ring as it was |
| MsgRing.MsgBuf.EncodeNext | msgbuf.cpp:69-96 | one loop pass advances the encode by one entry, or ends it |
| MsgRing.MsgBuf.EncodeLoop | msgbuf.cpp:68-97 | the loop's output and index are those of `EncodeFrom` over the committed entries |
| Mercury.ResSize | Mercury.cpp:163 | every answer size fits the 20-byte frame buffer |
| Mercury.FrameSize | Mercury.cpp:153-161 | every request frame is `req_size - 2` bytes, addressed to RS485_ADDR, within the buffer |
| Mercury.MonthSelector | Mercury.cpp:238-240 | for months 1..12 the selectors name the current, previous and one-before-previous month, wrapping |
| Mercury.Bcd | Mercury.cpp:186-188 | the result is at most 165 and its last digit is the low nibble's |
| Mercury.BcdOfToBcd | Mercury.cpp:186-188 | `bcd` decodes the packed encoding of every number below 100 |
| Mercury.ToBcdOfBcd | Mercury.cpp:186-188 | a byte of two decimal nibbles is the encoding of what `bcd` reads |
| Mercury.DecodeValue | Mercury.cpp:217-219 | a value reading is a 22-bit number |
| Mercury.DecodeValueRoundTrip | Mercury.cpp:217-219 | any 22-bit reading survives the meter's byte order; the top two bits of byte 1 are ignored |
| Mercury.DecodeEnergy | Mercury.cpp:252-256 | an energy reading is a signed 32-bit number |
| Mercury.DecodeEnergyRoundTrip | Mercury.cpp:252-256 | any signed 32-bit reading survives the meter's word order |
| Mercury.RejectWritesNothing | Mercury.cpp:165-167 | only the channel opener can reject an answer, and then nothing is written |
| Mercury.ErrorEffect | Mercury.cpp:224-226 | `error()` invalidates the target of a value or energy request and nothing else |
| Mercury.ResetAllReading | Mercury.cpp:316-322 | after `resetAllValues` every target reads INVALID_VALUE and every other reading is unchanged |
| Mercury.RetypedTwice | Mercury.cpp:284-290 | a restart depends only on the display type selected last: retyping twice equals retyping once to the second type |
| Mercury.RetypedTargets | Mercury.cpp:288-289 | retyping changes no request's target, so a cycle refreshes, and a reset invalidates, the same readings |
| Mercury.RetypedFrames | Mercury.cpp:232-247 | a retyped display request differs on the wire only in byte 2, the summary selector for the new type; request and answer sizes stay; other requests are untouched |
| Mercury.Taken | Mercury.cpp:110-128 | phase 0 takes every waiting byte, phase 2 at most what the answer still lacks, phase 1 none |
| Mercury.CheckWritesOwnTarget | Mercury.cpp:104-149 | whatever the phase and the answer, one call of `Req::check` changes no reading but its own request's target |
| Mercury.OpenerFailure | Mercury.cpp:346-356 | the channel opener writes no reading and, short of its 4 answer bytes when the timer runs out, fails; after its failure `resetAllValues` leaves every target of the list at INVALID_VALUE and the rest unchanged |
| Mercury.MetersMade | Mercury.cpp:302-312 | the six loops of `setupMercury` after the display requests append exactly the 17 requests of `Meters()`, codes and precisions included |
| Mercury.Poller.constructor | Mercury.cpp:21-32 | the globals start with only the channel opener, nothing valid and no readings |
| Mercury.Poller.SetupMercury | Mercury.cpp:292-314 | the list is the opener, the time request, the three display requests with the selected type, then the 17 meter requests of `Meters()`; display positions 2-4 and a fresh cycle |
| Mercury.Poller.AddDisplay | Mercury.cpp:299-300 | appends the three `Total` display requests of tariffs 0-2 and remembers their positions |
| Mercury.Poller.AddMeters | Mercury.cpp:302-312 | appends exactly the 17 requests of `Meters()` (voltage, current, power, frequency, today's and yesterday's energy) and counts them |
| Mercury.Poller.AddEach | Mercury.cpp:302-303 | appends `make(from)`, ..., `make(to)` in order and counts them |
| Mercury.Poller.Add | Mercury.cpp:278-282 | appends the request and counts it |
| Mercury.Poller.ReinitLoop | Mercury.cpp:284-290 | restarts at the channel opener with nothing counted and the display requests retyped |
| Mercury.Poller.ResetAllValues | Mercury.cpp:316-322 | the readings become `ResetAll` over the requests after the opener |
| Mercury.Poller.Error | Mercury.cpp:169-172 | the readings become `ErrorEffect` of the request |
| Mercury.Poller.Prepare | Mercury.cpp:106-115 | the buffer holds the request frame and its CRC; the delay timer is armed |
| Mercury.Poller.WriteFrame | Mercury.cpp:155-161 | the frame is stored at the front of the buffer and the rest is kept |
| Mercury.Poller.ComputeCrc | Mercury.cpp:108 | the CRC of the first `n` bytes is stored after them |
| Mercury.Poller.Receive | Mercury.cpp:125-128 | stores available bytes until the answer size is reached, and says how many it took |
| Mercury.Poller.Response | Mercury.cpp:143 | accepts as the request kind does, writing `ParsedValues` and `ParsedTime` |
| Mercury.Poller.Conclude | Mercury.cpp:134-147 | success exactly when the CRC matches and the answer is accepted; failure invalidates via `error()` |
| Mercury.Poller.Check | Mercury.cpp:104-149 | the bus effect is `Bus` (frame and check bytes built, the bus drained, the frame sent after the delay, answer bytes stored); the phase returned, the readings and the time are those of `CheckStep` |
| Mercury.Poller.Answer | Mercury.cpp:124-147 | phase 2 stores the answer bytes; a complete answer is checked and parsed, an incomplete one waits, or fails once the timer has run out |
| Mercury.Poller.CheckNext | Mercury.cpp:324-344 | a changed display type restarts; a finished refresh restarts; otherwise the next request, publishing the count at the end |
| Mercury.Poller.Advance | Mercury.cpp:337-343 | the next request, or at the end the count published and a restart |
| Mercury.Poller.Dispatch | Mercury.cpp:348-365 | an error on the opener resets everything; other errors skip; success counts and moves on |
| Mercury.Poller.ChannelLost | Mercury.cpp:350-356 | every reading invalidated, a restart, and the result says whether values were valid |
| Mercury.Poller.CheckMercury | Mercury.cpp:346-366 | one tick: the current request's `Req::check` as `Bus` and `CheckStep` state it, then the scheduler's `Outcome` for the phase returned; readings are those of `CheckStep`, reset over the whole list after an opener error |
| Push.Record | push.cpp:83-89 | an item's line is `H`, its tag and a newline, within the reserved `reqLen` |
| Push.ComposeFrom | push.cpp:71-93 | the packet stays below MAX_PACKET and `next` holds exactly when items are left |
| Push.ComposeSkip | push.cpp:75 | a skipped item adds nothing |
| Push.ComposeTake | push.cpp:76-89 | a fitting item adds its line, then the rest follows |
| Push.MarkSendingSkip | push.cpp:75 | a skipped item gets no `sending` bits |
| Push.MarkSendingTake | push.cpp:82 | a taken item gets the mask added to `sending` |
| Push.ComposeEvery | push.cpp:71-93 | with a non-zero mask the packet is every item's line in list order, stopping only when the next could overflow |
| Push.MarkSendingAll | push.cpp:82 | the items the packet took carry the mask in `sending`; the others are unchanged |
| Push.ClearedBits | push.cpp:97-99 | `markSent` clears the destination's bits in `sending`, and in `updated` on success, and keeps the rest |
| Push.SkippedKeeps | push.cpp:97 | an item the test skips is left unchanged |
| Push.MarkedSent | push.cpp:95-101 | `markSent` keeps the registry's length |
| Push.SentAndCleared | push.cpp:95-101 | after an acknowledged exchange no item owes or is sending to this destination, and values are kept |
| Push.FailedSendRestores | push.cpp:95-101 | a failed exchange returns the registry to what it was before composing |
| Push.RequestShape | push.cpp:129-156 | the request line starts with verb, space, URL and query; `Content-Length` carries the size's digits; then an empty line and the packet |
| Push.ContentLengthShape | push.cpp:150-155 | the header is `Content-Length: `, the digits, then CRLF CRLF |
| Push.NoCR | push.cpp:176 | the stored status line never holds a CR |
| Push.Clip | push.cpp:176 | at most MAX_RESPONSE bytes are stored |
| Push.StatusLine | push.cpp:172-179 | before the first LF every non-CR byte is stored while there is room, and nothing reaches the parsers |
| Push.StoreStep | push.cpp:176-177 | one status-line byte is stored unless it is a CR or the buffer is full |
| Push.HeadersThenBody | push.cpp:180-203 | after the status line every byte goes to exactly one parser, headers first, and the body is final |
| Push.BodyAbsorbs | push.cpp:201-203 | in the body every byte goes to the body parser |
| Push.ResponseSplit | push.cpp:170-205 | the stored line is the first line without CRs, clipped, and everything after the LF goes to the parsers |
| Push.EmptyLineStartsBody | push.cpp:180-191 | an empty line, LF or CR LF, starts the body |
| Push.ExchangeVerdict | push.cpp:218-222 | success exactly when the first line, CRs dropped, reads `HTTP/1.1 200 OK`; an unfinished first line fails |
| Push.CookieStepOk | push.cpp:297-318 | one matcher step keeps its state in range and the cookie free of line ends |
| Push.CookieTerminated | push.cpp:306-313 | the cookie stays NUL-terminated in its buffer and never reads as more than MAX_COOKIE_LEN bytes |
| Push.CookieCopies | push.cpp:306-313 | after `Set-Cookie: ` the value is copied byte by byte, NUL-terminated |
| Push.MatchesPrefix | push.cpp:299-303 | a prefix of `Set-Cookie: ` advances the matcher along it |
| Push.CookieCaptured | push.cpp:306-308 | a value ended by the line is the cookie, and the matcher is done |
| Push.CookieDoneIgnores | push.cpp:317 | once done the matcher ignores later header bytes |
| Push.OtherLine | push.cpp:299-305 | another header line leaves the cookie alone and resets at its end |
| Push.Mismatched | push.cpp:304-305 | a line that departs from `Set-Cookie: ` sends the matcher to ERR |
| Push.ErrUntilEol | push.cpp:314-316 | in ERR the matcher waits for the line end |
| Push.SkipWord | push.cpp:328-340 | in the text and word fields the parser waits for a comma |
| Push.IndexDigits | push.cpp:341-347 | the index digits accumulate to their value |
| Push.BodyAccepts | push.cpp:320-351 | `4,<text>,<word>,<digits>` ended by CR or LF is parsed, with the index the digits' value |
| Push.BodyFinal | push.cpp:321-350 | DONE and ERR take no further input |
| Push.BodyRejects | push.cpp:322-327 | a body not starting `4,`, or with a non-digit in the index, is rejected for good |
| Push.BodyShapes | push.cpp:320-351 | every state reached describes the bytes fed so far |
| Push.ShapeStep | push.cpp:320-351 | one byte keeps that description |
| Push.BodyDoneOnlyOnMessage | push.cpp:341-343 | DONE is reached only after a complete message and line end |
| Push.Net.constructor | push.cpp:62-69 | the globals start with no items, the splitter at the start, and the socket free |
| Push.Net.PushTag | push.cpp:383-391 | an empty registry gets a new item holding the tag's C string; a newest item whose tag equals it as `strcmp` compares is found; otherwise the search hangs |
| Push.Net.Push | push.cpp:393-397 | the item gets value and precision and is owed to every destination; the others are unchanged |
| Push.Net.Put | push.cpp:84 | the bytes are written at `at`, and the rest of the packet is kept |
| Push.Net.PutRecord | push.cpp:83-89 | the item's line is written at `at` |
| Push.Net.ComposeDataPacket | push.cpp:71-93 | the packet is `ComposeFrom(items)` NUL-terminated, the size truncated to a byte, and the taken items marked as sending |
| Push.Net.ComposeStep | push.cpp:74-90 | one loop turn keeps the composing invariant |
| Push.Net.TakeItem | push.cpp:82-89 | a taken item is marked and its line written |
| Push.Net.MarkSent | push.cpp:95-101 | the registry becomes `MarkedSent` |
| Push.Net.ClearAt | push.cpp:97-99 | one item is cleared |
| Push.Net.ParseChar | push.cpp:170-205 | the splitter takes one `ParseStep` and reports the byte's hook |
| Push.Net.Finish | push.cpp:217-222 | the verdict is `Verdict` of the splitter |
| Push.Net.Open | push.cpp:157-161 | the splitter restarts and the socket is busy |
| Destinations.Drained | push.cpp:207-215 | nothing is read once the socket is gone or the time is up |
| Destinations.DataDest.constructor | push.cpp:103-113 | the fields as given, `PUT`, the initial interval and the push timeout |
| Destinations.DataDest.SendPacket | push.cpp:115-163 | when the socket connects, the `PUT` request with the packet goes out and the exchange starts; otherwise nothing changes |
| Destinations.DataDest.DoneSend | push.cpp:165-168 | `markSent` with the outcome, then the long interval on success and the short one on failure |
| Destinations.DataDest.Drain | push.cpp:211-212 | every available byte goes through the splitter |
| Destinations.DataDest.ReadResponse | push.cpp:207-233 | reads on while connected and in time; then the verdict marks the items and frees the socket |
| Destinations.DataDest.Poll | push.cpp:240-246 | composes and sends when owed; a zero byte-size is not sent; a failed connect counts as a failed exchange |
| Destinations.DataDest.Check | push.cpp:235-247 | a running exchange is read and a busy socket waits; any request sent starts an exchange |
| Destinations.UrlParamsShape | push.cpp:275-287 | `?id=3&last=1`, then `&index=` with digits reading back as the index when it is positive, then `&newsession1` in a new session |
| Destinations.SettledFields | push.cpp:258-273 | success ends the wait, keeps a session on, keeps a parsed inbound index, and sets the poll interval; failure waits and retries |
| Destinations.CookieHeaderShape | push.cpp:289-295 | within a session a stored cookie goes back as one `Cookie:` line of 1 to 20 value bytes, and the header is empty otherwise |
| Destinations.AckedBatchLeaves | push.cpp:258-264 | acknowledging the index the encode ended with drops exactly the batch; a failure keeps the ring |
| Destinations.MsgDest.constructor | push.cpp:249-256 | a new session and a forced wait with the initial wait, `POST`, an empty cookie |
| Destinations.MsgDest.ExtraUrlParams | push.cpp:275-287 | returns `UrlParams` and resets both response parsers |
| Destinations.MsgDest.SendPacket | push.cpp:115-163 | when the socket connects, a `POST` with the query, the cookie header and the packet goes out and the exchange starts |
| Destinations.MsgDest.DoneSend | push.cpp:258-273 | the fields become `Settled` and the ring drops the acknowledged messages within a session |
| Destinations.MsgDest.Settle | push.cpp:259-272 | the scalar fields become `Settled` |
| Destinations.MsgDest.ParseResponseHeaders | push.cpp:297-318 | one `CookieStep` on the matcher, in place |
| Destinations.MsgDest.ParseResponseBody | push.cpp:320-351 | one `BodyStep` on the parser, the index wrapping as a 32-bit `long` |
| Destinations.MsgDest.Feed | push.cpp:170-205 | one byte through the splitter and on to its parser |
| Destinations.MsgDest.Drain | push.cpp:211-212 | the splitter and both parsers have consumed all available bytes |
| Destinations.MsgDest.ReadResponse | push.cpp:207-233 | the header and body bytes reach the parsers; at the end the verdict settles the fields and the ring |
| Destinations.MsgDest.Gather | push.cpp:210-215 | reads what the socket offers while connected and in time |
| Destinations.MsgDest.Conclude | push.cpp:216-232 | the socket is freed and the verdict goes to `doneSend` |
| Destinations.MsgDest.Poll | push.cpp:358-376 | waits while forced; stays quiet with nothing to send, confirm or poll; otherwise delivers the encoded batch; the ring is kept |
| Destinations.MsgDest.Batch | push.cpp:363-376 | the quiet test, else delivery |
| Destinations.MsgDest.Encode | push.cpp:361-362 | the packet holds the ring's encode |
| Destinations.MsgDest.Deliver | push.cpp:366-375 | the session decision, then the request; a failed connect leaves the ring and waits |
| Destinations.MsgDest.Stage | push.cpp:366-373 | an index below the last one forces a new session with an empty body; otherwise the index is remembered |
| Destinations.MsgDest.Check | push.cpp:353-376 | a running exchange is read and a busy socket waits; any request sent starts an exchange |
| HttpServer.RenderShape | HttpServer.cpp:21-29 | a reply starts with `HTTP/1.1 <code> <reason>` and ends with its text |
| HttpServer.FirstOf | HttpServer.cpp:77 | the first position of the byte, with no earlier one; none exactly when it does not occur |
| HttpServer.Find | HttpServer.cpp:83-87 | the first route, newest first, whose string equals the path; none when none does |
| HttpServer.PathShape | HttpServer.cpp:76-82 | the path is a space-free word after `GET `, followed by a space |
| HttpServer.PathRoundTrip | HttpServer.cpp:76-82 | `GET `, a space-free path and a space give that path back |
| HttpServer.ParseErrors | HttpServer.cpp:72-81 | "Unsupported method" exactly without `GET `; a 400 exactly when no path can be read |
| HttpServer.NewestWins | HttpServer.cpp:61-64 | the route registered last answers its path |
| HttpServer.OtherRouteTransparent | HttpServer.cpp:83-87 | a route for another path leaves the answer to older routes |
| HttpServer.DispatchCases | HttpServer.cpp:83-91 | a 404 exactly when no route matches; otherwise the handler of the first match |
| HttpServer.ScanSpec | HttpServer.cpp:102-114 | a CR after `j` bytes completes the line when it fits in 256; otherwise, or without a CR past 256, too big |
| HttpServer.RequestServed | HttpServer.cpp:94-113 | a fitting `GET <path> ...` line ended by a CR is answered by the route lookup for that path |
| HttpServer.Server.constructor | HttpServer.cpp:66-68 | no client, no routes, an empty buffer |
| HttpServer.Server.AddRoute | HttpServer.cpp:61-64 | the new route goes in front |
| HttpServer.Server.Parse | HttpServer.cpp:71-92 | the reply is `ParseLine` of the buffer's string; the space after the path becomes a NUL |
| HttpServer.Server.ConnDone | HttpServer.cpp:31-34 | the client is let go |
| HttpServer.Server.Check | HttpServer.cpp:94-118 | a parsed reply at a CR, "Request is too big" past 256 bytes, "Request timeout" on time-out, and otherwise the line so far kept |
| HttpServer.Server.Store | HttpServer.cpp:113 | one byte appended to the line |
| HttpServer.Server.Parsed | HttpServer.cpp:104-107 | the NUL-terminated line is parsed and the client let go |

## Left out

- Hardware and I/O are not modelled. This covers:
  - pin set-up, the RS-485 driver and the serial log;
  - the Ethernet socket calls;
  - `Serial.print` of inbound message text;
  - the error prints of the meter requests.

  Their effects enter as parameters.
- `Timeout` and `millis()` are not part of this model. A timer's expiry is a
  boolean parameter. A reset is a recorded period (or only the state reset,
  for the web server's `httpTimeout`). The clock is the parameter `now`.
- CRC (`crc.h`) and the FixNum conversion are not part of this model. They
  are function parameters of the poll engine.
- `formatDecimal` is a parameter, clipped to the width it is given.
- `Mercury.h`, `lcd.cpp`, `ResetServer.cpp` and `EthernetConfig.cpp` are not
  part of this model.
- `checkPush` has an empty body and nothing to model. `httpServerSetup` only
  starts the listener.
- Virtual dispatch is replaced by one class per destination, with the hooks
  named by the `Hook` value `parseChar` returns.
- A route handler is named by a number. What it writes is not modelled.
- `MsgRing.MsgBuf.SaveMessage`: requires `curSize > 0 || size + 6 <= 300`.
  The source saves an empty draft without the free-space check of
  `putChar`, which could overflow the ring.
- `MsgRing.MsgBuf.EncodeMessages`: `millis()` is read once per call as
  `now`, not once per entry.
- `Push.Net.PushTag`: only the empty registry and the newest item are
  modelled precisely. Any other registry is reported as `Hangs`, since the
  source's loop never advances.
- `Destinations.DataDest.Check` and `Destinations.MsgDest.Check`: state only
  the dispatch between reading, waiting and polling. The full effect of each
  branch is stated by `ReadResponse` and `Poll`.
- `Destinations.MsgDest.Deliver`: on a failed connect the model runs only
  the field updates of `doneSend(false)`, since that branch never touches
  the ring.
- `HttpServer.Server.Check`: a peer that closes before sending a CR is not
  modelled. The model keeps the connection until a reply or a time-out.
- Requests are structured `Http` values. `Request` renders them to bytes,
  but no member relates the rendered bytes to the socket stream beyond
  `Push.RequestShape`.
