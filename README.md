# findk4 — a verified model of the K4 discovery pass

`findk4.py` finds Elecraft K4 transceivers on the local network. It
broadcasts the probe `findk4` to UDP port 9100 once for each address that
`getaddrinfo(gethostname(), None, AF_INET)` returns, repeats included. After
each probe it listens on the probe's source port until a receive times out. Each radio
answers with the text `<type>:<index>:<ip>:<serial>`, for example
`k4:0:192.168.73.108:278`.

This project models what the script does with those answers:

- the `k4` prefix test on the raw bytes;
- the strict UTF-8 decode;
- the split on `:` into exactly four values;
- the zero padding of the serial number with `str.zfill(5)`;
- the per-radio line and the `nK4Count` counter;
- the `while not done` receive loop per interface, and the `done` flag that
  is reset after each interface;
- the closing summary, "Found N K4 radio(s) …" or "No K4 radios found".

The network is abstracted away. Each interface is an `Interface` value: its
IP and the sequence of `Event`s its receive socket delivers, where each event
is `Datagram(addr, bytes)` or `Timeout`. Reading past the end of that
sequence behaves like a timeout.

Modules:

- `Wrappers` (wrappers.dfy): `Option`.
- `PyText` (pytext.dfy): Python's `str.split` with a one-character separator,
  `str.zfill` as CPython computes it, and `%d` for a count.
- `Utf8` (utf8.dfy): `bytes.decode("utf-8")` in strict mode. It accepts
  exactly the well-formed byte sequences of Table 3-7 of the Unicode
  Standard, chapter 3.
- `K4Reply` (reply.dfy): the constants `K4_RETURN_START`, `RETURN_DELIMITER`
  and the padding width, the decision on one datagram (`Classify`) and the
  printed lines.
- `FindK4` (findk4.dfy): the specification functions `Receive` (one
  interface), `Scan` (all interfaces) and `Program` (the whole pass). `Run`
  is the script's own loops, with the `done` flag and the `nK4Count`
  counter as mutable locals. `Run` is proved to compute `Program`.
- `FindK4Properties` (properties.dfy): counting, termination and ordering
  properties of the pass.
- `FindK4Scenarios` (scenarios.dfy): concrete passes.

Facts about the script that the model keeps as they are:

- The script does not deduplicate radios by (ip, serial). A radio heard
  twice, on one interface or on two, is printed and counted twice.
- Every per-radio line says `K4-SN`, whatever the radio's type field holds.
- The script does not check that the IP field is an IPv4 address.
- Only `socket.timeout` is caught. A `k4` reply that is not valid UTF-8, or
  that does not split into exactly four values, raises an exception that
  ends the program. Nothing more is read, and no summary is printed. The
  model represents this as the outcome `Crashed`.
- The script does not filter out loopback addresses. The interface list is
  taken as it is given.

## Model

| member | source | states |
|---|---|---|
| PyText.Split | findk4.py:64 | `split(":")` yields at least one field, no field contains the separator, and joining the fields with the separator gives back the text |
| PyText.SplitFieldCount | findk4.py:64 | the number of fields is the number of separators plus one |
| PyText.SplitJoin | findk4.py:64 | splitting a join of separator-free fields gives back exactly those fields, so the split takes the fields unmodified |
| PyText.SplitKeepsPrefix | findk4.py:64 | the first field starts with every separator-free prefix of the text |
| PyText.ZFill | findk4.py:67 | the padded serial has length max(len(s), width), and a serial of at least `width` characters is returned unchanged (no truncation) |
| PyText.ZFillInsertsZeros | findk4.py:67 | a shorter serial gets width - len(s) zeros inserted after its leading `+`/`-` if it has one, otherwise in front, and nothing else changes |
| PyText.ZFillKeepsValue | findk4.py:67 | padding a digit string keeps it a digit string that denotes the same number ("pads without converting to a number") |
| PyText.LeadingZerosValue | findk4.py:67 | leading zeros do not change the number a digit string denotes |
| PyText.Decimal | findk4.py:78 | `%d` of a count is a non-empty digit string with no leading zero |
| PyText.DecimalValue | findk4.py:78 | the numeral printed for the count denotes the count |
| PyText.DigitPrefixUnique | findk4.py:78 | a numeral followed by a non-digit is read back unambiguously |
| Utf8.DecodeFirst | findk4.py:63 | one scalar value is taken from 1 to len(s) bytes, and an ASCII byte decodes to itself |
| Utf8.Decode | findk4.py:63 | a successful decode yields at most one character per byte |
| Utf8.AsciiBytes | findk4.py:63 | the ASCII encoding has one byte per character, with the same code |
| Utf8.DecodeAscii | findk4.py:63 | ASCII text decodes back to itself |
| Utf8.DecodeKeepsAsciiPrefix | findk4.py:62-63 | when the first k bytes are ASCII, a successful decode starts with the same k characters |
| K4Reply.Classify | findk4.py:62-71 | a datagram is unexpected iff its bytes do not begin with `k4`; a `k4` datagram fails with UnicodeDecodeError iff it does not decode; an unpacking failure reports a field count other than 4 |
| K4Reply.ClassifyAccepted | findk4.py:62-64 | an accepted reply's four fields joined with `:` are the decoded text, none contains `:`, and the type begins with `k4` |
| K4Reply.ClassifyFieldCount | findk4.py:64 | a decodable `k4` datagram is accepted iff its text has exactly three colons; otherwise unpacking fails with colons + 1 values |
| K4Reply.ClassifyJoin | findk4.py:62-64 | colon-free fields whose first begins with `k4`, sent joined by `:` as ASCII bytes, are accepted with exactly those fields when there are four, and otherwise fail to unpack with the number of fields |
| K4Reply.ClassifyReply | findk4.py:53-64 | the reply a radio sends for any fields (ASCII, colon-free, type starting with `k4`) is accepted with exactly those fields |
| K4Reply.ReplyFormat | findk4.py:53-54 | a reply is `<type>:<index>:<ip>:<serial>` |
| K4Reply.StartsWith | findk4.py:62 | `data.startswith(K4_RETURN_START)` holds iff the prefix is no longer than the data and the data agrees with it at every position of the prefix |
| K4Reply.FoundLine | findk4.py:67-68 | a K4 reply's line carries the raw serial and IP, and `zfill(5)` of the serial: a serial of 5 or more characters unchanged, a shorter one with 5 - len zeros inserted after its leading `+`/`-` if it has one and in front otherwise; a digit serial stays a digit string of the same value |
| K4Reply.FoundText | findk4.py:68 | the per-radio line reads "Found K4 serial number ", the raw serial, " at IP address ", the raw IP, " (K4-SN", the padded serial and ".local)", each at its position; its length is the three fields' lengths plus 52 fixed characters |
| K4Reply.SummaryText | findk4.py:77-80 | the summary starts with "F" for a positive count and "N" for zero; after "Found " a positive count's line holds the count's `%d` numeral followed by the " K4 radio(s) …" tail |
| K4Reply.SummaryWording | findk4.py:77-80 | a count of zero prints exactly "No K4 radios found", and a positive count's summary begins "Found " |
| K4Reply.SummaryNoun | findk4.py:78 | after the numeral, a count of 1 prints " K4 radio accessible to this computer" and a larger count " K4 radios accessible to this computer" |
| K4Reply.SummaryDeterminesCount | findk4.py:77-80 | the summary depends only on the final count, and different counts never print the same summary |
| FindK4.Handle | findk4.py:62-71 | a datagram that does not raise prints exactly one line; the count grows by one iff it is a K4 reply, whose line is its per-radio line, and a datagram not starting with `k4` prints the "Unexpected data" line for its address and bytes |
| FindK4.Receive | findk4.py:55-73 | on every way out of one interface's loop, the count never decreases, printed lines are never taken back, and every unit added to the count printed one per-radio line |
| FindK4.Then | findk4.py:34-75 | continuing after an interface keeps everything printed and counted so far |
| FindK4.Scan | findk4.py:34-75 | the loop over the interfaces, however it ends, keeps everything printed and counted before it, with one per-radio line per unit of count |
| FindK4.Program | findk4.py:17-80 | the final count equals the number of per-radio lines printed, and a pass that runs to the end prints the summary for that count as its last line |
| FindK4.Run | findk4.py:34-80 | the script's loops, with the `done` flag reset after each interface and `nK4Count` incremented per accepted reply, compute exactly `Program`: the same printed lines, the same count, and the same crash on a malformed reply |
| FindK4Properties.ReceiveStopsAtTimeout | findk4.py:55-73 | the receive loop stops at the first timeout: traffic after it is never read |
| FindK4Properties.ReceiveCount | findk4.py:55-73 | one interface's loop ends normally iff no malformed `k4` reply comes before its first timeout, and then the count grows by exactly the number of accepted replies before that timeout |
| FindK4Properties.ReceiveLines | findk4.py:55-73 | a receive loop that reaches its timeout appends, in arrival order, one line per datagram before the timeout: the per-radio line for a K4 reply, the "Unexpected data" line for any other |
| FindK4Properties.HandleAppendsLine | findk4.py:62-71 | handling a datagram that does not raise appends exactly the line `LineOf` gives for it, after everything printed before |
| FindK4Properties.LinesStep | findk4.py:62-71 | the line one datagram prints, followed by the lines of the datagrams after it, are the lines of all of them, in order |
| FindK4Properties.ReceiveCrash | findk4.py:62-64 | a malformed `k4` reply raises its exception; the replies before it are counted and their lines printed, in order, and it is neither counted nor printed |
| FindK4Properties.UnexpectedOnlyLine | findk4.py:70-71 | a datagram not starting with `k4` prints exactly the "Unexpected data" line with its address and bytes, counts nothing, and the loop goes on reading |
| FindK4Properties.UnexpectedNotCounted | findk4.py:70-71 | a datagram not starting with `k4`, wherever it arrives, changes neither how that interface's receive loop ends nor the count |
| FindK4Properties.SameReplyCountedTwice | findk4.py:68-69 | there is no deduplication: the same reply received twice prints two lines and adds 2 to the count |
| FindK4Properties.ScanAppend | findk4.py:34-75 | each interface gets its own full receive loop: scanning a list is scanning its first part and then continuing with the rest |
| FindK4Properties.ScanCount | findk4.py:34-75 | the scan ends normally iff every interface is well formed before its timeout, and then the total count is the sum of the per-interface counts |
| FindK4Properties.ProgramSummary | findk4.py:77-80 | a completed pass prints the summary last, for the total count; a crashed pass prints no summary |
| FindK4Scenarios.ZFillExamples | findk4.py:67 | `"278"` pads to `"00278"`, `"12345"` and `"1234567"` are unchanged, `"-12"` gives `"-0012"`, `""` gives `"00000"` |
| FindK4Scenarios.ExampleReplyText | findk4.py:53-54 | the example radio sends `k4:0:192.168.73.108:278`, which is ASCII |
| FindK4Scenarios.ExampleReplyAccepted | findk4.py:53-64 | the example reply's bytes are accepted with type `k4`, index `0`, IP `192.168.73.108` and serial `278` |
| FindK4Scenarios.ExampleFoundText | findk4.py:68 | the example radio's line renders as "Found K4 serial number 278 at IP address 192.168.73.108 (K4-SN00278.local)" |
| FindK4Scenarios.SummaryOneRadio | findk4.py:78 | the summary line for a count of 1 renders as "Found 1 K4 radio accessible to this computer" |
| FindK4Scenarios.SummaryTwoRadios | findk4.py:78 | the summary line for a count of 2 renders as "Found 2 K4 radios accessible to this computer" |
| FindK4Scenarios.NoRadiosFound | findk4.py:34-80 | when every interface times out at once, the only line printed is the summary for 0, "No K4 radios found" |
| FindK4Scenarios.OneReplyFound | findk4.py:34-80 | any K4 reply heard on a single interface prints its per-radio line and then the summary for 1 |
| FindK4Scenarios.OneRadioFound | findk4.py:34-80 | one interface hearing the example reply prints its line with serial `278`, IP `192.168.73.108`, padded serial `00278`, then the summary for 1 |
| FindK4Scenarios.AcceptedThenSilence | findk4.py:55-73 | a K4 reply followed by silence prints its per-radio line, counts one, and ends the interface's loop |
| FindK4Scenarios.SameReplyScan | findk4.py:34-75 | the interface loop over two interfaces that hear the same K4 reply prints its line on both and counts 2 |
| FindK4Scenarios.SameReplyOnTwoInterfaces | findk4.py:34-80 | any K4 reply heard on two interfaces is printed on both and counted as 2 |
| FindK4Scenarios.SameRadioOnTwoInterfaces | findk4.py:34-80 | the example radio heard on two interfaces is printed twice and counted as 2 |
| FindK4Scenarios.ThreeFieldReply | findk4.py:64 | the reply `k4:0:192.168.73.108` is malformed, failing to unpack with 3 values |
| FindK4Scenarios.MissingFieldAborts | findk4.py:64 | the reply `k4:0:192.168.73.108` (three values) ends the program with an unpacking error, before anything is counted and with no summary |

## Left out

- Sockets (findk4.py:37-49, 57, 74): socket creation, `SO_BROADCAST`, the bind to `(ip, 0)`, `getsockname`, the `sendto` of `findk4` to 255.255.255.255:9100, the closing of both sockets, the rebind to the same port, `settimeout(3)` and `recvfrom(4096)`. They are operating-system I/O. Their only effect on the logic is the sequence of events that `recvfrom` delivers, which is an input here.
- Socket errors (a failing bind, `sendto` or `recvfrom`) raise `OSError` and end the script; they are not modelled.
- A receive socket that never times out, because datagrams keep arriving forever, is not modelled. Each interface's traffic is a finite sequence, and its end counts as a timeout.
- Interface enumeration through `getaddrinfo(gethostname())` (findk4.py:21-23) is a platform call. The address list is an input, taken as it is given: repeats are scanned again, and loopback is not filtered out.
- The verbose debug printing (findk4.py:24-30, 35-36, 41-43, 50-51, 58-61, 65-66) does not affect behaviour and is left out.
- The text of the "Unexpected data" line (findk4.py:71) uses Python's `repr` of the address tuple and the bytes. The model records that line as `UnexpectedData(addr, data)` and does not render it as text.
- The traceback Python prints for an uncaught exception is not modelled. The model records which exception was raised (`UnicodeDecodeError` or an unpacking `ValueError` with the number of values found).
- Utf8.Decode: its contract only bounds the length of the text, and only its behaviour on ASCII bytes is proved. That it agrees with Python's decoder on non-ASCII input follows from its construction from Table 3-7, not from a proof.
- dns.php is not part of this model. Its `IsValidDNS` is a thin wrapper over the DNS lookup `checkdnsrr`, and the rest of the file is two fixed calls that echo their results.
