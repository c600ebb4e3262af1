# nfc-tron core in Dafny

A model of the core of nfc-tron, a Node.js binding for ACR122U contactless
card readers over PC/SC. It covers three parts.

- **The native addon's pure helpers** (`nfc-addon.cpp`):
  - `ByteArrayToHex`: bytes to upper-case hex text;
  - `ParseNDEFText`: the text of an NFC Forum Text record payload;
  - `IsACR122U`: is this an ACR122U reader name;
  - the loop in `GetReaders` that walks the NUL-separated reader list and fills the JavaScript array, meant to put ACR122U readers first;
  - the loop in `SendApdu` that turns a hex command string into the bytes of its 256-byte send buffer;
  - the fixed command bytes the addon transmits.
- **The JavaScript command catalog** `ACR122U_COMMANDS` (`index.js`, `src/index.ts`), proved equal to the hex text of the addon's bytes.
- **The JavaScript session layer**:
  - `promisify`, which turns a node-style callback function into a promise;
  - the continuous-read session: `startContinuousRead`, `stopContinuousRead` and the polling tick. Its state is `isContinuousReading` and `continuousCallback`, and the interval handle is stored on the callback object.

Modules and files:

| file | module | models |
|---|---|---|
| `options.dfy` | `Options` | an optional value |
| `hex.dfy` | `Hex` | `ByteArrayToHex`, the UTF-8 bytes of the command, `strtol(…, 16)` on two bytes, the `SendApdu` conversion loop |
| `commands.dfy` | `Commands` | the addon's command bytes and `ACR122U_COMMANDS` |
| `ndef_text.dfy` | `NdefText` | `ParseNDEFText`, the `& 0x3F` mask |
| `readers.dfy` | `Readers` | `IsACR122U`, the reader multi-string, the `GetReaders` ordering loop |
| `js_values.dfy` | `JsValues` | JavaScript values, truthiness, `instanceof Error`, `new Error(v)` |
| `promisify.dfy` | `Bridge` | `promisify` and the promises it returns |
| `continuous_read.dfy` | `ContinuousRead` | the session state, `start`, `stop` and the tick |

Loops in the source are methods with loop invariants:
- `Hex.ByteArrayToHex`;
- `Hex.FillSendBuffer`, which works on an `array`;
- `Readers.GetReaders`.

Each of these is proved against a function (`HexOf`, `HexToBytes`, `PlaceAll`), and the properties are lemmas about that function.

The session's module-level state is the class `ContinuousRead.Session`. The callback function, which carries an `intervalId` property, is the class `Callback`. The runtime's timers are the class `Timers`.

The tick is three steps, because it runs in pieces between its `await`s:
1. `BeginTick`: the state check and the self-clearing of the interval;
2. `ReaderToPoll`: after `getReaders`;
3. `ResumeAfterRead`: after `readTag`.

`stop` and `start` can therefore be called between the steps. The backend's answers are the steps' inputs, as promises: fulfilled with a value, rejected with a reason, or still pending.

Three behaviours of the code worth knowing:
- The callback receives the read result unmodified. src/index.ts:69 passes `result` as `readTag` gave it, although test.js:55 reads `data.reader`, a field the result does not carry.
- A synchronous throw inside `promisify` is rejected with the thrown value itself. index.js:19-21 rejects it as is, while index.js:12-13 wraps a non-Error passed to the callback in `new Error(...)`.
- A tick that resumes after a stop-then-start calls the new session's callback. src/index.ts:68 reads `continuousCallback` when the read has finished, not when the tick began.

## Model

| member | source | states |
|---|---|---|
| Hex.ByteHex | nfc-addon.cpp:20-23 | every byte is written as exactly two characters (width 2, fill '0') |
| Hex.HexOf | nfc-addon.cpp:15-26 | the hex text of n bytes has exactly 2n characters |
| Hex.HexOfSnoc | nfc-addon.cpp:18-24 | appending a byte appends exactly its two digits, which is one turn of the stream loop |
| Hex.HexOfAt | nfc-addon.cpp:20-23 | characters 2i and 2i+1 are the upper-case high and low nibble digits of byte i |
| Hex.HexOfAlphabet | nfc-addon.cpp:20 | the text contains only the characters 0-9 and A-F |
| Hex.ByteArrayToHex | nfc-addon.cpp:15-26 | the loop over `data[0..length)` returns the 2·length-character text whose characters 2i and 2i+1 are byte i's digits, all in 0-9A-F |
| Hex.CharUtf8 | nfc-addon.cpp:292 | a character takes one to four UTF-8 bytes; an ASCII character is its own code, and any other starts with a lead byte ≥ 0xC0 |
| Hex.Utf8Value | nfc-addon.cpp:292 | `Utf8Value()` of the command has at least one byte per character |
| Hex.Utf8ValueAscii | nfc-addon.cpp:292 | an ASCII command is one byte per character, each byte the character's code |
| Hex.Utf8ValueOfEuros | nfc-addon.cpp:292 | a command of n '€' signs is 3n bytes long |
| Hex.HexOfAscii | nfc-addon.cpp:15-26 | the text ByteArrayToHex returns is ASCII |
| Hex.DigitValue | nfc-addon.cpp:320 | a base-16 digit of either case has a value below 16 |
| Hex.DigitRun | nfc-addon.cpp:320 | strtol reads exactly the maximal prefix of hex digits and stops at the first non-digit |
| Hex.DigitsValue | nfc-addon.cpp:320 | one hex digit is below 16, two are below 256 |
| Hex.Strtol16 | nfc-addon.cpp:320 | strtol of at most two bytes lies strictly between −16 and 256 |
| Hex.ApduByte | nfc-addon.cpp:320 | the BYTE cast keeps a non-negative strtol value and adds 256 to a negative one |
| Hex.PairValue | nfc-addon.cpp:320 | any two hex digits, of either case, give 16·(first digit) + (second digit) |
| Hex.Substr2 | nfc-addon.cpp:319 | `apdu.substr(i, 2)` has two bytes, or one at the end of an odd-length command |
| Hex.HexToBytes | nfc-addon.cpp:317-321 | the conversion of the command's bytes yields ⌈len/2⌉ bytes, byte k coming from bytes 2k and 2k+1 |
| Hex.ApduByteSpaceAndSign | nfc-addon.cpp:320 | strtol skips leading white space and honours a sign, and the BYTE cast wraps: " F"→0x0F, "-1"→0xFF, "+a"→0x0A |
| Hex.ApduByteDigitRun | nfc-addon.cpp:320 | lower case is accepted and strtol stops at a non-digit: "1G"→0x01, "G1"→0x00, "0x"→0x00, "7"→0x07 |
| Hex.NonAsciiCommand | nfc-addon.cpp:292-320 | the command "é1" is the bytes C3 A9 31 and is sent as [0x00, 0x01] |
| Hex.DigitCode | nfc-addon.cpp:20 | the byte of the upper-case digit for n is a hex digit whose value is n |
| Hex.ByteHexDecodes | nfc-addon.cpp:320 | strtol reads the two digits ByteArrayToHex wrote for b back as b |
| Hex.HexBytesAt | nfc-addon.cpp:317-320 | the UTF-8 bytes of ByteArrayToHex's text are twice as many as the data bytes, and pair k is the two digit bytes of data byte k |
| Hex.HexRoundTrip | nfc-addon.cpp:292-321 | decoding the UTF-8 bytes of the text ByteArrayToHex produced gives back the original bytes |
| Hex.FillSendBuffer | nfc-addon.cpp:313-321 | the loop stores exactly HexToBytes(apdu) at the front of the buffer, sets dwSendLength to ⌈len/2⌉ and leaves the rest of the buffer untouched; it stays inside the buffer only when len ≤ 2·size |
| Hex.SendBufferOverflow | nfc-addon.cpp:313-321 | a command of more than 512 bytes needs more than 256 buffer bytes, so the unchecked loop writes past pbSendBuffer |
| Hex.OverlongCommand | nfc-addon.cpp:313-321 | a concrete overflow: 514 'F' bytes need 257 buffer bytes |
| Hex.NonAsciiOverflow | nfc-addon.cpp:292-321 | the length that matters is in bytes: 200 '€' characters are 600 bytes, more than the 512 the buffer takes |
| Hex.EncodeApdu | nfc-addon.cpp:313-321 | the conversion with a bounds check succeeds iff the command has at most 512 bytes, and then yields HexToBytes(apdu) with at most 256 bytes |
| Hex.RoundTripThroughSendBuffer | nfc-addon.cpp:292-321 | any byte string of at most 256 bytes survives ByteArrayToHex, UTF-8 encoding and the checked conversion |
| Commands.GetFirmwareMatches | nfc-addon.cpp:10 | GET_FIRMWARE is the hex text of ACR122U_GET_FIRMWARE |
| Commands.GetUidMatches | nfc-addon.cpp:11 | GET_UID is the hex text of ACR122U_GET_UID |
| Commands.LoadKeysMatches | nfc-addon.cpp:12 | LOAD_AUTHENTICATION_KEYS is the hex text of ACR122U_LOAD_AUTHENTICATION_KEYS |
| Commands.AuthenticateMatches | nfc-addon.cpp:13 | AUTHENTICATE is the hex text of ACR122U_AUTHENTICATE |
| Commands.ReadBinaryMatches | nfc-addon.cpp:212 | READ_BINARY is the hex text of ReadTag's send buffer |
| Commands.UpdateBinaryMatches | nfc-addon.cpp:267 | UPDATE_BINARY is the hex text of WriteTag's send buffer |
| Commands.CatalogMatchesAddon | src/index.ts:27-34 | every catalog string equals ByteArrayToHex of the bytes the addon transmits for that command |
| Commands.CatalogDecodes | index.js:34-41 | every catalog string fits the send buffer, and sendApdu decodes it to exactly the addon's bytes |
| Commands.CommandShape | nfc-addon.cpp:10-13 | every command starts with class byte 0xFF and has a 5-byte header; the two data-carrying commands have Lc equal to their data length, while UPDATE_BINARY is shorter than the 5 + Lc bytes it announces |
| NdefText.LowBitsMask | nfc-addon.cpp:35 | masking with 2^k−1 is the remainder modulo 2^k |
| NdefText.LangLen | nfc-addon.cpp:35 | `status & 0x3F` is status mod 64, below 64, so bits 7 and 6 are ignored |
| NdefText.ParseNdefText | nfc-addon.cpp:28-40 | under 5 bytes gives ""; a non-empty result has length len−1−langLen; the result is always a suffix of the data |
| NdefText.ParseNdefTextSlice | nfc-addon.cpp:36-39 | when the language code fits, the result is exactly data[1+langLen..] |
| NdefText.ParseNdefTextOverlong | nfc-addon.cpp:36-37 | a language length that runs past the end gives "" |
| NdefText.TextPayload | nfc-addon.cpp:33-35 | a Text record payload is status byte, language code and text |
| NdefText.ParseTextPayload | nfc-addon.cpp:28-40 | for any payload of at least 5 bytes, in UTF-8 or UTF-16, ParseNDEFText returns exactly its text |
| Readers.FindFrom | nfc-addon.cpp:44 | `find` returns the first occurrence at or after `from`, and npos only if there is none |
| Readers.IsAcr122uIff | nfc-addon.cpp:42-45 | IsACR122U holds iff "ACR122U" occurs somewhere in the name |
| Readers.NulFrom | nfc-addon.cpp:110 | `strlen` reaches the first NUL, with no NUL before it |
| Readers.NamesFrom | nfc-addon.cpp:97-110 | the walk from position p yields no name exactly when it starts on the terminating NUL |
| Readers.Names | nfc-addon.cpp:94-110 | the reader list is empty exactly when the multi-string starts with NUL |
| Readers.NameFits | nfc-addon.cpp:97-110 | in a well-terminated multi-string, every name is followed by its NUL and by at least one more character, so the walk never leaves the buffer |
| Readers.NamesFromClean | nfc-addon.cpp:97-110 | the walk yields at most one name per character, and each name is non-empty and NUL-free |
| Readers.SetAt | nfc-addon.cpp:102-108 | `readers.Set(k, v)` stores v at k, keeps every other index, and makes length one past k when k was at or past the end |
| Readers.Place | nfc-addon.cpp:100-109 | one turn stores the name either at index 0 with i = 1, or at the old i with i one larger |
| Readers.PlaceAllShape | nfc-addon.cpp:92-111 | the array never has a hole, has at most as many elements as there are names, and holds only names from the list |
| Readers.PlaceAllWithoutAcr | nfc-addon.cpp:106-109 | with no ACR122U reader the array is exactly the names, in order |
| Readers.PlaceAllAfterLastAcr | nfc-addon.cpp:100-109 | after the last ACR122U name at position j, indexes 0..n−j−1 hold names[j..] |
| Readers.LastAcrComesFirst | nfc-addon.cpp:100-105 | element 0 is the last ACR122U name, followed by the names after it, in order |
| Readers.PlaceReader | nfc-addon.cpp:100-109 | one turn of the loop: Set at 0 and i := 1 for ACR122U, otherwise Set at i++ |
| Readers.GetReaders | nfc-addon.cpp:92-111 | the loop builds exactly the array of the name-by-name walk; it is dense and no longer than the list of names |
| Readers.Select | nfc-addon.cpp:102 | a selection keeps only names of the chosen kind, all taken from the list |
| Readers.SelectSplits | nfc-addon.cpp:102 | the two selections together are a permutation of the names |
| Readers.AcrFirstIsPartition | nfc-addon.cpp:102 | the intended order is a permutation of the names in which no ACR122U reader follows a non-ACR122U reader |
| Readers.AgreeWithoutAcr | nfc-addon.cpp:106-109 | without ACR122U readers, the loop as written and the intended order agree |
| Readers.SelectNone | nfc-addon.cpp:106-109 | with no ACR122U name, selecting the others keeps every name |
| Readers.SelectSnoc | nfc-addon.cpp:102 | a new name joins the end of its own group only |
| Readers.GatherAllSelects | nfc-addon.cpp:102 | the corrected loop's two groups are the two selections |
| Readers.GetReadersAcrFirst | nfc-addon.cpp:92-111 | the corrected loop returns AcrFirst of the names, a permutation of them |
| Readers.OrderingLosesReaders | nfc-addon.cpp:92-111 | for [ACR122U-A, X, ACR122U-B, Y] the loop returns [ACR122U-B, Y], while the intended order is [ACR122U-A, ACR122U-B, X, Y] |
| JsValues.Truthy | src/index.ts:68 | the falsy values are exactly undefined, null, false, 0 and "" |
| JsValues.IsError | index.js:10 | an Error is always truthy, so it takes the `if (err)` branch |
| JsValues.DecimalDigits | index.js:14 | String(n) of a number is a non-empty run of decimal digits without a leading zero, and it reads back as n |
| JsValues.ToJsString | index.js:14 | String(v) of a string is the string; of a number, its digits (after a '-' when negative) read back as the number; of an Error, empty only when name and message are; of any other object, its own string form (empty for an empty array); of undefined, null, a boolean or a number, never empty |
| JsValues.NewError | index.js:14 | `new Error(v)` is a truthy Error named "Error" whose message is String(v) |
| Bridge.Outcome | index.js:8-21 | a callback settles the promise as fulfilled iff err is falsy, and then with the result itself; a callback rejection is always an Error; nothing leaves the promise pending |
| Bridge.Settle | index.js:8-21 | resolve or reject settles a pending promise, fulfilled iff a callback's err is falsy, and leaves a settled promise as it was |
| Bridge.Promisify | index.js:6-21 | the returned promise is pending iff the wrapped function has done nothing yet |
| Bridge.FirstSignalDecides | index.js:6-21 | the promise is pending iff nothing has happened yet, and otherwise is settled by the first callback or throw |
| Bridge.LaterSignalsIgnored | index.js:6-21 | callbacks or throws after the first change nothing |
| Bridge.ErrorRejectedAsIs | index.js:10-11 | an Error passed as err is rejected as that same value |
| Bridge.NonErrorWrapped | index.js:12-13 | a truthy non-Error err is rejected as new Error(err) |
| Bridge.EmptyArrayErrWrapped | index.js:12-13 | an empty array passed as err is truthy and not an Error, so it is rejected as an Error whose message is empty |
| Bridge.FalsyErrResolves | index.js:15-16 | a falsy err resolves with the result |
| Bridge.SyncThrowRejects | index.js:19-21 | a synchronous throw rejects with the thrown value, unwrapped |
| Bridge.PromisifiedAddonNeverFulfills | index.js:27-31 | promisify over an addon function never fulfils: a return leaves the promise pending, and a throw rejects with the exception |
| Bridge.AddonSignals | index.js:27-31 | an addon call gives at most one signal: none when it returns, and the synchronous throw of its exception when it throws |
| Bridge.CallAddon | nfc-addon.cpp:338-346 | a synchronous bridge settles every call: it fulfils with the return value iff the call returned, and otherwise rejects as promisify does |
| ContinuousRead.AlreadyActive | index.js:49-51 | the error thrown is an Error with message 'Continuous reading is already active' |
| ContinuousRead.NullCallbackError | index.js:78 | assigning intervalId on a null callback throws a TypeError |
| ContinuousRead.ReaderToPoll | src/index.ts:64-67 | a tick reads from a reader iff getReaders fulfilled with a non-empty list, and then from readers[0] |
| ContinuousRead.PromisifiedTickNeverPolls | src/index.ts:64-67 | with index.js's promisify around getReaders the tick never polls a reader; with a bridge that settles from the return value it polls the first returned name |
| ContinuousRead.CallsBack | src/index.ts:68 | the tick calls back only on a fulfilled read with a registered callback, and then exactly when the result is not undefined, null, false, 0 or "" |
| ContinuousRead.Timers.SetInterval | src/index.ts:57 | setInterval arms a fresh handle that was not armed before |
| ContinuousRead.Timers.ClearInterval | src/index.ts:59 | clearInterval disarms exactly that handle |
| ContinuousRead.Session.constructor | src/index.ts:44-45 | the module starts idle, with no callback and no timers |
| ContinuousRead.Session.Start | src/index.ts:48-79 | while active: throws 'Continuous reading is already active' with flag, callback, timers and the new callback's intervalId unchanged; while idle: sets the flag, stores the callback, arms one fresh interval and records its handle on the callback (a null callback throws a TypeError after the rest) |
| ContinuousRead.Session.Stop | src/index.ts:82-92 | afterwards the flag is false and the callback null; while idle, nothing changes; while active, exactly the interval recorded on the callback is cleared |
| ContinuousRead.Session.BeginTick | src/index.ts:58-61 | a tick that finds the session inactive clears its own interval and stops before any backend call; otherwise nothing changes |
| ContinuousRead.Session.ResumeAfterRead | src/index.ts:67-74 | after the read, the callback registered now is called once with the unmodified result iff the read fulfilled with a truthy value and a callback is registered; a rejected read changes nothing |
| ContinuousRead.Session.Tick | src/index.ts:57-75 | a whole tick reads only readers[0], only when it began active and the list is non-empty, calls back at most once, and keeps the session state; a failure changes nothing |
| ContinuousRead.StartedSession | src/index.ts:48-79 | start on a fresh module arms one interval and records it on the callback |
| ContinuousRead.StoppedDuringTick | src/index.ts:58-67 | a tick that began active and polled the only reader, followed by stop, leaves the session idle with no interval armed |
| ContinuousRead.StopDuringTick | src/index.ts:68-70 | a tick that resumes after stop never calls back |
| ContinuousRead.RestartDuringTick | src/index.ts:68-70 | after stop and a new start during a tick, the stale tick calls the new callback exactly once, although its own interval is cleared |
| ContinuousRead.DoubleStart | index.js:49-51 | a second start throws; the first callback stays registered with its interval armed, and the second gets no intervalId |
| ContinuousRead.StopTwice | index.js:82-92 | stop is idempotent: a second stop leaves the state and the timers as the first left them |
| ContinuousRead.NullStartOrphansInterval | index.js:53-78 | start(null) throws after arming an interval it records nowhere; after a restart that interval keeps polling and survives stop |
| ContinuousRead.NullStartThenStop | index.js:58-61 | without a restart, the orphaned interval clears itself at its next tick |

## Left out

- The PC/SC calls (`SCardEstablishContext`, `SCardListReaders`, `SCardConnect`, `SCardTransmit`, ...), their error paths and the N-API glue of `GetReaderInfo`, `ReadTag`, `WriteTag` and `SendApdu` are external I/O. Only the pure parts named above are modelled, and the backend's answers are inputs.
- Real timers and the event loop: the interval period (1000 ms), the timing of ticks and the concurrency of several ticks are not modelled. A tick is three steps that a caller interleaves with `start` and `stop` as it pleases.
- `console.error` in the tick's catch block is output only and is not modelled. The catch itself is: a failure changes nothing.
- `src/index.ts` uses Node's own `util.promisify`, which is not part of this model. `Bridge` models the hand-written `promisify` of `index.js`.
- `test.js` and the compiled `dist/` files are not part of this model.
- `ParseNDEFText` is the addon's simplified reader of a Text record payload. NDEF message and record headers are not parsed, either by the source or by the model.
- JavaScript numbers are unbounded integers here: NaN, fractions and −0 are not modelled, nor the exponent form String(n) takes from 10^21 on ("1e+21") or the loss of precision beyond 2^53. Objects other than Errors are known by an identity number and the string their `toString` gives; their other properties are not modelled.
- What the user's callback does is not modelled: its side effects, any exception it throws, and any reentrant `start`/`stop` it makes.
- Hex.Strtol16: covers only strings of at most two bytes. These are the only ones SendApdu passes to strtol. On them a "0x" prefix cannot change the value ("0x" reads as 0), and LONG_MAX saturation cannot arise.
- Hex.CharUtf8: encodes Unicode scalar values only. A JavaScript string with a lone surrogate, which `Utf8Value()` replaces by U+FFFD, is not modelled.
- Readers.NamesFromClean: does not prove that writing the names back with their NULs reproduces the multi-string. Only the properties of the names the walk yields are proved.
- ContinuousRead.Session.Start: the callback is a `Callback` or null. Other non-function values that plain JavaScript would accept are not modelled.

## Findings

| source | as written | input that shows it | evidently intended | confidence | as-written member | corrected member |
|---|---|---|---|---|---|---|
| nfc-addon.cpp:313-321 | the hex-to-bytes loop writes `pbSendBuffer[dwSendLength++]` with no bound | a command of 514 'F' characters, or of 200 '€' characters (600 UTF-8 bytes), stores more than 256 bytes into a 256-byte buffer | refuse (or report) a command whose UTF-8 bytes number more than 512 | not executed | Hex.SendBufferOverflow | Hex.EncodeApdu |
| nfc-addon.cpp:100-109 | each ACR122U name is Set at index 0 and `i` is reset to 1, overwriting what was there | [ACR122U-A, X, ACR122U-B, Y] yields [ACR122U-B, Y] | ACR122U readers first, no reader lost | not executed | Readers.OrderingLosesReaders | Readers.GetReadersAcrFirst |
| index.js:27-31 | `promisify` wraps addon functions that return their result synchronously and never call the appended callback | any successful `getReaders()` or `readTag(reader)` call: the promise stays pending | settle from the return value or the exception | not executed | Bridge.PromisifiedAddonNeverFulfills | Bridge.CallAddon |
