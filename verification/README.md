# USB-I2C AVR miner: bus protocol core in Dafny

This project models the shared-bus protocol at the heart of the DuinoCoin
USB-I2C AVR miner (`AVR_Miner_USBI2C.py`) and proves properties of it. In that
miner, several AVR boards sit behind one USB-to-I2C gateway. Each worker thread:

1. sends its board a job one character at a time;
2. polls the gateway for reply tokens, which it files into per-address reply
   buffers (`result_pool`);
3. validates the finished answer, with an optional CRC-8 check;
4. retries up to eleven times;
5. tallies the pool's verdict on the submitted share.

The modules follow that structure:

| module | file | what it holds |
|---|---|---|
| `Wrappers` | `wrappers.dfy` | `Option` |
| `PyText` | `pytext.dfy` | Python's `split`, `join`, `strip`, `rstrip`, `isalnum`, `rpartition` |
| `PyInt` | `pyint.dfy` | Python's `int(s, base)`, `str(n)` and `hex(n)` without `0x` |
| `Utf8` | `utf8.dfy` | `str.encode()` |
| `Crc8` | `crc8.dfy` | the Dallas/Maxim CRC-8 (Maxim Application Note 27) as the miner writes it |
| `Framing` | `framing.dfy` | gateway command strings, the three address spellings, the job line |
| `Demux` | `demux.dfy` | one poll of the read loop, the read loop, and where replies end up |
| `Validation` | `validation.dfy` | the checks a finished answer must pass |
| `Retry` | `retry.dfy` | one bus attempt and the bus retry loop, each as written and corrected, the hand-off, the pool reconnect loop |
| `Feedback` | `feedback.dfy` | parsing the pool's verdict, the `shares` tally, the periodic report deltas, the hashrate/ping windows |

Time, the serial port and the sockets become inputs.
- A read attempt is driven by a sequence of `Poll`s. Each poll is the gateway's decoded reply (or `None` when the read raised) plus whether `AVR_TIMEOUT` has passed at that point.
- A bus loop is driven by one such sequence per attempt.
- The pool loop is driven by the outcomes of its connection attempts.

Where the miner's documentation and its code differ, the model follows the code:
- A result is refused only when its nonce is zero (`if not _`). A negative nonce passes.
- A checksum failure does not flush the bus. The flush in the retry handler is commented out.
- The hashrate and ping windows are taken over the miner-wide lists `hashrate_mean` and `ping_mean`, not per worker.
- The checksum setting is compared raw with `"y"` and `"n"`.
  - Any other value sends the job without a checksum.
  - Under any other value a read never completes, so every attempt ends by the timeout (`Demux.UnknownSettingNeverCompletes`).
- Bus commands spell the address in decimal (`str(int(com, 16))`). Reply buffers are keyed in hexadecimal (`hex(int(com, 16))`). The two differ from address 10 on (`Framing.AddressSpellings`).
- Completion is judged on the buffer of the address the reply came from, which need not be the worker's own.
- A job with fewer than three fields fails inside the bus loop's `try` before `result` is reset. The attempt therefore leaves the previous buffers and `result` untouched.

## Model

| member | source | states |
|---|---|---|
| Crc8.BitStep | AVR_Miner_USBI2C.py:944-951 | one bit of the miner's update (xor 0x18, shift, mask, set bit 7) equals the reflected Maxim step: shift right, xor 0x8C when the feedback bit is set |
| Crc8.ComputeCrc8 | AVR_Miner_USBI2C.py:940-952 | the nested byte/bit loops compute the CRC-8 fold over the data |
| Crc8.TextCrc | AVR_Miner_USBI2C.py:940-952 | `crc8(text.encode())` lies in 0..255 and is 0 for empty text |
| Crc8.CrcAppend | AVR_Miner_USBI2C.py:940-952 | the checksum of a concatenation continues from the checksum of the first part |
| Crc8.TableForm | AVR_Miner_USBI2C.py:942-951 | the byte update depends only on `crc xor byte` (the table-driven form) |
| Crc8.ResidueIsZero | AVR_Miner_USBI2C.py:940-952 | appending the checksum to the data makes the checksum zero |
| Crc8.CrcInjective | AVR_Miner_USBI2C.py:940-952 | two different starting states never give the same checksum over the same data |
| Crc8.ByteErrorDetected | AVR_Miner_USBI2C.py:940-952 | corrupting any single byte changes the checksum |
| Crc8.CheckValue | AVR_Miner_USBI2C.py:940-952 | the checksum of ASCII "123456789" is 0xA1, the catalogued check value of CRC-8/MAXIM |
| Utf8.CharRoundTrip | AVR_Miner_USBI2C.py:1072 | the UTF-8 encoding of a character decodes back to it |
| Utf8.EncodeAppend | AVR_Miner_USBI2C.py:1072 | encoding distributes over concatenation |
| Utf8.EncodeAscii | AVR_Miner_USBI2C.py:1142 | ASCII text encodes to its own code points, one byte per character |
| PyText.Split | AVR_Miner_USBI2C.py:1116 | `split` gives one more field than there are separators, none holding the separator |
| PyText.JoinSplit | AVR_Miner_USBI2C.py:1116 | joining the fields of a split gives back the text |
| PyText.SplitJoin | AVR_Miner_USBI2C.py:1116 | splitting separator-free fields joined by the separator gives back the fields |
| PyText.TrimRight | AVR_Miner_USBI2C.py:224 | `rstrip` removes exactly a maximal suffix of the given characters |
| PyText.TrimLeft | AVR_Miner_USBI2C.py:1106 | `lstrip` removes exactly a maximal prefix of the given characters |
| PyText.RPartitionHead | AVR_Miner_USBI2C.py:1141 | `rpartition(',')[0]` is "" without a comma, otherwise the text before the last comma |
| PyText.RPartitionSplit | AVR_Miner_USBI2C.py:1141 | the head found for `head + ',' + tail` with a comma-free tail is `head` |
| PyInt.DecimalRoundTrip | AVR_Miner_USBI2C.py:1072 | `int(str(n))` is `n` for every integer |
| PyInt.HexKeyRoundTrip | AVR_Miner_USBI2C.py:964 | `int(hex(n) without 0x, 16)` is `n` for every integer |
| PyInt.NegativeRoundTrip | AVR_Miner_USBI2C.py:1132 | `int` reads a minus sign followed by digits as the negative number |
| PyInt.UnderscoreBetweenGroups | AVR_Miner_USBI2C.py:1132 | two digit groups joined by one underscore are accepted by `int` and parse to the same number as the groups run together |
| PyInt.SeparatorNotSkipped | AVR_Miner_USBI2C.py:1132 | `int` refuses a number with one of the separators `\x1c` to `\x1f` before or after it, although `strip()` removes those separators |
| PyInt.HexKeyInjective | AVR_Miner_USBI2C.py:1102 | distinct addresses get distinct buffer keys |
| PyInt.DecimalIsAlnum | AVR_Miner_USBI2C.py:1104 | a non-negative decimal is alphanumeric |
| Framing.WorkerKeys | AVR_Miner_USBI2C.py:964-965 | a reply carrying a worker's configured address string is filed under that worker's buffer, and two workers share a buffer exactly when their address strings denote the same number |
| Framing.ReplyKeyOfWorker | AVR_Miner_USBI2C.py:1102 | a reply is filed under a worker's buffer exactly when its address field denotes the worker's address |
| Framing.KeyEcho | AVR_Miner_USBI2C.py:964-965 | a reply carrying the buffer key as its address is filed under that key |
| Framing.AddressSpellings | AVR_Miner_USBI2C.py:1081 | decimal and hexadecimal spellings agree for every address below 10 and differ for every address from 10 on (16 is "16" on the bus, "10" as a key) |
| Framing.WriteFrameRoundTrip | AVR_Miner_USBI2C.py:911-919 | a write command parses back to its address and data |
| Framing.ReadFrameRoundTrip | AVR_Miner_USBI2C.py:922-928 | a read request parses back to its address |
| Framing.FlushFrameRoundTrip | AVR_Miner_USBI2C.py:934-937 | a flush is the write command to address "fl" carrying the worker's address string |
| Framing.DecodeReplyRoundTrip | AVR_Miner_USBI2C.py:929 | a gateway reply `addr:token$` decodes to `[addr, token]` |
| Framing.JobPayload | AVR_Miner_USBI2C.py:1064-1076 | the job line starts with the three fields and a comma and ends in a newline. With "y" the text after the last comma parses to the CRC-8 of everything up to it; otherwise nothing is inserted |
| Framing.JobPrefixFields | AVR_Miner_USBI2C.py:1064-1069 | comma-free job fields come back out of the prefix |
| Framing.JobWritesDeliver | AVR_Miner_USBI2C.py:1078-1085 | the per-character writes, all to the worker's decimal address, deliver the job line in order |
| Demux.AbsorbOneEffect | AVR_Miner_USBI2C.py:1102-1106 | a reply adds the stripped data token to the buffer of its address only, leaves every other buffer alone, and never adds a key |
| Demux.Process | AVR_Miner_USBI2C.py:1101-1129 | one poll: it gives corruption exactly on an error mark for a well-formed address, and completion exactly when the reply's buffer exists and splits into 4 (with "y") or 3 (with "n") fields with a newline token. A completion names the reply's buffer and leaves its split as `result`; a timeout needs the clock to have expired; an expired clock ends the read |
| Demux.ReadLoop | AVR_Miner_USBI2C.py:1093-1129 | corrected read loop (a failed read is skipped): it never adds or removes a buffer, never blocks, and a read still going on has seen no expired poll |
| Demux.ReadLoopAsWritten | AVR_Miner_USBI2C.py:1093-1129 | read loop as written, with `usbi2c_read` (:922-930) releasing nothing when it raises: the bus semaphore stays taken only after a read that raised, and from then on the loop never uses the bus again; it is blocked only in that case |
| Demux.AsWrittenWithoutRaise | AVR_Miner_USBI2C.py:1093-1129 | when no read raises, the loop as written is the corrected loop and leaves the semaphore free |
| Demux.PollStep | AVR_Miner_USBI2C.py:1093-1129 | a poll after the clock expired always ends the read |
| Demux.AbsorbPerKey | AVR_Miner_USBI2C.py:1102-1106 | after any replies a buffer holds its old text followed by exactly the data tokens addressed to it, in order |
| Demux.ReadLoopAbsorbs | AVR_Miner_USBI2C.py:1093-1129 | the buffers after the read loop are those obtained from some prefix of the replies received |
| Demux.StopsByExpiry | AVR_Miner_USBI2C.py:1125-1129 | the read ends at the first poll after the clock expired at the latest, and later polls change nothing |
| Demux.UnknownSettingNeverCompletes | AVR_Miner_USBI2C.py:1117-1123 | with a checksum setting other than "y" or "n" no read ever completes |
| Demux.TokensAccumulate | AVR_Miner_USBI2C.py:1104-1106 | a run of clean data tokens keeps the read going and appends their concatenation to the addressed buffer |
| Demux.AnswerTextCompletes | AVR_Miner_USBI2C.py:1093-1123 | an answer sent character by character and ended by a newline completes the read on its buffer, holding exactly that answer, with its split as `result` |
| Demux.AnswerCompletes | AVR_Miner_USBI2C.py:1116-1123 | a token run whose text has the field count the setting waits for, followed by a newline, completes the read |
| Demux.ReadLoopSplit | AVR_Miner_USBI2C.py:1093 | the read loop over two poll runs is the loop over the second from where the first stopped |
| Demux.StaleReplyDuplicates | AVR_Miner_USBI2C.py:1094-1106 | when the read after a data token raises, the loop as written appends the token twice and then blocks; the corrected loop appends it once and keeps reading |
| Validation.ExpectedCrc | AVR_Miner_USBI2C.py:1141-1142 | the expected checksum of a buffer is a byte value |
| Validation.Validate | AVR_Miner_USBI2C.py:1131-1149 | an answer is accepted exactly when it has at least three fields, a nonzero integer nonce, an integer time and an alphanumeric id, and with "y" a fourth field equal to the CRC-8 of the buffer up to its last comma. A checksum rejection carries both values |
| Validation.FrameAccepted | AVR_Miner_USBI2C.py:1131-1147 | the answer a correct device sends for a share, with its checksum exactly when the setting is "y", is accepted as exactly that share |
| Validation.WrongChecksumRejected | AVR_Miner_USBI2C.py:1140-1146 | an answer carrying any checksum but the right one is rejected as a checksum failure naming both values |
| Validation.ZeroNonceRejected | AVR_Miner_USBI2C.py:1132-1135 | an answer with nonce 0 is refused whatever the setting |
| Validation.SeparatorNonceRejected | AVR_Miner_USBI2C.py:1131-1132 | an answer whose nonce field ends in one of the separators `\x1c` to `\x1f` is refused as not an integer whatever the setting, although the buffer's `strip()` kept that separator |
| Validation.ValidateFour | AVR_Miner_USBI2C.py:1131-1147 | for a four-field answer with integer fields and an alphanumeric id, validation comes down to the nonzero-nonce check and the checksum comparison |
| Retry.RunAttempt | AVR_Miner_USBI2C.py:1062-1149 | one attempt with the corrected read loop: a job with fewer than three fields fails and changes nothing; otherwise the worker's own buffer is added. A valid share is the accepted verdict on an existing buffer whose split is `result`; the attempt flushes exactly on corruption or timeout, and never blocks |
| Retry.RunAttemptAsWritten | AVR_Miner_USBI2C.py:1062-1149 | one attempt as written: the same buffer and validation facts; it hangs only with the semaphore taken, and the semaphore stays taken only after a read that raised, with no flush written |
| Retry.AttemptsAgree | AVR_Miner_USBI2C.py:1093-1099 | an attempt whose reads all return is the same as written and corrected |
| Retry.BusLoopsAgree | AVR_Miner_USBI2C.py:1056-1155 | a bus loop whose reads all return is the same as written and corrected |
| Retry.ReadLoopCompletes | AVR_Miner_USBI2C.py:1116-1119 | the read loop never changes the buffer keys, and a completion names an existing buffer whose split is `result` |
| Retry.CompletedAttempt | AVR_Miner_USBI2C.py:1131-1149 | an attempt whose read completes on the worker's buffer ends with that buffer's verdict and leaves its split as `result` |
| Retry.BusLoopWith | AVR_Miner_USBI2C.py:1056-1060 | the counter never decreases and the bus retry tally grows by as much; the loop flushes exactly when it gives up, with the counter at 11; at most 11 attempts are made |
| Retry.BusLoopCounts | AVR_Miner_USBI2C.py:1150-1155 | the counter and the bus retry tally grow by the number of failed attempts, the bad-checksum tally by the checksum failures |
| Retry.BusLoopLog | AVR_Miner_USBI2C.py:1056-1155 | every attempt but the last failed; a delivered share is the last attempt's; from counter 0 giving up takes exactly eleven failed attempts |
| Retry.RepeatedFailureGivesUp | AVR_Miner_USBI2C.py:1058-1060 | attempts that keep failing make the loop give up, leaving their `result` |
| Retry.BadChecksumAttempt | AVR_Miner_USBI2C.py:1140-1146 | a device answering with a wrong checksum makes the attempt fail on the checksum and leaves the answer's fields as `result` |
| Retry.GoodAnswerDelivered | AVR_Miner_USBI2C.py:1056-1160 | a device answering correctly has its share delivered by the first attempt of both loops, with no retry counted, and handed on unchanged unless its time rounds to zero seconds |
| Retry.BusLoopDelivers | AVR_Miner_USBI2C.py:1056-1155 | the corrected bus loop never deadlocks, and a share it delivers is the accepted verdict on an existing buffer whose split is `result` |
| Retry.FailedReadDeadlocks | AVR_Miner_USBI2C.py:1094-1106 | a data token from the worker's device followed by a read that raises inside `usbi2c_read` (:922-930): the loop as written files the token twice and deadlocks with no retry counted; the corrected loop files it once and is still reading |
| Retry.HandoffAsWritten | AVR_Miner_USBI2C.py:1157-1160 | a share is handed on exactly when the bus loop delivered or gave up (a stalled or deadlocked worker never gets there) and `result` holds an integer nonce, an integer time that does not round to zero seconds (ZeroDivisionError otherwise), and a third field; what is handed on is that nonce, time and id, whatever the loop validated |
| Retry.HandoffValidated | AVR_Miner_USBI2C.py:1131-1160 | what the corrected loop and hand-off submit is the accepted verdict on an existing buffer; after a delivery the hand-off as written agrees with the corrected one |
| Retry.StaleResultSubmitted | AVR_Miner_USBI2C.py:1056-1160 | after eleven bad-checksum answers the loop as written gives up, yet the hand-off as written submits the stale share unless its time rounds to zero; the corrected hand-off submits nothing |
| Retry.ConnectLoop | AVR_Miner_USBI2C.py:969-1013 | the pool loop connects on the first successful attempt after only failures, or makes every attempt when none succeeds |
| Retry.FetchesPerFailures | AVR_Miner_USBI2C.py:972-974 | over any run of k failed connections followed by a success, starting from counter c (at most four), the loop fetches a fresh endpoint (c + k) / 4 times and connects on attempt k + 1 |
| Feedback.FeedbackRoundTrip | AVR_Miner_USBI2C.py:223-225 | every verdict line the pool can send, with or without a trailing newline, parses back to the verdict |
| Feedback.Tally | AVR_Miner_USBI2C.py:1209-1230 | each verdict adds exactly one share: accepted for GOOD and BLOCK, rejected for BAD and anything else, and a block for BLOCK; blocks never outnumber accepted shares |
| Feedback.TallyCounts | AVR_Miner_USBI2C.py:1209-1230 | after a run of verdicts the counts grow by the number of accepting, rejecting and block verdicts, and their sum by the run's length |
| Feedback.FlushesOnUnknownWord | AVR_Miner_USBI2C.py:1226-1233 | the worker flushes the bus after a verdict line exactly when the line's first field is none of GOOD, BLOCK and BAD |
| Feedback.ReportsTelescope | AVR_Miner_USBI2C.py:1239-1257 | for any report period, the growth of accepted shares, checksum failures and bus retries reported over a run adds up to the growth of the baseline |
| Feedback.Window | AVR_Miner_USBI2C.py:1162-1163 | `xs[-n:]` is the suffix of length min(|xs|, n) |
| Feedback.WindowAppend | AVR_Miner_USBI2C.py:1196-1197 | the window after one more sample is the old window with the sample added, trimmed to size |

## Left out

- The serial port, the sockets and the HTTP endpoint lookup are not modelled. Gateway replies, connection outcomes and pool lines are inputs.
- The timeout is not modelled as a clock. An `expired` flag on each poll stands for the `AVR_TIMEOUT` comparison, and an elapsed-seconds input for `REPORT_TIME`, whose value (60 by default, or the configuration's `periodic_report`) is a parameter.
- Threads, `thread_lock`, `printlock` and every `sleep` are not modelled. One worker's sequential view is modelled, with the shared buffers and tallies passed along.
- `serlock` is modelled only as the semaphore a raising read leaves taken (`Deadlocked`). That blocks every other worker too, which the one-worker view does not show.
- A finite poll stream that runs out mid-read ends an attempt as `Waiting`, and the bus loop as `Stalled`. The miner instead keeps polling.
- A share delivered after a read raised is handed on, but the worker's next bus command would block; that next job is not modelled.
- Floating point is not modelled: `hashrate_t`, `mean`, `get_prefix` and the rates of `periodic_report`. Of `computetime` only whether it rounds to zero is modelled (`Retry.TimeRoundsToZero`). Of the windows only the selection `xs[-5:]` / `xs[-10:]` is modelled.
- Retry.HandoffAsWritten: does not model the OverflowError of the hashrate step for a nonce above the float range (about 309 digits) or a time above it (about 315 digits); such a result is handed on.
- Retry.Handoff: does not model that OverflowError either.
- The submission line (:1179-1188) is not modelled as text, because it carries the float hashrate. The hand-off models the nonce, time and id it takes from `result`.
- Framing.JobWritesDeliver: every write is taken to succeed. A raising `usbi2c_write` (:911-920) leaves `serlock` taken, so the worker's next bus command blocks forever, although the `except` at :1083-1085 carries on; that path is not modelled.
- `recv`'s byte limit is not modelled.
- Console output, translations, `title`, the MOTD exchange, the server-version check, the config wizard and the mining-key decoding are not modelled.
- PyText.IsAlnum: ASCII letters and digits only. Python's `isalnum` also accepts other Unicode letters and digits.
- PyText.Strip: strips ASCII whitespace only, not the other Unicode whitespace Python strips.
- The UTF-8 decoding of gateway replies is not modelled. Replies are taken as already-decoded strings.
- PyInt.ParseInt: the Unicode digits and the base prefixes other than `0x` that Python's `int` accepts are not modelled.
- PyInt.ParseInt: only bases 10 and 16 are modelled. The miner converts in no other base.
- PyInt.ParseInt: of the whitespace `int` skips around a number, only the six ASCII characters are modelled. `int` also skips Unicode spaces such as `\xa0`, which the model refuses.

## Findings

| source | as written | input that shows it | evidently intended | confidence | as-written member | corrected member |
|---|---|---|---|---|---|---|
| AVR_Miner_USBI2C.py:922-930, 1094-1106 | when `usbi2c_read` raises, `serlock` is never released and `i2c_rdata` keeps the previous reply: that reply is filed again, then the next poll or flush blocks forever | worker "8" with an empty buffer; reply `["8", "5"]`, then a read that raises: the buffer becomes "55" and the worker blocks | the semaphore is released whatever happens, and a failed read contributes nothing before the loop polls again (the corrected loop files exactly the replies received, `Demux.ReadLoopAbsorbs`) | not executed | Retry.FailedReadDeadlocks | Retry.BusLoopDelivers |
| AVR_Miner_USBI2C.py:1058-1060, 1157-1160 | after the bus loop gives up, `result` still holds the fields of the last failed answer, which are handed on as a share and submitted | eleven answers with the right nonce, time and id but a wrong checksum: the loop gives up, then submits that nonce | giving up ends the job without submitting, and only a validated share is submitted | not executed | Retry.StaleResultSubmitted | Retry.HandoffValidated |
