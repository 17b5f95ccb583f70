# esp-idf-smtp-camera: a Dafny model of its mail and capture logic

The firmware takes a picture with an ESP32 camera, names it after the local
time, and mails it as a base64 attachment over SMTP with STARTTLS. This
project models the sequential logic inside that firmware and proves
properties of it. Nine modules cover it:

- `ReplyScanner` (reply_scanner.dfy) models `write_and_get_response` and
  `write_ssl_and_get_response`.
  - Reading an SMTP reply is a byte scan that keeps the first four bytes of
    the current line across receive calls. It stops at the first line that
    starts with a digit and has a space as its fourth byte, following the
    multiline-reply rule of section 4.2.1 of RFC 5321.
  - It is written twice: as a function over the concatenated stream, and as
    an imperative method over receive results. The two are proved equal.
- `MailSession` (mail_session.dfy) models one job of `smtp_client_task`.
  - The session goes: greeting, EHLO, STARTTLS, handshake, AUTH LOGIN, base64
    user and password, MAIL FROM, RCPT TO, DATA, body and terminator. It is
    modelled as a fold over a scripted list of reply values.
  - Each reply is range-checked as `VALIDATE_MBEDTLS_RETURN` does.
  - The teardown at `exit` tracks the `buf` pointer as NULL, live or dangling.
  - `Consume` runs the task's loop over several jobs.
  - A `Build` flag selects the code as written or with the defects under
    Findings repaired.
  - The corrected build also changes the empty credential: as written, an
    empty user name or password leaves `base64_buffer` alone and sends its old
    contents again, like the empty read under Findings. The corrected build
    sends an empty line there too. No Findings row covers this case, because
    the credentials are build-time settings.
  - Each body write's result is an input. A write either returns, and its
    value goes into `ret` and is overwritten before anything reads it, or it
    retries for ever on WANT_READ/WANT_WRITE. A write that never returns
    blocks the task, like a reply that never comes.
- `Attachment` (attachment.dfy) models the `while (!feof(fp))` loop that reads
  93-byte pieces and writes one base64 line per piece.
- `Base64` (base64.dfy) is a reference encoder and decoder following section 4
  of RFC 4648. It also models the contract of the `mbedtls_base64_encode` call:
  the error for a destination that is too small, and the early return for an
  empty source.
- `AddressParser` (address_parser.dfy) models `parseAddress`.
  - It is a byte-by-byte state machine.
  - It is also given a reference reading field by field, and the two are
    proved equal.
- `CaptureRetry` (capture_retry.dfy) models the capture retry loop of
  `app_main` over a script of capture and `stat` results. It then hands the
  job to the mail task.
- `FileName` (file_name.dfy) models the `%04d%02d%02d-%02d%02d%02d.jpg` name
  printed into `remoteFileName[64]`.
- `Bytes` (bytes.dfy) holds the shared byte helpers: C strings, digits, `atoi`
  and `strtol` on digit runs, and `%0Nd`.
- `Wrappers` (wrappers.dfy) holds the shared `Option` type.

When the configured strings leave every line within the 512-byte `buf`
(`ConfigFits`), the body is the bytes the code prints (`SessionFits`),
including:

- its mix of `\n` and `\r\n` line endings;
- its base64 lines of up to 124 symbols, longer than the 76-character limit of
  section 6.8 of RFC 2045.

The attachment loop writes `|file| / 93 + 1` lines, the last one possibly for
an empty read. It does not write `ceil(|file| / 93)` lines. The model follows
the code.

## Model

| member | source | states |
|---|---|---|
| ReplyScanner.CodeValue | main/smtp_client.c:124-126 | the value `atoi` reads from the first three bytes of a terminating line is at most 999 |
| ReplyScanner.ScanFrom | main/smtp_client.c:116-131 | a code the byte scan finds is at most 999 |
| ReplyScanner.ScanAppend | main/smtp_client.c:103-132 | scanning `a + b` is scanning `a`, then resuming from the saved `code`/`idx` over `b`, so the state kept across reads loses nothing |
| ReplyScanner.ScanReplyIsFirstFinalLine | main/smtp_client.c:116-131 | the scan returns exactly the value of the first `\n`-terminated line whose first byte is a digit and whose fourth byte is a space, against an independent line-splitting definition |
| ReplyScanner.ScanFollowsLines | main/smtp_client.c:116-131 | from any partly read line, the scan agrees with the line-based reference over the pending bytes plus the rest |
| ReplyScanner.SkipsNonFinalLine | main/smtp_client.c:116-131 | a line that does not terminate (a `250-` continuation, a line shorter than four bytes, a non-digit first byte) is skipped: the result is that of the rest |
| ReplyScanner.EndsOnFinalLine | main/smtp_client.c:124-127 | a line of three digits and a space ends the reply with the value of those digits, whatever follows |
| ReplyScanner.FirstDigitOnly | main/smtp_client.c:124-126 | only the first byte is checked to be a digit; when the second is not, the value is that one digit |
| ReplyScanner.OnlyFirstByteIsChecked | main/smtp_client.c:124-126 | the line `2x9 ` ends the reply with the value 2 |
| ReplyScanner.ScanBytes | main/smtp_client.c:116-131 | the imperative inner loop over one receive equals the functional scan from the saved code |
| ReplyScanner.GetResponse | main/smtp_client.c:157-190 | the imperative read loop equals the stream-level outcome: the first terminating line's value, or the first failing receive unchanged; a returned value is at most 999 |
| ReplyScanner.WriteAndGetResponse | main/smtp_client.c:138-194 | the whole routine equals the reference: nothing is sent when `len` is 0, a failed write is returned, TLS write retries are repeated, then the reply is read; with `len == 0` it is the read alone |
| ReplyScanner.DeliveredStep | main/smtp_client.c:160-169 | a received piece adds its bytes to the stream; on the TLS copy a `WANT_READ`/`WANT_WRITE` read is skipped; any other failure ends the stream with its value |
| ReplyScanner.ChunkingIrrelevant | main/smtp_client.c:103-132 | two receive scripts delivering the same bytes, split differently, give the same outcome |
| ReplyScanner.FailedReceive | main/smtp_client.c:162-169 | a retried failure is skipped on the TLS copy; any other receive result of at most 0 is returned unchanged |
| ReplyScanner.DeliveredAll | main/smtp_client.c:103-116 | receives that all succeed deliver exactly their concatenation |
| Bytes.LeadingDecimal | main/smtp_client.c:126 | `atoi` on n bytes yields less than 10^n |
| Bytes.DecimalString | main/main.c:470-472 | the `%d` rendering of n is a non-empty digit string without a leading zero whose value is n |
| Bytes.PadDecimalValue | main/main.c:470-472 | a `%0Nd` field is all digits and reads back as its value |
| Bytes.PadDecimalLength | main/main.c:470-472 | a `%0Nd` field of a value below 10^N is exactly N bytes |
| Base64.RoundTrip | main/smtp_client.c:548-549 | decoding the encoding of any bytes gives them back |
| Base64.EncodeLength | main/smtp_client.c:548-549 | the encoding of n bytes is 4 * ceil(n / 3) symbols |
| Base64.EncodingAlphabet | main/smtp_client.c:548-549 | every encoded byte is an alphabet symbol or `=`, and there is no `=` when n is a multiple of 3 |
| Base64.EncodeAppend | main/smtp_client.c:548-549 | encoding a whole number of 3-byte groups followed by more bytes is the concatenation of the two encodings |
| Base64.GroupRoundTrip | main/smtp_client.c:548-549 | one 3-byte group decodes back from its four symbols |
| Base64.SymbolRoundTrip | main/smtp_client.c:548-549 | each 6-bit value is recovered from its symbol |
| Base64.EncodeInto | main/smtp_client.c:548-553 | the encoder call fails exactly when the encoding and its NUL do not fit the destination, writes nothing exactly for an empty source, and otherwise writes the RFC 4648 encoding |
| Attachment.ChunksSplit | main/smtp_client.c:544-546 | the reads are full 93-byte pieces but for a shorter last one, and together they are the file |
| Attachment.ChunksCount | main/smtp_client.c:537-546 | there are `|file| / 93 + 1` reads, the last holding `|file| % 93` bytes |
| Attachment.FitsBuffer | main/smtp_client.c:537 | a source fits `base64_buffer[128]` with its NUL exactly when it is at most 93 bytes |
| Attachment.PieceFits | main/smtp_client.c:548-553 | a piece of at most 93 bytes encodes to at most 124 symbols, so the encode error branch is never taken |
| Attachment.SendFile | main/smtp_client.c:544-556 | the imperative `feof`/`fread` loop equals the functional loop as written |
| Attachment.StreamsComplete | main/smtp_client.c:550-553 | neither the written nor the corrected loop ever takes the encoder's error exit |
| Attachment.CorrectedStreamDecodes | main/smtp_client.c:537-556 | the corrected loop writes `|file| / 93 + 1` lines of at most 126 bytes, with no `=` before the last, that decode to exactly the file |
| Attachment.StreamShape | main/smtp_client.c:544-556 | both loops write `|file| / 93 + 1` lines; when the buffer starts with at most 124 symbols, each line is at most 124 symbols and `\r\n` |
| Attachment.AsWrittenLines | main/smtp_client.c:544-556 | as written, every line is the encoding of its piece except a last one for an empty read, which repeats the buffer's previous contents |
| Attachment.PayloadOfEncodedLines | main/smtp_client.c:544-556 | the lines of full pieces plus a last one, stripped of `\r\n`, are the encoding of the whole file |
| Attachment.RepeatedLastLine | main/smtp_client.c:544-556 | as written, a file that is a non-empty multiple of 93 bytes is sent as its pieces' lines plus the last of them again |
| Attachment.StaleFinalLine | main/smtp_client.c:544-556 | as written, for such a file the last two lines are equal and the attachment decodes to the file plus a copy of its last 93 bytes |
| Attachment.EmptyFileSendsPriorBuffer | main/smtp_client.c:544-556 | as written, an empty file is sent as one line holding whatever `base64_buffer` held before the loop |
| MailSession.ReplyClasses | main/smtp_client.c:63-68 | no transport error and no 1yz, 4yz or 5yz reply passes any check; 2yz passes except after the user name and DATA; 3yz passes exactly after AUTH LOGIN, user name, password and DATA |
| MailSession.Exchange | main/smtp_client.c:408-419 | an exchange writes its command (nothing for an empty text), reads one reply if there is one, and goes on exactly when that reply is in range; otherwise it stops with that reply, or waits when none is left |
| MailSession.IntoBuffer | main/smtp_client.c:452-457 | a credential fails to encode exactly when it is longer than 93 bytes; otherwise the buffer decodes back to it, except that an empty one leaves the old buffer as written |
| MailSession.RunSession | main/smtp_client.c:392-405 | a failed connect ends the job with its code and writes nothing, a refused allocation ends it with nothing written; the connection is torn down unless the task is left blocked (a reader waiting or a body write that never returns), and `close_notify` is sent only for a delivered mail |
| MailSession.BodyLayout | main/smtp_client.c:489-561 | the body is the header, boundary, text part and attachment header, one line per read of an opened file, then the closing boundary; it writes no command, never fails, and with the corrected encoder its lines decode to the file |
| MailSession.PerformExchange | main/smtp_client.c:408-487 | a step that nothing before it makes fail writes its command, reads one reply, and goes on exactly when that reply is accepted |
| MailSession.FinishExchange | main/smtp_client.c:560-565 | before the terminator the whole body goes out without writing a command, and the terminator's reply is then checked |
| MailSession.RunReaches | main/smtp_client.c:408-487 | when the first k steps pass, the run continues at step k, having sent exactly their commands and read one reply each |
| MailSession.RunStops | main/smtp_client.c:408-487 | a step whose reply is missing or refused ends the run there, after its command |
| MailSession.SessionDelivers | main/smtp_client.c:408-570 | when every reply is accepted the commands go out in order EHLO, STARTTLS, AUTH LOGIN, user, password, MAIL FROM, RCPT TO, DATA, terminator; the mail is sent, `close_notify` is sent, the connection torn down, and nothing faults |
| MailSession.GreetingStops | main/smtp_client.c:408-409 | a refused or missing greeting stops the session before any command |
| MailSession.StopsAfterGreeting | main/smtp_client.c:411-487 | in a run opening with the greeting, the first refused or missing reply at a later step stops it after exactly the commands up to that step |
| MailSession.SessionStops | main/smtp_client.c:408-565 | the first refused or missing reply, at any step, ends the run after that step's command |
| MailSession.SessionRejected | main/smtp_client.c:408-575 | the first refused reply, transport errors included, reaches `exit` with nothing after that step's command sent, and tears down without `close_notify` |
| MailSession.SessionStalls | main/smtp_client.c:157-160 | when the replies run out the reader waits for good: the session never reaches `exit` and nothing faults |
| MailSession.RecipientRefused | main/smtp_client.c:479-487 | a 550 reply to RCPT TO ends the session with that rejection, and DATA is never sent |
| MailSession.RunAbortsHandshake | main/smtp_client.c:421-424 | a hard handshake error ends the run at AUTH LOGIN with the handshake's code, before the command is written |
| MailSession.HandshakeAborts | main/smtp_client.c:416-424 | after STARTTLS is accepted, a hard handshake error ends the session with its code after only EHLO and STARTTLS |
| MailSession.RunRefusesCredential | main/smtp_client.c:452-468 | a credential that does not fit `base64_buffer` ends the run at its step with the encoder's error, before anything is written |
| MailSession.CredentialTooLong | main/smtp_client.c:451-468 | a user name or password over 93 bytes ends the session at that step with the encoder's error |
| MailSession.EmptyCredentialResends | main/smtp_client.c:450-469 | an empty user name or password leaves `base64_buffer` unchanged; as written its step sends the buffer's old contents and `\r\n`, and the corrected build sends only `\r\n` |
| MailSession.SessionEnds | main/smtp_client.c:572-575 | a run that stops other than by waiting is the session's end: its outcome and writes, torn down without `close_notify` |
| MailSession.PerformControl | main/smtp_client.c:489-561 | a step goes the same way in two worlds that agree on the replies, on whether the handshake fails hard, and on which body write first never returns |
| MailSession.RunControl | main/smtp_client.c:489-501 | runs in two such worlds stop alike and send the same commands |
| MailSession.ControlDecides | main/smtp_client.c:489-561 | the outcome and the commands sent do not depend on certificate verification or on what the body writes return; they depend on the attachment only when a body write never returns, since the file decides how many body writes there are |
| MailSession.VerifyFailureNotFatal | main/smtp_client.c:237-247 | a certificate that fails to verify gives the same outcome and commands as a verified one |
| MailSession.MissingFileNotFatal | main/smtp_client.c:540-543 | when the body writes return, a file that cannot be opened gives the same outcome and commands as an opened one |
| MailSession.BodyResultsIgnored | main/smtp_client.c:489-561 | what a body write returns is never read: two worlds that differ only there, with the same first write that never returns, give the same session |
| MailSession.BodyWriteHangs | main/smtp_client.c:196-212 | a body write that keeps getting WANT_READ or WANT_WRITE blocks the task after DATA: every command but the terminator has gone out, `exit` is never reached, and nothing is torn down |
| MailSession.SessionFits | main/smtp_client.c:491-565 | when the configured lines fit the 512-byte `buf` and `base64_buffer` starts with at most 124 symbols, every write of the session fits `buf` with its NUL, so it is exactly what `snprintf` prints |
| MailSession.EmptyFileMailsPassword | main/smtp_client.c:462-556 | as written, with an empty file and a non-empty password, the line after the attachment header is the base64 of the password |
| MailSession.EnoughRepliesNeverStall | main/smtp_client.c:408-565 | a run with a reply for every step, whose body writes return, never waits |
| MailSession.PerformConsumes | main/smtp_client.c:408-565 | a step waits only when no reply is left or, at the terminator, when a body write never returns; it reads exactly one reply when it goes on |
| MailSession.TeardownAsWritten | main/smtp_client.c:576-584 | as written, the teardown is clean exactly when `buf` is live, or NULL with `ret == 0`, and it never leaves `buf` live |
| MailSession.TeardownCorrected | main/smtp_client.c:576-584 | the corrected teardown is clean exactly when `buf` is not dangling, and leaves it NULL |
| MailSession.ExitCode | main/smtp_client.c:570-576 | `ret` at `exit` is 0 exactly for a delivered mail, a refused allocation, or a failure whose code is 0; a stalled session never reaches `exit`, and its 0 is a placeholder that nothing reads |
| MailSession.Consume | main/smtp_client.c:378-385 | the task runs one session per job until one waits for good, and that one is the last |
| MailSession.ConsumeCons | main/smtp_client.c:378-385 | a first job that does not wait is followed by the others, from the `buf` and buffer it left |
| MailSession.CompletedJobLeavesDangling | main/smtp_client.c:582-584 | a job that got its buffer, a reply for every step and body writes that return leaves `buf` pointing at freed memory |
| MailSession.ConnectFailureAfterJob | main/smtp_client.c:577-584 | as written, a completed job followed by a failed connect writes into freed memory and frees it again |
| MailSession.FirstConnectFailure | main/smtp_client.c:576-578 | as written, a failed connect on the first job writes the error text through a NULL `buf` |
| MailSession.CorrectedSession | main/smtp_client.c:572-584 | a corrected session from a non-dangling `buf` leaves no fault and `buf` NULL at `exit` |
| MailSession.CorrectedNeverFaults | main/smtp_client.c:572-584 | with the corrected teardown no job ever faults, whatever the jobs and the network do |
| AddressParser.Value | main/main.c:131 | `strtol` on at most three digits is at most 999 |
| AddressParser.Char | main/main.c:128-139 | one iteration keeps the digit count and `buf` consistent |
| AddressParser.FieldFrom | main/main.c:134-139 | a run of non-dot bytes either returns false (a non-digit, or more than three digits in the field) or extends `buf` with those digits |
| AddressParser.FieldThenDot | main/main.c:129-139 | a field then a dot stores the field's value, or the previous field's when the field is empty, or reads the unwritten `buf` when there was none |
| AddressParser.LoopByFields | main/main.c:127-146 | the byte loop agrees with the field-by-field reference from any state at a field boundary |
| AddressParser.ParseIsByFields | main/main.c:121-150 | `parseAddress` equals the field-by-field reference |
| AddressParser.CleanOutcome | main/main.c:142-148 | when every field is at most three digits, the function returns, succeeding exactly when four values were stored, at positions 0 upwards |
| AddressParser.CleanValue | main/main.c:129-146 | each stored value is that of the most recent non-empty field up to its position |
| AddressParser.KeepsEarlier | main/main.c:131 | later fields never change a value already stored |
| AddressParser.BadFieldFails | main/main.c:135-136 | a field with a non-digit or more than three digits makes the result false, or undefined when `buf` was never written |
| AddressParser.EmptyFirstField | main/main.c:129-131 | text that is empty or starts with a dot reads `buf` before it was written |
| AddressParser.AcceptedIff | main/main.c:147-148 | the result is true exactly when the text splits at dots into four fields of at most three digits each, the first non-empty |
| AddressParser.AcceptedValues | main/main.c:129-146 | an accepted text stores exactly positions 0..3, each the value (at most 999) of the most recent non-empty field |
| AddressParser.StrayByteRejected | main/main.c:136 | any byte other than a digit or a dot makes the result false |
| AddressParser.LongRunRejected | main/main.c:135 | a run of four or more digits makes the result false |
| AddressParser.FourFields | main/main.c:121-150 | four good fields, the first three non-empty, give true with their values, an empty fourth repeating the third |
| AddressParser.RoundTrip | main/main.c:121-150 | any four values below 1000, printed as `a.b.c.d`, parse back to themselves, so `999.1.1.1` is accepted |
| AddressParser.TrailingDotRepeats | main/main.c:142-146 | `a.b.c.` is accepted with the fourth value equal to the third |
| AddressParser.WritesPastEnd | main/main.c:131 | text with five or more good fields returns false only after storing into `ip[4]`, past the end of the array |
| CaptureRetry.LoopDecides | main/main.c:482-501 | from any point with no match yet and every mismatch counted, the loop ends or goes on as the reference says |
| CaptureRetry.CaptureDecides | main/main.c:482-501 | the loop stops at the first size match if at most ten mismatches came before it, otherwise at the eleventh mismatch, after one delay per mismatch up to ten; with neither it is still going |
| CaptureRetry.MatchAfterMismatches | main/main.c:490-499 | k ≤ 10 mismatches then a match end the loop on attempt k + 1 after k delays |
| CaptureRetry.GivesUpAndSends | main/main.c:493-515 | eleven mismatches end the loop without a match after ten delays, and the job is still handed to the mail task |
| CaptureRetry.FailuresNeverEnd | main/main.c:485-490 | capture and `stat` failures are not counted and never end the loop, however many there are |
| CaptureRetry.SendsIffDone | main/main.c:501-515 | the job goes to the mail task exactly when some attempt matched or more than ten mismatched |
| FileName.NameRoundTrip | main/main.c:470-472 | for a time in the normal ranges the name is the 19 bytes `YYYYMMDD-hhmmss.jpg`, fits `remoteFileName[64]` with its NUL, and each field reads back as the time's value |
| FileName.NameIsRemoteName | main/main.c:470-472 | for a time in the normal ranges the name holds no NUL and fits `remoteFileName[64]` with its NUL, so the job record can hold it |
| FileName.NamesDistinct | main/main.c:470-472 | two different normal times give different names |

## Left out

- The mbedTLS library is not part of this model: socket, TLS and
  certificate setup, the handshake's internals, and the send and receive
  calls. The model takes their results as inputs. These are the connect
  result, the allocation, the handshake outcome (`Ok`, `VerifyFailed`,
  `HardError`), the reply values, the receive pieces and the body writes'
  results.
- The behaviour of `mbedtls_base64_encode` is taken from the mbedTLS library,
  whose source is not part of this model. It returns the buffer-too-small
  error when the encoding and NUL do not fit, and for an empty source it
  returns 0 without writing.
- The FreeRTOS queue and semaphore rendezvous between the tasks is left out,
  because it is about concurrency. A job that `xQueueSend` drops after its
  timeout is not modelled: `CaptureRetry.Cycle` hands the job over whenever
  the loop ends.
- Attachment.SendFile: read errors are not modelled; every `fread` either
  fills the piece or reaches the end of the file. A failing read sets the
  stream's error flag but not its end-of-file flag, so `while (!feof(fp))`
  does not end there. While the error persists, every read returns 0 bytes.
  The loop then resends the stale `base64_buffer` line for ever, and the task
  never reaches `exit`.
  `Chunks`, `ChunksCount`, `StreamsComplete`, `MissingFileNotFatal` and
  `EnoughRepliesNeverStall` therefore hold only for a file that reads without
  error.
- MailSession.SessionFits: the model writes every line whole. When a
  configured string makes the MAIL FROM, RCPT TO, header or text line longer
  than 511 bytes, `snprintf` cuts `buf` off but `len` still counts the whole
  line, and `write_ssl_data` sends `len` bytes from the 512-byte block,
  reading past its end. That over-read is not modelled; `ConfigFits` names
  the configurations clear of it.
- MailSession.SessionFits also assumes that `base64_buffer` starts with at
  most 124 symbols before a NUL. The first job's buffer is uninitialised stack
  memory. It is printed whenever the user name is empty: at the USER step
  (`EmptyCredentialResends`), and again at the password step and for an
  empty file when the password is empty too.
- The `#else` direct-TLS branch and the `#if 0` attachment header are left
  out because they are dead code.
- Wi-Fi, SNTP, SPIFFS, GPIO, the camera driver and logging are left out as
  device plumbing.
- The `unlink` of the old picture before capture is left out. The camera
  and file system are a script of attempt results.
- `localtime_r` and `strftime` are left out: the name is built from an
  already broken-down time.
- The version strings are configuration inputs.
- `parseAddress`'s caller-side `int ip[4]` is a map from position to value.
  A key of 4 or more is the out-of-bounds write, and is visible rather than
  prevented.
- Reading the never-written `buf` is the distinguished result `Undefined`.
  C gives no value for it.
- CaptureRetry.CaptureLoop: the loop runs over a finite script of attempts
  rather than with fuel. A loop that never ends shows up as `Looping` for a
  script of any length, as in `FailuresNeverEnd`.
- Capture errors and `stat` failures do not count toward the retry limit.
  The `continue` and the failed `stat` both skip the counter, and the model
  follows the code.
- FileName.NameRoundTrip: states the name only for times in the normal
  `localtime_r` ranges with a four-digit year. Wider fields print longer
  numbers, and large enough ones could overflow the 64-byte array. Those
  inputs are not modelled.
- Integer widths: reply values, `ret` and sizes are unbounded integers. No
  wrap-around is reachable, because scanned values are at most 999 and file
  pieces at most 93 bytes.

## Findings

| source | as written | input that shows it | evidently intended | confidence | as-written member | corrected member |
|---|---|---|---|---|---|---|
| main/smtp_client.c:582-584 | `buf` is freed at the end of each job but not reset to NULL, so the next job starts with a dangling pointer; if its connect fails, `exit` writes the error text into the freed block and frees it again | a job that completes, then a job whose `mbedtls_net_connect` returns non-zero | reset `buf` to NULL after `free`, and write the error text only into a live buffer | not executed; follows directly from the code | MailSession.ConnectFailureAfterJob | MailSession.CorrectedNeverFaults |
| main/smtp_client.c:576-578 | `mbedtls_strerror(ret, buf, 100)` runs whenever `ret != 0`, even when `buf` was never allocated | the first job's connect fails, so `buf` is still NULL | write the error text only when `buf` holds a live block | not executed; follows directly from the code | MailSession.FirstConnectFailure | MailSession.CorrectedNeverFaults |
| main/smtp_client.c:544-556 | when the file length is a multiple of 93, the last `fread` returns 0 bytes; the encoder then returns success without writing, and the loop sends the previous contents of `base64_buffer` again | a 93-byte file: the attachment decodes to those 93 bytes twice; an empty file sends whatever the buffer held before, which in a session as written is the base64 of the password (`MailSession.EmptyFileMailsPassword`) | an empty read should add nothing to the attachment (an empty line) | not executed; depends on the mbedTLS encoder returning 0 without writing for an empty source | Attachment.StaleFinalLine | Attachment.CorrectedStreamDecodes |
