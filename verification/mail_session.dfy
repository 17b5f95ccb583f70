/**
 The mail task (`smtp_client_task` in main/smtp_client.c) for one job: connect,
 read the greeting, EHLO, STARTTLS (RFC 3207), the TLS handshake, AUTH LOGIN with
 base64 credentials, MAIL FROM, RCPT TO, DATA, the MIME body with the attached
 picture, and the terminating `.`; every reply is range-checked and the first one
 out of range ends the session at `exit`, where the connection is torn down.

 The network is a script: `Env` holds the value each call of
 `write_and_get_response`/`write_ssl_and_get_response` returns, in order, and
 the results of the calls into the TLS library that the session branches on.
 */
module MailSession {
  import opened Wrappers
  import opened Bytes
  import opened Base64
  import Attachment

  // ---------------------------------------------------------------------------
  // Commands and reply ranges

  /** The exchanges whose replies are checked, named by the command written. */
  datatype Step =
    | Greeting     // nothing is written; the server's greeting is read
    | Ehlo
    | StartTls
    | AuthLogin
    | User
    | Password
    | MailFrom
    | RcptTo
    | Data
    | Terminator   // the body, then `\r\n.\r\n`

  /** The commands, in the order in which the live (`SERVER_USES_STARTSSL`)
      branch sends them after reading the greeting. */
  const Commands: seq<Step> :=
    [Ehlo, StartTls, AuthLogin, User, Password, MailFrom, RcptTo, Data, Terminator]

  /** Every exchange of a session, in order. */
  const Steps: seq<Step> := [Greeting] + Commands

  function MinValid(step: Step): int {
    match step
    case User | Data => 300
    case _ => 200
  }

  function MaxValid(step: Step): int {
    match step
    case AuthLogin | User | Password | Data => 399
    case _ => 299
  }

  /** `VALIDATE_MBEDTLS_RETURN(ret, min, max, exit)` lets the session go on
      unless `ret < min || ret > max`. */
  predicate Accepted(step: Step, ret: int) {
    !(ret < MinValid(step) || ret > MaxValid(step))
  }

  /** The ranges by reply class (section 4.2.1 of RFC 5321): a transport error
      (`ret <= 0`) or a 1yz, 4yz or 5yz reply never passes; a 2yz reply passes
      everywhere except after the user name and DATA, which want a 3yz
      continuation; a 3yz reply passes exactly where a continuation is possible. */
  lemma ReplyClasses(step: Step, ret: int)
    ensures ret < 200 || ret >= 400 ==> !Accepted(step, ret)
    ensures 200 <= ret < 300 ==> (Accepted(step, ret) <==> step != User && step != Data)
    ensures 300 <= ret < 400 ==> (Accepted(step, ret) <==> step in {AuthLogin, User, Password, Data})
  {
  }

  // ---------------------------------------------------------------------------
  // Inputs

  /** The build-time settings (`SENDER_MAIL`, `SENDER_PASSWORD`, `RECIPIENT_MAIL`)
      and the two version strings printed in the text part. */
  datatype Config = Config(
    sender: CString,
    password: CString,
    recipient: CString,
    idfVersion: CString,
    tlsVersion: CString)

  /** `char remoteFileName[64]` of `SMTP_t` in main/cmd.h. */
  const NAME_CAPACITY: nat := 64

  /** A name that fits `remoteFileName` with its NUL. */
  type RemoteName = s: CString | |s| < NAME_CAPACITY

  /** The part of a queued job the session prints (`SMTP_t.remoteFileName`). */
  datatype Job = Job(remoteFileName: RemoteName)

  type ErrorCode = x: int | x != 0 witness -1

  /** What `perform_tls_handshake` reports. Its own allocation failure is a
      `HardError(-1)`; `WANT_READ`/`WANT_WRITE` are retried inside it. */
  datatype Handshake =
    | Ok
    | VerifyFailed            // the peer certificate did not verify: logged only
    | HardError(code: ErrorCode)

  /** What one `write_ssl_data` call of the body does: it returns 0 or the
      error of `mbedtls_ssl_write`, which goes into `ret` and is overwritten by
      the next statement before anything reads it; or `mbedtls_ssl_write` keeps
      answering WANT_READ or WANT_WRITE and the call retries for ever. */
  datatype BodyWrite = Returns(ret: int) | Spins

  /** What the outside world does during one job. */
  datatype Env = Env(
    connect: int,                  // `mbedtls_net_connect`; 0 is success
    bufferGranted: bool,           // whether `calloc(1, BUF_SIZE)` succeeds
    handshake: Handshake,
    replies: seq<int>,             // successive results of the reply readers
    file: Option<seq<byte>>,       // the local file's contents, `None` if `fopen` fails;
                                   // every `fread` of it succeeds
    bodyWrites: seq<BodyWrite>)    // the body writes in order; any past the end return 0

  /** The first body write that never returns. */
  function FirstSpin(ws: seq<BodyWrite>): (i: Option<nat>)
    ensures i.Some? ==> i.value < |ws| && ws[i.value].Spins?
    ensures forall j | 0 <= j < |ws| && (i.None? || j < i.value) :: ws[j].Returns?
    decreases |ws|
  {
    if |ws| == 0 then None
    else if ws[0].Spins? then Some(0)
    else
      var rest := FirstSpin(ws[1..]);
      assert forall j | 1 <= j < |ws| :: ws[j] == ws[1..][j - 1];
      if rest.None? then None else Some(rest.value + 1)
  }

  /** Every body write returns. */
  predicate BodyReturns(env: Env) {
    FirstSpin(env.bodyWrites).None?
  }

  /** One of the first `n` body writes never returns. */
  predicate HangsWithin(env: Env, n: nat) {
    FirstSpin(env.bodyWrites).Some? && FirstSpin(env.bodyWrites).value < n
  }

  /** The code as written, or with the two teardown and base64 defects repaired. */
  datatype Build = AsWritten | Corrected

  // ---------------------------------------------------------------------------
  // What goes on the wire

  /** A buffer handed to the transport: a command whose reply is read next, or a
      piece of the message body whose write result is ignored. */
  datatype Write = Command(step: Step, text: seq<byte>) | Content(text: seq<byte>)

  /** The steps of the commands among `ws`, in order. */
  function CommandSteps(ws: seq<Write>): seq<Step>
    decreases |ws|
  {
    if |ws| == 0 then []
    else (if ws[0].Command? then [ws[0].step] else []) + CommandSteps(ws[1..])
  }

  lemma {:induction false} CommandStepsAppend(a: seq<Write>, b: seq<Write>)
    ensures CommandSteps(a + b) == CommandSteps(a) + CommandSteps(b)
    decreases |a|
  {
    if |a| == 0 {
      assert a + b == b;
    } else {
      assert (a + b)[0] == a[0];
      assert (a + b)[1..] == a[1..] + b;
      CommandStepsAppend(a[1..], b);
    }
  }

  /** Body pieces: one content write per line. */
  function Contents(lines: seq<seq<byte>>): (ws: seq<Write>)
    ensures |ws| == |lines|
    ensures forall i | 0 <= i < |ws| :: ws[i] == Content(lines[i])
    ensures CommandSteps(ws) == []
    decreases |lines|
  {
    if |lines| == 0 then []
    else
      var ws := [Content(lines[0])] + Contents(lines[1..]);
      assert ws[1..] == Contents(lines[1..]);
      ws
  }

  /** The fixed text of a command (`len = snprintf(buf, BUF_SIZE, ...)`); the
      greeting is read with `len == 0`, so nothing is written for it. The base64
      credential lines are built in `Credential`. */
  function CommandText(cfg: Config, step: Step): seq<byte> {
    match step
    case Greeting => []
    case Ehlo => Ascii("EHLO ESP32\r\n")
    case StartTls => Ascii("STARTTLS\r\n")
    case AuthLogin => Ascii("AUTH LOGIN\r\n")
    case MailFrom => Ascii("MAIL FROM:<") + cfg.sender + Ascii(">\r\n")
    case RcptTo => Ascii("RCPT TO:<") + cfg.recipient + Ascii(">\r\n")
    case Data => Ascii("DATA\r\n")
    case Terminator => Ascii("\r\n.\r\n")
    case User | Password => []
  }

  // The message, piece by piece, with its mixture of `\n` and `\r\n`.

  const HeaderOpen: seq<byte> := Ascii("From: ESP32 SMTP Client\r\nSubject: mbed TLS mail\r\nTo: ")
  const HeaderClose: seq<byte> := Ascii("\r\nMIME-Version: 1.0 (mime-construct 1.9)\n")
  const TextOpen: seq<byte> := Ascii("Content-Type: text/plain; charset=UTF-8; format=flowed\nContent-Transfer-Encoding: 7bit\nYour ESP-IDF is ")
  const TextMiddle: seq<byte> := Ascii(".\r\nYour MBEDTLS is ")
  const TextClose: seq<byte> := Ascii(".\r\n\n\n--XYZabcd1234\n")
  const AttachOpen: seq<byte> := Ascii("Content-Type: image/jpeg;name=")
  const AttachMiddle: seq<byte> := Ascii("\nContent-Transfer-Encoding: base64\nContent-Disposition:attachment;filename=\"")
  const AttachClose: seq<byte> := Ascii("\"\n\n")

  function HeaderPart(cfg: Config): seq<byte> {
    HeaderOpen + cfg.recipient + HeaderClose
  }

  const BoundaryPart: seq<byte> :=
    Ascii("Content-Type: multipart/mixed;boundary=XYZabcd1234\n--XYZabcd1234\n")

  function TextPart(cfg: Config): seq<byte> {
    TextOpen + cfg.idfVersion + TextMiddle + cfg.tlsVersion + TextClose
  }

  function AttachmentHeader(job: Job): seq<byte> {
    AttachOpen + job.remoteFileName + AttachMiddle + job.remoteFileName + AttachClose
  }

  const ClosingPart: seq<byte> := Ascii("\n--XYZabcd1234\n")

  /** `#define BUF_SIZE 512`: every command and body piece is printed with
      `len = snprintf(buf, BUF_SIZE, ...)`, and `len` bytes of `buf` are
      written. */
  const BUF_SIZE: nat := 512

  /** A text that `snprintf` prints into `buf` whole, with its NUL. A longer
      one is cut off after 511 bytes while `len` still counts all of it, so the
      write would read past the end of the block. */
  predicate FitsBuf(text: seq<byte>) {
    |text| < BUF_SIZE
  }

  predicate AllFit(ws: seq<Write>) {
    forall i | 0 <= i < |ws| :: FitsBuf(ws[i].text)
  }

  /** The lines whose length the configuration decides fit `buf`: the two
      address commands, the header and the text part. Every other line fits
      whatever the configuration is: see `SessionFits`. */
  predicate ConfigFits(cfg: Config) {
    && FitsBuf(CommandText(cfg, MailFrom))
    && FitsBuf(CommandText(cfg, RcptTo))
    && FitsBuf(HeaderPart(cfg))
    && FitsBuf(TextPart(cfg))
  }

  // ---------------------------------------------------------------------------
  // One session

  /** What the session has done so far: its writes, the replies not yet read,
      the contents of `base64_buffer` up to its first NUL (what `%s` prints),
      and whether the unverified-certificate
      warning was logged. */
  datatype Ctx = Ctx(writes: seq<Write>, replies: seq<int>, b64: seq<byte>, unverified: bool)

  /** How a session ended. `Stalled` means a call into the transport never
      returned: a reader waits for a reply that never comes, or a body write
      retries for ever. The task is blocked there and `exit` is not reached. */
  datatype Outcome =
    | Sent
    | Rejected(step: Step, code: int)
    | ConnectFailed(code: int)
    | NoBuffer
    | HandshakeFailed(error: ErrorCode)
    | EncodeFailed(step: Step, code: int)
    | Stalled(step: Step)

  datatype Progress = Going(ctx: Ctx) | Stopped(ctx: Ctx, outcome: Outcome)

  /** Write `text` (nothing when it is empty), then read and check one reply. */
  function Exchange(step: Step, text: seq<byte>, ctx: Ctx): (p: Progress)
    ensures CommandSteps(p.ctx.writes) == CommandSteps(ctx.writes) + (if |text| == 0 then [] else [step])
    ensures p.ctx.b64 == ctx.b64 && p.ctx.unverified == ctx.unverified
    ensures |ctx.replies| == 0 <==> p == Stopped(p.ctx, Stalled(step))
    ensures |ctx.replies| > 0 ==> p.ctx.replies == ctx.replies[1..]
    ensures |ctx.replies| > 0 ==> (p.Going? <==> Accepted(step, ctx.replies[0]))
    ensures p.Stopped? && |ctx.replies| > 0 ==> p.outcome == Rejected(step, ctx.replies[0])
  {
    var writes := if |text| == 0 then ctx.writes else ctx.writes + [Command(step, text)];
    CommandStepsAppend(ctx.writes, [Command(step, text)]);
    assert CommandSteps([Command(step, text)]) == [step];
    if |ctx.replies| == 0 then Stopped(ctx.(writes := writes), Stalled(step))
    else if Accepted(step, ctx.replies[0]) then Going(ctx.(writes := writes, replies := ctx.replies[1..]))
    else Stopped(ctx.(writes := writes, replies := ctx.replies[1..]), Rejected(step, ctx.replies[0]))
  }

  /** `mbedtls_base64_encode` into `base64_buffer`, then `"%s\r\n"` of the buffer:
      the text printed and the buffer afterwards, or the encoder's error code. As
      written, an empty source leaves the buffer alone and its old contents are
      printed again; the corrected build prints the empty encoding. */
  datatype Encoded = Encoded(text: seq<byte>, b64: seq<byte>) | EncodeError(code: int)

  function IntoBuffer(build: Build, src: seq<byte>, b64: seq<byte>): (r: Encoded)
    ensures r.EncodeError? <==> |src| > Attachment.READ_BYTES
    ensures r.Encoded? && (|src| > 0 || build == Corrected) ==> Decode(r.text) == Some(src)
    ensures r.Encoded? && |src| == 0 && build == AsWritten ==> r.text == b64
  {
    var call := EncodeInto(Attachment.BASE64_BUFFER_SIZE, src);
    Attachment.FitsBuffer(|src|);
    if call.TooSmall? then EncodeError(ERR_BUFFER_TOO_SMALL)
    else if call.NothingWritten? then (if build == AsWritten then Encoded(b64, b64) else Encoded([], b64))
    else
      RoundTrip(src);
      Encoded(call.text, call.text)
  }

  function Credential(build: Build, step: Step, src: seq<byte>, ctx: Ctx): Progress {
    match IntoBuffer(build, src, ctx.b64)
    case EncodeError(code) => Stopped(ctx, EncodeFailed(step, code))
    case Encoded(t, b) => Exchange(step, t + CRLF, ctx.(b64 := b))
  }

  /** The body written after DATA is accepted: the headers, the text part, the
      attachment header, the file's base64 lines when it could be opened, and the
      closing boundary; `error` is set if the encoder fails mid-file. */
  datatype BodyOut = BodyOut(writes: seq<Write>, b64: seq<byte>, error: Option<int>)

  function Body(build: Build, cfg: Config, job: Job, file: Option<seq<byte>>, b64: seq<byte>): BodyOut {
    var head := Contents([HeaderPart(cfg), BoundaryPart, TextPart(cfg), AttachmentHeader(job)]);
    var tail := Contents([ClosingPart]);
    match file
    case None => BodyOut(head + tail, b64, None)
    case Some(f) =>
      var e := if build == AsWritten then Attachment.StreamAsWritten(f, b64) else Attachment.Stream(f, b64);
      if e.error.Some? then BodyOut(head + Contents(e.lines), e.buffer, e.error)
      else BodyOut(head + Contents(e.lines) + tail, e.buffer, None)
  }

  /** One step: the handshake comes before AUTH LOGIN, the credentials are encoded
      for their own steps, and the body is written before the terminator. */
  function Perform(build: Build, cfg: Config, job: Job, env: Env, step: Step, ctx: Ctx): (p: Progress)
    ensures p.Stopped? ==> !(p.outcome.Sent? || p.outcome.ConnectFailed? || p.outcome.NoBuffer?)
  {
    match step
    case AuthLogin =>
      (match env.handshake
       case HardError(code) => Stopped(ctx, HandshakeFailed(code))
       case VerifyFailed => Exchange(step, CommandText(cfg, step), ctx.(unverified := true))
       case Ok => Exchange(step, CommandText(cfg, step), ctx))
    case User => Credential(build, step, cfg.sender, ctx)
    case Password => Credential(build, step, cfg.password, ctx)
    case Terminator =>
      var body := Body(build, cfg, job, env.file, ctx.b64);
      if HangsWithin(env, |body.writes|) then
        Stopped(ctx.(writes := ctx.writes + body.writes[..FirstSpin(env.bodyWrites).value + 1]), Stalled(step))
      else
        var after := ctx.(writes := ctx.writes + body.writes, b64 := body.b64);
        if body.error.Some? then Stopped(after, EncodeFailed(step, body.error.value))
        else Exchange(step, CommandText(cfg, step), after)
    case _ => Exchange(step, CommandText(cfg, step), ctx)
  }

  /** The given steps in order, stopping at the first that does not go through. */
  function Run(build: Build, cfg: Config, job: Job, env: Env, steps: seq<Step>, ctx: Ctx): (p: Progress)
    ensures p.Stopped? ==> !(p.outcome.Sent? || p.outcome.ConnectFailed? || p.outcome.NoBuffer?)
    decreases |steps|
  {
    if |steps| == 0 then Going(ctx)
    else match Perform(build, cfg, job, env, steps[0], ctx)
      case Stopped(c, o) => Stopped(c, o)
      case Going(c) => Run(build, cfg, job, env, steps[1..], c)
  }

  // ---------------------------------------------------------------------------
  // Teardown and the `buf` pointer

  /** The `buf` pointer of the task: NULL, pointing at a live block, or still
      pointing at a block already freed. */
  datatype BufState = Null | Live | Dangling

  datatype Fault = WriteThroughNull | UseAfterFree | DoubleFree

  datatype Teardown = Teardown(buf: BufState, faults: seq<Fault>)

  /** `mbedtls_strerror(ret, buf, 100)` writes into `buf`. */
  function WriteThrough(buf: BufState): seq<Fault> {
    match buf
    case Null => [WriteThroughNull]
    case Dangling => [UseAfterFree]
    case Live => []
  }

  /** `if (buf) free(buf)`: the pointer itself is left as it was. */
  function FreeIfSet(buf: BufState): Teardown {
    match buf
    case Null => Teardown(Null, [])
    case Live => Teardown(Dangling, [])
    case Dangling => Teardown(Dangling, [DoubleFree])
  }

  /** The end of `exit` as written: the error text goes into `buf` whenever
      `ret != 0`, and `buf` is freed but not reset. */
  function TeardownAsWritten(buf: BufState, ret: int): (t: Teardown)
    ensures t.faults == [] <==> buf == Live || (buf == Null && ret == 0)
    ensures t.buf != Live
  {
    Teardown(FreeIfSet(buf).buf, (if ret != 0 then WriteThrough(buf) else []) + FreeIfSet(buf).faults)
  }

  /** The evidently intended end of `exit`: the error text goes into `buf` only
      when it holds a live block, and `buf` is reset after it is freed. */
  function TeardownCorrected(buf: BufState, ret: int): (t: Teardown)
    ensures t.faults == [] <==> buf != Dangling
    ensures t.buf == Null
  {
    Teardown(Null, (if ret != 0 && buf == Live then WriteThrough(buf) else []) + FreeIfSet(buf).faults)
  }

  /** The value of `ret` when `exit` is reached. A `Stalled` session never
      reaches `exit`; its 0 is a placeholder that nothing reads. */
  function ExitCode(o: Outcome): (ret: int)
    ensures ret == 0 <==> o.Sent? || o.NoBuffer? || o.Stalled? || (o.ConnectFailed? && o.code == 0)
                          || (o.Rejected? && o.code == 0) || (o.EncodeFailed? && o.code == 0)
  {
    match o
    case Sent => 0
    case NoBuffer => 0
    case Stalled(_) => 0
    case Rejected(_, code) => code
    case ConnectFailed(code) => code
    case HandshakeFailed(code) => code
    case EncodeFailed(_, code) => code
  }

  /** Everything one job leaves behind. */
  datatype Session = Session(
    writes: seq<Write>,
    outcome: Outcome,
    unverified: bool,
    closeNotified: bool,      // `mbedtls_ssl_close_notify` called
    tornDown: bool,           // `mbedtls_ssl_session_reset` and `mbedtls_net_free` called
    buf: BufState,
    faults: seq<Fault>,
    b64: seq<byte>)

  function Exit(build: Build, ctx: Ctx, o: Outcome, closeNotified: bool, buf: BufState): Session {
    var t := if build == AsWritten then TeardownAsWritten(buf, ExitCode(o)) else TeardownCorrected(buf, ExitCode(o));
    Session(ctx.writes, o, ctx.unverified, closeNotified, true, t.buf, t.faults, ctx.b64)
  }

  /** One pass of the task's loop for one job; `buf` and `base64_buffer` are
      carried over from the previous job. */
  function RunSession(build: Build, cfg: Config, job: Job, env: Env, buf: BufState, b64: seq<byte>): (s: Session)
    ensures s.tornDown <==> !s.outcome.Stalled?
    ensures s.closeNotified <==> s.outcome.Sent?
    ensures env.connect != 0 <==> s.outcome == ConnectFailed(env.connect)
    ensures env.connect == 0 && !env.bufferGranted <==> s.outcome == NoBuffer
    ensures env.connect != 0 || !env.bufferGranted ==> s.writes == []
  {
    var start := Ctx([], env.replies, b64, false);
    if env.connect != 0 then Exit(build, start, ConnectFailed(env.connect), false, buf)
    else if !env.bufferGranted then Exit(build, start, NoBuffer, false, Null)
    else match Run(build, cfg, job, env, Steps, start)
      case Going(c) => Exit(build, c, Sent, true, Live)
      case Stopped(c, o) =>
        if o.Stalled? then Session(c.writes, o, c.unverified, false, false, Live, [], c.b64)
        else Exit(build, c, o, false, Live)
  }

  // ---------------------------------------------------------------------------
  // How far a session gets

  /** Nothing the session does before the exchange of `step` can fail there: the
      handshake before AUTH LOGIN does not fail hard, a credential fits
      `base64_buffer`, and the body writes before the terminator return. (The
      body itself never fails; see `BodyLayout`.) */
  predicate Prepares(cfg: Config, env: Env, step: Step) {
    match step
    case AuthLogin => !env.handshake.HardError?
    case User => |cfg.sender| <= Attachment.READ_BYTES
    case Password => |cfg.password| <= Attachment.READ_BYTES
    case Terminator => BodyReturns(env)
    case _ => true
  }

  /** The contents of body writes. */
  function Texts(ws: seq<Write>): (ts: seq<seq<byte>>)
    ensures |ts| == |ws|
  {
    seq(|ws|, i requires 0 <= i < |ws| => ws[i].text)
  }

  /** The body: the four fixed parts, one line per piece of an opened file, then
      the closing boundary; it writes no command and never fails. With the
      corrected encoder the lines between the attachment header and the closing
      boundary decode to exactly the file. */
  lemma BodyLayout(build: Build, cfg: Config, job: Job, file: Option<seq<byte>>, b64: seq<byte>)
    ensures Body(build, cfg, job, file, b64).error == None
    ensures CommandSteps(Body(build, cfg, job, file, b64).writes) == []
    ensures var w := Body(build, cfg, job, file, b64).writes;
      && |w| >= 5
      && w[..4] == [Content(HeaderPart(cfg)), Content(BoundaryPart), Content(TextPart(cfg)), Content(AttachmentHeader(job))]
      && w[|w| - 1] == Content(ClosingPart)
      && (file.None? <==> |w| == 5)
      && (file.Some? && build == Corrected ==> Decode(Attachment.Payload(Texts(w[4..|w| - 1]))) == Some(file.value))
  {
    var lines := BodyParts(build, cfg, job, file, b64);
    Layout(Contents([HeaderPart(cfg), BoundaryPart, TextPart(cfg), AttachmentHeader(job)]), lines, Contents([ClosingPart]));
  }

  /** The body as the fixed parts around the attachment's lines. */
  lemma BodyParts(build: Build, cfg: Config, job: Job, file: Option<seq<byte>>, b64: seq<byte>)
    returns (lines: seq<seq<byte>>)
    ensures var body := Body(build, cfg, job, file, b64);
      && body.error == None
      && body.writes == Contents([HeaderPart(cfg), BoundaryPart, TextPart(cfg), AttachmentHeader(job)])
                        + Contents(lines) + Contents([ClosingPart])
    ensures file.None? <==> |lines| == 0
    ensures file.Some? && build == Corrected ==> Decode(Attachment.Payload(lines)) == Some(file.value)
  {
    match file
    case None =>
      lines := [];
      assert Contents(lines) == [];
    case Some(f) =>
      var e := if build == AsWritten then Attachment.StreamAsWritten(f, b64) else Attachment.Stream(f, b64);
      Attachment.StreamsComplete(f, b64);
      Attachment.CorrectedStreamDecodes(f, b64);
      lines := e.lines;
  }

  /** Four fixed parts, some lines and a closing part, as body writes. */
  lemma Layout(head: seq<Write>, lines: seq<seq<byte>>, tail: seq<Write>)
    requires |head| == 4 && |tail| == 1 && CommandSteps(head) == [] && CommandSteps(tail) == []
    ensures var w := head + Contents(lines) + tail;
      && CommandSteps(w) == []
      && |w| == 5 + |lines|
      && w[..4] == head && w[|w| - 1] == tail[0]
      && Texts(w[4..|w| - 1]) == lines
  {
    var middle := Contents(lines);
    var w := head + middle + tail;
    CommandStepsAppend(head, middle);
    CommandStepsAppend(head + middle, tail);
    assert w[4..|w| - 1] == middle;
  }

  /** The body writes one line per piece of an opened file besides its five
      fixed parts, whatever `base64_buffer` held. */
  lemma BodyLength(build: Build, cfg: Config, job: Job, file: Option<seq<byte>>, b64: seq<byte>)
    ensures |Body(build, cfg, job, file, b64).writes| == BodyCount(file)
  {
    if file.Some? {
      Attachment.StreamsComplete(file.value, b64);
      Attachment.StreamShape(file.value, b64);
    }
  }

  /** How many body writes there are for a file. */
  function BodyCount(file: Option<seq<byte>>): nat {
    5 + if file.Some? then |file.value| / Attachment.READ_BYTES + 1 else 0
  }

  /** A prefix of writes without commands has none either. */
  lemma PrefixNoCommands(ws: seq<Write>, n: nat)
    requires CommandSteps(ws) == [] && n <= |ws|
    ensures CommandSteps(ws[..n]) == []
  {
    assert ws == ws[..n] + ws[n..];
    CommandStepsAppend(ws[..n], ws[n..]);
  }

  /** One step, when nothing before its exchange fails: its command (none for the
      greeting) is written, and one reply is read if there is one; the session
      goes on exactly when that reply is accepted. */
  lemma PerformExchange(build: Build, cfg: Config, job: Job, env: Env, step: Step, ctx: Ctx)
    requires Prepares(cfg, env, step)
    ensures var p := Perform(build, cfg, job, env, step, ctx);
      && CommandSteps(p.ctx.writes) == CommandSteps(ctx.writes) + (if step == Greeting then [] else [step])
      && (|ctx.replies| == 0 <==> p == Stopped(p.ctx, Stalled(step)))
      && (|ctx.replies| > 0 ==> p.ctx.replies == ctx.replies[1..])
      && (|ctx.replies| > 0 ==> (p.Going? <==> Accepted(step, ctx.replies[0])))
      && (p.Stopped? && |ctx.replies| > 0 ==> p.outcome == Rejected(step, ctx.replies[0]))
  {
    match step
    case Terminator =>
      FinishExchange(build, cfg, job, env, ctx);
    case User =>
      Attachment.FitsBuffer(|cfg.sender|);
    case Password =>
      Attachment.FitsBuffer(|cfg.password|);
    case _ =>
  }

  /** Before the terminator the body goes out whole: the exchange starts from
      the writes so far plus commandless body writes. */
  lemma FinishExchange(build: Build, cfg: Config, job: Job, env: Env, ctx: Ctx)
    requires !HangsWithin(env, |Body(build, cfg, job, env.file, ctx.b64).writes|)
    ensures var body := Body(build, cfg, job, env.file, ctx.b64);
      && body.error == None
      && Perform(build, cfg, job, env, Terminator, ctx)
         == Exchange(Terminator, CommandText(cfg, Terminator), ctx.(writes := ctx.writes + body.writes, b64 := body.b64))
      && CommandSteps(ctx.writes + body.writes) == CommandSteps(ctx.writes)
  {
    var body := Body(build, cfg, job, env.file, ctx.b64);
    BodyLayout(build, cfg, job, env.file, ctx.b64);
    CommandStepsAppend(ctx.writes, body.writes);
    assert CommandSteps(ctx.writes) + [] == CommandSteps(ctx.writes);
  }

  /** The first `k` of `steps` can be performed and their replies are accepted. */
  predicate Passes(cfg: Config, env: Env, steps: seq<Step>, replies: seq<int>, k: nat) {
    && k <= |steps|
    && k <= |replies|
    && (forall j | 0 <= j < k :: Prepares(cfg, env, steps[j]) && Accepted(steps[j], replies[j]))
  }

  /** Passing `k + 1` steps is passing the first, then `k` more. */
  lemma PassesFirst(cfg: Config, env: Env, steps: seq<Step>, replies: seq<int>, k: nat)
    requires |steps| > 0 && Passes(cfg, env, steps, replies, k + 1)
    ensures Prepares(cfg, env, steps[0]) && Accepted(steps[0], replies[0])
    ensures Passes(cfg, env, steps[1..], replies[1..], k)
  {
    forall j | 0 <= j < k
      ensures Prepares(cfg, env, steps[1..][j]) && Accepted(steps[1..][j], replies[1..][j])
    {
      assert steps[1..][j] == steps[j + 1] && replies[1..][j] == replies[j + 1];
    }
  }

  /** A first step that goes through hands over to the rest of the steps. */
  lemma RunGoes(build: Build, cfg: Config, job: Job, env: Env, steps: seq<Step>, ctx: Ctx) returns (next: Ctx)
    requires |steps| > 0 && steps[0] != Greeting && Prepares(cfg, env, steps[0])
    requires |ctx.replies| > 0 && Accepted(steps[0], ctx.replies[0])
    ensures Run(build, cfg, job, env, steps, ctx) == Run(build, cfg, job, env, steps[1..], next)
    ensures next.replies == ctx.replies[1..]
    ensures CommandSteps(next.writes) == CommandSteps(ctx.writes) + [steps[0]]
  {
    PerformExchange(build, cfg, job, env, steps[0], ctx);
    next := Perform(build, cfg, job, env, steps[0], ctx).ctx;
  }

  /** A first step whose reply is missing or refused ends the run there. */
  lemma RunHalts(build: Build, cfg: Config, job: Job, env: Env, steps: seq<Step>, ctx: Ctx)
    requires |steps| > 0 && steps[0] != Greeting && Prepares(cfg, env, steps[0])
    requires |ctx.replies| == 0 || !Accepted(steps[0], ctx.replies[0])
    ensures var p := Run(build, cfg, job, env, steps, ctx);
      && p.Stopped?
      && p.outcome == (if |ctx.replies| == 0 then Stalled(steps[0]) else Rejected(steps[0], ctx.replies[0]))
      && CommandSteps(p.ctx.writes) == CommandSteps(ctx.writes) + [steps[0]]
  {
    PerformExchange(build, cfg, job, env, steps[0], ctx);
  }

  /** The first `k` steps go through: the run continues with the rest of the
      steps, having written exactly their commands and read one reply each. */
  lemma {:induction false} RunReaches(build: Build, cfg: Config, job: Job, env: Env, steps: seq<Step>, k: nat, ctx: Ctx)
    returns (c: Ctx)
    requires Greeting !in steps
    requires Passes(cfg, env, steps, ctx.replies, k)
    ensures Run(build, cfg, job, env, steps, ctx) == Run(build, cfg, job, env, steps[k..], c)
    ensures c.replies == ctx.replies[k..]
    ensures CommandSteps(c.writes) == CommandSteps(ctx.writes) + steps[..k]
    decreases k
  {
    if k == 0 {
      c := ctx;
      assert steps[0..] == steps;
    } else {
      PassesFirst(cfg, env, steps, ctx.replies, k - 1);
      var next := RunGoes(build, cfg, job, env, steps, ctx);
      assert Greeting !in steps[1..] by {
        assert forall x | x in steps[1..] :: x in steps;
      }
      c := RunReaches(build, cfg, job, env, steps[1..], k - 1, next);
      assert steps[1..][k - 1..] == steps[k..];
      assert ctx.replies[1..][k - 1..] == ctx.replies[k..];
      SnocSlice(CommandSteps(ctx.writes), steps, k);
    }
  }

  /** Index `k` of a sequence is index `k - 1` of its tail. */
  lemma DropFirst<T>(s: seq<T>, k: nat)
    requires 1 <= k < |s|
    ensures s[1..][k - 1] == s[k] && s[1..][..k] == s[1..k + 1]
  {
  }

  lemma Whole<T>(s: seq<T>)
    ensures s[|s|..] == [] && s[..|s|] == s
  {
  }

  lemma SliceSnoc<T>(a: seq<T>, s: seq<T>, k: nat)
    requires k < |s|
    ensures a + s[..k] + [s[k]] == a + s[..k + 1]
  {
    assert s[..k + 1] == s[..k] + [s[k]];
  }

  /** Appending the first step, then the next `k - 1`, appends the first `k`. */
  lemma SnocSlice<T>(a: seq<T>, s: seq<T>, k: nat)
    requires 1 <= k <= |s|
    ensures a + [s[0]] + s[1..][..k - 1] == a + s[..k]
  {
    assert s[..k] == [s[0]] + s[1..][..k - 1];
  }

  /** The run stops at the `k`-th step when its reply is missing or refused,
      having written the commands up to and including that step's. */
  lemma RunStops(build: Build, cfg: Config, job: Job, env: Env, steps: seq<Step>, k: nat, ctx: Ctx)
    requires Greeting !in steps
    requires k < |steps| && Passes(cfg, env, steps, ctx.replies, k) && Prepares(cfg, env, steps[k])
    requires k == |ctx.replies| || !Accepted(steps[k], ctx.replies[k])
    ensures var p := Run(build, cfg, job, env, steps, ctx);
      && p.Stopped?
      && p.outcome == (if k == |ctx.replies| then Stalled(steps[k]) else Rejected(steps[k], ctx.replies[k]))
      && CommandSteps(p.ctx.writes) == CommandSteps(ctx.writes) + steps[..k + 1]
  {
    var c := RunReaches(build, cfg, job, env, steps, k, ctx);
    var rest := steps[k..];
    assert rest[0] == steps[k];
    RunHalts(build, cfg, job, env, rest, c);
    SliceSnoc(CommandSteps(ctx.writes), steps, k);
  }

  /** The first `k` exchanges of a session pass. */
  predicate PassesUntil(cfg: Config, env: Env, k: nat) {
    Passes(cfg, env, Steps, env.replies, k)
  }

  function Start(env: Env, b64: seq<byte>): Ctx {
    Ctx([], env.replies, b64, false)
  }

  lemma CommandsShape()
    ensures Greeting !in Commands
    ensures Steps[0] == Greeting && Steps[1..] == Commands
  {
  }

  /** A connected session whose greeting is accepted goes on with the commands,
      one reply further on and with nothing written yet. */
  lemma Greeted(build: Build, cfg: Config, job: Job, env: Env, b64: seq<byte>) returns (c: Ctx)
    requires |env.replies| > 0 && Accepted(Greeting, env.replies[0])
    ensures Run(build, cfg, job, env, Steps, Start(env, b64)) == Run(build, cfg, job, env, Commands, c)
    ensures c.replies == env.replies[1..] && CommandSteps(c.writes) == []
  {
    CommandsShape();
    PerformExchange(build, cfg, job, env, Greeting, Start(env, b64));
    c := Perform(build, cfg, job, env, Greeting, Start(env, b64)).ctx;
  }

  /** A connected session whose first `k` (at least one) exchanges pass has
      sent the commands of steps `1..k-1` and continues at step `k`. */
  lemma SessionReaches(build: Build, cfg: Config, job: Job, env: Env, b64: seq<byte>, k: nat) returns (c: Ctx)
    requires 1 <= k && PassesUntil(cfg, env, k)
    ensures Run(build, cfg, job, env, Steps, Start(env, b64)) == Run(build, cfg, job, env, Commands[k - 1..], c)
    ensures c.replies == env.replies[k..]
    ensures CommandSteps(c.writes) == Commands[..k - 1]
  {
    CommandsShape();
    PassesFirst(cfg, env, Steps, env.replies, k - 1);
    var g := Greeted(build, cfg, job, env, b64);
    c := RunReaches(build, cfg, job, env, Commands, k - 1, g);
    assert env.replies[1..][k - 1..] == env.replies[k..];
  }

  /** A session whose replies are all accepted delivers the mail: it sends every
      command in order, says goodbye with `close_notify`, tears the connection
      down, and leaves no fault. */
  lemma SessionDelivers(build: Build, cfg: Config, job: Job, env: Env, buf: BufState, b64: seq<byte>)
    requires env.connect == 0 && env.bufferGranted
    requires PassesUntil(cfg, env, |Steps|)
    ensures var s := RunSession(build, cfg, job, env, buf, b64);
      && s.outcome == Sent
      && CommandSteps(s.writes) == [Ehlo, StartTls, AuthLogin, User, Password, MailFrom, RcptTo, Data, Terminator]
      && s.closeNotified && s.tornDown && s.faults == []
  {
    var c := SessionReaches(build, cfg, job, env, b64, |Steps|);
    Whole(Commands);
  }

  /** A missing or refused greeting stops the session before any command. */
  lemma GreetingStops(build: Build, cfg: Config, job: Job, env: Env, b64: seq<byte>)
    requires |env.replies| == 0 || !Accepted(Greeting, env.replies[0])
    ensures var p := Run(build, cfg, job, env, Steps, Start(env, b64));
      && p.Stopped?
      && p.outcome == (if |env.replies| == 0 then Stalled(Greeting) else Rejected(Greeting, env.replies[0]))
      && CommandSteps(p.ctx.writes) == []
  {
    CommandsShape();
    PerformExchange(build, cfg, job, env, Greeting, Start(env, b64));
  }

  /** In any run that opens with the greeting, a missing or refused reply at
      step `k` past it stops the run after that step's command. */
  lemma StopsAfterGreeting(build: Build, cfg: Config, job: Job, env: Env, b64: seq<byte>, steps: seq<Step>, k: nat)
    requires |steps| > 0 && steps[0] == Greeting && Greeting !in steps[1..]
    requires 1 <= k < |steps| && Passes(cfg, env, steps, env.replies, k) && Prepares(cfg, env, steps[k])
    requires k == |env.replies| || !Accepted(steps[k], env.replies[k])
    ensures var p := Run(build, cfg, job, env, steps, Start(env, b64));
      && p.Stopped?
      && p.outcome == (if k == |env.replies| then Stalled(steps[k]) else Rejected(steps[k], env.replies[k]))
      && CommandSteps(p.ctx.writes) == steps[1..k + 1]
  {
    var start := Start(env, b64);
    var g := Perform(build, cfg, job, env, Greeting, start).ctx;
    assert Run(build, cfg, job, env, steps, start) == Run(build, cfg, job, env, steps[1..], g)
      && g.replies == env.replies[1..] && CommandSteps(g.writes) == [] by {
      PerformExchange(build, cfg, job, env, Greeting, start);
    }
    assert Passes(cfg, env, steps[1..], g.replies, k - 1) by {
      PassesFirst(cfg, env, steps, env.replies, k - 1);
    }
    DropFirst(steps, k);
    RunStops(build, cfg, job, env, steps[1..], k - 1, g);
  }

  /** The first refused or missing reply ends the session at its step `k`,
      after that step's command. */
  lemma SessionStops(build: Build, cfg: Config, job: Job, env: Env, b64: seq<byte>, k: nat)
    requires k < |Steps| && PassesUntil(cfg, env, k) && Prepares(cfg, env, Steps[k])
    requires k == |env.replies| || !Accepted(Steps[k], env.replies[k])
    ensures var p := Run(build, cfg, job, env, Steps, Start(env, b64));
      && p.Stopped?
      && p.outcome == (if k == |env.replies| then Stalled(Steps[k]) else Rejected(Steps[k], env.replies[k]))
      && CommandSteps(p.ctx.writes) == Steps[1..k + 1]
  {
    CommandsShape();
    if k == 0 {
      GreetingStops(build, cfg, job, env, b64);
    } else {
      StopsAfterGreeting(build, cfg, job, env, b64, Steps, k);
    }
  }

  /** The first refused reply ends the session: nothing after that step's command
      is sent, `exit` is reached and the connection torn down without
      `close_notify`. This covers every transport error, since no range admits a
      value below 200 (`ReplyClasses`). */
  lemma SessionRejected(build: Build, cfg: Config, job: Job, env: Env, buf: BufState, b64: seq<byte>, k: nat)
    requires env.connect == 0 && env.bufferGranted
    requires k < |Steps| && k < |env.replies| && PassesUntil(cfg, env, k) && Prepares(cfg, env, Steps[k])
    requires !Accepted(Steps[k], env.replies[k])
    ensures var s := RunSession(build, cfg, job, env, buf, b64);
      && s.outcome == Rejected(Steps[k], env.replies[k])
      && CommandSteps(s.writes) == Steps[1..k + 1]
      && s.tornDown && !s.closeNotified
  {
    SessionStops(build, cfg, job, env, b64, k);
    var p := Run(build, cfg, job, env, Steps, Start(env, b64));
    SessionEnds(build, cfg, job, env, buf, b64, p.ctx, p.outcome);
  }

  /** When the replies run out the session waits in the reader for ever: it never
      reaches `exit`. */
  lemma SessionStalls(build: Build, cfg: Config, job: Job, env: Env, buf: BufState, b64: seq<byte>)
    requires env.connect == 0 && env.bufferGranted
    requires |env.replies| < |Steps| && PassesUntil(cfg, env, |env.replies|) && Prepares(cfg, env, Steps[|env.replies|])
    ensures var s := RunSession(build, cfg, job, env, buf, b64);
      && s.outcome == Stalled(Steps[|env.replies|])
      && CommandSteps(s.writes) == Steps[1..|env.replies| + 1]
      && !s.tornDown && s.faults == []
  {
    SessionStops(build, cfg, job, env, b64, |env.replies|);
  }

  /** A 550 reply to RCPT TO: DATA is never sent. */
  lemma RecipientRefused(build: Build, cfg: Config, job: Job, env: Env, buf: BufState, b64: seq<byte>)
    requires |cfg.sender| <= Attachment.READ_BYTES && |cfg.password| <= Attachment.READ_BYTES
    requires env.connect == 0 && env.bufferGranted && env.handshake == Ok
    requires env.replies == [220, 250, 220, 334, 334, 235, 250, 550]
    ensures var s := RunSession(build, cfg, job, env, buf, b64);
      && s.outcome == Rejected(RcptTo, 550)
      && Data !in CommandSteps(s.writes)
      && CommandSteps(s.writes) == [Ehlo, StartTls, AuthLogin, User, Password, MailFrom, RcptTo]
  {
    var sent := [Ehlo, StartTls, AuthLogin, User, Password, MailFrom, RcptTo];
    assert Steps[7] == RcptTo && Steps[1..8] == sent && Data !in sent;
    assert PassesUntil(cfg, env, 7) && Prepares(cfg, env, Steps[7]) && !Accepted(Steps[7], env.replies[7]);
    SessionRejected(build, cfg, job, env, buf, b64, 7);
  }

  /** A hard handshake failure ends the run at AUTH LOGIN, before its command. */
  lemma RunAbortsHandshake(build: Build, cfg: Config, job: Job, env: Env, steps: seq<Step>, ctx: Ctx)
    requires |steps| > 0 && steps[0] == AuthLogin && env.handshake.HardError?
    ensures Run(build, cfg, job, env, steps, ctx) == Stopped(ctx, HandshakeFailed(env.handshake.code))
  {
  }

  /** A hard handshake failure after STARTTLS was accepted ends the session with
      the handshake's code, after EHLO and STARTTLS only. */
  lemma HandshakeAborts(build: Build, cfg: Config, job: Job, env: Env, buf: BufState, b64: seq<byte>)
    requires env.connect == 0 && env.bufferGranted && env.handshake.HardError?
    requires PassesUntil(cfg, env, 3)
    ensures var s := RunSession(build, cfg, job, env, buf, b64);
      && s.outcome == HandshakeFailed(env.handshake.code)
      && CommandSteps(s.writes) == [Ehlo, StartTls]
      && s.tornDown && !s.closeNotified
  {
    var c := SessionReaches(build, cfg, job, env, b64, 3);
    assert Commands[2..][0] == AuthLogin;
    RunAbortsHandshake(build, cfg, job, env, Commands[2..], c);
    assert Commands[..2] == [Ehlo, StartTls];
    SessionEnds(build, cfg, job, env, buf, b64, c, HandshakeFailed(env.handshake.code));
  }

  /** A run that stops at `exit` other than by stalling is the session's end:
      its outcome and writes, and the connection torn down without
      `close_notify`. */
  lemma SessionEnds(build: Build, cfg: Config, job: Job, env: Env, buf: BufState, b64: seq<byte>, c: Ctx, o: Outcome)
    requires env.connect == 0 && env.bufferGranted
    requires Run(build, cfg, job, env, Steps, Start(env, b64)) == Stopped(c, o) && !o.Stalled?
    ensures var s := RunSession(build, cfg, job, env, buf, b64);
      s.outcome == o && s.writes == c.writes && s.tornDown && !s.closeNotified
  {
  }

  /** A credential that does not fit `base64_buffer` ends the run at its step,
      before anything is written. */
  lemma RunRefusesCredential(build: Build, cfg: Config, job: Job, env: Env, steps: seq<Step>, ctx: Ctx)
    requires |steps| > 0
    requires (steps[0] == User && |cfg.sender| > Attachment.READ_BYTES)
          || (steps[0] == Password && |cfg.password| > Attachment.READ_BYTES)
    ensures Run(build, cfg, job, env, steps, ctx) == Stopped(ctx, EncodeFailed(steps[0], ERR_BUFFER_TOO_SMALL))
  {
    Attachment.FitsBuffer(|cfg.sender|);
    Attachment.FitsBuffer(|cfg.password|);
  }

  /** An empty user name or password writes nothing into `base64_buffer`. As
      written, its step prints the buffer's old contents: at the USER step those
      are the uninitialised bytes of the first job, or a previous job's last
      encoding. The corrected build sends an empty line. Nothing else changes
      the buffer. */
  lemma EmptyCredentialResends(build: Build, cfg: Config, job: Job, env: Env, step: Step, ctx: Ctx)
    requires step == User || step == Password
    requires |if step == User then cfg.sender else cfg.password| == 0
    ensures var p := Perform(build, cfg, job, env, step, ctx);
      && p.ctx.writes == ctx.writes + [Command(step, (if build == AsWritten then ctx.b64 else []) + CRLF)]
      && p.ctx.b64 == ctx.b64
  {
  }

  /** A user name or password longer than 93 bytes does not fit `base64_buffer`:
      the session ends at that step with the encoder's error and without
      writing it. */
  lemma CredentialTooLong(build: Build, cfg: Config, job: Job, env: Env, buf: BufState, b64: seq<byte>, k: nat)
    requires env.connect == 0 && env.bufferGranted
    requires k == 4 || k == 5
    requires PassesUntil(cfg, env, k)
    requires |if k == 4 then cfg.sender else cfg.password| > Attachment.READ_BYTES
    ensures var s := RunSession(build, cfg, job, env, buf, b64);
      && s.outcome == EncodeFailed(Steps[k], ERR_BUFFER_TOO_SMALL)
      && CommandSteps(s.writes) == Steps[1..k]
      && s.tornDown
  {
    var c := SessionReaches(build, cfg, job, env, b64, k);
    CommandsShape();
    DropFirst(Steps, k);
    DropFirst(Steps, k - 1);
    var rest := Commands[k - 1..];
    assert rest[0] == Steps[k];
    RunRefusesCredential(build, cfg, job, env, rest, c);
    SessionEnds(build, cfg, job, env, buf, b64, c, EncodeFailed(Steps[k], ERR_BUFFER_TOO_SMALL));
  }

  // ---------------------------------------------------------------------------
  // What decides the outcome

  /** Two worlds that agree on everything the session branches on: connecting,
      the allocation, the replies, whether the handshake fails hard, and which
      body write first never returns. Which writes there are depends on the
      file, so when one of them never returns the file is the same too. */
  predicate SameControl(e1: Env, e2: Env) {
    && e1.connect == e2.connect
    && e1.bufferGranted == e2.bufferGranted
    && e1.replies == e2.replies
    && (e1.handshake.HardError? <==> e2.handshake.HardError?)
    && (e1.handshake.HardError? ==> e1.handshake.code == e2.handshake.code)
    && FirstSpin(e1.bodyWrites) == FirstSpin(e2.bodyWrites)
    && (!BodyReturns(e1) ==> e1.file == e2.file)
  }

  lemma PerformControl(build: Build, cfg: Config, job: Job, e1: Env, e2: Env, step: Step, c1: Ctx, c2: Ctx)
    requires SameControl(e1, e2)
    requires c1.replies == c2.replies && CommandSteps(c1.writes) == CommandSteps(c2.writes)
    ensures var p1, p2 := Perform(build, cfg, job, e1, step, c1), Perform(build, cfg, job, e2, step, c2);
      && p1.Going? == p2.Going?
      && (p1.Stopped? ==> p1.outcome == p2.outcome)
      && p1.ctx.replies == p2.ctx.replies
      && CommandSteps(p1.ctx.writes) == CommandSteps(p2.ctx.writes)
  {
    match step
    case AuthLogin =>
      if !e1.handshake.HardError? {
        ExchangeControl(step, CommandText(cfg, step), CommandText(cfg, step),
          if e1.handshake == VerifyFailed then c1.(unverified := true) else c1,
          if e2.handshake == VerifyFailed then c2.(unverified := true) else c2);
      }
    case User =>
      CredentialControl(build, step, cfg.sender, c1, c2);
    case Password =>
      CredentialControl(build, step, cfg.password, c1, c2);
    case Terminator =>
      TerminatorControl(build, cfg, job, e1, e2, c1, c2);
    case _ =>
      ExchangeControl(step, CommandText(cfg, step), CommandText(cfg, step), c1, c2);
  }

  /** The terminator step goes the same way in both worlds: both hang in the
      same body write, or both send the body and exchange the terminator. */
  lemma TerminatorControl(build: Build, cfg: Config, job: Job, e1: Env, e2: Env, c1: Ctx, c2: Ctx)
    requires SameControl(e1, e2)
    requires c1.replies == c2.replies && CommandSteps(c1.writes) == CommandSteps(c2.writes)
    ensures var p1, p2 := Perform(build, cfg, job, e1, Terminator, c1), Perform(build, cfg, job, e2, Terminator, c2);
      && p1.Going? == p2.Going?
      && (p1.Stopped? ==> p1.outcome == p2.outcome)
      && p1.ctx.replies == p2.ctx.replies
      && CommandSteps(p1.ctx.writes) == CommandSteps(p2.ctx.writes)
  {
    var b1, b2 := Body(build, cfg, job, e1.file, c1.b64), Body(build, cfg, job, e2.file, c2.b64);
    BodyLength(build, cfg, job, e1.file, c1.b64);
    BodyLength(build, cfg, job, e2.file, c2.b64);
    assert HangsWithin(e1, |b1.writes|) == HangsWithin(e2, |b2.writes|);
    if HangsWithin(e1, |b1.writes|) {
      HungControl(build, cfg, job, e1, c1);
      HungControl(build, cfg, job, e2, c2);
    } else {
      FinishExchange(build, cfg, job, e1, c1);
      FinishExchange(build, cfg, job, e2, c2);
      ExchangeControl(Terminator, CommandText(cfg, Terminator), CommandText(cfg, Terminator),
        c1.(writes := c1.writes + b1.writes, b64 := b1.b64), c2.(writes := c2.writes + b2.writes, b64 := b2.b64));
    }
  }

  /** A terminator step that hangs in the body stalls without a command and
      without reading a reply. */
  lemma HungControl(build: Build, cfg: Config, job: Job, env: Env, ctx: Ctx)
    requires HangsWithin(env, |Body(build, cfg, job, env.file, ctx.b64).writes|)
    ensures var p := Perform(build, cfg, job, env, Terminator, ctx);
      && p == Stopped(p.ctx, Stalled(Terminator))
      && p.ctx.replies == ctx.replies
      && CommandSteps(p.ctx.writes) == CommandSteps(ctx.writes)
  {
    var body := Body(build, cfg, job, env.file, ctx.b64);
    var n := FirstSpin(env.bodyWrites).value + 1;
    BodyLayout(build, cfg, job, env.file, ctx.b64);
    PrefixNoCommands(body.writes, n);
    CommandStepsAppend(ctx.writes, body.writes[..n]);
  }

  /** Exchanges of the same step, both writing or both silent, from the same
      replies, go the same way. */
  lemma ExchangeControl(step: Step, t1: seq<byte>, t2: seq<byte>, c1: Ctx, c2: Ctx)
    requires c1.replies == c2.replies && CommandSteps(c1.writes) == CommandSteps(c2.writes)
    requires |t1| == 0 <==> |t2| == 0
    ensures var p1, p2 := Exchange(step, t1, c1), Exchange(step, t2, c2);
      && p1.Going? == p2.Going?
      && (p1.Stopped? ==> p1.outcome == p2.outcome)
      && p1.ctx.replies == p2.ctx.replies
      && CommandSteps(p1.ctx.writes) == CommandSteps(p2.ctx.writes)
  {
  }

  /** A credential step fails or goes through the same way whatever
      `base64_buffer` held before it. */
  lemma CredentialControl(build: Build, step: Step, src: seq<byte>, c1: Ctx, c2: Ctx)
    requires c1.replies == c2.replies && CommandSteps(c1.writes) == CommandSteps(c2.writes)
    ensures var p1, p2 := Credential(build, step, src, c1), Credential(build, step, src, c2);
      && p1.Going? == p2.Going?
      && (p1.Stopped? ==> p1.outcome == p2.outcome)
      && p1.ctx.replies == p2.ctx.replies
      && CommandSteps(p1.ctx.writes) == CommandSteps(p2.ctx.writes)
  {
    var r1, r2 := IntoBuffer(build, src, c1.b64), IntoBuffer(build, src, c2.b64);
    if r1.Encoded? {
      ExchangeControl(step, r1.text + CRLF, r2.text + CRLF, c1.(b64 := r1.b64), c2.(b64 := r2.b64));
    }
  }

  lemma {:induction false} RunControl(build: Build, cfg: Config, job: Job, e1: Env, e2: Env, steps: seq<Step>, c1: Ctx, c2: Ctx)
    requires SameControl(e1, e2)
    requires c1.replies == c2.replies && CommandSteps(c1.writes) == CommandSteps(c2.writes)
    ensures var p1, p2 := Run(build, cfg, job, e1, steps, c1), Run(build, cfg, job, e2, steps, c2);
      && p1.Going? == p2.Going?
      && (p1.Stopped? ==> p1.outcome == p2.outcome)
      && CommandSteps(p1.ctx.writes) == CommandSteps(p2.ctx.writes)
    decreases |steps|
  {
    if |steps| > 0 {
      PerformControl(build, cfg, job, e1, e2, steps[0], c1, c2);
      var p1, p2 := Perform(build, cfg, job, e1, steps[0], c1), Perform(build, cfg, job, e2, steps[0], c2);
      if p1.Going? {
        RunControl(build, cfg, job, e1, e2, steps[1..], p1.ctx, p2.ctx);
      }
    }
  }

  /** The outcome and the commands sent depend only on the control inputs: not
      on whether the certificate verified, not on what the body writes return,
      and not on the attachment unless a body write never returns. */
  lemma ControlDecides(build: Build, cfg: Config, job: Job, e1: Env, e2: Env, buf: BufState, b64: seq<byte>)
    requires SameControl(e1, e2)
    ensures RunSession(build, cfg, job, e1, buf, b64).outcome == RunSession(build, cfg, job, e2, buf, b64).outcome
    ensures CommandSteps(RunSession(build, cfg, job, e1, buf, b64).writes)
         == CommandSteps(RunSession(build, cfg, job, e2, buf, b64).writes)
  {
    RunControl(build, cfg, job, e1, e2, Steps, Start(e1, b64), Start(e2, b64));
  }

  /** A certificate that fails to verify is only logged: the session goes exactly
      as it would with a verified one. */
  lemma VerifyFailureNotFatal(build: Build, cfg: Config, job: Job, env: Env, buf: BufState, b64: seq<byte>)
    requires env.handshake == Ok
    ensures var s1, s2 := RunSession(build, cfg, job, env, buf, b64),
                          RunSession(build, cfg, job, env.(handshake := VerifyFailed), buf, b64);
      s1.outcome == s2.outcome && CommandSteps(s1.writes) == CommandSteps(s2.writes)
  {
    ControlDecides(build, cfg, job, env, env.(handshake := VerifyFailed), buf, b64);
  }

  /** A file that cannot be opened only leaves the attachment empty: when the
      body writes return, the session goes exactly as it would with the file. */
  lemma MissingFileNotFatal(build: Build, cfg: Config, job: Job, env: Env, buf: BufState, b64: seq<byte>)
    requires env.file.Some? && BodyReturns(env)
    ensures var s1, s2 := RunSession(build, cfg, job, env, buf, b64),
                          RunSession(build, cfg, job, env.(file := None), buf, b64);
      s1.outcome == s2.outcome && CommandSteps(s1.writes) == CommandSteps(s2.writes)
  {
    ControlDecides(build, cfg, job, env, env.(file := None), buf, b64);
  }

  /** Worlds that differ only in what the body writes return, and agree on
      which of them first never returns, go through each step alike. */
  lemma {:induction false} RunSameSpin(build: Build, cfg: Config, job: Job, env: Env, results: seq<BodyWrite>, steps: seq<Step>, ctx: Ctx)
    requires FirstSpin(results) == FirstSpin(env.bodyWrites)
    ensures Run(build, cfg, job, env, steps, ctx) == Run(build, cfg, job, env.(bodyWrites := results), steps, ctx)
    decreases |steps|
  {
    if |steps| > 0 {
      var other := env.(bodyWrites := results);
      assert Perform(build, cfg, job, env, steps[0], ctx) == Perform(build, cfg, job, other, steps[0], ctx);
      var p := Perform(build, cfg, job, env, steps[0], ctx);
      if p.Going? {
        RunSameSpin(build, cfg, job, env, results, steps[1..], p.ctx);
      }
    }
  }

  /** What a body write returns goes into `ret` and is overwritten before it is
      read: a failed body write changes nothing the session does. Only a write
      that never returns matters. */
  lemma BodyResultsIgnored(build: Build, cfg: Config, job: Job, env: Env, results: seq<BodyWrite>, buf: BufState, b64: seq<byte>)
    requires FirstSpin(results) == FirstSpin(env.bodyWrites)
    ensures RunSession(build, cfg, job, env, buf, b64)
         == RunSession(build, cfg, job, env.(bodyWrites := results), buf, b64)
  {
    RunSameSpin(build, cfg, job, env, results, Steps, Start(env, b64));
  }

  /** A body write that never returns stops the terminator step with only the
      body up to that write sent. */
  lemma TerminatorHangs(build: Build, cfg: Config, job: Job, env: Env, ctx: Ctx)
    requires HangsWithin(env, BodyCount(env.file))
    ensures var p := Run(build, cfg, job, env, [Terminator], ctx);
      && p.Stopped? && p.outcome == Stalled(Terminator)
      && CommandSteps(p.ctx.writes) == CommandSteps(ctx.writes)
  {
    var body := Body(build, cfg, job, env.file, ctx.b64);
    BodyLength(build, cfg, job, env.file, ctx.b64);
    BodyLayout(build, cfg, job, env.file, ctx.b64);
    var n := FirstSpin(env.bodyWrites).value + 1;
    PrefixNoCommands(body.writes, n);
    CommandStepsAppend(ctx.writes, body.writes[..n]);
    assert Perform(build, cfg, job, env, Terminator, ctx)
        == Stopped(ctx.(writes := ctx.writes + body.writes[..n]), Stalled(Terminator));
  }

  /** A body write that never returns blocks the task once DATA is accepted:
      every command but the terminator has gone out, and `exit` is never
      reached, so the connection is not torn down. */
  lemma BodyWriteHangs(build: Build, cfg: Config, job: Job, env: Env, buf: BufState, b64: seq<byte>)
    requires env.connect == 0 && env.bufferGranted
    requires PassesUntil(cfg, env, |Steps| - 1)
    requires HangsWithin(env, BodyCount(env.file))
    ensures var s := RunSession(build, cfg, job, env, buf, b64);
      && s.outcome == Stalled(Terminator)
      && CommandSteps(s.writes) == [Ehlo, StartTls, AuthLogin, User, Password, MailFrom, RcptTo, Data]
      && !s.tornDown && !s.closeNotified && s.faults == []
  {
    var c := SessionReaches(build, cfg, job, env, b64, |Steps| - 1);
    assert Commands[|Steps| - 2..] == [Terminator];
    TerminatorHangs(build, cfg, job, env, c);
  }

  // ---------------------------------------------------------------------------
  // What an empty file sends

  /** Steps that write a fixed command leave `base64_buffer` alone. */
  lemma {:induction false} KeepsBuffer(build: Build, cfg: Config, job: Job, env: Env, steps: seq<Step>, ctx: Ctx)
    requires forall j | 0 <= j < |steps| :: steps[j] in {Greeting, Ehlo, StartTls, AuthLogin, MailFrom, RcptTo, Data}
    ensures Run(build, cfg, job, env, steps, ctx).ctx.b64 == ctx.b64
    decreases |steps|
  {
    if |steps| > 0 {
      var p := Perform(build, cfg, job, env, steps[0], ctx);
      assert p.ctx.b64 == ctx.b64;
      if p.Going? {
        assert forall j | 0 <= j < |steps| - 1 :: steps[1..][j] == steps[j + 1];
        KeepsBuffer(build, cfg, job, env, steps[1..], p.ctx);
      }
    }
  }

  /** A run of steps that goes through hands over to the steps after them. */
  lemma {:induction false} RunAppend(build: Build, cfg: Config, job: Job, env: Env, a: seq<Step>, b: seq<Step>, ctx: Ctx)
    requires Run(build, cfg, job, env, a, ctx).Going?
    ensures Run(build, cfg, job, env, a + b, ctx) == Run(build, cfg, job, env, b, Run(build, cfg, job, env, a, ctx).ctx)
    decreases |a|
  {
    if |a| == 0 {
      assert a + b == b;
    } else {
      assert (a + b)[0] == a[0] && (a + b)[1..] == a[1..] + b;
      var p := Perform(build, cfg, job, env, a[0], ctx);
      RunAppend(build, cfg, job, env, a[1..], b, p.ctx);
    }
  }

  /** As written, an empty file is sent as whatever `base64_buffer` held when
      the body began, right after the attachment header. */
  lemma EmptyFileBody(cfg: Config, job: Job, env: Env, ctx: Ctx)
    requires env.file == Some([]) && BodyReturns(env)
    requires |ctx.replies| > 0 && Accepted(Terminator, ctx.replies[0])
    ensures var p := Perform(AsWritten, cfg, job, env, Terminator, ctx);
      && p.Going?
      && |p.ctx.writes| > |ctx.writes| + 4
      && p.ctx.writes[|ctx.writes| + 3] == Content(AttachmentHeader(job))
      && p.ctx.writes[|ctx.writes| + 4] == Content(ctx.b64 + CRLF)
  {
    var body := Body(AsWritten, cfg, job, env.file, ctx.b64);
    Attachment.StreamsComplete([], ctx.b64);
    Attachment.EmptyFileSendsPriorBuffer(ctx.b64);
    var head := Contents([HeaderPart(cfg), BoundaryPart, TextPart(cfg), AttachmentHeader(job)]);
    assert body.writes == head + Contents([ctx.b64 + CRLF]) + Contents([ClosingPart]);
    FinishExchange(AsWritten, cfg, job, env, ctx);
  }

  /** As written, once the password is accepted, MAIL FROM, RCPT TO and DATA
      leave its encoding in `base64_buffer` for an empty file to send. */
  lemma AfterPassword(cfg: Config, job: Job, env: Env, c6: Ctx)
    requires PassesUntil(cfg, env, |Steps|) && env.file == Some([])
    requires c6.replies == env.replies[6..]
    ensures var p := Run(AsWritten, cfg, job, env, [MailFrom, RcptTo, Data, Terminator], c6);
      && p.Going?
      && exists i | 0 <= i < |p.ctx.writes| - 1 ::
           p.ctx.writes[i] == Content(AttachmentHeader(job)) && p.ctx.writes[i + 1] == Content(c6.b64 + CRLF)
  {
    var mid := [MailFrom, RcptTo, Data];
    assert Passes(cfg, env, mid, c6.replies, 3) by {
      assert forall j | 0 <= j < 3 :: mid[j] == Steps[j + 6] && c6.replies[j] == env.replies[j + 6];
    }
    var c9 := RunReaches(AsWritten, cfg, job, env, mid, 3, c6);
    assert mid[3..] == [];
    KeepsBuffer(AsWritten, cfg, job, env, mid, c6);
    RunAppend(AsWritten, cfg, job, env, mid, [Terminator], c6);
    assert [MailFrom, RcptTo, Data, Terminator] == mid + [Terminator];
    assert c9.replies == env.replies[9..] && Prepares(cfg, env, Steps[9]) && Accepted(Terminator, env.replies[9]);
    EmptyFileBody(cfg, job, env, c9);
    var p := Perform(AsWritten, cfg, job, env, Terminator, c9);
    var i := |c9.writes| + 3;
    assert p.ctx.writes[i] == Content(AttachmentHeader(job)) && p.ctx.writes[i + 1] == Content(c6.b64 + CRLF);
  }

  /** Finding, empty file, over a whole session as written: the password step
      leaves the password's encoding in `base64_buffer`, MAIL FROM, RCPT TO and
      DATA do not touch it, and the empty read sends it again as the
      attachment, so the mail carries the encoded password. */
  lemma EmptyFileMailsPassword(cfg: Config, job: Job, env: Env, buf: BufState, b64: seq<byte>)
    requires env.connect == 0 && env.bufferGranted
    requires PassesUntil(cfg, env, |Steps|)
    requires env.file == Some([]) && |cfg.password| > 0
    ensures var s := RunSession(AsWritten, cfg, job, env, buf, b64);
      && s.outcome == Sent
      && exists i | 0 <= i < |s.writes| - 1 ::
           s.writes[i] == Content(AttachmentHeader(job)) && s.writes[i + 1] == Content(Encode(cfg.password) + CRLF)
  {
    RunMailsPassword(cfg, job, env, b64);
  }

  /** The run behind `EmptyFileMailsPassword`. */
  lemma RunMailsPassword(cfg: Config, job: Job, env: Env, b64: seq<byte>)
    requires PassesUntil(cfg, env, |Steps|)
    requires env.file == Some([]) && |cfg.password| > 0
    ensures var p := Run(AsWritten, cfg, job, env, Steps, Start(env, b64));
      && p.Going?
      && exists i | 0 <= i < |p.ctx.writes| - 1 ::
           p.ctx.writes[i] == Content(AttachmentHeader(job)) && p.ctx.writes[i + 1] == Content(Encode(cfg.password) + CRLF)
  {
    var c5 := SessionReaches(AsWritten, cfg, job, env, b64, 5);
    var rest := [MailFrom, RcptTo, Data, Terminator];
    assert Commands[4..] == [Password] + rest;
    assert |c5.replies| > 0 && Accepted(Password, c5.replies[0]) && |cfg.password| <= Attachment.READ_BYTES by {
      assert Prepares(cfg, env, Steps[5]) && Accepted(Steps[5], env.replies[5]);
    }
    var c6 := PasswordStep(cfg, job, env, c5);
    AfterPassword(cfg, job, env, c6);
  }

  /** An accepted non-empty password leaves its encoding in `base64_buffer`. */
  lemma PasswordStep(cfg: Config, job: Job, env: Env, ctx: Ctx) returns (next: Ctx)
    requires 0 < |cfg.password| <= Attachment.READ_BYTES
    requires |ctx.replies| > 0 && Accepted(Password, ctx.replies[0])
    ensures Run(AsWritten, cfg, job, env, [Password] + [MailFrom, RcptTo, Data, Terminator], ctx)
         == Run(AsWritten, cfg, job, env, [MailFrom, RcptTo, Data, Terminator], next)
    ensures next.b64 == Encode(cfg.password) && next.replies == ctx.replies[1..]
  {
    Attachment.PieceFits(cfg.password);
    next := Perform(AsWritten, cfg, job, env, Password, ctx).ctx;
    assert ([Password] + [MailFrom, RcptTo, Data, Terminator])[1..] == [MailFrom, RcptTo, Data, Terminator];
  }

  // ---------------------------------------------------------------------------
  // What fits `buf`

  /** With at most 124 symbols in `base64_buffer`, a credential line is at most
      124 symbols and `\r\n`, and the buffer keeps at most 124. */
  lemma IntoBufferFits(build: Build, src: seq<byte>, b64: seq<byte>)
    requires |b64| <= Attachment.MAX_SYMBOLS
    ensures var r := IntoBuffer(build, src, b64);
      r.Encoded? ==> |r.text| <= Attachment.MAX_SYMBOLS && |r.b64| <= Attachment.MAX_SYMBOLS
  {
    if |src| <= Attachment.READ_BYTES {
      Attachment.PieceFits(src);
    }
  }

  lemma ContentsFit(lines: seq<seq<byte>>)
    requires forall i | 0 <= i < |lines| :: FitsBuf(lines[i])
    ensures AllFit(Contents(lines))
  {
  }

  /** The attachment header fits `buf` because the name fits `remoteFileName`. */
  lemma HeaderFits(job: Job)
    ensures FitsBuf(AttachmentHeader(job))
  {
    assert |AttachOpen| + |AttachMiddle| + |AttachClose| < 200;
  }

  /** The body's pieces fit `buf` when the configuration does, and
      `base64_buffer` keeps at most 124 symbols. */
  lemma BodyFits(build: Build, cfg: Config, job: Job, file: Option<seq<byte>>, b64: seq<byte>)
    requires ConfigFits(cfg) && |b64| <= Attachment.MAX_SYMBOLS
    ensures AllFit(Body(build, cfg, job, file, b64).writes)
    ensures |Body(build, cfg, job, file, b64).b64| <= Attachment.MAX_SYMBOLS
  {
    HeaderFits(job);
    assert |BoundaryPart| < BUF_SIZE && |ClosingPart| < BUF_SIZE;
    var heads := [HeaderPart(cfg), BoundaryPart, TextPart(cfg), AttachmentHeader(job)];
    ContentsFit(heads);
    ContentsFit([ClosingPart]);
    if file.Some? {
      var f := file.value;
      Attachment.StreamsComplete(f, b64);
      Attachment.StreamShape(f, b64);
      var e := if build == AsWritten then Attachment.StreamAsWritten(f, b64) else Attachment.Stream(f, b64);
      ContentsFit(e.lines);
    }
  }

  /** Every command the configuration prints fits `buf`. */
  lemma CommandFits(cfg: Config, step: Step)
    requires ConfigFits(cfg)
    ensures FitsBuf(CommandText(cfg, step))
  {
  }

  lemma ExchangeFits(step: Step, text: seq<byte>, ctx: Ctx)
    requires FitsBuf(text) && AllFit(ctx.writes)
    ensures AllFit(Exchange(step, text, ctx).ctx.writes)
  {
  }

  lemma PrefixFits(ws: seq<Write>, n: nat)
    requires AllFit(ws) && n <= |ws|
    ensures AllFit(ws[..n])
  {
  }

  /** The terminator step keeps every write within `buf`. */
  lemma TerminatorFits(build: Build, cfg: Config, job: Job, env: Env, ctx: Ctx)
    requires ConfigFits(cfg) && AllFit(ctx.writes) && |ctx.b64| <= Attachment.MAX_SYMBOLS
    ensures var p := Perform(build, cfg, job, env, Terminator, ctx);
      AllFit(p.ctx.writes) && |p.ctx.b64| <= Attachment.MAX_SYMBOLS
  {
    var body := Body(build, cfg, job, env.file, ctx.b64);
    BodyFits(build, cfg, job, env.file, ctx.b64);
    if HangsWithin(env, |body.writes|) {
      PrefixFits(body.writes, FirstSpin(env.bodyWrites).value + 1);
    } else {
      CommandFits(cfg, Terminator);
      ExchangeFits(Terminator, CommandText(cfg, Terminator), ctx.(writes := ctx.writes + body.writes, b64 := body.b64));
    }
  }

  /** Each step keeps every write within `buf` and `base64_buffer` within 124
      symbols. */
  lemma PerformFits(build: Build, cfg: Config, job: Job, env: Env, step: Step, ctx: Ctx)
    requires ConfigFits(cfg) && AllFit(ctx.writes) && |ctx.b64| <= Attachment.MAX_SYMBOLS
    ensures var p := Perform(build, cfg, job, env, step, ctx);
      AllFit(p.ctx.writes) && |p.ctx.b64| <= Attachment.MAX_SYMBOLS
  {
    if step == Terminator {
      TerminatorFits(build, cfg, job, env, ctx);
    } else if step == User || step == Password {
      var src := if step == User then cfg.sender else cfg.password;
      var r := IntoBuffer(build, src, ctx.b64);
      IntoBufferFits(build, src, ctx.b64);
      if r.Encoded? {
        ExchangeFits(step, r.text + CRLF, ctx.(b64 := r.b64));
      }
    } else {
      CommandFits(cfg, step);
      ExchangeFits(step, CommandText(cfg, step), ctx);
      ExchangeFits(step, CommandText(cfg, step), ctx.(unverified := true));
    }
  }

  lemma {:induction false} RunFits(build: Build, cfg: Config, job: Job, env: Env, steps: seq<Step>, ctx: Ctx)
    requires ConfigFits(cfg) && AllFit(ctx.writes) && |ctx.b64| <= Attachment.MAX_SYMBOLS
    ensures AllFit(Run(build, cfg, job, env, steps, ctx).ctx.writes)
    decreases |steps|
  {
    if |steps| > 0 {
      PerformFits(build, cfg, job, env, steps[0], ctx);
      var p := Perform(build, cfg, job, env, steps[0], ctx);
      if p.Going? {
        RunFits(build, cfg, job, env, steps[1..], p.ctx);
      }
    }
  }

  /** When the configuration's lines fit `buf` and `base64_buffer` starts out
      holding at most 124 symbols, as the encoder leaves it, every write of the
      session fits `buf` with its NUL: what the model writes is exactly what
      `snprintf` prints and `len` counts. */
  lemma SessionFits(build: Build, cfg: Config, job: Job, env: Env, buf: BufState, b64: seq<byte>)
    requires ConfigFits(cfg) && |b64| <= Attachment.MAX_SYMBOLS
    ensures AllFit(RunSession(build, cfg, job, env, buf, b64).writes)
  {
    RunFits(build, cfg, job, env, Steps, Start(env, b64));
  }

  // ---------------------------------------------------------------------------
  // The task: one session per job

  datatype Turn = Turn(job: Job, env: Env)

  datatype Task = Task(sessions: seq<Session>, buf: BufState, b64: seq<byte>)

  /** The task's loop over the jobs it receives, from the given `buf` and
      `base64_buffer`; a stalled session blocks the task for good. */
  function Consume(build: Build, cfg: Config, turns: seq<Turn>, buf: BufState, b64: seq<byte>): (t: Task)
    ensures |t.sessions| <= |turns|
    ensures |t.sessions| < |turns| ==> |t.sessions| > 0 && t.sessions[|t.sessions| - 1].outcome.Stalled?
    ensures forall i | 0 <= i < |t.sessions| - 1 :: !t.sessions[i].outcome.Stalled?
    decreases |turns|
  {
    if |turns| == 0 then Task([], buf, b64)
    else
      var s := RunSession(build, cfg, turns[0].job, turns[0].env, buf, b64);
      if s.outcome.Stalled? then Task([s], s.buf, s.b64)
      else
        var rest := Consume(build, cfg, turns[1..], s.buf, s.b64);
        Task([s] + rest.sessions, rest.buf, rest.b64)
  }

  /** The task from its start: `buf` is NULL and `base64_buffer` holds whatever
      was on the stack; `b64` stands for those bytes up to the first NUL, which
      is all `%s` ever prints of them. */
  function Consumer(build: Build, cfg: Config, turns: seq<Turn>, b64: seq<byte>): Task {
    Consume(build, cfg, turns, Null, b64)
  }

  /** With the corrected teardown no job ever faults, whatever the jobs and
      whatever the network does. */
  lemma CorrectedNeverFaults(cfg: Config, turns: seq<Turn>, b64: seq<byte>)
    ensures forall i | 0 <= i < |Consumer(Corrected, cfg, turns, b64).sessions| ::
      Consumer(Corrected, cfg, turns, b64).sessions[i].faults == []
  {
    assert Consumer(Corrected, cfg, turns, b64) == Consume(Corrected, cfg, turns, Null, b64);
    ConsumeCorrected(cfg, turns, Null, b64);
  }

  lemma {:induction false} ConsumeCorrected(cfg: Config, turns: seq<Turn>, buf: BufState, b64: seq<byte>)
    requires buf != Dangling
    ensures var t := Consume(Corrected, cfg, turns, buf, b64);
      forall i | 0 <= i < |t.sessions| :: t.sessions[i].faults == []
    decreases |turns|
  {
    if |turns| > 0 {
      var s := RunSession(Corrected, cfg, turns[0].job, turns[0].env, buf, b64);
      CorrectedSession(cfg, turns[0], buf, b64);
      if !s.outcome.Stalled? {
        ConsumeCorrected(cfg, turns[1..], s.buf, s.b64);
        ConsumeCons(Corrected, cfg, turns, buf, b64);
      }
    }
  }

  /** A corrected session from a `buf` that is not dangling leaves no fault,
      and `buf` NULL when it reaches `exit`. */
  lemma CorrectedSession(cfg: Config, turn: Turn, buf: BufState, b64: seq<byte>)
    requires buf != Dangling
    ensures var s := RunSession(Corrected, cfg, turn.job, turn.env, buf, b64);
      s.faults == [] && (!s.outcome.Stalled? ==> s.buf == Null)
  {
  }

  /** A first job that does not stall is followed by the others. */
  lemma ConsumeCons(build: Build, cfg: Config, turns: seq<Turn>, buf: BufState, b64: seq<byte>)
    requires |turns| > 0
    requires !RunSession(build, cfg, turns[0].job, turns[0].env, buf, b64).outcome.Stalled?
    ensures var s := RunSession(build, cfg, turns[0].job, turns[0].env, buf, b64);
      Consume(build, cfg, turns, buf, b64).sessions == [s] + Consume(build, cfg, turns[1..], s.buf, s.b64).sessions
  {
  }

  /** Finding: a job that got its buffer, followed by a job whose connect fails.
      The second job reaches `exit` with `buf` still pointing at the block the
      first one freed: the error text is written into freed memory, and the
      block is freed a second time. */
  lemma ConnectFailureAfterJob(cfg: Config, t1: Turn, t2: Turn, b64: seq<byte>)
    requires t1.env.connect == 0 && t1.env.bufferGranted && |t1.env.replies| >= |Steps| && BodyReturns(t1.env)
    requires t2.env.connect != 0
    ensures var t := Consumer(AsWritten, cfg, [t1, t2], b64);
      |t.sessions| == 2 && t.sessions[1].faults == [UseAfterFree, DoubleFree]
  {
    var s := RunSession(AsWritten, cfg, t1.job, t1.env, Null, b64);
    CompletedJobLeavesDangling(cfg, t1, b64);
    var s2 := RunSession(AsWritten, cfg, t2.job, t2.env, Dangling, s.b64);
    assert s2.faults == [UseAfterFree, DoubleFree];
    ConsumeTwo(AsWritten, cfg, t1, t2, Null, b64);
  }

  /** A job that gets its buffer, a reply for every step, and body writes that
      return ends with `buf` pointing at the block it freed. */
  lemma CompletedJobLeavesDangling(cfg: Config, t1: Turn, b64: seq<byte>)
    requires t1.env.connect == 0 && t1.env.bufferGranted && |t1.env.replies| >= |Steps| && BodyReturns(t1.env)
    ensures var s := RunSession(AsWritten, cfg, t1.job, t1.env, Null, b64);
      !s.outcome.Stalled? && s.buf == Dangling
  {
    EnoughRepliesNeverStall(AsWritten, cfg, t1.job, t1.env, Steps, Start(t1.env, b64));
  }

  /** Two jobs, the first not stalling: one session each, the second started
      from what the first left. */
  lemma ConsumeTwo(build: Build, cfg: Config, t1: Turn, t2: Turn, buf: BufState, b64: seq<byte>)
    requires !RunSession(build, cfg, t1.job, t1.env, buf, b64).outcome.Stalled?
    ensures var s := RunSession(build, cfg, t1.job, t1.env, buf, b64);
      Consume(build, cfg, [t1, t2], buf, b64).sessions
        == [s, RunSession(build, cfg, t2.job, t2.env, s.buf, s.b64)]
  {
    var s := RunSession(build, cfg, t1.job, t1.env, buf, b64);
    assert [t1, t2][1..] == [t2];
    assert [t2][1..] == [];
  }

  /** Finding: when the very first job cannot connect, `buf` is still NULL and
      the error text is written through the null pointer. */
  lemma FirstConnectFailure(cfg: Config, turns: seq<Turn>, b64: seq<byte>)
    requires |turns| > 0 && turns[0].env.connect != 0
    ensures var t := Consumer(AsWritten, cfg, turns, b64);
      |t.sessions| > 0 && t.sessions[0].faults == [WriteThroughNull]
  {
  }

  /** A run given a reply for every step, whose body writes return, is never
      left waiting. */
  lemma {:induction false} EnoughRepliesNeverStall(build: Build, cfg: Config, job: Job, env: Env, steps: seq<Step>, ctx: Ctx)
    requires |ctx.replies| >= |steps| && BodyReturns(env)
    ensures var p := Run(build, cfg, job, env, steps, ctx);
      p.Stopped? ==> !p.outcome.Stalled?
    decreases |steps|
  {
    if |steps| > 0 {
      var p := Perform(build, cfg, job, env, steps[0], ctx);
      PerformConsumes(build, cfg, job, env, steps[0], ctx);
      if p.Going? {
        EnoughRepliesNeverStall(build, cfg, job, env, steps[1..], p.ctx);
      }
    }
  }

  /** A step stalls only when no reply is left or, at the terminator, a body
      write never returns; it reads one reply when it goes through. */
  lemma PerformConsumes(build: Build, cfg: Config, job: Job, env: Env, step: Step, ctx: Ctx)
    ensures var p := Perform(build, cfg, job, env, step, ctx);
      && (p.Stopped? && p.outcome.Stalled? ==> |ctx.replies| == 0 || (step == Terminator && !BodyReturns(env)))
      && (p.Going? ==> |ctx.replies| > 0 && p.ctx.replies == ctx.replies[1..])
  {
  }
}
