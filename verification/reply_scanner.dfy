/**
 Reading an SMTP reply: `write_and_get_response` (plaintext) and
 `write_ssl_and_get_response` (TLS) in main/smtp_client.c.

 Both optionally write a request, then read the server's reply in pieces of at
 most 127 bytes. A 4-byte buffer `code` and its fill index `idx` keep the first
 four bytes of the line being read, across reads. At each `\n` the line ends:
 when all four bytes were filled, the first is a digit and the fourth a space,
 the routine returns `atoi` of the first three; otherwise it forgets the line.
 This is the multiline-reply convention of section 4.2.1 of RFC 5321, where
 `250-...` lines continue and a `250 ...` line ends the reply.
 */
module ReplyScanner {
  import opened Wrappers
  import opened Bytes

  /** `code[0..idx]`: the first (at most four) bytes of the current line. */
  type Code = c: seq<byte> | |c| <= 4

  /** The test made when a line ends: four bytes seen, a digit first, a space fourth. */
  predicate Terminates(code: Code) {
    |code| == 4 && IsDigit(code[0]) && code[3] == SPACE
  }

  /** `atoi` of the first three bytes (the fourth is overwritten with NUL first):
      the value of their leading digit run. */
  function CodeValue(code: Code): (v: nat)
    requires Terminates(code)
    ensures v <= 999
  {
    assert Pow10(3) == 1000;
    LeadingDecimal(code[..3])
  }

  datatype Scan = Found(value: nat) | Partial(code: Code)

  /** One iteration of the inner `for` loop over a received byte. */
  function Advance(code: Code, b: byte): Scan {
    if b != LF then Partial(if |code| < 4 then code + [b] else code)
    else if Terminates(code) then Found(CodeValue(code))
    else Partial([])
  }

  /** The scan of a byte stream, starting from a partly read line. */
  function ScanFrom(code: Code, s: seq<byte>): (r: Scan)
    ensures r.Found? ==> r.value <= 999
    decreases |s|
  {
    if |s| == 0 then Partial(code)
    else match Advance(code, s[0])
      case Found(v) => Found(v)
      case Partial(c) => ScanFrom(c, s[1..])
  }

  /** The code a reply stream yields, if it holds a terminating line. */
  function ScanReply(s: seq<byte>): Option<nat> {
    match ScanFrom([], s)
    case Found(v) => Some(v)
    case Partial(_) => None
  }

  function Resume(r: Scan, rest: seq<byte>): Scan {
    match r
    case Found(v) => Found(v)
    case Partial(c) => ScanFrom(c, rest)
  }

  /** Scanning a stream in two pieces is scanning it whole: the state carried
      between the pieces is all the scan needs. */
  lemma {:induction false} ScanAppend(code: Code, a: seq<byte>, b: seq<byte>)
    ensures ScanFrom(code, a + b) == Resume(ScanFrom(code, a), b)
    decreases |a|
  {
    if |a| == 0 {
      assert a + b == b;
    } else {
      assert (a + b)[0] == a[0];
      assert (a + b)[1..] == a[1..] + b;
      match Advance(code, a[0])
      case Found(v) =>
      case Partial(c) =>
        ScanAppend(c, a[1..], b);
    }
  }

  // ---------------------------------------------------------------------------
  // Reference: the reply as a list of lines

  /** Index of the first `\n`, or the length when there is none. */
  function NewlineIndex(s: seq<byte>): (k: nat)
    ensures k <= |s|
    ensures k < |s| ==> s[k] == LF
    ensures forall j | 0 <= j < k :: s[j] != LF
  {
    if |s| == 0 || s[0] == LF then 0 else 1 + NewlineIndex(s[1..])
  }

  /** The complete (`\n`-terminated) lines of a stream, without their `\n`;
      an unterminated tail is not a line yet. */
  function Lines(s: seq<byte>): seq<seq<byte>>
    decreases |s|
  {
    var k := NewlineIndex(s);
    if k == |s| then [] else [s[..k]] + Lines(s[k + 1..])
  }

  /** A line that ends the reply. */
  predicate IsFinalLine(line: seq<byte>) {
    |line| >= 4 && IsDigit(line[0]) && line[3] == SPACE
  }

  /** The value of the first line that ends the reply. */
  function FirstFinal(lines: seq<seq<byte>>): Option<nat> {
    if |lines| == 0 then None
    else if IsFinalLine(lines[0]) then Some(LeadingDecimal(lines[0][..3]))
    else FirstFinal(lines[1..])
  }

  /** What `code` holds once a line has been read up to here. */
  function Head(line: seq<byte>): Code {
    if |line| <= 4 then line else line[..4]
  }

  function ToOption(r: Scan): Option<nat> {
    match r
    case Found(v) => Some(v)
    case Partial(_) => None
  }

  lemma {:induction false} ScanFollowsLines(pending: seq<byte>, s: seq<byte>)
    requires LF !in pending
    ensures ToOption(ScanFrom(Head(pending), s)) == FirstFinal(Lines(pending + s))
    decreases |s|
  {
    if |s| == 0 {
      NoLineYet(pending);
      assert pending + s == pending;
    } else if s[0] != LF {
      var rest := s[1..];
      assert ToOption(ScanFrom(Head(pending + [s[0]]), rest)) == FirstFinal(Lines(pending + [s[0]] + rest)) by {
        ScanFollowsLines(pending + [s[0]], rest);
      }
      assert s == [s[0]] + rest;
      ExtendLine(pending, s[0], rest);
      assert pending + s == (pending + [s[0]]) + rest;
    } else {
      var rest := s[1..];
      assert s == [LF] + rest;
      ScanAtNewline(pending, rest);
      LinesAtNewline(pending, rest);
      FirstFinalCons(pending, Lines(rest));
      if !IsFinalLine(pending) {
        assert ToOption(ScanFrom([], rest)) == FirstFinal(Lines(rest)) by {
          ScanFollowsLines([], rest);
          assert [] + rest == rest;
        }
      }
    }
  }

  lemma FirstFinalCons(line: seq<byte>, lines: seq<seq<byte>>)
    ensures FirstFinal([line] + lines) ==
      if IsFinalLine(line) then Some(LeadingDecimal(line[..3])) else FirstFinal(lines)
  {
    assert ([line] + lines)[1..] == lines;
  }

  /** A stream without `\n` holds no complete line. */
  lemma NoLineYet(pending: seq<byte>)
    requires LF !in pending
    ensures Lines(pending) == []
  {
    assert NewlineIndex(pending) == |pending|;
  }

  /** A byte other than `\n` only extends the current line. */
  lemma ExtendLine(pending: seq<byte>, b: byte, rest: seq<byte>)
    requires b != LF
    ensures ScanFrom(Head(pending), [b] + rest) == ScanFrom(Head(pending + [b]), rest)
  {
    assert Head(pending + [b]) == (if |Head(pending)| < 4 then Head(pending) + [b] else Head(pending));
    assert ([b] + rest)[1..] == rest;
  }

  /** At `\n` the current line ends: it either ends the reply or is forgotten. */
  lemma ScanAtNewline(pending: seq<byte>, rest: seq<byte>)
    ensures ScanFrom(Head(pending), [LF] + rest) ==
      if IsFinalLine(pending) then Found(LeadingDecimal(pending[..3])) else ScanFrom([], rest)
  {
    assert ([LF] + rest)[1..] == rest;
    if |pending| >= 4 {
      assert Head(pending)[..3] == pending[..3];
    }
  }

  /** The line before the first `\n` is the first line. */
  lemma LinesAtNewline(pending: seq<byte>, rest: seq<byte>)
    requires LF !in pending
    ensures Lines(pending + ([LF] + rest)) == [pending] + Lines(rest)
  {
    var t := pending + ([LF] + rest);
    var k := |pending|;
    assert t[k] == LF;
    assert forall j | 0 <= j < k :: t[j] == pending[j];
    assert NewlineIndex(t) == k;
    assert t[..k] == pending;
    assert t[k + 1..] == rest;
  }

  /** The scanner yields exactly the value of the first complete line whose first
      byte is a digit and whose fourth byte is a space; every earlier line, be it
      a `NNN-` continuation, a shorter line or any other text, is skipped. */
  lemma ScanReplyIsFirstFinalLine(s: seq<byte>)
    ensures ScanReply(s) == FirstFinal(Lines(s))
  {
    ScanFollowsLines([], s);
    assert [] + s == s;
  }

  /** A line that does not end the reply is skipped whole. */
  lemma SkipsNonFinalLine(line: seq<byte>, rest: seq<byte>)
    requires LF !in line
    requires !IsFinalLine(line)
    ensures ScanReply(line + [LF] + rest) == ScanReply(rest)
  {
    var t := line + [LF] + rest;
    ScanReplyIsFirstFinalLine(t);
    ScanReplyIsFirstFinalLine(rest);
    LinesAfter(line, rest);
  }

  /** A line of the form `DDD text` ends the reply with the three-digit code. */
  lemma EndsOnFinalLine(line: seq<byte>, rest: seq<byte>)
    requires LF !in line
    requires |line| >= 4 && AllDigits(line[..3]) && line[3] == SPACE
    ensures ScanReply(line + [LF] + rest) == Some(DecimalValue(line[..3]))
  {
    var t := line + [LF] + rest;
    ScanReplyIsFirstFinalLine(t);
    LinesAfter(line, rest);
    assert DigitPrefix(line[..3]) == 3;
    assert line[..3][..3] == line[..3];
  }

  lemma LinesAfter(line: seq<byte>, rest: seq<byte>)
    requires LF !in line
    ensures Lines(line + [LF] + rest) == [line] + Lines(rest)
  {
    var t := line + [LF] + rest;
    var k := |line|;
    assert t[k] == LF;
    assert forall j | 0 <= j < k :: t[j] == line[j];
    assert NewlineIndex(t) == k;
    assert t[..k] == line;
    assert t[k + 1..] == rest;
  }

  /** Only the first byte of a line is checked to be a digit: a line whose
      second byte is not a digit still ends the reply, with the value of that
      one digit. */
  lemma FirstDigitOnly(line: seq<byte>, rest: seq<byte>)
    requires LF !in line
    requires |line| >= 4 && IsDigit(line[0]) && !IsDigit(line[1]) && line[3] == SPACE
    ensures ScanReply(line + [LF] + rest) == Some(DigitValue(line[0]))
  {
    ScanReplyIsFirstFinalLine(line + [LF] + rest);
    LinesAfter(line, rest);
    LeadingOneDigit(line[..3]);
  }

  lemma LeadingOneDigit(s: seq<byte>)
    requires |s| >= 2 && IsDigit(s[0]) && !IsDigit(s[1])
    ensures LeadingDecimal(s) == DigitValue(s[0])
  {
    assert DigitPrefix(s[1..]) == 0;
    assert s[..1] == [s[0]];
    assert [s[0]][..0] == [];
  }

  /** `2x9 ` ends a reply with value 2. */
  lemma OnlyFirstByteIsChecked(rest: seq<byte>)
    ensures ScanReply(Ascii("2x9 \n") + rest) == Some(2)
  {
    var line: seq<byte> := [50, 120, 57, 32];
    assert Ascii("2x9 \n") == line + [LF];
    FirstDigitOnly(line, rest);
  }

  // ---------------------------------------------------------------------------
  // The transport around the scan

  /** Which copy of the routine: the plaintext one (greeting, EHLO, STARTTLS) or
      the TLS one (everything after the upgrade). */
  datatype Channel = Plain | Tls

  const ERR_SSL_WANT_READ: int := -0x6900
  const ERR_SSL_WANT_WRITE: int := -0x6880

  /** A receive call's result: a value no greater than zero is a failure. */
  type Failure = x: int | x <= 0

  /** The bytes of a successful receive: a return of 0 is a failure, so there
      is at least one. */
  type Piece = s: seq<byte> | |s| >= 1 witness [0]

  /** One return of the receive call. */
  datatype Recv = Received(data: Piece) | RecvFailed(ret: Failure)

  /** The TLS copy retries a read or write the library asks to repeat; the
      plaintext copy has no such case. */
  predicate Retried(ch: Channel, ret: int) {
    ch == Tls && (ret == ERR_SSL_WANT_READ || ret == ERR_SSL_WANT_WRITE)
  }

  /** What the routine returns, or `Waiting` when the scripted reads run out
      before it returns (it would block on the next read). */
  datatype Response = Returned(ret: int) | Waiting

  datatype Delivery = Delivery(bytes: seq<byte>, stop: Option<int>)

  /** The bytes the reads deliver before the first failure the routine does not
      retry, and that failure. */
  function Delivered(ch: Channel, recvs: seq<Recv>): Delivery
    decreases |recvs|
  {
    if |recvs| == 0 then Delivery([], None)
    else match recvs[0]
      case Received(d) =>
        var rest := Delivered(ch, recvs[1..]);
        Delivery(d + rest.bytes, rest.stop)
      case RecvFailed(e) =>
        if Retried(ch, e) then Delivered(ch, recvs[1..]) else Delivery([], Some(e))
  }

  /** The read part of the routine, stated over the whole delivered stream: the
      first terminating line's value if one arrives before a failure, otherwise
      the failing receive's value unchanged. */
  function ReadOutcome(ch: Channel, recvs: seq<Recv>): Response {
    var d := Delivered(ch, recvs);
    match ScanReply(d.bytes)
    case Some(v) => Returned(v)
    case None => if d.stop.Some? then Returned(d.stop.value) else Waiting
  }

  /** The inner `for` loop over the bytes of one receive. */
  method ScanBytes(code0: Code, data: seq<byte>) returns (r: Scan)
    ensures r == ScanFrom(code0, data)
  {
    var code: Code := code0;
    var i := 0;
    while i < |data|
      invariant 0 <= i <= |data|
      invariant ScanFrom(code0, data) == ScanFrom(code, data[i..])
    {
      assert data[i..][0] == data[i] && data[i..][1..] == data[i + 1..];
      if data[i] != LF {
        if |code| < 4 {
          code := code + [data[i]];
        }
      } else if Terminates(code) {
        return Found(CodeValue(code));
      } else {
        code := [];
      }
      i := i + 1;
    }
    return Partial(code);
  }

  /** The read loop of both copies: receive after receive, with `code`/`idx`
      kept across receives, until a terminating line or a failure. */
  method GetResponse(ch: Channel, recvs: seq<Recv>) returns (r: Response)
    ensures r == ReadOutcome(ch, recvs)
    ensures r.Returned? ==> r.ret <= 999
  {
    var code: Code := [];
    ghost var seen: seq<byte> := [];
    var j := 0;
    while j < |recvs|
      invariant 0 <= j <= |recvs|
      invariant ScanFrom([], seen) == Partial(code)
      invariant Delivered(ch, recvs).bytes == seen + Delivered(ch, recvs[j..]).bytes
      invariant Delivered(ch, recvs).stop == Delivered(ch, recvs[j..]).stop
    {
      DeliveredStep(ch, recvs, j);
      match recvs[j] {
        case RecvFailed(e) =>
          if !Retried(ch, e) {
            assert seen + [] == seen;
            return Returned(e);
          }
        case Received(data) =>
          ghost var after := Delivered(ch, recvs[j + 1..]).bytes;
          var scan := ScanBytes(code, data);
          match scan {
            case Found(v) =>
              ScanFoundIn(seen, code, data, after, v);
              return Returned(v);
            case Partial(c) =>
              ScanPartialIn(seen, code, data, c);
              code := c;
          }
          Assoc(seen, data, after);
          seen := seen + data;
      }
      j := j + 1;
    }
    assert recvs[j..] == [];
    assert seen + [] == seen;
    r := Waiting;
  }

  /** One receive further into the script. */
  lemma DeliveredStep(ch: Channel, recvs: seq<Recv>, j: nat)
    requires j < |recvs|
    ensures recvs[j].Received? ==>
      Delivered(ch, recvs[j..])
        == Delivery(recvs[j].data + Delivered(ch, recvs[j + 1..]).bytes, Delivered(ch, recvs[j + 1..]).stop)
    ensures recvs[j].RecvFailed? && Retried(ch, recvs[j].ret) ==> Delivered(ch, recvs[j..]) == Delivered(ch, recvs[j + 1..])
    ensures recvs[j].RecvFailed? && !Retried(ch, recvs[j].ret) ==> Delivered(ch, recvs[j..]) == Delivery([], Some(recvs[j].ret))
  {
    assert recvs[j..][0] == recvs[j] && recvs[j..][1..] == recvs[j + 1..];
  }

  /** A receive that completes no terminating line leaves the scan partway
      through a line. */
  lemma ScanPartialIn(seen: seq<byte>, code: Code, data: seq<byte>, c: Code)
    requires ScanFrom([], seen) == Partial(code) && ScanFrom(code, data) == Partial(c)
    ensures ScanFrom([], seen + data) == Partial(c)
  {
    ScanAppend([], seen, data);
  }

  lemma Assoc<T>(a: seq<T>, b: seq<T>, c: seq<T>)
    ensures a + (b + c) == (a + b) + c
  {
  }

  /** A terminating line completed inside a receive ends the reply, whatever
      follows it. */
  lemma ScanFoundIn(seen: seq<byte>, code: Code, data: seq<byte>, after: seq<byte>, v: nat)
    requires ScanFrom([], seen) == Partial(code) && ScanFrom(code, data) == Found(v)
    ensures ScanReply(seen + (data + after)) == Some(v)
  {
    var t := seen + data;
    assert seen + (data + after) == t + after;
    ScanAppend([], seen, data);
    assert ScanFrom([], t) == Found(v);
    ScanAppend([], t, after);
  }

  /** How the write before the read ends. */
  datatype Send = Sent | SendFailed(ret: int) | SendBlocked

  /** The TLS write loop: repeated while the library asks for a retry. */
  function TlsWrite(writes: seq<int>): Send
    decreases |writes|
  {
    if |writes| == 0 then SendBlocked
    else if writes[0] > 0 then Sent
    else if Retried(Tls, writes[0]) then TlsWrite(writes[1..])
    else SendFailed(writes[0])
  }

  /** The write part: nothing is written for an empty request (the greeting);
      the plaintext copy makes one attempt; any positive return counts as sent. */
  function SendOutcome(ch: Channel, len: nat, writes: seq<int>): Send {
    if len == 0 then Sent
    else match ch
      case Plain =>
        if |writes| == 0 then SendBlocked
        else if writes[0] <= 0 then SendFailed(writes[0])
        else Sent
      case Tls => TlsWrite(writes)
  }

  /** The whole routine's result, given the write and read results. */
  function ExchangeOutcome(ch: Channel, len: nat, writes: seq<int>, recvs: seq<Recv>): Response {
    match SendOutcome(ch, len, writes)
    case Sent => ReadOutcome(ch, recvs)
    case SendFailed(e) => Returned(e)
    case SendBlocked => Waiting
  }

  /** The routine: write `len` bytes unless `len` is zero, then read the reply. */
  method WriteAndGetResponse(ch: Channel, len: nat, writes: seq<int>, recvs: seq<Recv>) returns (r: Response)
    ensures r == ExchangeOutcome(ch, len, writes, recvs)
    ensures len == 0 ==> r == ReadOutcome(ch, recvs)
    ensures r.Returned? ==> r.ret <= 999
  {
    if len > 0 {
      if ch == Plain {
        if |writes| == 0 {
          return Waiting;
        }
        if writes[0] <= 0 {
          return Returned(writes[0]);
        }
      } else {
        var k := 0;
        while k < |writes| && writes[k] <= 0
          invariant 0 <= k <= |writes|
          invariant TlsWrite(writes) == TlsWrite(writes[k..])
        {
          assert writes[k..][1..] == writes[k + 1..];
          if !Retried(Tls, writes[k]) {
            return Returned(writes[k]);
          }
          k := k + 1;
        }
        if k == |writes| {
          return Waiting;
        }
      }
    }
    r := GetResponse(ch, recvs);
  }

  // ---------------------------------------------------------------------------
  // Properties of the read part

  function Concat(recvs: seq<Recv>): seq<byte>
    decreases |recvs|
  {
    if |recvs| == 0 then []
    else match recvs[0]
      case Received(d) => d + Concat(recvs[1..])
      case RecvFailed(_) => Concat(recvs[1..])
  }

  predicate AllReceived(recvs: seq<Recv>) {
    forall k | 0 <= k < |recvs| :: recvs[k].Received?
  }

  lemma {:induction false} DeliveredAll(ch: Channel, recvs: seq<Recv>)
    requires AllReceived(recvs)
    ensures Delivered(ch, recvs) == Delivery(Concat(recvs), None)
    decreases |recvs|
  {
    if |recvs| > 0 {
      DeliveredAll(ch, recvs[1..]);
    }
  }

  /** The result does not depend on how the stream is split across receives. */
  lemma ChunkingIrrelevant(ch: Channel, a: seq<Recv>, b: seq<Recv>)
    requires AllReceived(a) && AllReceived(b)
    requires Concat(a) == Concat(b)
    ensures ReadOutcome(ch, a) == ReadOutcome(ch, b)
  {
    DeliveredAll(ch, a);
    DeliveredAll(ch, b);
  }

  /** A failed receive before any terminating line is returned unchanged, except
      that the TLS copy skips a receive the library asks to retry. */
  lemma FailedReceive(ch: Channel, e: Failure, rest: seq<Recv>)
    ensures Retried(ch, e) ==> ReadOutcome(ch, [RecvFailed(e)] + rest) == ReadOutcome(ch, rest)
    ensures !Retried(ch, e) ==> ReadOutcome(ch, [RecvFailed(e)] + rest) == Returned(e)
  {
    assert ([RecvFailed(e)] + rest)[1..] == rest;
  }
}
