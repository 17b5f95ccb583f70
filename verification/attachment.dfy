/**
 Streaming the attachment (main/smtp_client.c, the `while (!feof(fp))` loop of
 `smtp_client_task`): the file is read in pieces of `((128 - 1) / 4) * 3 = 93`
 bytes, each piece is base64-encoded into the 128-byte `base64_buffer`, and the
 buffer is written as one `\r\n`-terminated line.
 */
module Attachment {
  import opened Wrappers
  import opened Bytes
  import opened Base64

  /** `sizeof(base64_buffer)`. */
  const BASE64_BUFFER_SIZE: nat := 128

  /** `read_bytes`, `((128 - 1) / 4) * 3`: the largest multiple of three whose
      encoding fits the buffer together with its NUL. */
  const READ_BYTES: nat := 93

  function Flatten(cs: seq<seq<byte>>): seq<byte>
    decreases |cs|
  {
    if |cs| == 0 then [] else cs[0] + Flatten(cs[1..])
  }

  lemma {:induction false} FlattenSnoc(cs: seq<seq<byte>>, c: seq<byte>)
    ensures Flatten(cs + [c]) == Flatten(cs) + c
    decreases |cs|
  {
    if |cs| == 0 {
      assert cs + [c] == [c];
      assert [c][1..] == [];
    } else {
      assert (cs + [c])[1..] == cs[1..] + [c];
      FlattenSnoc(cs[1..], c);
    }
  }

  /** The pieces `fread(read_buffer, 1, 93, fp)` hands out under `while (!feof(fp))`:
      full reads while at least 93 bytes remain (a read that ends exactly at the
      end of the file does not yet set the end-of-file flag), then one short,
      possibly empty, read that does. No read fails with an error. */
  function Chunks(file: seq<byte>): (cs: seq<seq<byte>>)
    ensures |cs| >= 1
    decreases |file|
  {
    if |file| < READ_BYTES then [file]
    else [file[..READ_BYTES]] + Chunks(file[READ_BYTES..])
  }

  /** The pieces are full but for the last, which is short, and together they
      are the file. */
  lemma {:induction false} ChunksSplit(file: seq<byte>)
    ensures var cs := Chunks(file);
      && WellChunked(cs)
      && |cs[|cs| - 1]| < READ_BYTES
      && Flatten(cs) == file
    decreases |file|
  {
    var cs := Chunks(file);
    if |file| < READ_BYTES {
      assert cs[1..] == [];
    } else {
      var rest := Chunks(file[READ_BYTES..]);
      ChunksSplit(file[READ_BYTES..]);
      assert cs[1..] == rest;
      LastOfCons(file[..READ_BYTES], rest);
      assert forall i | 1 <= i < |cs| :: cs[i] == rest[i - 1];
      assert file == file[..READ_BYTES] + file[READ_BYTES..];
    }
  }

  /** There are `|file| / 93 + 1` pieces, the last holding the `|file| % 93`
      bytes left over. */
  lemma {:induction false} ChunksCount(file: seq<byte>)
    ensures |Chunks(file)| == |file| / READ_BYTES + 1
    ensures |Chunks(file)[|Chunks(file)| - 1]| == |file| % READ_BYTES
    decreases |file|
  {
    ChunksFirst(file);
    if |file| >= READ_BYTES {
      var rest := file[READ_BYTES..];
      var tail := Chunks(rest);
      ChunksCount(rest);
      LastOfCons(file[..READ_BYTES], tail);
      CountStep(|file|, |rest|, |tail|, |tail[|tail| - 1]|);
    } else {
      assert Chunks(file) == [file];
      DivSmall(|file|);
    }
  }

  lemma DivSmall(n: nat)
    requires n < READ_BYTES
    ensures n / READ_BYTES == 0 && n % READ_BYTES == n
  {
  }

  lemma LastOfCons<T>(x: T, s: seq<T>)
    requires |s| >= 1
    ensures |[x] + s| == |s| + 1 && ([x] + s)[|s|] == s[|s| - 1]
  {
  }

  /** One more full piece in front: one more in the count, the same remainder. */
  lemma CountStep(n: nat, m: nat, count: nat, last: nat)
    requires n >= READ_BYTES && m == n - READ_BYTES
    requires count == m / READ_BYTES + 1 && last == m % READ_BYTES
    ensures count + 1 == n / READ_BYTES + 1 && last == n % READ_BYTES
  {
  }

  /** The lines the loop writes, the buffer's final contents, and the encoder's
      error code if the loop left through `goto exit`. */
  datatype Emitted = Emitted(lines: seq<seq<byte>>, buffer: seq<byte>, error: Option<int>)

  /** The loop body as written: encode the piece into `base64_buffer`, then write
      `"%s\r\n"` of the buffer. For an empty piece the encoder reports success
      without writing, so the line repeats whatever the buffer last held. */
  function EmitAsWritten(chunks: seq<seq<byte>>, buffer: seq<byte>): Emitted
    decreases |chunks|
  {
    if |chunks| == 0 then Emitted([], buffer, None)
    else match EncodeInto(BASE64_BUFFER_SIZE, chunks[0])
      case TooSmall => Emitted([], buffer, Some(ERR_BUFFER_TOO_SMALL))
      case NothingWritten =>
        var rest := EmitAsWritten(chunks[1..], buffer);
        rest.(lines := [buffer + CRLF] + rest.lines)
      case Written(t) =>
        var rest := EmitAsWritten(chunks[1..], t);
        rest.(lines := [t + CRLF] + rest.lines)
  }

  /** The loop body as evidently intended: an empty piece gives an empty line. */
  function EmitCorrected(chunks: seq<seq<byte>>, buffer: seq<byte>): Emitted
    decreases |chunks|
  {
    if |chunks| == 0 then Emitted([], buffer, None)
    else match EncodeInto(BASE64_BUFFER_SIZE, chunks[0])
      case TooSmall => Emitted([], buffer, Some(ERR_BUFFER_TOO_SMALL))
      case NothingWritten =>
        var rest := EmitCorrected(chunks[1..], buffer);
        rest.(lines := [CRLF] + rest.lines)
      case Written(t) =>
        var rest := EmitCorrected(chunks[1..], t);
        rest.(lines := [t + CRLF] + rest.lines)
  }

  /** The whole loop over an opened file, as written; `prior` is what
      `base64_buffer` held before the loop, up to its first NUL. */
  function StreamAsWritten(file: seq<byte>, prior: seq<byte>): Emitted {
    EmitAsWritten(Chunks(file), prior)
  }

  /** The whole loop with the corrected body. */
  function Stream(file: seq<byte>, prior: seq<byte>): Emitted {
    EmitCorrected(Chunks(file), prior)
  }

  // ---------------------------------------------------------------------------
  // The chunked loop, statement by statement

  function Prepend(lines: seq<seq<byte>>, e: Emitted): Emitted {
    e.(lines := lines + e.lines)
  }

  lemma PrependTwice(a: seq<seq<byte>>, b: seq<seq<byte>>, e: Emitted)
    ensures Prepend(a, Prepend(b, e)) == Prepend(a + b, e)
  {
    assert a + (b + e.lines) == (a + b) + e.lines;
  }

  /** The first piece of a remainder, and what is left after it. */
  lemma ChunksFirst(rest: seq<byte>)
    ensures |rest| < READ_BYTES ==> Chunks(rest) == [rest]
    ensures |rest| >= READ_BYTES ==> Chunks(rest) == [rest[..READ_BYTES]] + Chunks(rest[READ_BYTES..])
  {
  }

  /** One turn of the loop as written. */
  lemma EmitAsWrittenCons(c: seq<byte>, cs: seq<seq<byte>>, buffer: seq<byte>)
    ensures EmitAsWritten([c] + cs, buffer) ==
      match EncodeInto(BASE64_BUFFER_SIZE, c)
      case TooSmall => Emitted([], buffer, Some(ERR_BUFFER_TOO_SMALL))
      case NothingWritten => Prepend([buffer + CRLF], EmitAsWritten(cs, buffer))
      case Written(t) => Prepend([t + CRLF], EmitAsWritten(cs, t))
  {
    assert ([c] + cs)[0] == c;
    assert ([c] + cs)[1..] == cs;
  }

  /** A source fits `base64_buffer` with its NUL exactly when it is at most 93
      bytes long. */
  lemma FitsBuffer(n: nat)
    ensures 4 * ((n + 2) / 3) + 1 <= BASE64_BUFFER_SIZE <==> n <= READ_BYTES
  {
    if n <= READ_BYTES {
      assert (n + 2) / 3 <= 31;
    } else {
      assert (n + 2) / 3 >= 32;
    }
  }

  /** A piece of at most 93 bytes always fits: its encoding and NUL take at most
      125 of the 128 bytes, so the encoder's error branch is never taken. */
  lemma PieceFits(c: seq<byte>)
    requires |c| <= READ_BYTES
    ensures EncodeInto(BASE64_BUFFER_SIZE, c) == if |c| == 0 then NothingWritten else Written(Encode(c))
    ensures |Encode(c)| <= 124
  {
    FitsBuffer(|c|);
    EncodeLength(c);
    assert (|c| + 2) / 3 <= 31;
  }

  /** The length of the next read from position `pos`. */
  function ReadLength(file: seq<byte>, pos: nat): nat
    requires pos <= |file|
  {
    if |file| - pos < READ_BYTES then |file| - pos else READ_BYTES
  }

  /** What `base64_buffer` holds once a piece of at most 93 bytes is encoded
      into it: the encoding, or its old contents for an empty piece. */
  function Carried(c: seq<byte>, buffer: seq<byte>): seq<byte> {
    if |c| == 0 then buffer else Encode(c)
  }

  /** A piece that fits writes the buffer's new contents as its line. */
  lemma EmitPiece(c: seq<byte>, cs: seq<seq<byte>>, buffer: seq<byte>)
    requires |c| <= READ_BYTES
    ensures EmitAsWritten([c] + cs, buffer)
         == Prepend([Carried(c, buffer) + CRLF], EmitAsWritten(cs, Carried(c, buffer)))
  {
    EmitAsWrittenCons(c, cs, buffer);
    PieceFits(c);
  }

  /** One turn of the loop over the unread remainder `rest`, after the lines
      `before` and with `buffer` as the buffer's contents: it writes the line
      of the first piece, then the loop goes on over what follows that piece,
      or stops when the read came up short. */
  lemma LoopTurn(before: seq<seq<byte>>, rest: seq<byte>, buffer: seq<byte>, chunk: seq<byte>, after: seq<byte>)
    requires |rest| < READ_BYTES ==> chunk == rest
    requires |rest| >= READ_BYTES ==> chunk == rest[..READ_BYTES] && after == rest[READ_BYTES..]
    ensures var next := Carried(chunk, buffer);
      Prepend(before, EmitAsWritten(Chunks(rest), buffer))
        == if |rest| < READ_BYTES then Emitted(before + [next + CRLF], next, None)
           else Prepend(before + [next + CRLF], EmitAsWritten(Chunks(after), next))
  {
    var next := Carried(chunk, buffer);
    ChunksFirst(rest);
    if |rest| < READ_BYTES {
      EmitPiece(rest, [], buffer);
      assert [rest] + [] == [rest];
    } else {
      EmitPiece(chunk, Chunks(after), buffer);
      PrependTwice(before, [next + CRLF], EmitAsWritten(Chunks(after), next));
    }
  }

  /** `while (!feof(fp)) { n = fread(read_buffer, 1, 93, fp); encode; write }`
      over the contents `file` of the opened attachment. */
  method SendFile(file: seq<byte>, prior: seq<byte>) returns (e: Emitted)
    ensures e == StreamAsWritten(file, prior)
  {
    var pos := 0;
    var eof := false;
    var lines: seq<seq<byte>> := [];
    var buffer := prior;
    while !eof
      invariant 0 <= pos <= |file|
      invariant StreamAsWritten(file, prior) ==
        if eof then Emitted(lines, buffer, None) else Prepend(lines, EmitAsWritten(Chunks(file[pos..]), buffer))
      decreases if eof then 0 else 1 + |file| - pos
    {
      var n := ReadLength(file, pos);
      var chunk := file[pos..pos + n];
      LoopTurn(lines, file[pos..], buffer, chunk, file[pos + n..]);
      pos := pos + n;
      eof := n < READ_BYTES;
      if n > 0 {
        buffer := Encode(chunk);
      }
      lines := lines + [buffer + CRLF];
    }
    e := Emitted(lines, buffer, None);
  }

  // ---------------------------------------------------------------------------
  // What the lines carry

  /** A line without its `\r\n`. */
  function StripCRLF(line: seq<byte>): seq<byte> {
    if |line| >= 2 && line[|line| - 2..] == CRLF then line[..|line| - 2] else line
  }

  /** The base64 text of the attachment part: all lines, without their `\r\n`. */
  function Payload(lines: seq<seq<byte>>): seq<byte>
    decreases |lines|
  {
    if |lines| == 0 then [] else StripCRLF(lines[0]) + Payload(lines[1..])
  }

  /** One line per piece, holding the piece's encoding. */
  function EncodedLines(cs: seq<seq<byte>>): seq<seq<byte>>
    decreases |cs|
  {
    if |cs| == 0 then [] else [Encode(cs[0]) + CRLF] + EncodedLines(cs[1..])
  }

  /** Every piece fits the read buffer, and every piece but the last is full. */
  predicate WellChunked(cs: seq<seq<byte>>) {
    && (forall i | 0 <= i < |cs| :: |cs[i]| <= READ_BYTES)
    && (forall i | 0 <= i < |cs| - 1 :: |cs[i]| == READ_BYTES)
  }

  lemma StripEncodedLine(c: seq<byte>)
    ensures StripCRLF(Encode(c) + CRLF) == Encode(c)
  {
    var line := Encode(c) + CRLF;
    assert line[|line| - 2..] == CRLF;
    assert line[..|line| - 2] == Encode(c);
  }

  lemma {:induction false} EncodedLinesAt(cs: seq<seq<byte>>)
    ensures |EncodedLines(cs)| == |cs|
    ensures forall i | 0 <= i < |cs| :: EncodedLines(cs)[i] == Encode(cs[i]) + CRLF
    decreases |cs|
  {
    if |cs| > 0 {
      EncodedLinesAt(cs[1..]);
      assert forall i | 1 <= i < |cs| :: cs[1..][i - 1] == cs[i];
    }
  }

  lemma {:induction false} CorrectedLines(cs: seq<seq<byte>>, buffer: seq<byte>)
    requires WellChunked(cs)
    ensures EmitCorrected(cs, buffer).error == None
    ensures EmitCorrected(cs, buffer).lines == EncodedLines(cs)
    decreases |cs|
  {
    if |cs| > 0 {
      var c := cs[0];
      PieceFits(c);
      assert WellChunked(cs[1..]);
      if |c| == 0 {
        assert Encode(c) + CRLF == CRLF;
        CorrectedLines(cs[1..], buffer);
      } else {
        CorrectedLines(cs[1..], Encode(c));
      }
    }
  }

  lemma {:induction false} PayloadOfEncodedLines(cs: seq<seq<byte>>)
    requires WellChunked(cs)
    ensures Payload(EncodedLines(cs)) == Encode(Flatten(cs))
    decreases |cs|
  {
    if |cs| > 0 {
      var c, tail := cs[0], cs[1..];
      var ls := EncodedLines(cs);
      assert ls[0] == Encode(c) + CRLF && ls[1..] == EncodedLines(tail);
      assert Payload(ls) == StripCRLF(ls[0]) + Payload(ls[1..]);
      StripEncodedLine(c);
      assert WellChunked(tail);
      PayloadOfEncodedLines(tail);
      assert Flatten(cs) == c + Flatten(tail);
      if |tail| == 0 {
        assert Flatten(tail) == [];
        assert c + [] == c;
        assert Encode(c) + [] == Encode(c);
      } else {
        assert |c| == 93;
        EncodeAppend(c, Flatten(tail));
      }
    }
  }

  /** The corrected loop: one line per piece, `|file| / 93 + 1` of them, each at
      most 124 symbols plus `\r\n`, with no `=` before the last line, and all of
      them together decode to exactly the file. */
  lemma CorrectedStreamDecodes(file: seq<byte>, prior: seq<byte>)
    ensures Stream(file, prior).error == None
    ensures |Stream(file, prior).lines| == |file| / READ_BYTES + 1
    ensures forall i | 0 <= i < |Stream(file, prior).lines| :: |Stream(file, prior).lines[i]| <= 126
    ensures forall i | 0 <= i < |Stream(file, prior).lines| - 1 :: PAD !in Stream(file, prior).lines[i]
    ensures Decode(Payload(Stream(file, prior).lines)) == Some(file)
  {
    var cs := Chunks(file);
    ChunksCount(file);
    ChunksSplit(file);
    CorrectedLines(cs, prior);
    EncodedLinesAt(cs);
    var ls := Stream(file, prior).lines;
    forall i | 0 <= i < |ls|
      ensures |ls[i]| <= 126
    {
      PieceFits(cs[i]);
    }
    forall i | 0 <= i < |ls| - 1
      ensures PAD !in ls[i]
    {
      assert |cs[i]| == 93;
      EncodingAlphabet(cs[i]);
    }
    PayloadOfEncodedLines(cs);
    RoundTrip(file);
  }

  // ---------------------------------------------------------------------------
  // The loop as written

  /** As written, every line matches the corrected loop except a last line for an
      empty last piece: that one repeats the previous piece's encoding, or
      `prior` when there is no previous piece. */
  lemma {:induction false} AsWrittenLines(cs: seq<seq<byte>>, buffer: seq<byte>)
    requires |cs| > 0 && WellChunked(cs)
    ensures EmitAsWritten(cs, buffer).error == None
    ensures |cs[|cs| - 1]| > 0 ==> EmitAsWritten(cs, buffer).lines == EncodedLines(cs)
    ensures |cs[|cs| - 1]| == 0 ==>
      EmitAsWritten(cs, buffer).lines ==
        EncodedLines(cs[..|cs| - 1]) + [(if |cs| >= 2 then Encode(cs[|cs| - 2]) else buffer) + CRLF]
    decreases |cs|
  {
    var c, tail := cs[0], cs[1..];
    PieceFits(c);
    if |cs| == 1 {
      assert tail == [];
      assert cs[..0] == [];
    } else {
      assert |c| == 93;
      assert WellChunked(tail);
      AsWrittenLines(tail, Encode(c));
      assert tail[|tail| - 1] == cs[|cs| - 1];
      assert cs[..|cs| - 1][1..] == tail[..|tail| - 1];
      assert cs[..|cs| - 1][0] == c;
      if |tail| >= 2 {
        assert tail[|tail| - 2] == cs[|cs| - 2];
      }
    }
  }

  /** The pieces of a file that is a non-empty multiple of 93 bytes long: full
      pieces that make up the file, then an empty one. */
  lemma WholePieces(file: seq<byte>)
    requires |file| >= READ_BYTES && |file| % READ_BYTES == 0
    ensures var cs := Chunks(file);
      && |cs| >= 2 && cs[|cs| - 1] == []
      && Flatten(cs[..|cs| - 1]) == file
  {
    ChunksCount(file);
    ChunksSplit(file);
    var cs := Chunks(file);
    SplitLast(cs);
  }

  /** A sequence of pieces whose last is empty flattens as the ones before it. */
  lemma SplitLast(cs: seq<seq<byte>>)
    requires |cs| >= 1 && cs[|cs| - 1] == []
    ensures Flatten(cs[..|cs| - 1]) == Flatten(cs)
  {
    var init := cs[..|cs| - 1];
    assert cs == init + [[]];
    FlattenSnoc(init, []);
    assert Flatten(init) + [] == Flatten(init);
  }

  /** ... and the last full piece is the file's last 93 bytes. */
  lemma LastWholePiece(file: seq<byte>)
    requires |file| >= READ_BYTES && |file| % READ_BYTES == 0
    ensures var cs := Chunks(file);
      |cs| >= 2 && cs[|cs| - 2] == file[|file| - READ_BYTES..]
  {
    WholePieces(file);
    var cs := Chunks(file);
    var init := cs[..|cs| - 1];
    assert init[|init| - 1] == cs[|cs| - 2];
    LastPieceEnds(init, file);
  }

  /** Pieces that flatten to `file` end with a piece that is a suffix of it. */
  lemma LastPieceEnds(init: seq<seq<byte>>, file: seq<byte>)
    requires |init| >= 1 && Flatten(init) == file
    ensures |init[|init| - 1]| <= |file|
    ensures init[|init| - 1] == file[|file| - |init[|init| - 1]|..]
  {
    var front, last := init[..|init| - 1], init[|init| - 1];
    assert init == front + [last];
    FlattenSnoc(front, last);
    assert file == Flatten(front) + last;
    assert file[|Flatten(front)|..] == last;
  }

  /** As written, a file that is a non-empty multiple of 93 bytes long is sent as
      the lines of its full pieces, then the last of them again. */
  lemma RepeatedLastLine(file: seq<byte>, prior: seq<byte>)
    requires |file| >= READ_BYTES && |file| % READ_BYTES == 0
    ensures var cs := Chunks(file);
      && |cs| >= 2
      && StreamAsWritten(file, prior).error == None
      && StreamAsWritten(file, prior).lines == EncodedLines(cs[..|cs| - 1]) + [Encode(cs[|cs| - 2]) + CRLF]
  {
    var cs := Chunks(file);
    WholePieces(file);
    ChunksSplit(file);
    assert |cs| >= 2 && WellChunked(cs) && cs[|cs| - 1] == [];
    AsWrittenStaleLast(cs, prior);
  }

  /** As written, pieces ending in an empty one repeat the line of the piece
      before it. */
  lemma AsWrittenStaleLast(cs: seq<seq<byte>>, buffer: seq<byte>)
    requires |cs| >= 2 && WellChunked(cs) && cs[|cs| - 1] == []
    ensures EmitAsWritten(cs, buffer).error == None
    ensures EmitAsWritten(cs, buffer).lines == EncodedLines(cs[..|cs| - 1]) + [Encode(cs[|cs| - 2]) + CRLF]
  {
    AsWrittenLines(cs, buffer);
  }

  /** Finding: when the file is a non-empty multiple of 93 bytes long, the last
      read is empty, the encoder leaves `base64_buffer` alone, and the last piece
      is sent a second time, so the attachment decodes to the file followed by a
      copy of its last 93 bytes. */
  lemma StaleFinalLine(file: seq<byte>, prior: seq<byte>)
    requires |file| >= READ_BYTES && |file| % READ_BYTES == 0
    ensures StreamAsWritten(file, prior).error == None
    ensures var ls := StreamAsWritten(file, prior).lines;
      |ls| >= 2 && ls[|ls| - 1] == ls[|ls| - 2]
    ensures Decode(Payload(StreamAsWritten(file, prior).lines)) == Some(file + file[|file| - READ_BYTES..])
  {
    RepeatedLastLine(file, prior);
    var cs := Chunks(file);
    var n := |cs|;
    LineRepeated(cs[..n - 1], cs[n - 2]);
    StalePayload(file, prior);
  }

  /** A line for a piece appended after the lines ending in that same piece
      repeats the last of them. */
  lemma LineRepeated(init: seq<seq<byte>>, last: seq<byte>)
    requires |init| >= 1 && init[|init| - 1] == last
    ensures var ls := EncodedLines(init) + [Encode(last) + CRLF];
      |ls| >= 2 && ls[|ls| - 1] == ls[|ls| - 2]
  {
    EncodedLinesAt(init);
  }

  lemma StalePayload(file: seq<byte>, prior: seq<byte>)
    requires |file| >= READ_BYTES && |file| % READ_BYTES == 0
    ensures Decode(Payload(StreamAsWritten(file, prior).lines)) == Some(file + file[|file| - READ_BYTES..])
  {
    RepeatedLastLine(file, prior);
    WholePieces(file);
    LastWholePiece(file);
    ChunksSplit(file);
    var cs := Chunks(file);
    var n := |cs|;
    FullPiecesThenOne(cs[..n - 1], cs[n - 2]);
  }

  /** The lines of full pieces followed by one more line decode to the pieces
      followed by that line's piece. */
  lemma FullPiecesThenOne(init: seq<seq<byte>>, last: seq<byte>)
    requires forall i | 0 <= i < |init| :: |init[i]| == READ_BYTES
    ensures Decode(Payload(EncodedLines(init) + [Encode(last) + CRLF])) == Some(Flatten(init) + last)
  {
    var front := Flatten(init);
    var extra := [Encode(last) + CRLF];
    var text := Payload(EncodedLines(init) + extra);
    PayloadAppend(EncodedLines(init), extra);
    assert WellChunked(init);
    PayloadOfEncodedLines(init);
    SingleLinePayload(last);
    assert text == Encode(front) + Encode(last);
    FullPiecesLength(init);
    EncodeAppend(front, last);
    assert text == Encode(front + last);
    RoundTrip(front + last);
  }

  lemma SingleLinePayload(c: seq<byte>)
    ensures Payload([Encode(c) + CRLF]) == Encode(c)
  {
    var extra := [Encode(c) + CRLF];
    StripEncodedLine(c);
    assert extra[1..] == [];
    assert Payload(extra) == Encode(c) + [];
  }

  lemma {:induction false} FullPiecesLength(cs: seq<seq<byte>>)
    requires forall i | 0 <= i < |cs| :: |cs[i]| == READ_BYTES
    ensures |Flatten(cs)| % 3 == 0
    decreases |cs|
  {
    if |cs| > 0 {
      FullPiecesLength(cs[1..]);
    }
  }

  /** Neither loop ever takes the encoder's error branch. */
  lemma StreamsComplete(file: seq<byte>, prior: seq<byte>)
    ensures StreamAsWritten(file, prior).error == None
    ensures Stream(file, prior).error == None
  {
    ChunksSplit(file);
    AsWrittenLines(Chunks(file), prior);
    CorrectedLines(Chunks(file), prior);
  }

  /** The longest line `base64_buffer` can hold: 124 symbols before its NUL. */
  const MAX_SYMBOLS: nat := 124

  /** Both loops write one line per piece. When `base64_buffer` starts out
      holding at most 124 symbols, as the encoder leaves it, it still does
      afterwards and no line is longer than that and `\r\n`. */
  lemma {:induction false} EmitShape(cs: seq<seq<byte>>, buffer: seq<byte>)
    requires forall i | 0 <= i < |cs| :: |cs[i]| <= READ_BYTES
    ensures |EmitAsWritten(cs, buffer).lines| == |cs| && |EmitCorrected(cs, buffer).lines| == |cs|
    ensures |buffer| <= MAX_SYMBOLS ==>
      && |EmitAsWritten(cs, buffer).buffer| <= MAX_SYMBOLS
      && |EmitCorrected(cs, buffer).buffer| <= MAX_SYMBOLS
      && (forall i | 0 <= i < |cs| :: |EmitAsWritten(cs, buffer).lines[i]| <= MAX_SYMBOLS + 2)
      && (forall i | 0 <= i < |cs| :: |EmitCorrected(cs, buffer).lines[i]| <= MAX_SYMBOLS + 2)
    decreases |cs|
  {
    if |cs| > 0 {
      var c, tail := cs[0], cs[1..];
      PieceFits(c);
      var next := if |c| == 0 then buffer else Encode(c);
      assert forall i | 0 <= i < |tail| :: tail[i] == cs[i + 1];
      EmitShape(tail, next);
      var w, k := EmitAsWritten(tail, next), EmitCorrected(tail, next);
      assert EmitAsWritten(cs, buffer).lines == [(if |c| == 0 then buffer else Encode(c)) + CRLF] + w.lines;
      if |c| == 0 {
        assert EmitCorrected(cs, buffer).lines == [CRLF] + k.lines;
      } else {
        assert EmitCorrected(cs, buffer).lines == [Encode(c) + CRLF] + k.lines;
      }
    }
  }

  /** Both loops over a file write `|file| / 93 + 1` lines, each of at most 124
      symbols and `\r\n` when `base64_buffer` held at most 124 before. */
  lemma StreamShape(file: seq<byte>, prior: seq<byte>)
    ensures |StreamAsWritten(file, prior).lines| == |file| / READ_BYTES + 1
    ensures |Stream(file, prior).lines| == |file| / READ_BYTES + 1
    ensures |prior| <= MAX_SYMBOLS ==>
      && |StreamAsWritten(file, prior).buffer| <= MAX_SYMBOLS
      && |Stream(file, prior).buffer| <= MAX_SYMBOLS
      && (forall i | 0 <= i < |StreamAsWritten(file, prior).lines| ::
            |StreamAsWritten(file, prior).lines[i]| <= MAX_SYMBOLS + 2)
      && (forall i | 0 <= i < |Stream(file, prior).lines| :: |Stream(file, prior).lines[i]| <= MAX_SYMBOLS + 2)
  {
    ChunksSplit(file);
    ChunksCount(file);
    EmitShape(Chunks(file), prior);
  }

  /** Finding, empty file: the single, empty read leaves `base64_buffer` holding
      whatever was encoded last before the loop, and that is sent as the attachment. */
  lemma EmptyFileSendsPriorBuffer(prior: seq<byte>)
    ensures StreamAsWritten([], prior).lines == [prior + CRLF]
  {
    var empty: seq<byte> := [];
    var none: seq<seq<byte>> := [];
    assert Chunks(empty) == [empty] + none;
    EmitAsWrittenCons(empty, none, prior);
  }

  lemma {:induction false} PayloadAppend(a: seq<seq<byte>>, b: seq<seq<byte>>)
    ensures Payload(a + b) == Payload(a) + Payload(b)
    decreases |a|
  {
    if |a| == 0 {
      assert a + b == b;
    } else {
      assert (a + b)[0] == a[0];
      assert (a + b)[1..] == a[1..] + b;
      PayloadAppend(a[1..], b);
    }
  }
}
