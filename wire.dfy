/** The pure part of one command/reply exchange (src/redis_connection.rs): the
    inline-command encoding of the Redis Serialization Protocol (RESP), the
    first-byte sniff that tells a "Simple errors" reply (`-`) from anything else,
    the 255-byte error read and the trimming of the error message. */
module Wire {
  import opened Errors

  /** One byte of the TCP stream, written as the character with that code. */
  type byte = c: char | c as int < 0x100 witness '\0'

  const CR: byte := '\r'
  const LF: byte := '\n'
  const CRLF: seq<byte> := "\r\n"
  const Nul: byte := '\0'
  /** The first byte of a RESP "Simple errors" reply. */
  const ErrorSigil: byte := '-'
  /** Size of the zero-initialised buffer the error body is read into (`u8::MAX`). */
  const ErrorBufferSize: nat := 255

  /** ASCII whitespace, the bytes `trim_end` removes: tab, LF, VT, FF, CR, space. */
  predicate IsWhitespace(b: byte) {
    b == ' ' || '\t' <= b <= '\r'
  }

  function Min(a: nat, b: nat): nat {
    if a <= b then a else b
  }

  // ---------------------------------------------------------------------------
  // Encoding

  /** The frame written for a command: its bytes followed by CRLF. */
  function Encode(command: seq<byte>): (frame: seq<byte>)
    ensures |frame| == |command| + 2
    ensures frame[..|command|] == command && frame[|command|..] == CRLF
  {
    command + CRLF
  }

  /** The command an inline frame carries: the frame without its closing CRLF. */
  function Decode(frame: seq<byte>): (r: Option<seq<byte>>)
    ensures r.Some? <==> |frame| >= 2 && frame[|frame| - 2..] == CRLF
    ensures r.Some? ==> Encode(r.value) == frame
  {
    if |frame| >= 2 && frame[|frame| - 2..] == CRLF then Some(frame[..|frame| - 2]) else None
  }

  lemma EncodeDecode(command: seq<byte>)
    ensures Decode(Encode(command)) == Some(command)
  {
  }

  // ---------------------------------------------------------------------------
  // Trimming the error message

  /** `trim_end_matches("\0")`: drops every trailing NUL. */
  function TrimNul(s: seq<byte>): (r: seq<byte>)
    ensures r <= s
    ensures r == [] || r[|r| - 1] != Nul
    ensures forall i :: |r| <= i < |s| ==> s[i] == Nul
  {
    if s != [] && s[|s| - 1] == Nul then TrimNul(s[..|s| - 1]) else s
  }

  /** `trim_end_matches("\r\n")`: drops every trailing CRLF pair. */
  function TrimCrlf(s: seq<byte>): (r: seq<byte>)
    ensures r <= s
    ensures !(|r| >= 2 && r[|r| - 2..] == CRLF)
    ensures (|s| - |r|) % 2 == 0
    ensures forall i :: |r| <= i < |s| ==> s[i] == (if (i - |r|) % 2 == 0 then CR else LF)
  {
    if |s| >= 2 && s[|s| - 2..] == CRLF then
      var t := s[..|s| - 2];
      var r := TrimCrlf(t);
      assert s == t + CRLF;
      assert (|s| - 2 - |r|) % 2 == 0;
      r
    else s
  }

  /** `trim_end` on ASCII text: drops every trailing whitespace byte. */
  function TrimWhitespace(s: seq<byte>): (r: seq<byte>)
    ensures r <= s
    ensures r == [] || !IsWhitespace(r[|r| - 1])
    ensures forall i :: |r| <= i < |s| ==> IsWhitespace(s[i])
  {
    if s != [] && IsWhitespace(s[|s| - 1]) then TrimWhitespace(s[..|s| - 1]) else s
  }

  /** The error message made from the 255-byte buffer: NULs, then CRLF pairs, then
      whitespace trimmed off the end. It is a prefix of the buffer, never ends in
      whitespace, and everything cut off is NUL or whitespace. */
  function ErrorMessage(buffer: seq<byte>): (message: seq<byte>)
    ensures message <= buffer
    ensures message == [] || !IsWhitespace(message[|message| - 1])
    ensures forall i :: |message| <= i < |buffer| ==> buffer[i] == Nul || IsWhitespace(buffer[i])
  {
    TrimWhitespace(TrimCrlf(TrimNul(buffer)))
  }

  function Zeros(n: nat): (z: seq<byte>)
    ensures |z| == n && forall i :: 0 <= i < n ==> z[i] == Nul
  {
    seq(n, _ => Nul)
  }

  /** The buffer after one read of `chunk` into 255 zeroed bytes. */
  function FillBuffer(chunk: seq<byte>): (buffer: seq<byte>)
    requires |chunk| <= ErrorBufferSize
    ensures |buffer| == ErrorBufferSize && buffer[..|chunk|] == chunk
    ensures forall i :: |chunk| <= i < ErrorBufferSize ==> buffer[i] == Nul
  {
    chunk + Zeros(ErrorBufferSize - |chunk|)
  }

  /** The zero padding after the bytes read never reaches the message. */
  lemma {:induction false} TrimNulPadding(s: seq<byte>, n: nat)
    ensures TrimNul(s + Zeros(n)) == TrimNul(s)
  {
    if n > 0 {
      var t := s + Zeros(n);
      assert t[|t| - 1] == Nul;
      assert t[..|t| - 1] == s + Zeros(n - 1);
      TrimNulPadding(s, n - 1);
    } else {
      assert s + Zeros(n) == s;
    }
  }

  /** The CRLF step never changes the message: `trim_end` would remove those bytes anyway. */
  lemma TrimCrlfSubsumed(s: seq<byte>)
    ensures TrimWhitespace(TrimCrlf(s)) == TrimWhitespace(s)
  {
  }

  /** The exact message: the buffer with its trailing NULs, then its trailing
      whitespace removed. */
  lemma ErrorMessageExact(buffer: seq<byte>)
    ensures ErrorMessage(buffer) == TrimWhitespace(TrimNul(buffer))
  {
    TrimCrlfSubsumed(TrimNul(buffer));
  }

  /** A server line `m` + CRLF that fits in the buffer yields exactly `m`, provided
      `m` has no trailing whitespace (e.g. `ERR unknown command`). */
  lemma ErrorMessageOfLine(m: seq<byte>)
    requires |m| + 2 <= ErrorBufferSize
    requires m == [] || !IsWhitespace(m[|m| - 1])
    ensures ErrorMessage(FillBuffer(m + CRLF)) == m
  {
    var line := m + CRLF;
    TrimNulPadding(line, ErrorBufferSize - |line|);
    assert line[|line| - 1] == LF;
    assert TrimNul(line) == line;
    assert line[..|line| - 2] == m && line[|line| - 2..] == CRLF;
    assert TrimCrlf(line) == TrimCrlf(m);
    assert m == [] || m[|m| - 1] != LF;
    assert TrimCrlf(m) == m;
    assert TrimWhitespace(m) == m;
  }

  /** A body of 255 bytes or more is cut at the buffer size: when its 255th byte is
      neither NUL nor whitespace the message is exactly its first 255 bytes. */
  lemma TruncationBoundary(body: seq<byte>)
    requires |body| >= ErrorBufferSize
    requires body[ErrorBufferSize - 1] != Nul && !IsWhitespace(body[ErrorBufferSize - 1])
    ensures ErrorMessage(FillBuffer(body[..ErrorBufferSize])) == body[..ErrorBufferSize]
  {
  }

  // ---------------------------------------------------------------------------
  // One exchange over an abstract stream

  /** What the stream does during one exchange: the text of a failed `write_all`
      (if it fails), the bytes the server sends back, and whether the read of the
      error body fails with an I/O error. `response` is everything the server sends
      before it closes the stream; a server that stays silent with the stream open
      (a read that never returns) is not modelled. */
  datatype Io = Io(writeError: Option<string>, response: seq<byte>, bodyReadFails: bool)

  /** The result of one exchange: the outcome, the bytes written to the stream and
      the bytes left unread on it afterwards. */
  datatype Step = Step(outcome: Outcome<()>, sent: seq<byte>, unread: seq<byte>)

  /** The bytes readable after the write: what was already pending, then the reply. */
  function Available(unread: seq<byte>, io: Io): seq<byte> {
    unread + io.response
  }

  /** The bytes of the error body taken by the single read after the `-`. */
  function ErrorChunk(rest: seq<byte>): (chunk: seq<byte>)
    ensures |chunk| == Min(ErrorBufferSize, |rest|) && chunk <= rest
  {
    rest[..Min(ErrorBufferSize, |rest|)]
  }

  /** `send_command` on a connection whose stream still holds `unread`. */
  function Exchange(command: seq<byte>, unread: seq<byte>, io: Io): (r: Step)
    // A failed write is a CommandError with the I/O text; nothing is read.
    ensures io.writeError.Some? ==> r == Step(Err(CommandError(io.writeError.value)), [], unread)
    // Otherwise exactly the encoded command is written.
    ensures io.writeError.None? ==> r.sent == Encode(command)
    // Success exactly when the first reply byte exists and is not `-`; it consumes one byte.
    ensures r.outcome.Ok? <==>
      io.writeError.None? && Available(unread, io) != [] && Available(unread, io)[0] != ErrorSigil
    ensures r.outcome.Ok? ==> r.unread == Available(unread, io)[1..]
    // Aborts: no first byte, or the body read fails.
    ensures r.outcome.Abort? <==>
      io.writeError.None? &&
      (Available(unread, io) == [] || (Available(unread, io)[0] == ErrorSigil && io.bodyReadFails))
    // Every returned error is a CommandError.
    ensures r.outcome.Err? ==> r.outcome.error.CommandError?
    // An error reply consumes the sigil and at most 255 further bytes, and the
    // message comes from those bytes alone.
    ensures r.outcome.Err? && io.writeError.None? ==>
      var rest := Available(unread, io)[1..];
      && |rest| - |r.unread| == Min(ErrorBufferSize, |rest|)
      && r.unread == rest[Min(ErrorBufferSize, |rest|)..]
      && r.outcome.error.message == ErrorMessage(FillBuffer(ErrorChunk(rest)))
      && r.outcome.error.message <= rest[..Min(ErrorBufferSize, |rest|)]
  {
    match io.writeError
    case Some(why) => Step(Err(CommandError(why)), [], unread)
    case None =>
      var avail := Available(unread, io);
      if avail == [] then
        Step(Abort("Failed to read first byte"), Encode(command), avail)
      else if avail[0] != ErrorSigil then
        Step(Ok(()), Encode(command), avail[1..])
      else if io.bodyReadFails then
        Step(Abort("Failed to read error message"), Encode(command), avail[1..])
      else
        var rest := avail[1..];
        var chunk := ErrorChunk(rest);
        Step(Err(CommandError(ErrorMessage(FillBuffer(chunk)))), Encode(command), rest[|chunk|..])
  }

  /** An error reply `-` + `m` + CRLF that fits in the buffer is reported as the
      CommandError `m` and consumed entirely, provided `m` has no trailing whitespace. */
  lemma ErrorLineReply(command: seq<byte>, m: seq<byte>)
    requires |m| + 2 <= ErrorBufferSize
    requires m == [] || !IsWhitespace(m[|m| - 1])
    ensures Exchange(command, [], Io(None, [ErrorSigil] + m + CRLF, false))
         == Step(Err(CommandError(m)), Encode(command), [])
  {
    var io := Io(None, [ErrorSigil] + m + CRLF, false);
    var rest := Available([], io)[1..];
    assert rest == m + CRLF;
    assert ErrorChunk(rest) == rest;
    ErrorMessageOfLine(m);
  }

  /** `-ERR unknown command\r\n` yields the message `ERR unknown command`. */
  lemma UnknownCommandReply(command: seq<byte>)
    ensures Exchange(command, [], Io(None, "-ERR unknown command\r\n", false))
         == Step(Err(CommandError("ERR unknown command")), Encode(command), [])
  {
    var m: seq<byte> := "ERR unknown command";
    assert "-ERR unknown command\r\n" == [ErrorSigil] + m + CRLF;
    ErrorLineReply(command, m);
  }

  /** `+PONG\r\n` is a success that leaves `PONG\r\n` on the stream for the caller. */
  lemma PongReply()
    ensures Exchange("PING", [], Io(None, "+PONG\r\n", false))
         == Step(Ok(()), "PING\r\n", "PONG\r\n")
  {
  }

  /** The success payload is left on the stream, so a later command on the same
      connection sniffs its first byte instead of the new reply's: after `+OK\r\n`
      is left unread, an error reply to the next command is reported as success. */
  lemma ResidualMasksError(command: seq<byte>, reply: seq<byte>)
    requires reply != []
    ensures var first := Exchange(command, [], Io(None, "+OK\r\n", false));
            var second := Exchange(command, first.unread, Io(None, ['-'] + reply, false));
            first.outcome.Ok? && second.outcome.Ok? && second.unread == "K\r\n" + ['-'] + reply
  {
    var first := Exchange(command, [], Io(None, "+OK\r\n", false));
    assert first.unread == "OK\r\n";
    var avail := Available(first.unread, Io(None, ['-'] + reply, false));
    assert avail[0] == 'O';
    assert avail[1..] == "K\r\n" + ['-'] + reply;
  }
}
