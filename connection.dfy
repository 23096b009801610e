/** One connection to the server (src/redis_connection.rs). The TCP stream is
    modelled by the bytes written to it and the bytes it holds that have not been
    read yet; connect success and the stream's behaviour during an exchange are
    inputs. */
module Connection {
  import opened Errors
  import opened Wire

  type u8 = x: int | 0 <= x < 0x100
  type u16 = x: int | 0 <= x < 0x1_0000

  /** A resolved server address. */
  datatype SocketAddr = SocketAddr(ip: seq<u8>, port: u16)

  const ConnectFailure: string := "Failed to connect to Redis instance"

  class RedisConnection {
    /** The address the stream was opened to. */
    const addr: SocketAddr
    /** Every byte written to the stream so far. */
    var written: seq<byte>
    /** Bytes the server has sent that nobody has read yet. */
    var unread: seq<byte>

    /** A freshly opened stream. */
    constructor Open(addr: SocketAddr)
      ensures this.addr == addr && written == [] && unread == []
    {
      this.addr := addr;
      written := [];
      unread := [];
    }

    /** `RedisConnection::new`: connects to `addr`; `reachable` says whether the
        TCP connect succeeds. Any connect failure becomes the same ConnectionError. */
    static method New(addr: SocketAddr, reachable: bool) returns (r: Outcome<RedisConnection>)
      ensures reachable <==> r.Ok?
      ensures r.Ok? ==> fresh(r.value) && r.value.addr == addr && r.value.written == [] && r.value.unread == []
      ensures !reachable ==> r == Err(ConnectionError(ConnectFailure))
    {
      if reachable {
        var c := new RedisConnection.Open(addr);
        r := Ok(c);
      } else {
        r := Err(ConnectionError(ConnectFailure));
      }
    }

    /** `send_command`: writes the encoded command, reads the first reply byte and,
        for an error reply, reads once into a zeroed 255-byte buffer and trims the
        message out of it. The stream changes exactly as Exchange says. */
    method SendCommand(command: seq<byte>, io: Io) returns (r: Outcome<()>)
      modifies this
      ensures var x := Exchange(command, old(unread), io);
              r == x.outcome && written == old(written) + x.sent && unread == x.unread
    {
      if io.writeError.Some? {
        return Err(CommandError(io.writeError.value));
      }
      written := written + Encode(command);
      unread := unread + io.response;
      if unread == [] {
        return Abort("Failed to read first byte");
      }
      var first := unread[0];
      unread := unread[1..];
      if first != ErrorSigil {
        return Ok(());
      }
      if io.bodyReadFails {
        return Abort("Failed to read error message");
      }
      ghost var rest := unread;
      var buf := new byte[ErrorBufferSize](_ => Nul);
      var n := Min(ErrorBufferSize, |unread|);
      forall i | 0 <= i < n {
        buf[i] := unread[i];
      }
      unread := unread[n..];
      assert buf[..] == FillBuffer(ErrorChunk(rest));
      return Err(CommandError(ErrorMessage(buf[..])));
    }
  }
}
