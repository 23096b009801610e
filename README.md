# redi-rs: connection pool and wire framing, modelled in Dafny

redi-rs is a small asynchronous Redis client. This project models its logic, which
has three parts:

- **The pool** (`RedisPool`, src/lib.rs). It has a one-shot `established` latch and
  a target size `max_size` (default 10). Its idle connections form a stack.
  `send_command` pops the back connection. On success it pushes that connection back
  and returns it. On failure the connection is dropped. When the pool is empty,
  `send_command` makes a new connection, uses it once and never pools it.
- **The connection** (`RedisConnection`, src/redis_connection.rs). It writes the
  command followed by CRLF, which is the inline-command form of the Redis
  Serialization Protocol (RESP). It then reads one reply byte. A `-` marks a RESP
  "Simple errors" reply. For such a reply the connection reads once into a zeroed
  255-byte buffer and trims the message out of it: first trailing NULs, then
  trailing CRLF pairs, then trailing whitespace. Any other first byte is a success,
  and the rest of the reply stays on the stream for the caller.
- **The errors** (`RedisError`, src/redis_error.rs). There are three kinds, each
  with one message, plus their `Display` text.

Files:

- `errors.dfy`: the error kinds, their rendering, and `Outcome`. `Outcome` is
  `Ok`/`Err` for the Rust `Result`, plus `Abort` for a panic (`panic!`, `expect`,
  `unwrap`, an out-of-range index).
- `wire.dfy`: the encoding and the trimming as functions, and `Exchange`, the
  meaning of one `send_command` over an abstract stream.
- `connection.dfy`: the `RedisConnection` class. Its stream is modelled by the bytes
  written and the bytes not yet read. `SendCommand` is proved to change them exactly
  as `Exchange` says.
- `pool.dfy`: the `RedisPool` class. Connections are Dafny objects, so the shared
  `Rc<RefCell<..>>` handle becomes a reference to the same object.
- `scenarios.dfy`: command sequences whose results follow from the contracts alone.
  They cover LIFO reuse, dropping a failed connection, overflow connections never
  being pooled, and establishing twice.

The environment is a set of inputs:

- a `reachable` flag for each connect attempt;
- an `Io` value for each exchange: the text of a failed write, the bytes the server
  sends back, and whether the read of the error body fails;
- a `resolve` function for address resolution.

Bytes are characters below 256. The decoding is therefore the identity, which is
exact for ASCII.

Three behaviours of the code that a reader might expect otherwise:

- A connection whose command fails is not put back into the pool (src/lib.rs:77
  returns before line 79). It is not kept.
- A failure to read the first reply byte aborts (`expect`). It is not returned as a
  `CommandError`.
- Trimming removes every trailing CRLF pair, and first every trailing NUL. It does
  not remove just one CRLF.

## Model

| member | source | states |
|---|---|---|
| Errors.Display | src/redis_error.rs:8-16 | The rendering ends with the message verbatim. It starts with `SetupError: `, `CommandError: ` or `ConnectionError: ` exactly when the error is of that kind. |
| Errors.Parse | src/redis_error.rs:10-14 | Whatever it reads back renders to the text it was given. |
| Errors.ParseDisplay | src/redis_error.rs:10-14 | Reading a rendering back gives the original error, so the text determines kind and message. |
| Errors.DisplayInjective | src/redis_error.rs:2-14 | Two errors with the same rendering are equal. |
| Wire.Encode | src/redis_connection.rs:72-74 | The bytes written are the command's bytes followed by CR LF, two bytes longer. |
| Wire.Decode | src/redis_connection.rs:72 | A frame is recognised exactly when it ends in CRLF. The command read back re-encodes to that frame. |
| Wire.EncodeDecode | src/redis_connection.rs:72 | Removing the last two bytes of an encoding gives back the command. |
| Wire.TrimNul | src/redis_connection.rs:95 | The result is a prefix that does not end in NUL, and every byte removed is NUL. |
| Wire.TrimCrlf | src/redis_connection.rs:96 | The result is a prefix that does not end in CRLF. An even number of bytes is removed, and they alternate CR, LF. |
| Wire.TrimWhitespace | src/redis_connection.rs:97 | The result is a prefix that does not end in whitespace, and every byte removed is whitespace. |
| Wire.ErrorMessage | src/redis_connection.rs:93-98 | The message is a prefix of the buffer. It never ends in whitespace, and every byte cut off is NUL or whitespace. |
| Wire.ErrorMessageExact | src/redis_connection.rs:93-98 | The message is exactly the buffer with its trailing NULs and then its trailing whitespace removed. |
| Wire.FillBuffer | src/redis_connection.rs:86-91 | The buffer is 255 bytes: the bytes read, then zeros. |
| Wire.TrimNulPadding | src/redis_connection.rs:86-95 | The zero padding of the buffer never reaches the message. |
| Wire.TrimCrlfSubsumed | src/redis_connection.rs:96-97 | The CRLF step never changes the final message, because trailing whitespace removal drops those bytes too. |
| Wire.ErrorMessageOfLine | src/redis_connection.rs:86-98 | A line `m` + CRLF that fits the buffer gives exactly `m`, when `m` has no trailing whitespace. |
| Wire.TruncationBoundary | src/redis_connection.rs:86-98 | A body of 255 bytes or more is cut at exactly 255 bytes, when its 255th byte is neither NUL nor whitespace. |
| Wire.ErrorChunk | src/redis_connection.rs:88-91 | The single read takes the first min(255, available) bytes after the `-`. |
| Wire.Exchange | src/redis_connection.rs:71-104 | A failed write returns `CommandError` with the I/O text and reads nothing. Otherwise the encoding is written. The result is `Ok` exactly when a first byte exists and is not `-`, and then exactly one byte is consumed. The call aborts exactly when there is no first byte, or the error body read fails. An error reply is always a `CommandError`, consumes at most 256 bytes, and its message comes from those bytes. |
| Wire.ErrorLineReply | src/redis_connection.rs:85-100 | The reply `-m\r\n` gives `CommandError(m)` and is consumed entirely. |
| Wire.UnknownCommandReply | src/redis_connection.rs:85-100 | The reply `-ERR unknown command\r\n` gives `CommandError("ERR unknown command")`. |
| Wire.PongReply | src/redis_connection.rs:78-102 | Sending `PING` against the reply `+PONG\r\n` succeeds, writes `PING\r\n` and leaves `PONG\r\n` unread. |
| Wire.ResidualMasksError | src/redis_connection.rs:78-102 | A success reply left unread is sniffed by the next command on that connection. An error reply to the next command is then reported as success. |
| Connection.RedisConnection.Open | src/redis_connection.rs:40 | A new connection has written nothing and has nothing unread. |
| Connection.RedisConnection.New | src/redis_connection.rs:36-43 | The result is `Ok` with a fresh connection exactly when the connect succeeds. Otherwise it is `ConnectionError("Failed to connect to Redis instance")`. |
| Connection.RedisConnection.SendCommand | src/redis_connection.rs:71-104 | The outcome, the bytes written and the bytes left unread are exactly those of `Exchange`. This is proved through the 255-byte zeroed array the body is read into. |
| Pool.Successes | src/lib.rs:54-63 | The number of successful attempts is at most the number of attempts. It equals the number of attempts exactly when all succeed, and is zero exactly when all fail. |
| Pool.RedisPool.From | src/lib.rs:117-126 | The pool binds the given address, has `max_size` 10, is not established, and has no connections. |
| Pool.RedisPool.FromStr | src/lib.rs:97-114 | Failed resolution gives `SetupError("Failed to parse connection string")`. An empty resolution aborts. Otherwise the result is a new pool bound to the first address, with the defaults of `From`. |
| Pool.RedisPool.MaxConnections | src/lib.rs:43-47 | `max_size` becomes `size`. Address, latch and connections are unchanged, and the pool itself is returned. |
| Pool.RedisPool.EstablishPool | src/lib.rs:49-67 | A second call aborts and changes nothing. A first call returns `Ok` and sets the latch, even if every attempt failed. It leaves exactly as many fresh, unused connections as attempts succeeded, out of `max_size` attempts. |
| Pool.RedisPool.SendCommand | src/lib.rs:69-91 | With idle connections, the back one runs the exchange. On success the list is unchanged and that connection is returned. On failure the error is returned and the list loses its back. With none, a fresh connection serves the command and is not pooled, and a failed connect aborts. No other connection is touched, and the pool's invariant is kept. |
| Scenarios.LifoReuse | src/lib.rs:73-81 | Three successful commands on a pool of three are all served by the back connection. |
| Scenarios.DropOnFailure | src/lib.rs:73-81 | After an error reply the back connection is gone. The next commands are served by the connection below it. |
| Scenarios.OverflowNeverPooled | src/lib.rs:83-88 | When every connect attempt fails, the pool is established and empty. Two commands run on two different unpooled connections. |
| Scenarios.EstablishTwice | src/lib.rs:49-52 | Establishing succeeds once and aborts the second time. |

## Left out

- TCP, tokio and `async`. Connect, `write_all` and `read` are replaced by the inputs
  described above. Cancellation and timeouts do not exist in the source.
- Wire.Exchange: a failed `write_all` is modelled as writing nothing. A real stream
  may have written part of the frame before failing.
- Wire.ErrorChunk: the single `read` is modelled as taking every available byte, up
  to 255. A real `read` may return fewer bytes than the server has sent.
- `String::from_utf8_lossy` and Unicode whitespace are not modelled. Bytes are
  decoded one to one, which matches the source on ASCII. Invalid UTF-8 replacement
  and non-ASCII whitespace for `trim_end` are left out. Commands are taken as their
  bytes (`as_bytes`).
- An `Io` value's `response` is everything the server sends before it closes the
  stream. A server that sends nothing while keeping the stream open makes the
  source's reads wait forever; that hang is not modelled.
- Address resolution (`to_socket_addrs`) is the `resolve` parameter. The connection
  string itself is not parsed.
- The `RefCell` borrow state is not modelled. A caller that still holds a borrow of
  a returned connection makes the next `send_command` on that connection panic in
  the source. The model does not track borrows.
- Pool.RedisPool.EstablishPool: it states how many fresh connections are appended.
  It does not state which attempt produced which connection, because connections
  carry no identity besides their object.
- The `Abort` reasons approximate the Rust panic texts. Only the fact of aborting is
  stated.
- Logging (`println!`, `eprintln!`) is not modelled.
- The usage programs basic.rs and read_from_stream.rs are not modelled. They are usage demonstrations
  with no logic of their own.
- Concurrency is not modelled. The pool is used through `&mut self`, one call at a
  time.
