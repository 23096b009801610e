/** Clients of the pool: command sequences whose results follow from the pool's
    and the connection's contracts alone. */
module Scenarios {
  import opened Errors
  import opened Wire
  import opened Connection
  import opened Pool

  const OkReply: seq<byte> := "+OK\r\n"
  const ErrReply: seq<byte> := "-ERR unknown command\r\n"

  /** No byte of `s` is the error sigil. */
  predicate NoSigil(s: seq<byte>) {
    forall i :: 0 <= i < |s| ==> s[i] != ErrorSigil
  }

  /** A pool to `addr` of `n` connections, every connect attempt succeeding. */
  method FullPool(addr: SocketAddr, n: u32) returns (pool: RedisPool)
    ensures fresh(pool) && pool.Valid() && pool.established && |pool.connections| == n
    ensures forall c <- pool.connections :: fresh(c) && c.unread == []
  {
    pool := new RedisPool.From(addr);
    var _ := pool.MaxConnections(n);
    var _ := pool.EstablishPool(seq(n, _ => true));
  }

  /** A command answered `+OK\r\n` while the back connection holds no pending `-`:
      the back connection serves it and stays at the back. */
  method SendAnsweredOk(pool: RedisPool, command: seq<byte>) returns (r: Outcome<RedisConnection>)
    requires pool.Valid() && pool.connections != []
    requires NoSigil(pool.connections[|pool.connections| - 1].unread)
    modifies pool, set c <- pool.connections
    ensures pool.Valid() && pool.connections == old(pool.connections)
    ensures r == Ok(pool.connections[|pool.connections| - 1])
    ensures NoSigil(pool.connections[|pool.connections| - 1].unread)
    ensures forall c <- pool.connections :: c != r.value ==> unchanged(c)
  {
    ghost var back := pool.connections[|pool.connections| - 1];
    ghost var avail := Available(back.unread, Io(None, OkReply, false));
    assert avail[0] != ErrorSigil && NoSigil(avail);
    r := pool.SendCommand(command, Io(None, OkReply, false), true);
    assert back.unread == avail[1..];
  }

  /** A command answered `-ERR unknown command\r\n` while the back connection holds
      nothing unread: the error is returned and the back connection is dropped. */
  method SendAnsweredErr(pool: RedisPool, command: seq<byte>) returns (r: Outcome<RedisConnection>)
    requires pool.Valid() && pool.connections != []
    requires pool.connections[|pool.connections| - 1].unread == []
    modifies pool, set c <- pool.connections
    ensures pool.Valid() && pool.connections == old(pool.connections)[..|old(pool.connections)| - 1]
    ensures r == Err(CommandError("ERR unknown command"))
    ensures forall c <- pool.connections :: unchanged(c)
  {
    UnknownCommandReply(command);
    r := pool.SendCommand(command, Io(None, ErrReply, false), true);
  }

  /** Three connections, three successful commands: each command is served by the
      connection at the back, which goes back to the back each time. */
  method LifoReuse(addr: SocketAddr, c1: seq<byte>, c2: seq<byte>, c3: seq<byte>)
    returns (pooled: seq<RedisConnection>, r1: Outcome<RedisConnection>,
             r2: Outcome<RedisConnection>, r3: Outcome<RedisConnection>)
    ensures |pooled| == 3
    ensures r1 == Ok(pooled[2]) && r2 == Ok(pooled[2]) && r3 == Ok(pooled[2])
  {
    var pool := FullPool(addr, 3);
    pooled := pool.connections;
    r1 := SendAnsweredOk(pool, c1);
    r2 := SendAnsweredOk(pool, c2);
    r3 := SendAnsweredOk(pool, c3);
  }

  /** A command that fails drops its connection: the next commands are served by
      the connection below it, and the pool shrinks by one. */
  method DropOnFailure(addr: SocketAddr, c1: seq<byte>, c2: seq<byte>, c3: seq<byte>)
    returns (pooled: seq<RedisConnection>, r1: Outcome<RedisConnection>,
             r2: Outcome<RedisConnection>, r3: Outcome<RedisConnection>, after: seq<RedisConnection>)
    ensures |pooled| == 3
    ensures r1 == Err(CommandError("ERR unknown command"))
    ensures r2 == Ok(pooled[1]) && r3 == Ok(pooled[1])
    ensures after == pooled[..2]
  {
    var pool := FullPool(addr, 3);
    pooled := pool.connections;
    assert pooled[1] in pooled && pooled[1].unread == [];
    r1 := SendAnsweredErr(pool, c1);
    assert pooled[1] in pool.connections;
    r2 := SendAnsweredOk(pool, c2);
    r3 := SendAnsweredOk(pool, c3);
    after := pool.connections;
  }

  /** Every connect attempt fails: the pool is still established, empty, and each
      command runs on a connection of its own that is never pooled. */
  method OverflowNeverPooled(addr: SocketAddr) returns (r1: Outcome<RedisConnection>, r2: Outcome<RedisConnection>,
                                                        established: bool, after: seq<RedisConnection>)
    ensures established && after == []
    ensures r1.Ok? && r2.Ok? && r1.value != r2.value
  {
    var pool := new RedisPool.From(addr);
    var _ := pool.MaxConnections(2);
    var _ := pool.EstablishPool([false, false]);
    r1 := pool.SendCommand("PING", Io(None, OkReply, false), true);
    r2 := pool.SendCommand("PING", Io(None, OkReply, false), true);
    established := pool.established;
    after := pool.connections;
  }

  /** Establishing twice: the first call succeeds, the second aborts. */
  method EstablishTwice(addr: SocketAddr) returns (first: Outcome<()>, second: Outcome<()>)
    ensures first == Ok(()) && second.Abort?
  {
    var pool := new RedisPool.From(addr);
    first := pool.EstablishPool(seq(DefaultMaxSize, _ => true));
    second := pool.EstablishPool(seq(DefaultMaxSize, _ => true));
  }
}
