/** The connection pool (src/lib.rs): a one-shot `established` latch, a target
    size, and the idle connections kept as a stack whose back is reused first. A
    connection whose command fails is dropped; a connection made because the pool
    was empty is never pooled. */
module Pool {
  import opened Errors
  import opened Wire
  import opened Connection

  type u32 = x: int | 0 <= x < 0x1_0000_0000

  const DefaultMaxSize: u32 := 10
  const ParseFailure: string := "Failed to parse connection string"
  const AlreadyEstablished: string := "Redis connection pool already established, cannot establish again"
  const UnwrapFailure: string := "called `Result::unwrap()` on an `Err` value"

  /** The number of successful connect attempts. */
  function Successes(attempts: seq<bool>): (n: nat)
    ensures n <= |attempts|
    ensures n == |attempts| <==> forall i :: 0 <= i < |attempts| ==> attempts[i]
    ensures n == 0 <==> forall i :: 0 <= i < |attempts| ==> !attempts[i]
  {
    if attempts == [] then 0
    else Successes(attempts[..|attempts| - 1]) + (if attempts[|attempts| - 1] then 1 else 0)
  }

  class RedisPool {
    var maxSize: u32
    var addr: SocketAddr
    var established: bool
    /** Idle connections; the back is the most recently returned one. */
    var connections: seq<RedisConnection>

    /** No connection is pooled twice, every pooled connection goes to the pool's
        address, and nothing is pooled before the pool is established. */
    ghost predicate Valid()
      reads this
    {
      && (forall i, j :: 0 <= i < j < |connections| ==> connections[i] != connections[j])
      && (forall c <- connections :: c.addr == addr)
      && (!established ==> connections == [])
    }

    /** `From<SocketAddr>`: an empty, unestablished pool of default size. */
    constructor From(addr: SocketAddr)
      ensures Valid()
      ensures this.addr == addr && maxSize == DefaultMaxSize && !established && connections == []
    {
      this.addr := addr;
      maxSize := DefaultMaxSize;
      established := false;
      connections := [];
    }

    /** `from_str`: `resolve` stands for address resolution (None when it fails).
        The first resolved address is bound; an empty resolution aborts on the
        index `[0]`. */
    static method FromStr(connectionStr: string, resolve: string -> Option<seq<SocketAddr>>)
      returns (r: Outcome<RedisPool>)
      ensures resolve(connectionStr).None? ==> r == Err(SetupError(ParseFailure))
      ensures resolve(connectionStr) == Some([]) ==> r.Abort?
      ensures resolve(connectionStr).Some? && resolve(connectionStr).value != [] ==>
        && r.Ok? && fresh(r.value) && r.value.Valid()
        && r.value.addr == resolve(connectionStr).value[0]
        && r.value.maxSize == DefaultMaxSize && !r.value.established && r.value.connections == []
    {
      var resolved := resolve(connectionStr);
      if resolved.None? {
        return Err(SetupError(ParseFailure));
      }
      if resolved.value == [] {
        return Abort("index out of bounds: the len is 0 but the index is 0");
      }
      var pool := new RedisPool.From(resolved.value[0]);
      r := Ok(pool);
    }

    /** `max_connections`: sets the target size and nothing else; returns the pool
        itself for chaining. */
    method MaxConnections(size: u32) returns (self: RedisPool)
      requires Valid()
      modifies this
      ensures Valid() && self == this
      ensures maxSize == size
      ensures addr == old(addr) && established == old(established) && connections == old(connections)
    {
      maxSize := size;
      self := this;
    }

    /** `establish_pool`: `reachable[i]` says whether the i-th of the `maxSize`
        connect attempts succeeds. Each success appends a fresh connection; failures
        are skipped; the pool ends established and the call returns `Ok` even if
        every attempt failed. A second call aborts and changes nothing. */
    method EstablishPool(reachable: seq<bool>) returns (r: Outcome<()>)
      requires Valid()
      requires |reachable| == maxSize
      modifies this
      ensures Valid()
      ensures maxSize == old(maxSize) && addr == old(addr) && established
      ensures old(established) ==> r == Abort(AlreadyEstablished) && connections == old(connections)
      ensures !old(established) ==>
        && r == Ok(())
        && |connections| == Successes(reachable) <= maxSize
        && forall c <- connections :: fresh(c) && c.written == [] && c.unread == []
    {
      if established {
        return Abort(AlreadyEstablished);
      }
      var i: nat := 0;
      while i < maxSize
        invariant i <= maxSize == old(maxSize) && addr == old(addr) && !established
        invariant |connections| == Successes(reachable[..i])
        invariant forall c <- connections :: fresh(c) && c.addr == addr && c.written == [] && c.unread == []
        invariant forall j, k :: 0 <= j < k < |connections| ==> connections[j] != connections[k]
      {
        var made := RedisConnection.New(addr, reachable[i]);
        if made.Ok? {
          connections := connections + [made.value];
        }
        assert reachable[..i + 1][..i] == reachable[..i];
        i := i + 1;
      }
      assert reachable[..i] == reachable;
      established := true;
      r := Ok(());
    }

    /** `send_command`. With idle connections, the back one is popped and used; on
        success it is pushed back and returned, on failure it is dropped and the
        error returned. With none, a new connection is made (`reachable` says
        whether that connect succeeds; a failure aborts on `unwrap`), used once and
        returned without being pooled. No other pooled connection is touched. */
    method SendCommand(command: seq<byte>, io: Io, reachable: bool) returns (r: Outcome<RedisConnection>)
      requires Valid()
      modifies this, set c <- connections
      ensures Valid()
      ensures maxSize == old(maxSize) && addr == old(addr) && established == old(established)
      ensures forall c <- old(connections) :: c != old(connections)[|old(connections)| - 1] ==> unchanged(c)
      ensures old(connections) != [] ==>
        var last := old(connections)[|old(connections)| - 1];
        var x := Exchange(command, old(last.unread), io);
        last.written == old(last.written) + x.sent && last.unread == x.unread
      ensures old(connections) != [] ==>
        var last := old(connections)[|old(connections)| - 1];
        var x := Exchange(command, old(last.unread), io);
        if x.outcome.Ok? then r == Ok(last) && connections == old(connections)
        else connections == old(connections)[..|old(connections)| - 1] && r == Propagate(x.outcome)
      ensures old(connections) == [] ==> connections == []
      ensures old(connections) == [] && !reachable ==> r == Abort(UnwrapFailure)
      ensures old(connections) == [] && reachable ==>
        var x := Exchange(command, [], io);
        if x.outcome.Ok? then
          r.Ok? && fresh(r.value) && r.value.addr == addr && r.value.written == x.sent && r.value.unread == x.unread
        else r == Propagate(x.outcome)
    {
      if connections != [] {
        var last := connections[|connections| - 1];
        connections := connections[..|connections| - 1];
        var sent := last.SendCommand(command, io);
        if sent.Ok? {
          connections := connections + [last];
          r := Ok(last);
        } else {
          r := Propagate(sent);
        }
      } else {
        var made := RedisConnection.New(addr, reachable);
        if made.Err? {
          return Abort(UnwrapFailure);
        }
        var c := made.value;
        var sent := c.SendCommand(command, io);
        r := if sent.Ok? then Ok(c) else Propagate(sent);
      }
    }
  }
}
