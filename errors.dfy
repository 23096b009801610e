/** The client's error taxonomy (src/redis_error.rs) and the outcome shape shared by
    the connection and the pool: a returned value, a returned error, or an abort
    (the source panics through `panic!`, `expect` or `unwrap`). */
module Errors {

  datatype Option<+T> = None | Some(value: T)

  /** The three kinds of failure; the message text is the only diagnostic payload. */
  datatype RedisError =
    | SetupError(message: string)
    | CommandError(message: string)
    | ConnectionError(message: string)

  /** What a call produces: `Ok`/`Err` are the Rust `Result`, `Abort` a panic. */
  datatype Outcome<+T> =
    | Ok(value: T)
    | Err(error: RedisError)
    | Abort(reason: string)

  /** The `?` operator: a failed outcome passed on with another value type. */
  function Propagate<T, U>(o: Outcome<T>): Outcome<U>
    requires !o.Ok?
  {
    match o
    case Err(e) => Err(e)
    case Abort(reason) => Abort(reason)
  }

  const SetupPrefix: string := "SetupError: "
  const CommandPrefix: string := "CommandError: "
  const ConnectionPrefix: string := "ConnectionError: "

  /** The `Display` rendering: the variant's name, a colon, a space, then the message.
      The text ends with the message verbatim and its prefix tells the variant. */
  function Display(e: RedisError): (r: string)
    ensures |r| > |e.message| && r[|r| - |e.message|..] == e.message
    ensures e.SetupError? <==> SetupPrefix <= r
    ensures e.CommandError? <==> CommandPrefix <= r
    ensures e.ConnectionError? <==> ConnectionPrefix <= r
  {
    match e
    case SetupError(m) =>
      var r := SetupPrefix + m;
      assert r[0] == 'S' && r[1] == 'e';
      r
    case CommandError(m) =>
      var r := CommandPrefix + m;
      assert r[0] == 'C' && r[3] == 'm';
      r
    case ConnectionError(m) =>
      var r := ConnectionPrefix + m;
      assert r[0] == 'C' && r[3] == 'n';
      r
  }

  /** Reads a rendered error back: the inverse of Display. */
  function Parse(s: string): (r: Option<RedisError>)
    ensures r.Some? ==> Display(r.value) == s
  {
    if SetupPrefix <= s then Some(SetupError(s[|SetupPrefix|..]))
    else if CommandPrefix <= s then Some(CommandError(s[|CommandPrefix|..]))
    else if ConnectionPrefix <= s then Some(ConnectionError(s[|ConnectionPrefix|..]))
    else None
  }

  /** Display loses nothing: the rendering determines the error. */
  lemma ParseDisplay(e: RedisError)
    ensures Parse(Display(e)) == Some(e)
  {
  }

  /** Two errors that render alike are the same error. */
  lemma DisplayInjective(e1: RedisError, e2: RedisError)
    requires Display(e1) == Display(e2)
    ensures e1 == e2
  {
  }
}
