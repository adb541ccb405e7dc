/** Connection handling (dulwich/mysqlconnection.py): the database URL
    parser, the module's global configuration and lazily created connection
    pool, the `dbcursor` and `replenishing_cursor` decorators, and the
    `retry_operation` decorator.

    The pool (`MySQLConnectionPool`) is a bounded queue of idle connections.
    A decorated function is represented by its outcome: the value it returns
    or the error it raises. What the connection does is recorded as a log
    of events (isolation level set, rollback, cursor closed, commit,
    connection released). */
module MysqlConnection {
  import opened Wrappers

  const POOL_NAME: string := "PORTIA"
  const POOL_SIZE: nat := 8
  const DEFAULT_PORT: int := 3306
  const DEFAULT_RETRIES: int := 3

  /** The parts of a URL that `urlparse` hands to `_parse`; None for a part
      the URL does not have. */
  datatype SplitUrl = SplitUrl(
    hostname: Option<string>,
    port: Option<int>,
    path: string,
    username: Option<string>,
    password: Option<string>)

  /** The configuration dict `_parse` builds. */
  datatype DbConfig = DbConfig(host: string, port: int, database: string, user: string, password: string)

  /** Python's `x or ''` for an optional string. */
  function OrEmpty(s: Option<string>): (r: string)
    ensures s.None? ==> r == ""
    ensures s.Some? ==> r == s.value
  {
    if s.Some? then s.value else ""
  }

  /** `s.split('?', 2)[0]`: the text before the first `?`, or all of `s`. */
  function BeforeQuery(s: string): (r: string)
    ensures r <= s
    ensures '?' !in r
    ensures |r| < |s| ==> s[|r|] == '?'
  {
    if s == [] || s[0] == '?' then ""
    else [s[0]] + BeforeQuery(s[1..])
  }

  /** `_parse`: host, user and password default to '', the port to 3306
      (also for port 0, which is falsy), and the database is the path
      without its first character, cut at the first `?`. */
  function Parse(url: SplitUrl): (c: DbConfig)
    ensures c.host == OrEmpty(url.hostname)
    ensures c.user == OrEmpty(url.username) && c.password == OrEmpty(url.password)
    ensures c.port == if url.port.None? || url.port.value == 0 then DEFAULT_PORT else url.port.value
    ensures url.path == [] ==> c.database == ""
    ensures url.path != [] ==> c.database <= url.path[1..] && '?' !in c.database
    ensures url.path != [] && '?' !in url.path[1..] ==> c.database == url.path[1..]
  {
    var path := if url.path == [] then "" else url.path[1..];
    DbConfig(
      OrEmpty(url.hostname),
      if url.port.Some? && url.port.value != 0 then url.port.value else DEFAULT_PORT,
      BeforeQuery(path),
      OrEmpty(url.username),
      OrEmpty(url.password))
  }

  /** The database part is never longer than the path, and a query string
      after it is dropped entirely. */
  lemma {:induction false} BeforeQueryCut(s: string, q: string)
    requires '?' !in s
    ensures BeforeQuery(s + "?" + q) == s
    ensures BeforeQuery(s) == s
    decreases |s|
  {
    if s != [] {
      assert (s + "?" + q)[1..] == s[1..] + "?" + q;
      BeforeQueryCut(s[1..], q);
    } else {
      assert (s + "?" + q)[0] == '?';
    }
  }

  /** A pooled connection: its identity, and whether READ COMMITTED has been
      set on its session. */
  datatype Connection = Connection(id: nat, readCommitted: bool)

  /** What happens to a connection, in order. */
  datatype Event =
    | SetIsolation(cid: nat)
    | Rollback(cid: nat)
    | CloseCursor(cid: nat)
    | Commit(cid: nat)
    | Release(cid: nat)

  /** The idle queue of a newly created pool: `size` new connections. */
  function InitialQueue(size: nat): (q: seq<Connection>)
    ensures |q| == size
    ensures forall i :: 0 <= i < size ==> q[i] == Connection(i, false)
  {
    seq(size, i requires 0 <= i < size => Connection(i, false))
  }

  /** `MySQLConnectionPool`: a named pool of a fixed size over one
      configuration, holding a bounded queue of idle connections. */
  class ConnectionPool {
    const name: string
    const size: nat
    const config: Option<DbConfig>
    var queue: seq<Connection>
    var created: nat

    ghost predicate Valid()
      reads this
    {
      |queue| <= size
    }

    /** A new pool opens `size` connections. */
    constructor (name: string, size: nat, config: Option<DbConfig>)
      ensures Valid() && this.name == name && this.size == size && this.config == config
      ensures queue == InitialQueue(size) && created == size
    {
      this.name := name;
      this.size := size;
      this.config := config;
      queue := InitialQueue(size);
      created := size;
    }

    /** `_cnx_queue.full()`. */
    predicate Full()
      reads this
    {
      |queue| >= size
    }

    /** `get_connection`: the oldest idle connection, or PoolError when none
        is idle. */
    method GetConnection() returns (r: Result<Connection>)
      requires Valid()
      modifies this
      ensures Valid() && created == old(created)
      ensures old(queue) == [] ==> r == Err(PoolError) && queue == old(queue)
      ensures old(queue) != [] ==> r == Ok(old(queue)[0]) && queue == old(queue)[1..]
    {
      if queue == [] {
        return Err(PoolError);
      }
      r := Ok(queue[0]);
      queue := queue[1..];
    }

    /** `add_connection()` with no argument: open a new connection into the
        queue, or PoolError when the queue is full. */
    method AddConnection() returns (r: Result<()>)
      requires Valid()
      modifies this
      ensures Valid()
      ensures old(Full()) ==> r == Err(PoolError) && queue == old(queue) && created == old(created)
      ensures !old(Full()) ==> r == Ok(()) && queue == old(queue) + [Connection(old(created), false)] && created == old(created) + 1
    {
      if Full() {
        return Err(PoolError);
      }
      queue := queue + [Connection(created, false)];
      created := created + 1;
      r := Ok(());
    }

    /** Closing a pooled connection hands it back (`add_connection(cnx)`):
        PoolError when the queue is full. */
    method ReturnConnection(c: Connection) returns (r: Result<()>)
      requires Valid()
      modifies this
      ensures Valid() && created == old(created)
      ensures old(Full()) ==> r == Err(PoolError) && queue == old(queue)
      ensures !old(Full()) ==> r == Ok(()) && queue == old(queue) + [c]
    {
      if Full() {
        return Err(PoolError);
      }
      queue := queue + [c];
      r := Ok(());
    }
  }

  /** The events `dbcursor` causes on connection `cid` around a call that
      succeeded or raised. */
  function CursorEvents(cid: nat, raised: bool): (es: seq<Event>)
    ensures |es| >= 3
    ensures es[|es| - 3..] == [CloseCursor(cid), Commit(cid), Release(cid)]
    ensures raised ==> |es| == 4 && es[0] == Rollback(cid)
    ensures !raised ==> |es| == 3
  {
    (if raised then [Rollback(cid)] else []) + [CloseCursor(cid), Commit(cid), Release(cid)]
  }

  function Min(a: int, b: int): int {
    if a <= b then a else b
  }

  /** The module's globals: `DB_CONFIG` (None for the empty dict),
      `connection_pool` (null until first use) and the connection event
      log. */
  class ConnectionModule {
    var dbConfig: Option<DbConfig>
    var pool: ConnectionPool?
    var log: seq<Event>

    ghost predicate Valid()
      reads this, pool
    {
      pool != null ==> pool.Valid() && pool.size == POOL_SIZE && pool.name == POOL_NAME
    }

    /** The idle connections: those of the pool, or those a pool created now
        would hold. */
    ghost function Idle(): seq<Connection>
      reads this, pool
    {
      if pool == null then InitialQueue(POOL_SIZE) else pool.queue
    }

    /** At import: the configuration from the environment, if any, and no
        pool yet. */
    constructor (initial: Option<DbConfig>)
      ensures Valid() && dbConfig == initial && pool == null && log == []
    {
      dbConfig := initial;
      pool := null;
      log := [];
    }

    /** `set_db_url`: replace the configuration with the parsed URL. An
        existing pool keeps the configuration it was created with. */
    method SetDbUrl(url: SplitUrl)
      modifies this
      ensures dbConfig == Some(Parse(url))
      ensures pool == old(pool) && log == old(log)
    {
      dbConfig := Some(Parse(url));
    }

    /** `get_connection`: create the pool on first use (named `PORTIA`, of
        `POOL_SIZE` connections, over the current configuration), take an
        idle connection and set READ COMMITTED on it. */
    method GetConnection() returns (r: Result<Connection>)
      requires Valid()
      modifies this, pool
      ensures Valid() && pool != null && dbConfig == old(dbConfig)
      ensures old(pool) != null ==> pool == old(pool)
      ensures old(pool) == null ==> fresh(pool) && pool.config == dbConfig
      ensures old(Idle()) == [] ==> r == Err(PoolError) && Idle() == old(Idle()) && log == old(log)
      ensures old(Idle()) != [] ==>
        r == Ok(old(Idle())[0].(readCommitted := true)) && Idle() == old(Idle())[1..] &&
        log == old(log) + [SetIsolation(old(Idle())[0].id)]
    {
      if pool == null {
        pool := new ConnectionPool(POOL_NAME, POOL_SIZE, dbConfig);
      }
      r := pool.GetConnection();
      if r.Err? {
        return;
      }
      var c := r.value;
      log := log + [SetIsolation(c.id)];
      r := Ok(c.(readCommitted := true));
    }

    /** `dbcursor(func)`: get a connection (a PoolError here is raised before
        `func` runs), run `func`, roll back if it raised, then close the
        cursor, commit and hand the connection back, dropping it if the
        queue is full; the result is `func`'s. `called` says whether `func`
        ran. */
    method DbCursor<T>(outcome: Result<T>) returns (r: Result<T>, called: bool)
      requires Valid()
      modifies this, pool
      ensures Valid() && pool != null && dbConfig == old(dbConfig)
      ensures old(pool) != null ==> pool == old(pool)
      ensures old(pool) == null ==> fresh(pool)
      ensures called <==> old(Idle()) != []
      ensures !called ==> r == Err(PoolError) && Idle() == old(Idle()) && log == old(log)
      ensures called ==> var c := old(Idle())[0];
        r == outcome && log == old(log) + [SetIsolation(c.id)] + CursorEvents(c.id, outcome.Err?) &&
        Idle() == old(Idle())[1..] + [c.(readCommitted := true)]
      ensures |Idle()| == |old(Idle())|
    {
      var got := GetConnection();
      if got.Err? {
        return Err(PoolError), false;
      }
      var c := got.value;
      called := true;
      r := outcome;
      log := log + CursorEvents(c.id, outcome.Err?);
      // a PoolError from handing the connection back is swallowed
      var _ := pool.ReturnConnection(c);
    }

    /** The refill loop of `replenishing_cursor`: up to `POOL_SIZE` times,
        stop if the queue is full, otherwise open one more connection. */
    method Replenish() returns (added: nat)
      requires Valid() && pool != null
      modifies pool
      ensures Valid()
      ensures added <= POOL_SIZE
      ensures |pool.queue| == Min(|old(pool.queue)| + POOL_SIZE, pool.size)
      ensures pool.queue[..|old(pool.queue)|] == old(pool.queue)
      ensures |pool.queue| == |old(pool.queue)| + added
    {
      added := 0;
      var i := 0;
      while i < POOL_SIZE
        invariant 0 <= i <= POOL_SIZE && added == i
        invariant pool.Valid()
        invariant |pool.queue| == |old(pool.queue)| + added
        invariant pool.queue[..|old(pool.queue)|] == old(pool.queue)
      {
        if pool.Full() {
          break;
        }
        var _ := pool.AddConnection();
        added := added + 1;
        i := i + 1;
      }
    }

    /** `replenishing_cursor(func)`: run `dbcursor(func)`; if it raised
        PoolError (an exhausted pool, or `func` itself), refill the pool and
        run `dbcursor(func)` once more, whose result stands. `first` and
        `second` are the outcomes of `func` on the two runs. */
    method ReplenishingCursor<T>(first: Result<T>, second: Result<T>) returns (r: Result<T>, runs: nat)
      requires Valid()
      modifies this, pool
      ensures Valid() && pool != null
      ensures 1 <= runs <= 2
      ensures old(Idle()) != [] && first != Err(PoolError) ==> r == first && runs == 1
      ensures runs == 2 <==> old(Idle()) == [] || first == Err(PoolError)
      ensures runs == 2 ==> r == second && |Idle()| == POOL_SIZE
    {
      var called;
      r, called := DbCursor(first);
      runs := 1;
      if r != Err(PoolError) {
        return;
      }
      var _ := Replenish();
      r, called := DbCursor(second);
      runs := 2;
    }
  }

  /** The default for `catches`: any DatabaseError. */
  predicate CatchesDatabaseError(e: Error) {
    e.DatabaseError?
  }

  /** `retry_operation(retries, catches)(func)`: call `func` up to `retries`
      times; return the first result that is not a caught error (a success,
      or an error `catches` does not cover, which propagates at once);
      after `retries` caught errors raise the last one. With `retries <= 0`
      there is no call and `raise None` fails with TypeError. `attempt(k)`
      is the outcome of the k-th call; `calls` counts the calls made. */
  method RetryOperation<T>(retries: int, catches: Error -> bool, attempt: nat -> Result<T>) returns (r: Result<T>, calls: nat)
    ensures retries <= 0 ==> r == Err(TypeError) && calls == 0
    ensures retries > 0 ==> 1 <= calls <= retries
    ensures forall k :: 0 <= k < calls - 1 ==> attempt(k).Err? && catches(attempt(k).error)
    ensures r.Ok? ==> calls >= 1 && r == attempt(calls - 1)
    ensures retries > 0 && calls < retries ==> r == attempt(calls - 1) && !(r.Err? && catches(r.error))
    ensures retries > 0 && calls == retries ==> r == attempt(retries - 1)
  {
    var err: Option<Error> := None;
    calls := 0;
    var k := 0;
    while k < retries
      invariant 0 <= k && (retries > 0 ==> k <= retries) && (retries <= 0 ==> k == 0) && calls == k
      invariant forall j :: 0 <= j < k ==> attempt(j).Err? && catches(attempt(j).error)
      invariant k > 0 ==> err == Some(attempt(k - 1).error)
      invariant k == 0 ==> err == None
    {
      var outcome := attempt(k);
      calls := calls + 1;
      if outcome.Ok? || !catches(outcome.error) {
        return outcome, calls;
      }
      err := Some(outcome.error);
      k := k + 1;
    }
    if err.None? {
      // `raise None`
      return Err(TypeError), calls;
    }
    r := Err(err.value);
  }
}
