/**
 * The discovery registry: a map from server address to the time it last
 * sent a heartbeat. Time is passed in as `now` (nanoseconds, as Go's
 * `time.Duration` counts), which makes every operation a pure map
 * transformation.
 */
module Registry {
  import opened Wrappers
  import opened Strings

  const Minute: int := 60 * 1000 * 1000 * 1000
  const DefaultTimeout: int := 5 * Minute

  /** Response header carrying the alive list on GET. */
  const ServersHeader: string := "X-HakusaiRpc-Servers"
  /** Request header carrying the address on POST. */
  const ServerHeader: string := "X-HakusaiRpc-Server"

  const StatusOK: int := 200
  const StatusMethodNotAllowed: int := 405
  const StatusInternalServerError: int := 500

  /** One registered server: its address and the time of its last heartbeat. */
  datatype ServerItem = ServerItem(addr: string, start: int)

  /** The registry: the expiry timeout (0 disables expiry) and the address map. */
  datatype GeeRegistry = GeeRegistry(timeout: int, servers: map<string, ServerItem>)

  /** Every entry is filed under its own address. */
  predicate Valid(r: GeeRegistry)
  {
    forall a :: a in r.servers ==> r.servers[a].addr == a
  }

  /** `New`: an empty registry with the given timeout. */
  function New(timeout: int): (r: GeeRegistry)
    ensures Valid(r) && r.timeout == timeout && |r.servers| == 0
  {
    GeeRegistry(timeout, map[])
  }

  const DefaultGeeRegister: GeeRegistry := New(DefaultTimeout)

  /**
   * `putServer`: a new address is added with `start = now`; a known address
   * only has its `start` refreshed.
   */
  function PutServer(r: GeeRegistry, addr: string, now: int): (r': GeeRegistry)
    ensures r'.timeout == r.timeout
    ensures r'.servers.Keys == r.servers.Keys + {addr}
    ensures r'.servers[addr].start == now
    ensures addr !in r.servers ==> r'.servers[addr].addr == addr
    ensures addr in r.servers ==> r'.servers[addr].addr == r.servers[addr].addr
    ensures forall a :: a in r.servers && a != addr ==> r'.servers[a] == r.servers[a]
    ensures Valid(r) ==> Valid(r')
  {
    if addr !in r.servers then
      r.(servers := r.servers[addr := ServerItem(addr, now)])
    else
      r.(servers := r.servers[addr := r.servers[addr].(start := now)])
  }

  /** An entry is alive at `now` when expiry is off or its heartbeat is recent enough. */
  predicate IsAlive(timeout: int, item: ServerItem, now: int)
  {
    timeout == 0 || item.start + timeout > now
  }

  /** The entries alive at `now`. */
  function Survivors(r: GeeRegistry, now: int): map<string, ServerItem>
  {
    map a | a in r.servers && IsAlive(r.timeout, r.servers[a], now) :: r.servers[a]
  }

  /** What `aliveServers` returns and what it leaves behind. */
  datatype AliveResult = AliveResult(alive: seq<string>, after: GeeRegistry)

  /**
   * `aliveServers`: evict every expired entry and list the remaining
   * addresses in ascending order.
   */
  function AliveServers(r: GeeRegistry, now: int): (res: AliveResult)
    ensures Sorted(res.alive) && Distinct(res.alive)
    ensures forall a :: a in res.alive <==> a in res.after.servers
    ensures |res.alive| == |res.after.servers|
    ensures res.after.timeout == r.timeout
    ensures forall a :: a in r.servers ==> (a in res.after.servers <==> IsAlive(r.timeout, r.servers[a], now))
    ensures forall a :: a in res.after.servers ==> a in r.servers && res.after.servers[a] == r.servers[a]
    ensures r.timeout == 0 ==> res.after == r && |res.alive| == |r.servers|
    ensures Valid(r) ==> Valid(res.after)
  {
    var kept := Survivors(r, now);
    var after := r.(servers := kept);
    assert r.timeout == 0 ==> kept == r.servers;
    AliveResult(SortSet(kept.Keys), after)
  }

  /** Asking twice at the same instant changes nothing the second time. */
  lemma AliveServersIdempotent(r: GeeRegistry, now: int)
    ensures var first := AliveServers(r, now);
      AliveServers(first.after, now) == first
  {
    var first := AliveServers(r, now);
    assert Survivors(first.after, now) == first.after.servers;
  }

  /** An entry alive at `now` was alive at every earlier instant: eviction is monotone in time. */
  lemma EvictionMonotone(r: GeeRegistry, earlier: int, later: int)
    requires earlier <= later
    ensures forall a :: a in AliveServers(r, later).alive ==> a in AliveServers(r, earlier).alive
  {
  }

  /**
   * The `range`-with-`delete` loop of `aliveServers`, visiting the entries in
   * whatever order the map yields them, followed by `sort.Strings`; it agrees
   * with `AliveServers` whatever the visiting order.
   */
  method AliveServersLoop(r: GeeRegistry, now: int) returns (alive: seq<string>, after: GeeRegistry)
    ensures AliveResult(alive, after) == AliveServers(r, now)
  {
    var servers := r.servers;
    var found: seq<string> := [];
    var toVisit := r.servers.Keys;
    while toVisit != {}
      invariant toVisit <= r.servers.Keys
      invariant forall a :: a in servers ==> a in r.servers && servers[a] == r.servers[a]
      invariant forall a :: a in toVisit ==> a in servers
      invariant forall a :: a in r.servers && a !in toVisit ==>
        (a in servers <==> IsAlive(r.timeout, r.servers[a], now))
      invariant forall a :: a in found <==> (a in servers && a !in toVisit)
      invariant Distinct(found)
      decreases toVisit
    {
      var addr :| addr in toVisit;
      if r.timeout == 0 || servers[addr].start + r.timeout > now {
        found := found + [addr];
      } else {
        servers := servers - {addr};
      }
      toVisit := toVisit - {addr};
    }
    alive := SortStrings(found);
    after := r.(servers := servers);
    SweepComplete(r, now, servers, found);
  }

  /**
   * What the loop of `AliveServersLoop` holds once every entry is visited
   * gives the result of `AliveServers`, whatever order `found` is in.
   */
  lemma SweepComplete(r: GeeRegistry, now: int, servers: map<string, ServerItem>, found: seq<string>)
    requires forall a :: a in servers ==> a in r.servers && servers[a] == r.servers[a]
    requires forall a :: a in r.servers ==> (a in servers <==> IsAlive(r.timeout, r.servers[a], now))
    requires forall a :: a in found <==> a in servers
    requires Distinct(found)
    ensures AliveResult(SortStrings(found), r.(servers := servers)) == AliveServers(r, now)
  {
    var alive := SortStrings(found);
    assert servers == Survivors(r, now);
    forall a
      ensures a in alive <==> a in found
    {
      assert a in alive <==> a in multiset(alive);
      assert a in found <==> a in multiset(found);
    }
    DistinctOfMultiset(found, alive);
    StrictlySortedUnique(alive, AliveServers(r, now).alive);
  }

  // ---------------------------------------------------------------------
  // The HTTP surface
  // ---------------------------------------------------------------------

  /** The parts of a request the handler reads: its method and its `ServerHeader` value ("" when absent). */
  datatype Request = Request(verb: string, serverHeader: string)

  /** The parts of a response the handler writes: the status and its `ServersHeader` value, if set. */
  datatype Response = Response(status: int, serversHeader: Option<string>)

  datatype Handled = Handled(resp: Response, after: GeeRegistry)

  /**
   * `ServeHTTP`: GET lists the alive servers, comma-joined, in a response
   * header; POST registers the address in the request header, or answers
   * 500 when it is empty; every other method is answered 405.
   */
  function ServeHTTP(r: GeeRegistry, req: Request, now: int): (h: Handled)
    ensures req.verb == "GET" ==>
      h == Handled(Response(StatusOK, Some(Join(AliveServers(r, now).alive, ','))), AliveServers(r, now).after)
    ensures req.verb == "POST" && req.serverHeader == "" ==>
      h == Handled(Response(StatusInternalServerError, None), r)
    ensures req.verb == "POST" && req.serverHeader != "" ==>
      h == Handled(Response(StatusOK, None), PutServer(r, req.serverHeader, now))
    ensures req.verb != "GET" && req.verb != "POST" ==>
      h == Handled(Response(StatusMethodNotAllowed, None), r)
  {
    match req.verb
    case "GET" =>
      var res := AliveServers(r, now);
      Handled(Response(StatusOK, Some(Join(res.alive, ','))), res.after)
    case "POST" =>
      if req.serverHeader == "" then Handled(Response(StatusInternalServerError, None), r)
      else Handled(Response(StatusOK, None), PutServer(r, req.serverHeader, now))
    case _ => Handled(Response(StatusMethodNotAllowed, None), r)
  }

  /**
   * A heartbeat followed at once by a GET on an otherwise empty registry
   * lists exactly that address.
   */
  lemma PostThenGet(timeout: int, addr: string, now: int)
    requires addr != "" && timeout >= 0
    ensures var posted := ServeHTTP(New(timeout), Request("POST", addr), now);
      posted.resp.status == StatusOK &&
      ServeHTTP(posted.after, Request("GET", ""), now).resp.serversHeader == Some(addr)
  {
    var posted := ServeHTTP(New(timeout), Request("POST", addr), now);
    assert posted.after.servers.Keys == {addr};
    var res := AliveServers(posted.after, now);
    assert res.after.servers.Keys == {addr};
    assert |res.alive| == 1;
    assert res.alive == [addr];
  }

  /**
   * Once every heartbeat is older than the timeout, a GET lists nothing and
   * empties the registry.
   */
  lemma ExpiredListsNothing(r: GeeRegistry, now: int)
    requires r.timeout > 0
    requires forall a :: a in r.servers ==> r.servers[a].start + r.timeout <= now
    ensures ServeHTTP(r, Request("GET", ""), now).resp.serversHeader == Some("")
    ensures ServeHTTP(r, Request("GET", ""), now).after.servers == map[]
  {
    var res := AliveServers(r, now);
    assert res.after.servers == map[];
  }

  /** A client splitting the GET header on commas gets the list back when no address has a comma. */
  lemma ListRoundTrip(r: GeeRegistry, now: int)
    requires forall a :: a in r.servers ==> ',' !in a
    requires |AliveServers(r, now).alive| > 0
    ensures Split(ServeHTTP(r, Request("GET", ""), now).resp.serversHeader.value, ',') == AliveServers(r, now).alive
  {
    SplitJoin(AliveServers(r, now).alive, ',');
  }

  // ---------------------------------------------------------------------
  // Heartbeats
  // ---------------------------------------------------------------------

  /**
   * The heartbeat period `Heartbeat` uses: a zero duration defaults to one
   * minute less than the registry's default timeout.
   */
  function HeartbeatPeriod(duration: int): (d: int)
    ensures duration == 0 ==> d == 4 * Minute && 0 < d < DefaultTimeout
    ensures duration != 0 ==> d == duration
  {
    if duration == 0 then DefaultTimeout - 1 * Minute else duration
  }

  /**
   * How many heartbeats are sent when the successive sends succeed or fail
   * as `outcomes` says: the first is sent at once, and sending stops after
   * the first failure.
   */
  function HeartbeatsSent(outcomes: seq<bool>): (n: nat)
    ensures n <= |outcomes|
    ensures n == 0 <==> |outcomes| == 0
    ensures forall i :: 0 <= i < n - 1 ==> outcomes[i]
    ensures n < |outcomes| ==> !outcomes[n - 1]
    decreases |outcomes|
  {
    if |outcomes| == 0 then 0
    else if !outcomes[0] then 1
    else 1 + HeartbeatsSent(outcomes[1..])
  }

  /**
   * The effect of `Heartbeat`: how many heartbeats were sent, and whether the
   * background ticker panicked because its period is not positive.
   */
  datatype HeartbeatRun = HeartbeatRun(sent: nat, panicked: bool)

  /**
   * `Heartbeat(registry, addr, duration)` with the successive sends succeeding
   * or failing as `outcomes` says. The first heartbeat is sent at once; the
   * background ticker is created whatever that send returned, and creating
   * it with a period that is not positive panics before any further send.
   */
  function Heartbeat(duration: int, outcomes: seq<bool>): (r: HeartbeatRun)
    ensures r.panicked <==> HeartbeatPeriod(duration) <= 0
    ensures r.panicked <==> duration < 0
    ensures r.panicked ==> r.sent == (if |outcomes| == 0 then 0 else 1)
    ensures !r.panicked ==> r.sent == HeartbeatsSent(outcomes)
    ensures r.sent <= |outcomes|
  {
    var period := HeartbeatPeriod(duration);
    if period <= 0 then HeartbeatRun(if |outcomes| == 0 then 0 else 1, true)
    else HeartbeatRun(HeartbeatsSent(outcomes), false)
  }

  /** A negative period panics even when the first heartbeat succeeds, so a server heartbeats at most once. */
  lemma NegativePeriodSendsOnce(duration: int, outcomes: seq<bool>)
    requires duration < 0 && |outcomes| >= 2 && outcomes[0]
    ensures Heartbeat(duration, outcomes) == HeartbeatRun(1, true)
    ensures HeartbeatsSent(outcomes) >= 2
  {
    assert outcomes[1..][0] == outcomes[1];
  }

  /** Heartbeats at the default period keep a server registered in the default registry. */
  lemma DefaultHeartbeatKeepsAlive(start: int, now: int)
    requires start <= now <= start + HeartbeatPeriod(0)
    ensures IsAlive(DefaultGeeRegister.timeout, ServerItem("", start), now)
  {
  }
}
