/** Single-use cookies: the ring of accepted cookies and the echo check in front of the handshake. */
module CookieEcho {
  import opened Machine
  import opened Windows
  import opened NetworkClock

  type Cookie = Bytes

  const CLOCK_FUTURE_TOLERANCE_SECS: int := 5
  const BOOTSTRAP_QUORUM: nat := 3
  const MAX_COOKIE_AGE_SECS: nat := 60

  /** The keyed hash over address and timestamp, under this node's secret. */
  datatype CookieMac = CookieMac(of: (PeerAddr, u64) -> Cookie)

  datatype Echo = Echo(cookie: Cookie, timestamp: u64)

  datatype Verdict = Accepted | CookieExpired | InvalidCookie | CookieReplayed

  // ---- the check ----------------------------------------------------------------------------------

  function IssueCookie(mac: CookieMac, addr: PeerAddr, clock: Clock, localTime: u64): Echo
    requires clock.filled <= |clock.offsets|
  {
    var timestamp := clock.LogicalNow(localTime);
    Echo(mac.of(addr, timestamp), timestamp)
  }

  predicate IsFresh(timestamp: u64, clock: Clock, localTime: u64, maxAge: u64)
    requires clock.filled <= |clock.offsets|
  {
    clock.filled >= BOOTSTRAP_QUORUM ==>
      var networkTime := clock.LogicalNow(localTime);
      && timestamp <= Min(networkTime + CLOCK_FUTURE_TOLERANCE_SECS, U64_MAX)
      && Max(0, networkTime - timestamp) <= maxAge
  }

  function Judge(echo: Echo, mac: CookieMac, addr: PeerAddr, clock: Clock, localTime: u64, maxAge: u64,
                 window: seq<Cookie>): Verdict
    requires clock.filled <= |clock.offsets|
  {
    if !IsFresh(echo.timestamp, clock, localTime, maxAge) then CookieExpired
    else if mac.of(addr, echo.timestamp) != echo.cookie then InvalidCookie
    else if echo.cookie in window then CookieReplayed
    else Accepted
  }

  /** A cookie issued under one clock is still fresh under another as long as the corrected time has
      moved by no less than -5 seconds and by no more than the age limit. */
  lemma OwnCookieIsFresh(mac: CookieMac, addr: PeerAddr, c: Clock, d: Clock, issued: u64, echoed: u64, maxAge: u64)
    requires c.Valid() && d.Valid() && c.genesisFloor == d.genesisFloor
    requires -CLOCK_FUTURE_TOLERANCE_SECS <= (echoed + d.Offset()) - (issued + c.Offset()) <= maxAge
    ensures IsFresh(IssueCookie(mac, addr, c, issued).timestamp, d, echoed, maxAge)
  {
    hide Clock.Offset;
  }

  /** With an unchanged clock, a cookie echoed from its own address within the age limit is accepted,
      unless it is among those in the window. */
  lemma UnusedCookieIsAccepted(mac: CookieMac, addr: PeerAddr, c: Clock, issued: u64, echoed: u64, maxAge: u64,
                               window: seq<Cookie>)
    requires c.Valid() && issued <= echoed <= issued + maxAge
    ensures var echo := IssueCookie(mac, addr, c, issued);
            Judge(echo, mac, addr, c, echoed, maxAge, window)
            == if echo.cookie in window then CookieReplayed else Accepted
  {
    hide Clock.Offset, Clock.LogicalNow, IsFresh;
    OwnCookieIsFresh(mac, addr, c, c, issued, echoed, maxAge);
  }

  /** The timestamp lies more than five seconds ahead of network time, or further behind it than the
      limit, and there are three samples to judge it by. */
  predicate IsOutOfTime(timestamp: u64, clock: Clock, localTime: u64, maxAge: u64)
    requires clock.filled <= |clock.offsets|
  {
    && clock.filled >= 3
    && (timestamp > clock.LogicalNow(localTime) + 5 || clock.LogicalNow(localTime) > timestamp + maxAge)
  }

  /** Which verdict each condition gives: out of time, then not the keyed hash of this address and
      timestamp, then already used; and accepted exactly when none holds. */
  lemma VerdictMeans(echo: Echo, mac: CookieMac, addr: PeerAddr, clock: Clock, localTime: u64, maxAge: u64,
                     window: seq<Cookie>)
    requires clock.Valid()
    ensures var verdict := Judge(echo, mac, addr, clock, localTime, maxAge, window);
            var late := IsOutOfTime(echo.timestamp, clock, localTime, maxAge);
            var forged := echo.cookie != mac.of(addr, echo.timestamp);
            var used := echo.cookie in window;
            && (verdict == CookieExpired <==> late)
            && (verdict == InvalidCookie <==> !late && forged)
            && (verdict == CookieReplayed <==> !late && !forged && used)
            && (verdict == Accepted <==> !late && !forged && !used)
  {
    hide Clock.LogicalNow;
  }

  // ---- runs of the node -----------------------------------------------------------------------------

  /** What arrives: a cookie echo with the initiation it carries, or an authenticated response. */
  datatype Event =
    | EchoArrives(echo: Echo, addr: PeerAddr, now: u64, peerTime: u64, signed: bool)
    | ResponseArrives(addr: PeerAddr, now: u64, peerTime: u64, signed: bool)

  datatype Node = Node(clock: Clock, window: seq<Cookie>)

  function Verdicts(mac: CookieMac, node: Node, e: Event): Verdict
    requires node.clock.Valid() && e.EchoArrives?
  {
    Judge(e.echo, mac, e.addr, node.clock, e.now, MAX_COOKIE_AGE_SECS, node.window)
  }

  ghost predicate Admitted(mac: CookieMac, node: Node, e: Event)
    requires node.clock.Valid()
  {
    e.EchoArrives? && Verdicts(mac, node, e) == Accepted
  }

  /** The clock learns only from peers whose signature held, the window only from accepted echoes. */
  ghost function Step(mac: CookieMac, capacity: nat, node: Node, e: Event): (after: Node)
    requires node.clock.Valid()
    ensures after.clock.Valid() && after.clock.genesisFloor == node.clock.genesisFloor
  {
    hide Judge;
    RecordKeepsValid(node.clock, e.addr, e.peerTime, e.now);
    var clock :=
      if e.signed && (e.EchoArrives? ==> Admitted(mac, node, e))
      then node.clock.Record(e.addr, e.peerTime, e.now) else node.clock;
    Node(clock, if Admitted(mac, node, e) then Last(node.window + [e.echo.cookie], capacity) else node.window)
  }

  /** The node after the first `n` events, started with no accepted cookie. */
  ghost function After(mac: CookieMac, capacity: nat, clock: Clock, es: seq<Event>, n: nat): (node: Node)
    requires clock.Valid() && n <= |es|
    ensures node.clock.Valid()
  {
    if n == 0 then Node(clock, []) else Step(mac, capacity, After(mac, capacity, clock, es, n - 1), es[n - 1])
  }

  /** The cookies accepted among the first `n` events, in order. */
  ghost function AcceptedCookies(mac: CookieMac, capacity: nat, clock: Clock, es: seq<Event>, n: nat): seq<Cookie>
    requires clock.Valid() && n <= |es|
  {
    if n == 0 then []
    else
      var before := AcceptedCookies(mac, capacity, clock, es, n - 1);
      if Admitted(mac, After(mac, capacity, clock, es, n - 1), es[n - 1])
      then before + [es[n - 1].echo.cookie] else before
  }

  /** Whatever arrives, an echo is accepted only with the keyed hash of its own address and timestamp;
      and, from three samples on, only if that timestamp is at most five seconds ahead of network time
      and at most sixty behind it. */
  lemma AcceptedIsGenuine(mac: CookieMac, capacity: nat, clock: Clock, es: seq<Event>, i: nat)
    requires clock.Valid() && i < |es| && Admitted(mac, After(mac, capacity, clock, es, i), es[i])
    ensures es[i].echo.cookie == mac.of(es[i].addr, es[i].echo.timestamp)
    ensures var c := After(mac, capacity, clock, es, i).clock;
            c.filled >= 3 ==>
              && es[i].echo.timestamp <= c.LogicalNow(es[i].now) + 5
              && c.LogicalNow(es[i].now) <= es[i].echo.timestamp + 60
  {
    hide After, Judge, Clock.LogicalNow;
    var node := After(mac, capacity, clock, es, i);
    VerdictMeans(es[i].echo, mac, es[i].addr, node.clock, es[i].now, MAX_COOKIE_AGE_SECS, node.window);
  }

  /** So a cookie that was issued to another address is accepted only if the keyed hash collides. */
  lemma CookieIsBoundToAddress(mac: CookieMac, capacity: nat, clock: Clock, es: seq<Event>, i: nat,
                               other: PeerAddr, c: Clock, issued: u64)
    requires clock.Valid() && c.Valid() && i < |es| && Admitted(mac, After(mac, capacity, clock, es, i), es[i])
    requires other != es[i].addr && es[i].echo.cookie == IssueCookie(mac, other, c, issued).cookie
    ensures mac.of(es[i].addr, es[i].echo.timestamp) == mac.of(other, IssueCookie(mac, other, c, issued).timestamp)
  {
    hide After, Judge;
    AcceptedIsGenuine(mac, capacity, clock, es, i);
  }

  /** The clock learns exactly from signed responses and from signed initiations behind an accepted echo;
      the window grows exactly with accepted echoes. */
  lemma StepMeans(mac: CookieMac, capacity: nat, node: Node, e: Event)
    requires node.clock.Valid()
    ensures var after := Step(mac, capacity, node, e);
            var genuine := e.EchoArrives? ==>
              && !IsOutOfTime(e.echo.timestamp, node.clock, e.now, 60)
              && e.echo.cookie == mac.of(e.addr, e.echo.timestamp)
              && e.echo.cookie !in node.window;
            && after.clock == (if e.signed && genuine then node.clock.Record(e.addr, e.peerTime, e.now) else node.clock)
            && after.window == if e.EchoArrives? && genuine then Last(node.window + [e.echo.cookie], capacity)
                               else node.window
  {
    hide Judge, Clock.Record, Last, IsOutOfTime;
    if e.EchoArrives? {
      VerdictMeans(e.echo, mac, e.addr, node.clock, e.now, MAX_COOKIE_AGE_SECS, node.window);
    }
  }

  /** Over every run the window is the last min(k, N) of the k cookies accepted so far. */
  lemma {:induction false} WindowIsLastAccepted(mac: CookieMac, capacity: nat, clock: Clock, es: seq<Event>, n: nat)
    requires clock.Valid() && n <= |es|
    ensures After(mac, capacity, clock, es, n).window
            == Last(AcceptedCookies(mac, capacity, clock, es, n), capacity)
  {
    hide Clock.Valid, Clock.Record, Judge;
    if n > 0 {
      WindowIsLastAccepted(mac, capacity, clock, es, n - 1);
      if es[n - 1].EchoArrives? {
        LastOfLast(AcceptedCookies(mac, capacity, clock, es, n - 1), es[n - 1].echo.cookie, capacity);
      }
    }
  }

  /** So between two acceptances of one cookie lie at least N other acceptances. */
  lemma {:induction false} ReuseIsFarApart(mac: CookieMac, capacity: nat, clock: Clock, es: seq<Event>, n: nat)
    requires clock.Valid() && n <= |es|
    ensures FarApart(AcceptedCookies(mac, capacity, clock, es, n), capacity)
  {
    if n > 0 {
      hide Clock.Valid, Clock.Record, FarApart, Last, After, IsFresh;
      ReuseIsFarApart(mac, capacity, clock, es, n - 1);
      WindowIsLastAccepted(mac, capacity, clock, es, n - 1);
      if Admitted(mac, After(mac, capacity, clock, es, n - 1), es[n - 1]) {
        FarApartExtends(AcceptedCookies(mac, capacity, clock, es, n - 1), es[n - 1].echo.cookie, capacity);
      }
    }
  }
}
