/** The cookie ring and the node's handshake routes as they run. */
module CookieRing {
  import opened Machine
  import opened Windows
  import opened NetworkClock
  import opened CookieEcho

  class CookieCache {
    const cookies: array<Cookie>
    var next: nat
    var filled: nat

    ghost predicate Valid()
      reads this
    {
      IsRing(cookies.Length, next, filled)
    }

    ghost function Contents(): seq<Cookie>
      requires Valid()
      reads this, cookies
    {
      Unrolled(cookies[..], next, filled)
    }

    constructor (capacity: nat)
      ensures Valid() && Contents() == [] && cookies.Length == capacity && fresh(cookies)
    {
      cookies := new Cookie[capacity](_ => []);
      next, filled := 0, 0;
    }

    method Contains(cookie: Cookie) returns (found: bool)
      requires Valid()
      ensures found <==> cookie in Contents()
    {
      for i := 0 to filled
        invariant cookie !in cookies[..i]
      {
        if cookies[i] == cookie {
          assert cookie in cookies[..filled];
          return true;
        }
      }
      return false;
    }

    method Insert(cookie: Cookie)
      requires Valid()
      modifies this, cookies
      ensures Valid()
      ensures Contents() == Last(old(Contents()) + [cookie], cookies.Length)
    {
      if cookies.Length == 0 {
        return;
      }
      PushUnrolls(cookies[..], next, filled, cookie);
      cookies[next] := cookie;
      next := Successor(next, cookies.Length);
      if filled < cookies.Length {
        filled := filled + 1;
      }
    }
  }

  method VerifyCookieEcho(echo: Echo, mac: CookieMac, addr: PeerAddr, clock: Clock, localTime: u64, maxAge: u64,
                          cache: CookieCache)
    returns (verdict: Verdict)
    requires clock.Valid() && cache.Valid()
    modifies cache, cache.cookies
    ensures cache.Valid()
    ensures verdict == Judge(echo, mac, addr, clock, localTime, maxAge, old(cache.Contents()))
    ensures cache.Contents()
            == if verdict == Accepted then Last(old(cache.Contents()) + [echo.cookie], cache.cookies.Length)
               else old(cache.Contents())
  {
    hide Clock.Offset, Clock.LogicalNow;
    if clock.filled >= BOOTSTRAP_QUORUM {
      var networkTime := clock.LogicalNow(localTime);
      if echo.timestamp > Min(networkTime + CLOCK_FUTURE_TOLERANCE_SECS, U64_MAX)
         || Max(0, networkTime - echo.timestamp) > maxAge {
        return CookieExpired;
      }
    }
    if mac.of(addr, echo.timestamp) != echo.cookie {
      return InvalidCookie;
    }
    var seen := cache.Contains(echo.cookie);
    if seen {
      return CookieReplayed;
    }
    cache.Insert(echo.cookie);
    return Accepted;
  }

  class GoatNode {
    const clock: NetworkClockState
    const cache: CookieCache

    ghost predicate Valid()
      reads this, clock, cache
    {
      clock.Value().Valid() && cache.Valid()
    }

    ghost function Value(): Node
      requires Valid()
      reads this, clock, cache, cache.cookies
    {
      Node(clock.Value(), cache.Contents())
    }

    constructor (floor: u64, capacity: nat)
      ensures Valid() && Value() == Node(Genesis(floor), []) && cache.cookies.Length == capacity
    {
      clock := new NetworkClockState(floor);
      cache := new CookieCache(capacity);
    }

    /** The cookie-echo and the response routes of the ingress pipeline. */
    method Process(mac: CookieMac, e: Event) returns (ok: bool)
      requires Valid()
      modifies clock, cache, cache.cookies
      ensures Valid()
      ensures Value() == Step(mac, cache.cookies.Length, old(Value()), e)
      ensures ok <==> e.signed && (e.EchoArrives? ==> Admitted(mac, old(Value()), e))
    {
      hide Clock.Offset, Clock.LogicalNow, Clock.Record, Clock.Valid, Judge, Last, Unrolled;
      if e.EchoArrives? {
        var verdict := VerifyCookieEcho(e.echo, mac, e.addr, clock.Value(), e.now, MAX_COOKIE_AGE_SECS, cache);
        if verdict != Accepted {
          return false;
        }
      }
      if !e.signed {
        return false;
      }
      clock.RecordPeerTime(e.addr, e.peerTime, e.now);
      return true;
    }
  }
}
