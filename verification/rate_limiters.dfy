/** The two in-process limiters: the transport limiter, and the all-or-nothing one for first provisioning. */
module RateLimiters {
  import opened Results
  import opened SlidingWindow

  function Entry(m: map<string, seq<real>>, key: string): seq<real> {
    if key in m then m[key] else []
  }

  /** The latest time of any call on a key, and how far behind it the latest call ever came. */
  datatype Clock = Clock(latest: real, lag: real)

  function Tick(clock: Option<Clock>, now: real): Clock {
    match clock
    case None => Clock(now, 0.0)
    case Some(c) => Clock(Later(c.latest, now), Later(c.lag, c.latest - now))
  }

  /** No call on the key has been late, nor is this one. */
  predicate OnTime(clock: Option<Clock>, now: real) {
    clock.Some? ==> clock.value.lag == 0.0 && clock.value.latest <= now
  }

  /** A key's bucket against everything ever admitted under it. */
  predicate KeyOk(bucket: seq<real>, history: seq<real>, limit: int, clock: Option<Clock>) {
    match clock
    case None => bucket == [] && history == []
    case Some(c) =>
      && c.lag >= 0.0 && |bucket| <= limit && Tracks(bucket, history, c.latest)
      && SpacedBy(history, limit, WINDOW - c.lag) && (c.lag == 0.0 ==> Sorted(history))
  }

  /** Under a limit of one the last admission stays in the bucket. */
  predicate SingleOk(bucket: seq<real>, history: seq<real>, limit: int) {
    limit == 1 ==> (history != [] ==> bucket != []) && SpacedBy(history, 1, WINDOW)
  }

  lemma CallKeepsKey(bucket: seq<real>, history: seq<real>, limit: int, clock: Option<Clock>, now: real)
    requires limit > 0 && KeyOk(bucket, history, limit, clock)
    ensures var v := Consume(bucket, limit, now);
      && KeyOk(v.bucket, if v.allowed then history + [now] else history, limit, Some(Tick(clock, now)))
      && KeyOk(Prune(bucket, now - WINDOW), history, limit, Some(Tick(clock, now)))
  {
    hide Tracks, SpacedBy, Prune;
    var c := if clock.Some? then clock.value else Clock(now, 0.0);
    var lag := Tick(clock, now).lag;
    if clock.None? {
      NothingTracks(limit, now, WINDOW);
    }
    SpacingLoosens(history, limit, WINDOW - c.lag, WINDOW - lag);
    ConsumeKeepsSpacing(bucket, history, limit, c.latest, lag, now);
    PruneKeepsTrack(bucket, history, c.latest, now);
    PruneDropsOld(bucket, now - WINDOW);
    if lag == 0.0 {
      SortedAppend(bucket, history, c.latest, now);
    }
  }

  lemma SpacingLoosens(h: seq<real>, limit: int, gap: real, smaller: real)
    requires SpacedBy(h, limit, gap) && smaller <= gap
    ensures SpacedBy(h, limit, smaller)
  {
  }

  lemma SortedAppend(bucket: seq<real>, h: seq<real>, latest: real, now: real)
    requires Tracks(bucket, h, latest) && Sorted(h)
    ensures latest <= now ==> Sorted(h + [now])
  {
  }

  lemma CallKeepsSingle(bucket: seq<real>, history: seq<real>, limit: int, clock: Option<Clock>, now: real)
    requires limit > 0 && KeyOk(bucket, history, limit, clock) && SingleOk(bucket, history, limit)
    ensures var v := Consume(bucket, limit, now); SingleOk(v.bucket, if v.allowed then history + [now] else history, limit)
  {
    hide Consume;
    if limit == 1 {
      ConsumeKeepsSingle(bucket, history, if clock.Some? then clock.value.latest else now, now);
    }
  }

  /** A call that is on time is admitted exactly while fewer hits than the limit lie in its window. */
  lemma CountDecides(bucket: seq<real>, history: seq<real>, limit: int, clock: Option<Clock>, now: real)
    requires limit > 0 && KeyOk(bucket, history, limit, clock) && OnTime(clock, now)
    ensures Consume(bucket, limit, now).allowed <==> CountIn(history, now - WINDOW, now) < limit
  {
    hide Tracks, SpacedBy, Consume, CountIn;
    if clock.None? {
      NothingTracks(limit, now, WINDOW);
    }
    DeniedIffWindowFull(bucket, history, limit, if clock.Some? then clock.value.latest else now, now);
  }

  /** Late or not, a denial means that the hit `limit` places from the end is in the window. */
  lemma DenialHasCause(bucket: seq<real>, history: seq<real>, limit: int, clock: Option<Clock>, now: real)
    requires limit > 0 && KeyOk(bucket, history, limit, clock) && !Consume(bucket, limit, now).allowed
    ensures |history| >= limit && history[|history| - limit] > now - WINDOW
  {
    PruneDropsOld(bucket, now - WINDOW);
  }

  lemma KeyIsBounded(bucket: seq<real>, history: seq<real>, limit: int, clock: Option<Clock>, lo: real)
    requires limit > 0 && KeyOk(bucket, history, limit, clock)
    ensures clock.Some? ==> CountIn(history, lo, lo + WINDOW - clock.value.lag) <= limit
    ensures clock.None? ==> CountIn(history, lo, lo + WINDOW) == 0
    ensures SingleOk(bucket, history, limit) && limit == 1 ==> CountIn(history, lo, lo + WINDOW) <= limit
  {
    if clock.Some? {
      SpacingBoundsWindows(history, limit, WINDOW - clock.value.lag, lo, WINDOW - clock.value.lag);
      assert lo + (WINDOW - clock.value.lag) == lo + WINDOW - clock.value.lag;
    }
    if SingleOk(bucket, history, limit) && limit == 1 {
      SpacingBoundsWindows(history, 1, WINDOW, lo, WINDOW);
    }
  }

  /** Fewer hits than the limit, or no limit. */
  predicate HasRoom(history: seq<real>, limit: int, now: real) {
    limit <= 0 || CountIn(history, now - WINDOW, now) < limit
  }

  /** What one call keeps and decides, in one place. */
  lemma CallFacts(bucket: seq<real>, history: seq<real>, limit: int, clock: Option<Clock>, now: real)
    requires limit > 0 && KeyOk(bucket, history, limit, clock) && SingleOk(bucket, history, limit)
    ensures var v := Consume(bucket, limit, now);
      var h' := if v.allowed then history + [now] else history;
      && KeyOk(v.bucket, h', limit, Some(Tick(clock, now))) && SingleOk(v.bucket, h', limit)
      && (OnTime(clock, now) ==> (v.allowed <==> HasRoom(history, limit, now)))
      && (!v.allowed ==> |history| >= limit && history[|history| - limit] > now - WINDOW)
  {
    hide Consume, KeyOk, SingleOk, OnTime, CountIn, Tick;
    CallKeepsKey(bucket, history, limit, clock, now);
    CallKeepsSingle(bucket, history, limit, clock, now);
    if OnTime(clock, now) {
      CountDecides(bucket, history, limit, clock, now);
    }
    if !Consume(bucket, limit, now).allowed {
      DenialHasCause(bucket, history, limit, clock, now);
    }
  }

  lemma PruneStep(bucket: seq<real>, cutoff: real)
    ensures bucket != [] && bucket[0] <= cutoff ==> Prune(bucket[1..], cutoff) == Prune(bucket, cutoff)
    ensures bucket == [] || bucket[0] > cutoff ==> Prune(bucket, cutoff) == bucket
  {
  }

  /** Address keys and subject keys have limits of their own. */
  function LimitFor(key: string, ipLimit: int, subLimit: int): int {
    if "ip:" <= key then ipLimit else subLimit
  }

  lemma LimitByPrefix(id: string, ipLimit: int, subLimit: int)
    ensures LimitFor("ip:" + id, ipLimit, subLimit) == ipLimit && LimitFor("sub:" + id, ipLimit, subLimit) == subLimit
  {
    assert ("sub:" + id)[0] == 's';
  }

  class McpTransportRateLimit {
    const ipLimit: int
    const subLimit: int
    var requestTimes: map<string, seq<real>>
    ghost var admitted: map<string, seq<real>>
    ghost var clocks: map<string, Clock>

    constructor (limitIpPerMinute: int, limitSubPerMinute: int)
      ensures Valid() && ipLimit == Max(0, limitIpPerMinute) && subLimit == Max(0, limitSubPerMinute)
    {
      ipLimit, subLimit := Max(0, limitIpPerMinute), Max(0, limitSubPerMinute);
      requestTimes, admitted, clocks := map[], map[], map[];
    }

    function LimitOf(key: string): int {
      LimitFor(key, ipLimit, subLimit)
    }

    ghost function ClockOf(key: string): Option<Clock>
      reads this
    {
      if key in clocks then Some(clocks[key]) else None
    }

    ghost predicate KeyValid(key: string)
      reads this
    {
      LimitOf(key) > 0 ==>
        && KeyOk(Entry(requestTimes, key), Entry(admitted, key), LimitOf(key), ClockOf(key))
        && SingleOk(Entry(requestTimes, key), Entry(admitted, key), LimitOf(key))
    }

    /** What the limiter keeps under every key, whatever the order of the calls. */
    ghost predicate Valid()
      reads this
    {
      forall key :: KeyValid(key)
    }

    /**
     No window of the whole history, 60 seconds less the lag of the key's latest call, holds more
     than the limit; under a limit of one, or without late calls, no 60-second window does.
     */
    lemma BoundHolds(key: string, lo: real)
      requires Valid() && LimitOf(key) > 0
      ensures key in clocks ==> CountIn(Entry(admitted, key), lo, lo + WINDOW - clocks[key].lag) <= LimitOf(key)
      ensures LimitOf(key) == 1 || key !in clocks || clocks[key].lag == 0.0 ==> CountIn(Entry(admitted, key), lo, lo + WINDOW) <= LimitOf(key)
    {
      assert KeyValid(key);
      KeyIsBounded(Entry(requestTimes, key), Entry(admitted, key), LimitOf(key), ClockOf(key), lo);
    }

    method ConsumeBucket(key: string, now: real) returns (allowed: bool, retryAfter: int)
      requires Valid()
      modifies this
      ensures Valid()
      ensures var v := Consume(Entry(old(requestTimes), key), LimitOf(key), now);
        && allowed == v.allowed && retryAfter == v.retryAfter
        && requestTimes == (if LimitOf(key) > 0 then old(requestTimes)[key := v.bucket] else old(requestTimes))
      ensures clocks == if LimitOf(key) > 0 then old(clocks)[key := Tick(old(ClockOf(key)), now)] else old(clocks)
      ensures var h := Entry(old(admitted), key);
        && admitted == (if allowed && LimitOf(key) > 0 then old(admitted)[key := h + [now]] else old(admitted))
        && (old(OnTime(ClockOf(key), now)) ==> (allowed <==> HasRoom(h, LimitOf(key), now)))
        && (!allowed ==> 0 < LimitOf(key) <= |h| && h[|h| - LimitOf(key)] > now - WINDOW)
    {
      hide Prune, Consume, KeyOk, SingleOk, CountIn, Tick, OnTime;
      var limit := LimitOf(key);
      if limit <= 0 {
        DisabledAdmits(Entry(requestTimes, key), limit, now);
        return true, 0;
      }
      var bucket := Entry(requestTimes, key);
      assert KeyValid(key);
      CallFacts(bucket, Entry(admitted, key), limit, ClockOf(key), now);
      ConsumeByPruning(bucket, limit, now);
      var cutoff := now - WINDOW;
      while bucket != [] && bucket[0] <= cutoff
        invariant Prune(bucket, cutoff) == Prune(Entry(requestTimes, key), cutoff)
        modifies {}
        decreases |bucket|
      {
        PruneStep(bucket, cutoff);
        bucket := bucket[1..];
      }
      PruneStep(bucket, cutoff);
      allowed, retryAfter := |bucket| < limit, 0;
      if !allowed {
        retryAfter := Max(1, (bucket[0] + WINDOW - now).Floor);
      }
      requestTimes := requestTimes[key := if allowed then bucket + [now] else bucket];
      clocks := clocks[key := Tick(ClockOf(key), now)];
      if allowed {
        admitted := admitted[key := Entry(admitted, key) + [now]];
      }
      forall k ensures KeyValid(k) {
        assert old(KeyValid(k));
      }
    }

    /**
     One request to the MCP surface: the address first, then the verified subject if there is one.
     A request refused for its address leaves the subject's bucket alone; one refused for its
     subject has already used a hit of its address. The time is read once, before the token is
     verified, so the subject's call can be late. Where no call on either key has been late, the
     hits in the window decide.
     */
    method Dispatch(ip: string, sub: Option<string>, now: real) returns (retryAfter: Option<int>)
      requires Valid()
      modifies this
      ensures Valid()
      ensures var ipFree := Consume(Entry(old(requestTimes), "ip:" + ip), ipLimit, now).allowed;
        var subFree := sub.None? || Consume(Entry(old(requestTimes), "sub:" + sub.value), subLimit, now).allowed;
        && (retryAfter.None? <==> ipFree && subFree)
        && Entry(admitted, "ip:" + ip) == Entry(old(admitted), "ip:" + ip) + (if ipFree && ipLimit > 0 then [now] else [])
        && (sub.Some? ==>
              Entry(admitted, "sub:" + sub.value)
              == Entry(old(admitted), "sub:" + sub.value) + (if ipFree && subFree && subLimit > 0 then [now] else []))
        && (forall key :: key != "ip:" + ip && (sub.None? || key != "sub:" + sub.value) ==> Entry(admitted, key) == Entry(old(admitted), key))
        && (!ipFree ==> forall key :: key != "ip:" + ip ==> Entry(requestTimes, key) == Entry(old(requestTimes), key))
      ensures retryAfter.Some? ==>
        var refusedByIp := Consume(Entry(old(requestTimes), "ip:" + ip), ipLimit, now);
        if !refusedByIp.allowed then retryAfter == Some(refusedByIp.retryAfter)
        else sub.Some? && retryAfter == Some(Consume(Entry(old(requestTimes), "sub:" + sub.value), subLimit, now).retryAfter)
      ensures old(OnTime(ClockOf("ip:" + ip), now)) && (sub.Some? ==> old(OnTime(ClockOf("sub:" + sub.value), now))) ==>
        (retryAfter.None? <==>
          && HasRoom(Entry(old(admitted), "ip:" + ip), ipLimit, now)
          && (sub.None? || HasRoom(Entry(old(admitted), "sub:" + sub.value), subLimit, now)))
    {
      hide Consume, CountIn, KeyOk, SingleOk, OnTime, Tick, Valid, HasRoom, LimitFor;
      LimitByPrefix(ip, ipLimit, subLimit);
      LimitByPrefix(if sub.Some? then sub.value else "", ipLimit, subLimit);
      KeysDiffer(ip, if sub.Some? then sub.value else "");
      var allowed, wait := ConsumeBucket("ip:" + ip, now);
      if !allowed {
        return Some(wait);
      }
      if sub.Some? {
        allowed, wait := ConsumeBucket("sub:" + sub.value, now);
        if !allowed {
          return Some(wait);
        }
      }
      return None;
    }
  }

  /** Admits an attempt under both of its keys or under neither; a limit of zero or less switches its key off. */
  class FirstProvisionRateLimit {
    const ipLimit: int
    const subLimit: int
    var times: map<string, seq<real>>
    ghost var admitted: map<string, seq<real>>
    ghost var last: map<string, real>

    constructor (ipPerMinute: int, subPerMinute: int)
      ensures Valid() && ipLimit == ipPerMinute && subLimit == subPerMinute
    {
      ipLimit, subLimit := ipPerMinute, subPerMinute;
      times, admitted, last := map[], map[], map[];
    }

    function LimitOf(key: string): int {
      LimitFor(key, ipLimit, subLimit)
    }

    /** Its clock is monotonic and read in the same step, so no call is late. */
    ghost function ClockOf(key: string): Option<Clock>
      reads this
    {
      if key in last then Some(Clock(last[key], 0.0)) else None
    }

    ghost predicate KeyValid(key: string)
      reads this
    {
      LimitOf(key) > 0 ==>
        KeyOk(Entry(times, key), Entry(admitted, key), LimitOf(key), ClockOf(key))
    }

    /** Under every key, the bound holds of everything admitted so far. */
    ghost predicate Valid()
      reads this
    {
      forall key :: KeyValid(key)
    }

    /** No 60-second window of the whole history holds more than the limit. */
    lemma BoundHolds(key: string, lo: real)
      requires Valid() && LimitOf(key) > 0
      ensures CountIn(Entry(admitted, key), lo, lo + WINDOW) <= LimitOf(key)
    {
      assert KeyValid(key);
      KeyIsBounded(Entry(times, key), Entry(admitted, key), LimitOf(key), ClockOf(key), lo);
    }

    ghost predicate InOrder(key: string, now: real)
      reads this
    {
      key in last ==> last[key] <= now
    }

    /** Prunes the key's bucket and says whether one more hit fits. */
    method MakeRoom(key: string, now: real) returns (room: bool)
      requires Valid() && InOrder(key, now) && LimitOf(key) > 0
      modifies `times, `last
      ensures Valid() && last == old(last)[key := now]
      ensures times == old(times)[key := Prune(Entry(old(times), key), now - WINDOW)]
      ensures room <==> CountIn(Entry(admitted, key), now - WINDOW, now) < LimitOf(key)
      ensures room ==> KeyOk(Entry(times, key) + [now], Entry(admitted, key) + [now], LimitOf(key), Some(Clock(now, 0.0)))
    {
      hide Prune, Consume, KeyOk, CountIn;
      var bucket := Entry(times, key);
      assert KeyValid(key);
      CallKeepsKey(bucket, Entry(admitted, key), LimitOf(key), ClockOf(key), now);
      CountDecides(bucket, Entry(admitted, key), LimitOf(key), ClockOf(key), now);
      ConsumeByPruning(bucket, LimitOf(key), now);
      var cutoff := now - WINDOW;
      while bucket != [] && bucket[0] <= cutoff
        invariant Prune(bucket, cutoff) == Prune(Entry(times, key), cutoff)
        modifies {}
        decreases |bucket|
      {
        PruneStep(bucket, cutoff);
        bucket := bucket[1..];
      }
      PruneStep(bucket, cutoff);
      room := |bucket| < LimitOf(key);
      times := times[key := bucket];
      last := last[key := now];
      forall k ensures KeyValid(k) {
        assert old(KeyValid(k));
      }
    }

    method Record(key: string, now: real)
      requires Valid() && key in last && last[key] == now
      requires KeyOk(Entry(times, key) + [now], Entry(admitted, key) + [now], LimitOf(key), Some(Clock(now, 0.0)))
      modifies `times, `admitted
      ensures Valid()
      ensures times == old(times)[key := Entry(old(times), key) + [now]]
      ensures admitted == old(admitted)[key := Entry(old(admitted), key) + [now]]
    {
      hide KeyOk;
      times := times[key := Entry(times, key) + [now]];
      admitted := admitted[key := Entry(admitted, key) + [now]];
      forall k ensures KeyValid(k) {
        assert old(KeyValid(k));
      }
    }

    method Allow(ip: string, sub: string, now: real) returns (ok: bool)
      requires Valid() && InOrder("ip:" + ip, now) && InOrder("sub:" + sub, now)
      modifies this
      ensures Valid()
      ensures ok <==>
        && HasRoom(Entry(old(admitted), "ip:" + ip), ipLimit, now)
        && HasRoom(Entry(old(admitted), "sub:" + sub), subLimit, now)
      ensures Entry(admitted, "ip:" + ip) == Entry(old(admitted), "ip:" + ip) + (if ok && ipLimit > 0 then [now] else [])
      ensures Entry(admitted, "sub:" + sub) == Entry(old(admitted), "sub:" + sub) + (if ok && subLimit > 0 then [now] else [])
      ensures forall key :: key != "ip:" + ip && key != "sub:" + sub ==> Entry(admitted, key) == Entry(old(admitted), key)
    {
      hide Prune, KeyOk, CountIn, Valid, LimitFor;
      var ipKey, subKey := "ip:" + ip, "sub:" + sub;
      LimitByPrefix(ip, ipLimit, subLimit);
      LimitByPrefix(sub, ipLimit, subLimit);
      KeysDiffer(ip, sub);
      if ipLimit > 0 {
        var room := MakeRoom(ipKey, now);
        if !room {
          return false;
        }
      }
      if subLimit > 0 {
        var room := MakeRoom(subKey, now);
        if !room {
          return false;
        }
      }
      if ipLimit > 0 {
        Record(ipKey, now);
      }
      if subLimit > 0 {
        Record(subKey, now);
      }
      return true;
    }
  }

  lemma KeysDiffer(ip: string, sub: string)
    ensures "ip:" + ip != "sub:" + sub
  {
    assert ("ip:" + ip)[0] == 'i' && ("sub:" + sub)[0] == 's';
  }

  lemma DisabledAdmits(bucket: seq<real>, limit: int, now: real)
    requires limit <= 0
    ensures Consume(bucket, limit, now) == Verdict(true, 0, bucket)
  {
  }

  lemma ConsumeByPruning(bucket: seq<real>, limit: int, now: real)
    requires limit > 0
    ensures var kept := Prune(bucket, now - WINDOW);
      Consume(bucket, limit, now)
        == if |kept| >= limit then Verdict(false, Max(1, (kept[0] + WINDOW - now).Floor), kept) else Verdict(true, 0, kept + [now])
  {
  }
}
