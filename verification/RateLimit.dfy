/** The fixed-window rate limiter as one caller runs it, with nobody else on the store. */
module RateLimit {
  import opened Prelude
  import TtlStore

  datatype Settings = Settings(limit: int, windowMs: int) {
    /** The least number of seconds that covers the window. */
    function WindowSeconds(): (w: int)
      ensures 1000 * (w - 1) < windowMs <= 1000 * w
    {
      CeilDiv(windowMs, 1000)
    }
  }

  const DEFAULT_LIMIT := 100
  const DEFAULT_WINDOW_MS := 60000

  datatype Answer = Answer(
    allowed: bool,
    retryAfterSeconds: Option<int>,
    remaining: Option<int>,
    resetAt: Option<int>)

  datatype Failure = MissingStore | StoreFailed

  /** What a caller is told once it has its counter value and has read the ttl. */
  function Respond(s: Settings, current: int, ttl: int, nowMs: int): Answer
  {
    var resetAt := nowMs + (if ttl > 0 then ttl * 1000 else s.windowMs);
    if current > s.limit then
      Answer(false, Some(if ttl > 0 then ttl else s.WindowSeconds()), Some(0), Some(resetAt))
    else
      Answer(true, None, Some(Max(s.limit - current, 0)), Some(resetAt))
  }

  /** One whole call with no other store operation in between. */
  function Call(s: Settings, st: TtlStore.State, key: string, nowMs: int)
    : (TtlStore.State, Result<Answer, Failure>)
  {
    var (st1, counted) := TtlStore.Incr(st, key);
    match counted
    case Err(_) => (st1, Err(StoreFailed))
    case Ok(current) =>
      var st2 := if current == 1 then TtlStore.Expire(st1, key, s.WindowSeconds()) else st1;
      (st2, Ok(Respond(s, current, TtlStore.Ttl(st2, key), nowMs)))
  }

  /** The key holds something INCR refuses. */
  predicate Unusable(st: TtlStore.State, key: string)
  {
    var live := TtlStore.View(st, key);
    live.Some? && !live.value.value.Count?
  }

  class RateLimitService {
    const enabled: bool
    const settings: Settings
    const cache: TtlStore.Store?

    constructor (enabled: bool, defaultLimit: Option<int>, defaultWindowMs: Option<int>,
                 cache: TtlStore.Store?)
      ensures this.enabled == enabled && this.cache == cache
      ensures defaultLimit.None? ==> settings.limit == 100
      ensures defaultLimit.Some? ==> settings.limit == defaultLimit.value
      ensures defaultWindowMs.None? ==> settings.windowMs == 60000
      ensures defaultWindowMs.Some? ==> settings.windowMs == defaultWindowMs.value
    {
      this.enabled := enabled;
      this.cache := cache;
      this.settings := Settings(if defaultLimit.Some? then defaultLimit.value else DEFAULT_LIMIT,
                                if defaultWindowMs.Some? then defaultWindowMs.value else DEFAULT_WINDOW_MS);
    }

    method IsAllowed(key: string, nowMs: int) returns (r: Result<Answer, Failure>)
      modifies if cache == null then {} else {cache}
      ensures !enabled ==> r == Ok(Answer(true, None, None, None))
      ensures enabled && cache == null ==> r == Err(MissingStore)
      ensures enabled && cache != null ==>
                (cache.Contents(), r) == Call(settings, old(cache.Contents()), key, nowMs)
      ensures !enabled && cache != null ==> cache.Contents() == old(cache.Contents())
      ensures enabled && cache != null && Unusable(old(cache.Contents()), key) ==>
                r == Err(StoreFailed) && cache.Contents() == old(cache.Contents())
      ensures enabled && cache != null && !Unusable(old(cache.Contents()), key) ==>
                var live := old(TtlStore.View(cache.Contents(), key));
                var current := if live.Some? then live.value.value.n + 1 else 1;
                && cache.now == old(cache.now) && cache.entries - {key} == old(cache.entries) - {key}
                && key in cache.entries
                && var e := cache.entries[key];
                && e.value == TtlStore.Count(current)
                && (current == 1 ==>
                      && e.deadline.Some?
                      && var w := e.deadline.value - cache.now;
                         1000 * (w - 1) < settings.windowMs <= 1000 * w)
                && (current > 1 ==> e.deadline == live.value.deadline)
                && r.Ok?
                && (r.value.allowed <==> current <= settings.limit)
                && (r.value.allowed ==>
                      r.value.retryAfterSeconds == None && r.value.remaining == Some(settings.limit - current))
                && var left := if e.deadline.Some? then e.deadline.value - cache.now else 0;
                && (!r.value.allowed ==>
                      && r.value.remaining == Some(0)
                      && r.value.retryAfterSeconds.Some?
                      && var wait := r.value.retryAfterSeconds.value;
                         if left > 0 then wait == left
                         else 1000 * (wait - 1) < settings.windowMs <= 1000 * wait)
                && r.value.resetAt == Some(nowMs + if left > 0 then left * 1000 else settings.windowMs)
    {
      if !enabled {
        return Ok(Answer(true, None, None, None));
      }
      if cache == null {
        return Err(MissingStore);
      }
      var windowSeconds := settings.WindowSeconds();
      var counted := cache.DoIncr(key);
      if counted.Err? {
        return Err(StoreFailed);
      }
      var current := counted.value;
      if current == 1 {
        cache.DoExpire(key, windowSeconds);
      }
      var ttl := cache.DoTtl(key);
      var remaining := Max(settings.limit - current, 0);
      var allowed := current <= settings.limit;
      if !allowed {
        return Ok(Answer(allowed, Some(if ttl > 0 then ttl else windowSeconds), Some(0),
                         Some(nowMs + (if ttl > 0 then ttl * 1000 else settings.windowMs))));
      }
      return Ok(Answer(true, None, Some(remaining),
                       Some(nowMs + (if ttl > 0 then ttl * 1000 else settings.windowMs))));
    }
  }
}
