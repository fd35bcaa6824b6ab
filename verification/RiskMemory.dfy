/** What is remembered about a user between logins: failures, last address, step-up marks, devices. */
module RiskMemory {
  import opened Prelude
  import opened StoreKeys
  import TtlStore

  const FAILURES_TTL := 900
  const LAST_IP_TTL := 86400
  const STEP_UP_TTL := 600

  datatype StepUpContext = StepUpContext(ip: Option<string>, deviceId: Option<string>)

  function StepUpSlot(userId: string, c: StepUpContext): Slot
  {
    StepUp(userId,
           if c.deviceId.Some? then c.deviceId.value else "unknown-device",
           if c.ip.Some? then c.ip.value else "unknown-ip")
  }

  /** A stored value as JavaScript's `Number` reads it; NaN compares as 0 does wherever it is used. */
  function AsNumber(value: TtlStore.Value): nat
  {
    if value.Count? then value.n else 0
  }

  function IncrementFailures(st: TtlStore.State, userId: string)
    : (TtlStore.State, Result<nat, TtlStore.StoreError>)
  {
    var key := KeyOf(Failures(userId));
    var (counted, count) := TtlStore.Incr(st, key);
    if count.Err? then (counted, count) else (TtlStore.Expire(counted, key, FAILURES_TTL), count)
  }

  function GetFailures(st: TtlStore.State, userId: string): nat
  {
    match TtlStore.Get(st, KeyOf(Failures(userId)))
    case None => 0
    case Some(value) => AsNumber(value)
  }

  function GetLastIp(st: TtlStore.State, userId: string): Option<string>
  {
    match TtlStore.Get(st, KeyOf(LastIp(userId)))
    case Some(Text(ip)) => Some(ip)
    case _ => None
  }

  /** Present and not the empty text. */
  predicate Given(text: Option<string>)
  {
    text.Some? && text.value != ""
  }

  predicate Matches(mark: TtlStore.Value, c: StepUpContext)
  {
    match mark
    case StepUpRecord(ip, deviceId) =>
      && !(Given(ip) && Given(c.ip) && ip != c.ip)
      && !(Given(deviceId) && Given(c.deviceId) && deviceId != c.deviceId)
    case Count(_) => true
    case Text(_) => false
  }

  predicate IsStepUpValid(st: TtlStore.State, userId: string, c: StepUpContext)
  {
    match TtlStore.Get(st, KeyOf(StepUpSlot(userId, c)))
    case None => false
    case Some(mark) => Matches(mark, c)
  }

  /** Whether a stored value is a non-empty text. */
  predicate Truthy(value: TtlStore.Value)
  {
    value.Text? ==> value.s != ""
  }

  predicate IsKnown(st: TtlStore.State, userId: string, hash: string)
  {
    var entry := TtlStore.Get(st, KeyOf(Device(userId, hash)));
    entry.Some? && Truthy(entry.value)
  }

  class RiskMemoryService {
    const cache: TtlStore.Store?

    constructor (cache: TtlStore.Store?)
      ensures this.cache == cache
    {
      this.cache := cache;
    }

    method DoIncrementFailures(userId: string) returns (r: Result<nat, TtlStore.StoreError>)
      modifies if cache == null then {} else {cache}
      ensures cache == null ==> r == Ok(0)
      ensures cache != null ==> (cache.Contents(), r) == IncrementFailures(old(cache.Contents()), userId)
      ensures cache != null ==>
                var key := "risk:user:" + userId + ":failures";
                var live := old(TtlStore.View(cache.Contents(), key));
                if live.Some? && !live.value.value.Count? then
                  r.Err? && cache.Contents() == old(cache.Contents())
                else
                  var n := if live.Some? then live.value.value.n + 1 else 1;
                  && r == Ok(n) && cache.now == old(cache.now)
                  && cache.entries
                       == old(cache.entries)[key := TtlStore.Entry(TtlStore.Count(n), Some(cache.now + 900))]
    {
      if cache == null {
        return Ok(0);
      }
      var key := KeyOf(Failures(userId));
      r := cache.DoIncr(key);
      if r.Err? {
        return;
      }
      cache.DoExpire(key, FAILURES_TTL);
    }

    method DoGetFailures(userId: string) returns (n: nat)
      ensures n == if cache == null then 0 else GetFailures(cache.Contents(), userId)
      ensures cache != null ==>
                var live := TtlStore.View(cache.Contents(), "risk:user:" + userId + ":failures");
                n == if live.Some? && live.value.value.Count? then live.value.value.n else 0
    {
      if cache == null {
        return 0;
      }
      var value := cache.DoGet(KeyOf(Failures(userId)));
      return if value.Some? then AsNumber(value.value) else 0;
    }

    method DoResetFailures(userId: string)
      modifies if cache == null then {} else {cache}
      ensures cache != null ==>
                cache.Contents() == TtlStore.Del(old(cache.Contents()), KeyOf(Failures(userId)))
      ensures cache != null ==>
                && cache.now == old(cache.now)
                && cache.entries == old(cache.entries) - {"risk:user:" + userId + ":failures"}
    {
      if cache != null {
        cache.DoDel(KeyOf(Failures(userId)));
      }
    }

    method DoStoreLastIp(userId: string, ip: string)
      modifies if cache == null then {} else {cache}
      ensures cache != null ==>
                cache.Contents()
                  == TtlStore.Set(old(cache.Contents()), KeyOf(LastIp(userId)), TtlStore.Text(ip), LAST_IP_TTL)
      ensures cache != null ==>
                && cache.now == old(cache.now)
                && cache.entries == old(cache.entries)["risk:user:" + userId + ":last-ip" :=
                     TtlStore.Entry(TtlStore.Text(ip), Some(cache.now + 86400))]
    {
      if cache != null {
        cache.DoSet(KeyOf(LastIp(userId)), TtlStore.Text(ip), LAST_IP_TTL);
      }
    }

    method DoGetLastIp(userId: string) returns (ip: Option<string>)
      ensures ip == if cache == null then None else GetLastIp(cache.Contents(), userId)
      ensures cache != null ==>
                var live := TtlStore.View(cache.Contents(), "risk:user:" + userId + ":last-ip");
                ip == if live.Some? && live.value.value.Text? then Some(live.value.value.s) else None
    {
      if cache == null {
        return None;
      }
      var value := cache.DoGet(KeyOf(LastIp(userId)));
      return if value.Some? && value.value.Text? then Some(value.value.s) else None;
    }

    method DoMarkStepUpVerified(userId: string, c: StepUpContext)
      modifies if cache == null then {} else {cache}
      ensures cache != null ==>
                cache.Contents() == TtlStore.Set(old(cache.Contents()), KeyOf(StepUpSlot(userId, c)),
                                                 TtlStore.StepUpRecord(c.ip, c.deviceId), STEP_UP_TTL)
      ensures cache != null ==>
                var device := if c.deviceId.Some? then c.deviceId.value else "unknown-device";
                var ip := if c.ip.Some? then c.ip.value else "unknown-ip";
                && cache.now == old(cache.now)
                && cache.entries == old(cache.entries)["risk:user:" + userId + ":stepup:" + device + ":" + ip :=
                     TtlStore.Entry(TtlStore.StepUpRecord(c.ip, c.deviceId), Some(cache.now + 600))]
    {
      if cache != null {
        cache.DoSet(KeyOf(StepUpSlot(userId, c)), TtlStore.StepUpRecord(c.ip, c.deviceId), STEP_UP_TTL);
      }
    }

    method DoIsStepUpValid(userId: string, c: StepUpContext) returns (valid: bool)
      ensures valid == (cache != null && IsStepUpValid(cache.Contents(), userId, c))
      ensures cache != null ==>
                var device := if c.deviceId.Some? then c.deviceId.value else "unknown-device";
                var ip := if c.ip.Some? then c.ip.value else "unknown-ip";
                var live := TtlStore.View(cache.Contents(), "risk:user:" + userId + ":stepup:" + device + ":" + ip);
                match live
                case None => !valid
                case Some(Entry(Text(_), _)) => !valid
                case Some(Entry(Count(_), _)) => valid
                case Some(Entry(StepUpRecord(markIp, markDevice), _)) =>
                  valid <==>
                    && (Given(markIp) && Given(c.ip) ==> markIp == c.ip)
                    && (Given(markDevice) && Given(c.deviceId) ==> markDevice == c.deviceId)
    {
      if cache == null {
        return false;
      }
      var raw := cache.DoGet(KeyOf(StepUpSlot(userId, c)));
      if raw.None? {
        return false;
      }
      match raw.value {
        case StepUpRecord(ip, deviceId) =>
          if Given(ip) && Given(c.ip) && ip != c.ip {
            return false;
          }
          if Given(deviceId) && Given(c.deviceId) && deviceId != c.deviceId {
            return false;
          }
          return true;
        case Count(_) => return true;
        case Text(_) => return false;
      }
    }

    method DoClearStepUp(userId: string, c: StepUpContext)
      modifies if cache == null then {} else {cache}
      ensures cache != null ==>
                cache.Contents() == TtlStore.Del(old(cache.Contents()), KeyOf(StepUpSlot(userId, c)))
      ensures cache != null ==>
                var device := if c.deviceId.Some? then c.deviceId.value else "unknown-device";
                var ip := if c.ip.Some? then c.ip.value else "unknown-ip";
                && cache.now == old(cache.now)
                && cache.entries == old(cache.entries) - {"risk:user:" + userId + ":stepup:" + device + ":" + ip}
    {
      if cache != null {
        cache.DoDel(KeyOf(StepUpSlot(userId, c)));
      }
    }
  }

  /** Device trust; fingerprints are stored under their HMAC. */
  class DeviceService {
    const hmac: string -> string
    const ttlSeconds: int
    const store: TtlStore.Store?

    constructor (hmac: string -> string, ttlSeconds: int, store: TtlStore.Store?)
      ensures this.hmac == hmac && this.ttlSeconds == ttlSeconds && this.store == store
    {
      this.hmac := hmac;
      this.ttlSeconds := ttlSeconds;
      this.store := store;
    }

    method DoIsKnown(userId: string, fingerprint: string) returns (known: bool)
      ensures known == (store != null && IsKnown(store.Contents(), userId, hmac(fingerprint)))
      ensures store != null ==>
                var live := TtlStore.View(store.Contents(), "device:" + userId + ":" + hmac(fingerprint));
                known <==> live.Some? && live.value.value != TtlStore.Text("")
    {
      if store == null {
        return false;
      }
      var value := store.DoGet(KeyOf(Device(userId, hmac(fingerprint))));
      return value.Some? && Truthy(value.value);
    }

    method DoRegister(userId: string, fingerprint: string)
      modifies if store == null then {} else {store}
      ensures store != null ==>
                store.Contents() == TtlStore.Set(old(store.Contents()), KeyOf(Device(userId, hmac(fingerprint))),
                                                 TtlStore.Text("1"), ttlSeconds)
      ensures store != null ==>
                && store.now == old(store.now)
                && store.entries == old(store.entries)["device:" + userId + ":" + hmac(fingerprint) :=
                     TtlStore.Entry(TtlStore.Text("1"), Some(store.now + ttlSeconds))]
    {
      if store != null {
        store.DoSet(KeyOf(Device(userId, hmac(fingerprint))), TtlStore.Text("1"), ttlSeconds);
      }
    }

    method DoRevoke(userId: string, fingerprint: string)
      modifies if store == null then {} else {store}
      ensures store != null ==>
                store.Contents() == TtlStore.Del(old(store.Contents()), KeyOf(Device(userId, hmac(fingerprint))))
      ensures store != null ==>
                && store.now == old(store.now)
                && store.entries == old(store.entries) - {"device:" + userId + ":" + hmac(fingerprint)}
    {
      if store != null {
        store.DoDel(KeyOf(Device(userId, hmac(fingerprint))));
      }
    }
  }
}
