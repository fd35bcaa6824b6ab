/** The services wired to one shared store, with the history of what they were asked to do. */
module Deployment {
  import opened Prelude
  import opened StoreKeys
  import opened History
  import TtlStore
  import Tenant
  import RateLimit
  import RiskMemory
  import RiskEngine
  import ZeroTrust

  /** Doing one more event now is replaying one more event. */
  lemma ReplayNext(setup: Setup, h: seq<Stamped>, now: int, e: Event)
    requires Ordered(h, now)
    ensures Ordered(h + [At(now, e)], now)
    ensures Replay(setup, h + [At(now, e)]) == Do(setup, Later(Replay(setup, h), now), e)
    ensures Do(setup, Later(Replay(setup, h), now), e).now == now
  {
    EventTouchesOneKey(setup, Later(Replay(setup, h), now), e);
    hide Do, SlotOf;
    var more := h + [At(now, e)];
    assert more[..|more| - 1] == h;
  }

  class Services {
    ghost var events: seq<Stamped>
    const setup: Setup
    const store: TtlStore.Store
    const memory: RiskMemory.RiskMemoryService
    const devices: RiskMemory.DeviceService
    const tenants: Tenant.TenantVerifierService
    const limiter: RateLimit.RateLimitService
    const zeroTrust: ZeroTrust.ZeroTrustService

    /** Everything shares the store, and the store holds what replaying the events leaves. */
    ghost predicate Valid()
      reads this, store
    {
      && memory.cache == devices.store == tenants.cache == limiter.cache == store
      && devices.hmac == setup.hmac && devices.ttlSeconds == setup.deviceTtl
      && tenants.Caching() && limiter.enabled
      && zeroTrust.memory == memory && zeroTrust.risk.devices == devices
      && store.Contents() == Later(Replay(setup, events), store.now)
      && Ordered(events, store.now)
    }

    constructor (hmac: string -> string, deviceTtl: int, geo: string -> RiskEngine.Geo, start: int)
      ensures Valid() && fresh(store) && events == [] && store.now == start
      ensures setup == Setup(hmac, deviceTtl) && zeroTrust.risk.geo == geo
    {
      var s := new TtlStore.Store(start);
      var m := new RiskMemory.RiskMemoryService(s);
      var d := new RiskMemory.DeviceService(hmac, deviceTtl, s);
      var t := new Tenant.TenantVerifierService(s, None);
      var l := new RateLimit.RateLimitService(true, None, None, s);
      var r := new RiskEngine.RiskEngineService(geo, d);
      var z := new ZeroTrust.ZeroTrustService(r, m);
      store, memory, devices, tenants, limiter, zeroTrust := s, m, d, t, l, z;
      setup := Setup(hmac, deviceTtl);
      events := [];
    }

    method Wait(seconds: nat)
      requires Valid()
      modifies store
      ensures Valid() && events == old(events) && store.now == old(store.now) + seconds
    {
      store.DoTick(seconds);
    }

    /** Hands one event to the service it is for. */
    method Handle(e: Event)
      requires Valid()
      requires e.RequestCounted? ==> e.settings == limiter.settings
      modifies this, store
      ensures Valid() && events == old(events) + [At(store.now, e)] && store.now == old(store.now)
      ensures e.RequestCounted? ==>
                "rate-limit:" + e.ip in store.entries
                && store.entries - {"rate-limit:" + e.ip} == old(store.entries) - {"rate-limit:" + e.ip}
    {
      ReplayNext(setup, events, store.now, e);
      Perform(e);
      events := events + [At(store.now, e)];
    }

    method Perform(e: Event)
      requires Valid()
      requires e.RequestCounted? ==> e.settings == limiter.settings
      modifies store
      ensures store.Contents() == Do(setup, old(store.Contents()), e)
      ensures e.RequestCounted? ==>
                "rate-limit:" + e.ip in store.entries
                && store.entries - {"rate-limit:" + e.ip} == old(store.entries) - {"rate-limit:" + e.ip}
    {
      match e {
        case Failed(user) => var _ := memory.DoIncrementFailures(user);
        case FailuresReset(user) => memory.DoResetFailures(user);
        case IpStored(user, ip) => memory.DoStoreLastIp(user, ip);
        case DeviceRegistered(user, fingerprint) => devices.DoRegister(user, fingerprint);
        case DeviceRevoked(user, fingerprint) => devices.DoRevoke(user, fingerprint);
        case StepUpMarked(user, context) => memory.DoMarkStepUpVerified(user, context);
        case StepUpCleared(user, context) => memory.DoClearStepUp(user, context);
        case MembershipCached(user, tenant) => tenants.CachePositive(Tenant.CacheKey(user, tenant), false);
        case RequestCounted(ip, _) => var _ := limiter.IsAllowed(KeyOf(Slot.RateLimit(ip)), store.now * 1000);
      }
    }

    /**
     * What the running services decide is the pure function of everything that happened, for a
     * user whose id does not hold `:stepup:`.
     */
    method Evaluate(c: RiskEngine.Context) returns (a: RiskEngine.Assessment)
      requires Valid() && PlainDigests(setup) && !Contains(c.userId, STEP_UP)
      ensures a == EvaluateHistory(setup, Some(events), Some(events), store.now, zeroTrust.risk.geo, c)
      ensures
        var lastIp := RecentIp(events, c.userId, store.now);
        && ("failed_attempts>=3" in a.reasons <==> TailFailures(events, c.userId, store.now) >= 3)
        && ("failed_attempts>=6" in a.reasons <==> TailFailures(events, c.userId, store.now) >= 6)
        && ("ip_changed" in a.reasons <==> RiskMemory.Given(lastIp) && lastIp != c.ip)
        && ("unknown_device" in a.reasons <==>
              !(RiskMemory.Given(c.clientDeviceId)
                && Trusted(setup, events, c.userId, setup.hmac(c.clientDeviceId.value), store.now)))
    {
      a := zeroTrust.DoEvaluate(c);
      EvaluationIsHistory(setup, Some(events), Some(events), store.now, zeroTrust.risk.geo, c);
      RiskEngine.ReasonsMean(c, TailFailures(events, c.userId, store.now), RecentIp(events, c.userId, store.now),
        RiskMemory.Given(c.clientDeviceId)
        && Trusted(setup, events, c.userId, setup.hmac(c.clientDeviceId.value), store.now), zeroTrust.risk.geo);
      hide RiskEngine.Assess, RiskEngine.Reasons, RiskEngine.SignalsOf, TailFailures, RecentIp, Trusted,
        RiskMemory.GetFailures, RiskMemory.GetLastIp, RiskMemory.IsKnown;
    }
  }
}
