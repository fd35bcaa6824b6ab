/**
 * The zero-trust services over whole histories. `Replay` runs a history through the mutable
 * store; the functions after it say, from the list of events alone, what the services must
 * answer. The theorems say the two agree.
 */
module History {
  import opened Prelude
  import opened StoreKeys
  import opened RiskMemory
  import TtlStore
  import Tenant
  import RateLimit
  import RiskEngine
  import ZeroTrust

  datatype Event =
    | Failed(user: string)
    | FailuresReset(user: string)
    | IpStored(user: string, ip: string)
    | DeviceRegistered(user: string, fingerprint: string)
    | DeviceRevoked(user: string, fingerprint: string)
    | StepUpMarked(user: string, context: StepUpContext)
    | StepUpCleared(user: string, context: StepUpContext)
    | MembershipCached(user: string, tenant: string)
    | RequestCounted(ip: string, settings: RateLimit.Settings)

  datatype Stamped = At(time: int, event: Event)

  datatype Setup = Setup(hmac: string -> string, deviceTtl: int)

  /** The one key an event works on. */
  function SlotOf(setup: Setup, e: Event): Slot
  {
    match e
    case Failed(user) => Failures(user)
    case FailuresReset(user) => Failures(user)
    case IpStored(user, _) => LastIp(user)
    case DeviceRegistered(user, fingerprint) => Device(user, setup.hmac(fingerprint))
    case DeviceRevoked(user, fingerprint) => Device(user, setup.hmac(fingerprint))
    case StepUpMarked(user, context) => StepUpSlot(user, context)
    case StepUpCleared(user, context) => StepUpSlot(user, context)
    case MembershipCached(user, tenant) => Membership(user, tenant)
    case RequestCounted(ip, _) => Slot.RateLimit(ip)
  }

  /** What the service that handles the event does to the store. */
  function Do(setup: Setup, st: TtlStore.State, e: Event): TtlStore.State
  {
    var key := KeyOf(SlotOf(setup, e));
    match e
    case Failed(user) => IncrementFailures(st, user).0
    case FailuresReset(_) => TtlStore.Del(st, key)
    case IpStored(_, ip) => TtlStore.Set(st, key, TtlStore.Text(ip), LAST_IP_TTL)
    case DeviceRegistered(_, _) => TtlStore.Set(st, key, TtlStore.Text("1"), setup.deviceTtl)
    case DeviceRevoked(_, _) => TtlStore.Del(st, key)
    case StepUpMarked(_, context) =>
      TtlStore.Set(st, key, TtlStore.StepUpRecord(context.ip, context.deviceId), STEP_UP_TTL)
    case StepUpCleared(_, _) => TtlStore.Del(st, key)
    case MembershipCached(_, _) => TtlStore.Set(st, key, TtlStore.Text("1"), Tenant.CACHE_TTL_SECONDS)
    case RequestCounted(_, settings) => RateLimit.Call(settings, st, key, st.now * 1000).0
  }

  /** The store as a reader finds it at a given time. */
  function Later(st: TtlStore.State, now: int): TtlStore.State
  {
    st.(now := now)
  }

  function Replay(setup: Setup, h: seq<Stamped>): TtlStore.State
  {
    if h == [] then TtlStore.State(map[], 0)
    else
      var last := h[|h| - 1];
      Do(setup, Later(Replay(setup, h[..|h| - 1]), last.time), last.event)
  }

  /** Times never go back, and `now` is not before the last event. */
  ghost predicate Ordered(h: seq<Stamped>, now: int)
  {
    && (forall i, j | 0 <= i < j < |h| :: h[i].time <= h[j].time)
    && (forall i | 0 <= i < |h| :: h[i].time <= now)
  }

  /** The digests hold no colon; those of the repository are hexadecimal. */
  ghost predicate PlainDigests(setup: Setup)
  {
    forall text :: ':' !in setup.hmac(text)
  }

  /** Failures in the unbroken tail: walking back, each less than 900 seconds before the next one. */
  function TailFailures(h: seq<Stamped>, user: string, now: int): nat
  {
    if h == [] then 0
    else
      var last, before := h[|h| - 1], h[..|h| - 1];
      if last.event == FailuresReset(user) then 0
      else if last.event == Failed(user) then
        if now - last.time < 900 then TailFailures(before, user, last.time) + 1 else 0
      else TailFailures(before, user, now)
  }

  /** The address stored last, if that was less than a day ago. */
  function RecentIp(h: seq<Stamped>, user: string, now: int): Option<string>
  {
    if h == [] then None
    else
      var last := h[|h| - 1];
      if last.event.IpStored? && last.event.user == user then
        if now - last.time < 86400 then Some(last.event.ip) else None
      else RecentIp(h[..|h| - 1], user, now)
  }

  /** Whether the last word on a device was a registration that has not run out. */
  predicate Trusted(setup: Setup, h: seq<Stamped>, user: string, hash: string, now: int)
  {
    if h == [] then false
    else
      var last := h[|h| - 1];
      if SlotOf(setup, last.event) == Device(user, hash) then
        last.event.DeviceRegistered? && now - last.time < setup.deviceTtl
      else Trusted(setup, h[..|h| - 1], user, hash, now)
  }

  lemma EventTouchesOneKey(setup: Setup, st: TtlStore.State, e: Event)
    ensures TtlStore.SameExcept(st, Do(setup, st, e), KeyOf(SlotOf(setup, e)))
  {}

  /** An event on another key changes nothing a later reader of this key sees. */
  lemma EventElsewhere(setup: Setup, st: TtlStore.State, e: Event, key: string, now: int)
    requires KeyOf(SlotOf(setup, e)) != key
    ensures TtlStore.View(Later(Do(setup, st, e), now), key) == TtlStore.View(Later(st, now), key)
  {}

  /**
   * The counter with a sliding expiry counts the unbroken tail of failures: the stored count is
   * the length of the tail, and the key is gone exactly when the tail is empty.
   */
  lemma {:induction false} CounterIsTail(setup: Setup, h: seq<Stamped>, user: string, now: int)
    requires Ordered(h, now) && !Contains(user, STEP_UP)
    ensures
      match TtlStore.View(Later(Replay(setup, h), now), KeyOf(Failures(user)))
      case None => TailFailures(h, user, now) == 0
      case Some(e) => TailFailures(h, user, now) > 0 && e.value == TtlStore.Count(TailFailures(h, user, now))
    decreases |h|
  {
    if h != [] {
      var last, before := h[|h| - 1], h[..|h| - 1];
      var st := Later(Replay(setup, before), last.time);
      if SlotOf(setup, last.event) == Failures(user) {
        CounterIsTail(setup, before, user, last.time);
      } else {
        if KeyOf(SlotOf(setup, last.event)) == KeyOf(Failures(user)) {
          WordKeyIsOwn(SlotOf(setup, last.event), Failures(user));
        }
        EventElsewhere(setup, st, last.event, KeyOf(Failures(user)), now);
        CounterIsTail(setup, before, user, now);
        assert Later(st, now) == Later(Replay(setup, before), now);
      }
    }
  }

  /** `getFailures` after any history. */
  lemma FailuresAreTail(setup: Setup, h: seq<Stamped>, user: string, now: int)
    requires Ordered(h, now) && !Contains(user, STEP_UP)
    ensures GetFailures(Later(Replay(setup, h), now), user) == TailFailures(h, user, now)
  {
    CounterIsTail(setup, h, user, now);
  }

  lemma {:induction false} IpIsRecent(setup: Setup, h: seq<Stamped>, user: string, now: int)
    requires Ordered(h, now) && !Contains(user, STEP_UP)
    ensures
      match TtlStore.View(Later(Replay(setup, h), now), KeyOf(LastIp(user)))
      case None => RecentIp(h, user, now) == None
      case Some(e) => e.value.Text? && RecentIp(h, user, now) == Some(e.value.s)
    decreases |h|
  {
    if h != [] {
      var last, before := h[|h| - 1], h[..|h| - 1];
      var st := Later(Replay(setup, before), last.time);
      if SlotOf(setup, last.event) != LastIp(user) {
        if KeyOf(SlotOf(setup, last.event)) == KeyOf(LastIp(user)) {
          WordKeyIsOwn(SlotOf(setup, last.event), LastIp(user));
        }
        EventElsewhere(setup, st, last.event, KeyOf(LastIp(user)), now);
        IpIsRecent(setup, before, user, now);
        assert Later(st, now) == Later(Replay(setup, before), now);
      }
    }
  }

  lemma {:induction false} KnownIsTrusted(setup: Setup, h: seq<Stamped>, user: string, hash: string, now: int)
    requires Ordered(h, now) && PlainDigests(setup) && ':' !in hash
    ensures
      match TtlStore.View(Later(Replay(setup, h), now), KeyOf(Device(user, hash)))
      case None => !Trusted(setup, h, user, hash, now)
      case Some(e) => Trusted(setup, h, user, hash, now) && e.value == TtlStore.Text("1")
    decreases |h|
  {
    if h != [] {
      var last, before := h[|h| - 1], h[..|h| - 1];
      var st := Later(Replay(setup, before), last.time);
      if SlotOf(setup, last.event) != Device(user, hash) {
        if KeyOf(SlotOf(setup, last.event)) == KeyOf(Device(user, hash)) {
          DeviceKeyIsOwn(SlotOf(setup, last.event), Device(user, hash));
        }
        EventElsewhere(setup, st, last.event, KeyOf(Device(user, hash)), now);
        KnownIsTrusted(setup, before, user, hash, now);
        assert Later(st, now) == Later(Replay(setup, before), now);
      }
    }
  }

  /** The store a service was given, after the events it took part in; None when it has no store. */
  function StoreAfter(setup: Setup, h: Option<seq<Stamped>>, now: int): Option<TtlStore.State>
  {
    if h.Some? then Some(Later(Replay(setup, h.value), now)) else None
  }

  /**
   * The evaluation as a function of the events that reached the risk memory's store and of those
   * that reached the device store.
   */
  function EvaluateHistory(setup: Setup, memory: Option<seq<Stamped>>, devices: Option<seq<Stamped>>, now: int,
                           geo: string -> RiskEngine.Geo, c: RiskEngine.Context): RiskEngine.Assessment
  {
    var failures := if memory.Some? then TailFailures(memory.value, c.userId, now) else 0;
    var previousIp := if memory.Some? then RecentIp(memory.value, c.userId, now) else None;
    var known := devices.Some? && Given(c.clientDeviceId)
              && Trusted(setup, devices.value, c.userId, setup.hmac(c.clientDeviceId.value), now);
    RiskEngine.Assess(RiskEngine.Reasons(RiskEngine.SignalsOf(c, failures, previousIp, known, geo)))
  }

  /**
   * The core theorem: score, decision and reasons computed from the mutable stores, whether one,
   * two or missing, are a pure function of the events that reached them.
   */
  lemma EvaluationIsHistory(setup: Setup, memory: Option<seq<Stamped>>, devices: Option<seq<Stamped>>, now: int,
                            geo: string -> RiskEngine.Geo, c: RiskEngine.Context)
    requires PlainDigests(setup) && !Contains(c.userId, STEP_UP)
    requires memory.Some? ==> Ordered(memory.value, now)
    requires devices.Some? ==> Ordered(devices.value, now)
    ensures ZeroTrust.Evaluate(StoreAfter(setup, memory, now), StoreAfter(setup, devices, now), setup.hmac, geo, c)
              == EvaluateHistory(setup, memory, devices, now, geo, c)
  {
    if memory.Some? {
      FailuresAreTail(setup, memory.value, c.userId, now);
      IpIsRecent(setup, memory.value, c.userId, now);
    }
    if devices.Some? && Given(c.clientDeviceId) {
      KnownIsTrusted(setup, devices.value, c.userId, setup.hmac(c.clientDeviceId.value), now);
    }
  }

  /** Every evaluation of the user, from whatever stores, is the pure function of the events. */
  ghost predicate AlwaysHistory(setup: Setup, user: string)
  {
    forall memory: Option<seq<Stamped>>, devices: Option<seq<Stamped>>, now, geo, c: RiskEngine.Context
      | c.userId == user && (memory.Some? ==> Ordered(memory.value, now))
        && (devices.Some? ==> Ordered(devices.value, now)) ::
      ZeroTrust.Evaluate(StoreAfter(setup, memory, now), StoreAfter(setup, devices, now), setup.hmac, geo, c)
        == EvaluateHistory(setup, memory, devices, now, geo, c)
  }

  /** A step-up of another user whose key is this user's failure counter. */
  function Overwriting(time: int, other: string, device: string): Stamped
  {
    At(time, StepUpMarked(other, StepUpContext(Some("failures"), Some(device))))
  }

  /** Whatever failures there were, the mark takes their place in the store. */
  lemma MarkWipesFailures(setup: Setup, h: seq<Stamped>, time: int, user: string, other: string, device: string)
    requires user == other + STEP_UP + device
    ensures
      var marked := h + [Overwriting(time, other, device)];
      && GetFailures(Later(Replay(setup, marked), time), user) == 0
      && TailFailures(marked, user, time) == TailFailures(h, user, time)
  {
    var e := Overwriting(time, other, device);
    var marked := h + [e];
    assert marked[..|marked| - 1] == h;
    assert KeyOf(Failures(user)) == KeyOf(StepUp(other, device, "failures"));
    hide KeyOf;
    assert Replay(setup, marked) == Do(setup, Later(Replay(setup, h), time), e.event);
    hide Replay;
  }

  lemma {:induction false} NeverWritten(setup: Setup, h: seq<Stamped>, key: string, now: int)
    requires forall i | 0 <= i < |h| :: KeyOf(SlotOf(setup, h[i].event)) != key
    ensures TtlStore.View(Later(Replay(setup, h), now), key) == None
    decreases |h|
  {
    if h != [] {
      var last, before := h[|h| - 1], h[..|h| - 1];
      NeverWritten(setup, before, key, now);
      EventElsewhere(setup, Later(Replay(setup, before), last.time), last.event, key, now);
      assert Later(Later(Replay(setup, before), last.time), now) == Later(Replay(setup, before), now);
    }
  }

  /** `n` failures at the instant 0. */
  function Failing(user: string, n: nat): (h: seq<Stamped>)
    ensures |h| == n && forall i | 0 <= i < n :: h[i] == At(0, Failed(user))
    ensures TailFailures(h, user, 0) == n
  {
    if n == 0 then []
    else
      var before := Failing(user, n - 1);
      var h := before + [At(0, Failed(user))];
      assert h[..|h| - 1] == before;
      h
  }

  /** Three failures, then the mark. */
  function Wiped(user: string, other: string, device: string): seq<Stamped>
  {
    Failing(user, 3) + [Overwriting(0, other, device)]
  }

  lemma NoAddress(setup: Setup, user: string, other: string, device: string)
    requires user == other + STEP_UP + device
    ensures
      var h := Wiped(user, other, device);
      && Ordered(h, 0) && RecentIp(h, user, 0) == None && GetLastIp(Later(Replay(setup, h), 0), user) == None
  {
    var h := Wiped(user, other, device);
    assert KeyOf(Failures(user)) == KeyOf(StepUp(other, device, "failures"));
    if KeyOf(Failures(user)) == KeyOf(LastIp(user)) {
      KeysTellOwners(Failures(user), LastIp(user));
      assert false;
    }
    hide KeyOf;
    NeverWritten(setup, h, KeyOf(LastIp(user)), 0);
    NeverStored(h, user, 0);
  }

  lemma {:induction false} NeverStored(h: seq<Stamped>, user: string, now: int)
    requires forall i | 0 <= i < |h| :: !h[i].event.IpStored?
    ensures RecentIp(h, user, now) == None
    decreases |h|
  {
    if h != [] {
      NeverStored(h[..|h| - 1], user, now);
    }
  }

  /** Nothing but the device and the failures of a user with this context can raise a signal. */
  function Bare(user: string): RiskEngine.Context
  {
    RiskEngine.Context(user, None, None, false, false)
  }

  lemma BareDecision(user: string, failures: nat, geo: string -> RiskEngine.Geo)
    requires failures < 6
    ensures
      var s := RiskEngine.SignalsOf(Bare(user), failures, None, false, geo);
      RiskEngine.Assess(RiskEngine.Reasons(s)).decision
        == if failures >= 3 then RiskEngine.StepUpTotp else RiskEngine.Allow
  {
    RiskEngine.AssessmentIsSum(RiskEngine.SignalsOf(Bare(user), failures, None, false, geo));
    hide RiskEngine.Assess, RiskEngine.Reasons;
  }

  /** The mark lets the user in where the history asks for a second factor. */
  lemma StepUpWipesFailures(setup: Setup, geo: string -> RiskEngine.Geo, user: string) returns (h: seq<Stamped>)
    requires Contains(user, STEP_UP)
    ensures Ordered(h, 0)
    ensures ZeroTrust.Evaluate(StoreAfter(setup, Some(h), 0), None, setup.hmac, geo, Bare(user)).decision
              == RiskEngine.Allow
    ensures EvaluateHistory(setup, Some(h), None, 0, geo, Bare(user)).decision == RiskEngine.StepUpTotp
  {
    var i := PartOf(user, STEP_UP);
    var other, device := user[..i], user[i + 8..];
    h := Wiped(user, other, device);
    MarkWipesFailures(setup, Failing(user, 3), 0, user, other, device);
    NoAddress(setup, user, other, device);
    BareDecision(user, 0, geo);
    BareDecision(user, 3, geo);
    hide RiskEngine.Assess, RiskEngine.Reasons, RiskEngine.SignalsOf, Replay, KeyOf, TailFailures, GetFailures;
  }

  /** When decisions follow from the history: exactly for the users whose id does not hold `:stepup:`. */
  lemma HistoryDecidesExactly(setup: Setup, user: string)
    requires PlainDigests(setup)
    ensures AlwaysHistory(setup, user) <==> !Contains(user, STEP_UP)
  {
    if Contains(user, STEP_UP) {
      var h := StepUpWipesFailures(setup, _ => RiskEngine.NoResult, user);
      assert !AlwaysHistory(setup, user) by {
        assert Bare(user).userId == user;
        assert StoreAfter(setup, None, 0) == None;
      }
    } else {
      forall memory: Option<seq<Stamped>>, devices: Option<seq<Stamped>>, now, geo, c: RiskEngine.Context
        | c.userId == user && (memory.Some? ==> Ordered(memory.value, now))
          && (devices.Some? ==> Ordered(devices.value, now))
        ensures ZeroTrust.Evaluate(StoreAfter(setup, memory, now), StoreAfter(setup, devices, now), setup.hmac, geo, c)
                  == EvaluateHistory(setup, memory, devices, now, geo, c)
      {
        EvaluationIsHistory(setup, memory, devices, now, geo, c);
      }
    }
  }
}
