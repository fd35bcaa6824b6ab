/** What the zero-trust services remember, stated over the list of events alone. */
module HistoryTheorems {
  import opened Prelude
  import opened StoreKeys
  import opened RiskMemory
  import opened History
  import TtlStore
  import RiskEngine
  import ZeroTrust

  // ---------------------------------------------------------------- failures: the longest tail

  /** When the user failed, since the last reset. */
  function FailureTimes(h: seq<Stamped>, user: string): seq<int>
  {
    if h == [] then []
    else
      var last, before := h[|h| - 1], h[..|h| - 1];
      if last.event == FailuresReset(user) then []
      else if last.event == Failed(user) then FailureTimes(before, user) + [last.time]
      else FailureTimes(before, user)
  }

  /** The seconds from a failure to the next one, or from the last one to `now`. */
  function Gap(times: seq<int>, k: nat, now: int): int
    requires k < |times|
  {
    (if k + 1 < |times| then times[k + 1] else now) - times[k]
  }

  /** Each of the last `n` failures is followed within less than 900 seconds. */
  ghost predicate Unbroken(times: seq<int>, n: nat, now: int)
  {
    n <= |times| && forall k: nat | |times| - n <= k < |times| :: Gap(times, k, now) < 900
  }

  lemma UnbrokenSnoc(times: seq<int>, t: int, n: nat, now: int)
    ensures Unbroken(times + [t], n + 1, now) <==> now - t < 900 && Unbroken(times, n, t)
  {
    var more := times + [t];
    assert forall k: nat | k < |times| :: Gap(more, k, now) == Gap(times, k, t);
    assert Gap(more, |times|, now) == now - t;
  }

  /** The number of failures remembered is the length of the longest unbroken tail. */
  lemma {:induction false} TailIsLongest(h: seq<Stamped>, user: string, now: int)
    ensures Unbroken(FailureTimes(h, user), TailFailures(h, user, now), now)
    ensures forall n: nat | Unbroken(FailureTimes(h, user), n, now) :: n <= TailFailures(h, user, now)
    decreases |h|
  {
    if h != [] {
      var last, before := h[|h| - 1], h[..|h| - 1];
      if last.event == Failed(user) {
        TailIsLongest(before, user, last.time);
        var times := FailureTimes(before, user);
        UnbrokenSnoc(times, last.time, TailFailures(before, user, last.time), now);
        forall n: nat | Unbroken(times + [last.time], n, now)
          ensures n <= TailFailures(h, user, now)
        {
          if n > 0 {
            UnbrokenSnoc(times, last.time, n - 1, now);
          }
        }
      } else if last.event != FailuresReset(user) {
        TailIsLongest(before, user, now);
      }
    }
  }

  // ---------------------------------------------------------------- one more failure never helps

  lemma {:induction false} TailShrinksWithTime(h: seq<Stamped>, user: string, sooner: int, later: int)
    requires sooner <= later
    ensures TailFailures(h, user, later) <= TailFailures(h, user, sooner)
    decreases |h|
  {
    if h != [] {
      TailShrinksWithTime(h[..|h| - 1], user, sooner, later);
    }
  }

  /** Nothing recent enough is left when the last event is a whole ttl ago. */
  lemma {:induction false} OldTailIsEmpty(h: seq<Stamped>, user: string, now: int)
    requires forall i | 0 <= i < |h| :: now - h[i].time >= 900
    ensures TailFailures(h, user, now) == 0
    decreases |h|
  {
    if h != [] {
      OldTailIsEmpty(h[..|h| - 1], user, now);
    }
  }

  function Insert(a: seq<Stamped>, time: int, user: string, b: seq<Stamped>): seq<Stamped>
  {
    a + [At(time, Failed(user))] + b
  }

  /** A failure as the last event: the earlier ones still count, and one more may. */
  lemma FailureAtTheEnd(a: seq<Stamped>, time: int, failing: string, user: string, now: int)
    requires time <= now && forall i | 0 <= i < |a| :: a[i].time <= time
    ensures
      var n := TailFailures(a + [At(time, Failed(failing))], user, now);
      TailFailures(a, user, now) <= n && (user != failing ==> TailFailures(a, user, now) == n)
  {
    var long := a + [At(time, Failed(failing))];
    assert long[..|long| - 1] == a;
    if user == failing {
      if now - time < 900 {
        TailShrinksWithTime(a, user, time, now);
      } else {
        OldTailIsEmpty(a, user, now);
      }
    }
  }

  lemma InsertSnoc(a: seq<Stamped>, time: int, user: string, b: seq<Stamped>)
    requires b != []
    ensures a + b == (a + b[..|b| - 1]) + [b[|b| - 1]]
    ensures Insert(a, time, user, b) == Insert(a, time, user, b[..|b| - 1]) + [b[|b| - 1]]
  {}

  /** The recursion of the three readings, one event further. */
  lemma ReadSnoc(setup: Setup, h: seq<Stamped>, last: Stamped, user: string, hash: string, now: int)
    ensures TailFailures(h + [last], user, now) ==
      if last.event == FailuresReset(user) then 0
      else if last.event == Failed(user) then
        if now - last.time < 900 then TailFailures(h, user, last.time) + 1 else 0
      else TailFailures(h, user, now)
    ensures RecentIp(h + [last], user, now) ==
      if last.event.IpStored? && last.event.user == user then
        if now - last.time < 86400 then Some(last.event.ip) else None
      else RecentIp(h, user, now)
    ensures Trusted(setup, h + [last], user, hash, now) ==
      if SlotOf(setup, last.event) == Device(user, hash) then
        last.event.DeviceRegistered? && now - last.time < setup.deviceTtl
      else Trusted(setup, h, user, hash, now)
  {}

  /** A failure inserted anywhere never lowers anybody's later count. */
  lemma {:induction false} InsertedFailure(setup: Setup, a: seq<Stamped>, time: int, failing: string,
                                           b: seq<Stamped>, user: string, now: int)
    requires Ordered(Insert(a, time, failing, b), now)
    ensures TailFailures(a + b, user, now) <= TailFailures(Insert(a, time, failing, b), user, now)
    ensures user != failing ==> TailFailures(a + b, user, now) == TailFailures(Insert(a, time, failing, b), user, now)
    decreases |b|
  {
    if b == [] {
      var long := a + [At(time, Failed(failing))];
      assert a + b == a && Insert(a, time, failing, b) == long && long[|a|].time == time;
      assert forall i | 0 <= i < |a| :: a[i] == long[i];
      FailureAtTheEnd(a, time, failing, user, now);
    } else {
      var b', last := b[..|b| - 1], b[|b| - 1];
      var long := Insert(a, time, failing, b);
      InsertSnoc(a, time, failing, b);
      ReadSnoc(setup, a + b', last, user, "", now);
      ReadSnoc(setup, Insert(a, time, failing, b'), last, user, "", now);
      var end := if last.event == Failed(user) then last.time else now;
      assert long[|long| - 1] == last && long[..|long| - 1] == Insert(a, time, failing, b');
      OrderedBefore(long, now, end);
      hide TailFailures, Insert, Ordered;
      InsertedFailure(setup, a, time, failing, b', user, end);
    }
  }

  /** An inserted failure leaves the other signals alone. */
  lemma {:induction false} InsertedFailureOnly(setup: Setup, a: seq<Stamped>, time: int, failing: string,
                                               b: seq<Stamped>, user: string, hash: string, now: int)
    ensures RecentIp(a + b, user, now) == RecentIp(Insert(a, time, failing, b), user, now)
    ensures Trusted(setup, a + b, user, hash, now)
              == Trusted(setup, Insert(a, time, failing, b), user, hash, now)
    decreases |b|
  {
    if b == [] {
      assert a + b == a && Insert(a, time, failing, b) == a + [At(time, Failed(failing))];
      ReadSnoc(setup, a, At(time, Failed(failing)), user, hash, now);
    } else {
      var b', last := b[..|b| - 1], b[|b| - 1];
      InsertSnoc(a, time, failing, b);
      ReadSnoc(setup, a + b', last, user, hash, now);
      ReadSnoc(setup, Insert(a, time, failing, b'), last, user, hash, now);
      hide RecentIp, Trusted, Insert;
      InsertedFailureOnly(setup, a, time, failing, b', user, hash, now);
    }
  }

  lemma OrderedBefore(h: seq<Stamped>, now: int, end: int)
    requires Ordered(h, now) && h != [] && h[|h| - 1].time <= end
    ensures Ordered(h[..|h| - 1], end)
  {}

  /** Leaving one event out keeps a history ordered. */
  lemma OrderedWithout(a: seq<Stamped>, x: Stamped, b: seq<Stamped>, now: int)
    requires Ordered(a + [x] + b, now)
    ensures Ordered(a + b, now)
  {
    var long, short := a + [x] + b, a + b;
    assert forall i | 0 <= i < |short| :: short[i] == long[if i < |a| then i else i + 1];
  }

  /**
   * One more failed attempt at any point of any history never moves a later decision, as
   * computed from the stores, towards letting the user in.
   */
  lemma ExtraFailureNeverHelps(setup: Setup, a: seq<Stamped>, time: int, failing: string, b: seq<Stamped>,
                               devices: Option<seq<Stamped>>, now: int, geo: string -> RiskEngine.Geo,
                               c: RiskEngine.Context)
    requires PlainDigests(setup) && !Contains(c.userId, STEP_UP)
    requires Ordered(Insert(a, time, failing, b), now)
    requires devices.Some? ==> Ordered(devices.value, now)
    ensures
      var before := StoreAfter(setup, Some(a + b), now);
      var after := StoreAfter(setup, Some(Insert(a, time, failing, b)), now);
      var trust := StoreAfter(setup, devices, now);
      RiskEngine.Rank(ZeroTrust.Evaluate(before, trust, setup.hmac, geo, c).decision)
        <= RiskEngine.Rank(ZeroTrust.Evaluate(after, trust, setup.hmac, geo, c).decision)
  {
    var user := c.userId;
    OrderedWithout(a, At(time, Failed(failing)), b, now);
    EvaluationIsHistory(setup, Some(a + b), devices, now, geo, c);
    EvaluationIsHistory(setup, Some(Insert(a, time, failing, b)), devices, now, geo, c);
    InsertedFailure(setup, a, time, failing, b, user, now);
    InsertedFailureOnly(setup, a, time, failing, b, user, "", now);
    RiskEngine.MoreFailuresNeverWeaken(
      c, TailFailures(a + b, user, now), TailFailures(Insert(a, time, failing, b), user, now),
      RecentIp(a + b, user, now),
      devices.Some? && Given(c.clientDeviceId)
      && Trusted(setup, devices.value, user, setup.hmac(c.clientDeviceId.value), now), geo);
  }

  /** The same with one store shared by both. */
  lemma ExtraFailureNeverHelpsShared(setup: Setup, a: seq<Stamped>, time: int, failing: string, b: seq<Stamped>,
                                     now: int, geo: string -> RiskEngine.Geo, c: RiskEngine.Context)
    requires PlainDigests(setup) && !Contains(c.userId, STEP_UP)
    requires Ordered(Insert(a, time, failing, b), now)
    ensures
      var before := StoreAfter(setup, Some(a + b), now);
      var after := StoreAfter(setup, Some(Insert(a, time, failing, b)), now);
      RiskEngine.Rank(ZeroTrust.Evaluate(before, before, setup.hmac, geo, c).decision)
        <= RiskEngine.Rank(ZeroTrust.Evaluate(after, after, setup.hmac, geo, c).decision)
  {
    var long := Insert(a, time, failing, b);
    var hash := if Given(c.clientDeviceId) then setup.hmac(c.clientDeviceId.value) else "";
    OrderedWithout(a, At(time, Failed(failing)), b, now);
    ExtraFailureNeverHelps(setup, a, time, failing, b, Some(long), now, geo, c);
    EvaluationIsHistory(setup, Some(a + b), Some(a + b), now, geo, c);
    EvaluationIsHistory(setup, Some(a + b), Some(long), now, geo, c);
    InsertedFailureOnly(setup, a, time, failing, b, c.userId, hash, now);
  }

  // ---------------------------------------------------------------- one store or two

  predicate OnDevice(e: Event)
  {
    e.DeviceRegistered? || e.DeviceRevoked?
  }

  /** The events of the device store, or all others. */
  function Only(h: seq<Stamped>, devices: bool): seq<Stamped>
  {
    if h == [] then []
    else
      var last := h[|h| - 1];
      if OnDevice(last.event) == devices then Only(h[..|h| - 1], devices) + [last] else Only(h[..|h| - 1], devices)
  }

  lemma OnlySnoc(h: seq<Stamped>, devices: bool)
    requires h != []
    ensures
      var last, before := h[|h| - 1], Only(h[..|h| - 1], devices);
      Only(h, devices) == if OnDevice(last.event) == devices then before + [last] else before
  {}

  lemma {:induction false} MemoryEventsSuffice(setup: Setup, h: seq<Stamped>, user: string, now: int)
    ensures TailFailures(Only(h, false), user, now) == TailFailures(h, user, now)
    ensures RecentIp(Only(h, false), user, now) == RecentIp(h, user, now)
    decreases |h|
  {
    if h != [] {
      var last, before := h[|h| - 1], h[..|h| - 1];
      assert h == before + [last];
      OnlySnoc(h, false);
      MemoryEventsSuffice(setup, before, user, now);
      MemoryEventsSuffice(setup, before, user, last.time);
      ReadSnoc(setup, before, last, user, "", now);
      ReadSnoc(setup, Only(before, false), last, user, "", now);
      hide TailFailures, RecentIp, Trusted, Only, SlotOf;
    }
  }

  lemma {:induction false} DeviceEventsSuffice(setup: Setup, h: seq<Stamped>, user: string, hash: string, now: int)
    ensures Trusted(setup, Only(h, true), user, hash, now) == Trusted(setup, h, user, hash, now)
    decreases |h|
  {
    if h != [] {
      var last, before := h[|h| - 1], h[..|h| - 1];
      assert h == before + [last];
      OnlySnoc(h, true);
      DeviceEventsSuffice(setup, before, user, hash, now);
      ReadSnoc(setup, before, last, user, hash, now);
      ReadSnoc(setup, Only(before, true), last, user, hash, now);
      assert SlotOf(setup, last.event).Device? ==> OnDevice(last.event);
      hide TailFailures, RecentIp, Trusted, Only, SlotOf;
    }
  }

  /** Giving the devices a store of their own, or sharing one, makes no difference to any decision. */
  lemma SplitStoresDecideAlike(setup: Setup, h: seq<Stamped>, now: int, geo: string -> RiskEngine.Geo,
                               c: RiskEngine.Context)
    ensures EvaluateHistory(setup, Some(Only(h, false)), Some(Only(h, true)), now, geo, c)
              == EvaluateHistory(setup, Some(h), Some(h), now, geo, c)
  {
    var hash := if Given(c.clientDeviceId) then setup.hmac(c.clientDeviceId.value) else "";
    MemoryEventsSuffice(setup, h, c.userId, now);
    DeviceEventsSuffice(setup, h, c.userId, hash, now);
  }
}
