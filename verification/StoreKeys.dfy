/** The keys the services build, and what keeps them apart on a shared store. */
module StoreKeys {
  import opened Prelude
  import TtlStore
  import Tenant

  /** What a key stands for. */
  datatype Slot =
    | Failures(user: string)
    | LastIp(user: string)
    | StepUp(user: string, device: string, ip: string)
    | Device(user: string, hash: string)
    | Membership(user: string, tenant: string)
    | RateLimit(ip: string)

  datatype Kind = OfFailures | OfLastIp | OfStepUp | OfDevice | OfMembership | OfRateLimit

  const RISK := "risk:user:"
  const DEVICE := "device:"
  const RATE_LIMIT := "rate-limit:"

  function KeyOf(slot: Slot): string
  {
    match slot
    case Failures(user) => RISK + user + ":failures"
    case LastIp(user) => RISK + user + ":last-ip"
    case StepUp(user, device, ip) => RISK + user + ":stepup:" + device + ":" + ip
    case Device(user, hash) => DEVICE + user + ":" + hash
    case Membership(user, tenant) => Tenant.CacheKey(user, tenant)
    case RateLimit(ip) => RATE_LIMIT + ip
  }

  function KindOf(slot: Slot): Kind
  {
    match slot
    case Failures(_) => OfFailures
    case LastIp(_) => OfLastIp
    case StepUp(_, _, _) => OfStepUp
    case Device(_, _) => OfDevice
    case Membership(_, _) => OfMembership
    case RateLimit(_) => OfRateLimit
  }

  /** The user a slot belongs to; for the rate limiter, the client address. */
  function OwnerOf(slot: Slot): string
  {
    match slot
    case RateLimit(ip) => ip
    case _ => slot.user
  }

  predicate PlainUser(slot: Slot)
  {
    slot.RateLimit? || ':' !in slot.user
  }

  /** The text before the user id, and the text after the colon that follows it. */
  function Head(slot: Slot): string
  {
    match slot
    case Device(_, _) => DEVICE
    case Membership(_, _) => Tenant.CACHE_PREFIX + ":"
    case RateLimit(_) => RATE_LIMIT
    case _ => RISK
  }

  function Tail(slot: Slot): string
    requires !slot.RateLimit?
  {
    match slot
    case Failures(_) => "failures"
    case LastIp(_) => "last-ip"
    case StepUp(_, device, ip) => "stepup:" + (device + ":" + ip)
    case Device(_, hash) => hash
    case Membership(_, tenant) => tenant
  }

  lemma StepUpShape(user: string, device: string, ip: string)
    ensures RISK + user + ":stepup:" + device + ":" + ip == RISK + (user + ":" + ("stepup:" + (device + ":" + ip)))
  {}

  lemma KeyShape(slot: Slot)
    requires !slot.RateLimit?
    ensures KeyOf(slot) == Head(slot) + (slot.user + ":" + Tail(slot))
  {
    match slot
    case StepUp(user, device, ip) =>
      StepUpShape(user, device, ip);
    case Failures(user) =>
      assert ":failures" == ":" + "failures";
      Join(RISK, user, "failures", "");
    case LastIp(user) =>
      assert ":last-ip" == ":" + "last-ip";
      Join(RISK, user, "last-ip", "");
    case Device(user, hash) =>
      Regroup(DEVICE, user, ":", hash);
    case Membership(user, tenant) =>
      Regroup(Tenant.CACHE_PREFIX + ":", user, ":", tenant);
  }

  lemma Regroup(a: string, b: string, c: string, d: string)
    ensures a + b + c + d == a + (b + (c + d))
  {}

  lemma Join(head: string, user: string, word: string, x: string)
    ensures head + user + (":" + word) == head + (user + ":" + word)
    ensures head + user + (":" + word) + x == head + (user + ":" + (word + x))
  {}

  lemma KeyBegins(slot: Slot)
    ensures Head(slot) <= KeyOf(slot)
  {}

  /** No head begins another kind's keys. */
  lemma SameHead(a: Slot, b: Slot)
    requires KeyOf(a) == KeyOf(b)
    ensures Head(a) == Head(b)
  {
    KeyBegins(a);
    KeyBegins(b);
    var key := KeyOf(a);
    assert Head(a)[0] == key[0] == Head(b)[0];
    assert Head(a)[1] == key[1] == Head(b)[1];
  }

  /** Neither user id is the other one followed by a colon and more. */
  predicate Apart(u: string, v: string)
  {
    !(u + ":" <= v) && !(v + ":" <= u)
  }

  /** Whose keys are told apart: the same user's, two users' that are apart, and any rate limit's. */
  predicate Separable(a: Slot, b: Slot)
  {
    a.RateLimit? || b.RateLimit? || a.user == b.user || Apart(a.user, b.user)
  }

  lemma ExtensionHasColon(u: string, v: string)
    requires u + ":" <= v
    ensures ':' in v
  {
    assert v[|u|] == ':';
  }

  /** Ids free of colons are always apart. */
  lemma PlainUsersAreSeparable(a: Slot, b: Slot)
    requires PlainUser(a) && PlainUser(b)
    ensures Separable(a, b)
  {
    if !a.RateLimit? && !b.RateLimit? {
      if a.user + ":" <= b.user {
        ExtensionHasColon(a.user, b.user);
      }
      if b.user + ":" <= a.user {
        ExtensionHasColon(b.user, a.user);
      }
    }
  }

  /** A key tells its kind and its owner. */
  lemma KeysTellOwners(a: Slot, b: Slot)
    requires Separable(a, b) && KeyOf(a) == KeyOf(b)
    ensures KindOf(a) == KindOf(b) && OwnerOf(a) == OwnerOf(b)
  {
    SameHead(a, b);
    if a.RateLimit? {
      CancelPrefix(RATE_LIMIT, a.ip, b.ip);
    } else {
      SameKeySameUsers(a, b);
      TailsTellKinds(a, b);
    }
  }

  lemma SameKeySameUsers(a: Slot, b: Slot)
    requires !a.RateLimit? && !b.RateLimit? && KeyOf(a) == KeyOf(b)
    ensures a.user == b.user || !Apart(a.user, b.user)
    ensures a.user == b.user ==> Tail(a) == Tail(b)
  {
    SameHead(a, b);
    KeyShape(a);
    KeyShape(b);
    hide KeyOf, Head, Tail;
    CancelPrefix(Head(a), a.user + ":" + Tail(a), b.user + ":" + Tail(b));
    CutTwice(':', a.user, Tail(a), b.user, Tail(b));
  }

  ghost predicate CanCollide(u: string, v: string)
  {
    exists a: Slot, b: Slot :: !a.RateLimit? && !b.RateLimit? && a.user == u && b.user == v && KeyOf(a) == KeyOf(b)
  }

  lemma ExtendedUserCollides(u: string, v: string)
    requires u + ":" <= v
    ensures CanCollide(u, v) && CanCollide(v, u)
  {
    var rest := v[|u| + 1..];
    var a, b := Membership(u, rest + ":"), Membership(v, "");
    assert v == u + ":" + rest;
    Tenant.SameKeySameJoin(u, rest + ":", v, "");
    assert KeyOf(a) == KeyOf(b);
  }

  /** Two users can own one key exactly when one id is the other followed by a colon and more. */
  lemma CollisionsAreExact(u: string, v: string)
    requires u != v
    ensures CanCollide(u, v) <==> u + ":" <= v || v + ":" <= u
  {
    if u + ":" <= v {
      ExtendedUserCollides(u, v);
    } else if v + ":" <= u {
      ExtendedUserCollides(v, u);
    } else {
      forall a: Slot, b: Slot | !a.RateLimit? && !b.RateLimit? && a.user == u && b.user == v
        ensures KeyOf(a) != KeyOf(b)
      {
        if KeyOf(a) == KeyOf(b) {
          SameKeySameUsers(a, b);
          assert false;
        }
      }
    }
  }

  lemma TailsTellKinds(a: Slot, b: Slot)
    requires !a.RateLimit? && !b.RateLimit? && Head(a) == Head(b) && Tail(a) == Tail(b)
    ensures KindOf(a) == KindOf(b)
  {
    assert a.Device? <==> Head(a)[0] == 'd';
    assert a.Membership? <==> Head(a)[0] == 't';
    assert b.Device? <==> Head(b)[0] == 'd';
    assert b.Membership? <==> Head(b)[0] == 't';
    if !a.Device? && !a.Membership? {
      assert a.Failures? <==> Tail(a)[0] == 'f';
      assert a.LastIp? <==> Tail(a)[0] == 'l';
      assert b.Failures? <==> Tail(b)[0] == 'f';
      assert b.LastIp? <==> Tail(b)[0] == 'l';
    }
  }

  const STEP_UP := ":stepup:"

  lemma StepUpJoin(user: string, text: string)
    ensures user + ":" + ("stepup:" + text) == user + STEP_UP + text
  {
    assert STEP_UP == ":" + "stepup:";
    Regather(user, ":", "stepup:", text);
  }

  lemma Regather(a: string, b: string, c: string, d: string)
    ensures a + b + (c + d) == a + (b + c) + d
  {}

  lemma StepUpInside(v: string, device: string, ip: string, user: string, word: string)
    requires v + STEP_UP + (device + ":" + ip) == user + ":" + word && ':' !in word
    ensures Contains(user, STEP_UP)
  {
    var s := v + STEP_UP + (device + ":" + ip);
    assert s == user + ":" + word;
    assert s[|v| + 8 + |device|] == ':';
    assert forall k | |user| < k < |s| :: s[k] == word[k - |user| - 1];
    assert user[|v|..|v| + 8] == s[|v|..|v| + 8] == STEP_UP;
    ContainsPart(user, STEP_UP, |v|);
  }

  /** A failure counter or last address shares its key with nothing unless the id holds `:stepup:`. */
  lemma WordKeyIsOwn(a: Slot, b: Slot)
    requires (b.Failures? || b.LastIp?) && !Contains(b.user, STEP_UP) && KeyOf(a) == KeyOf(b)
    ensures a == b
  {
    SameHead(a, b);
    KeyShape(a);
    KeyShape(b);
    CancelPrefix(RISK, a.user + ":" + Tail(a), b.user + ":" + Tail(b));
    hide KeyOf, Contains;
    if a.StepUp? {
      StepUpJoin(a.user, a.device + ":" + a.ip);
      StepUpInside(a.user, a.device, a.ip, b.user, Tail(b));
    } else {
      CutAtLast(':', a.user, Tail(a), b.user, Tail(b));
      TailsTellKinds(a, b);
    }
  }

  /** With hashes free of colons, a device shares its key with nothing. */
  lemma DeviceKeyIsOwn(a: Slot, b: Slot)
    requires b.Device? && ':' !in b.hash && (a.Device? ==> ':' !in a.hash) && KeyOf(a) == KeyOf(b)
    ensures a == b
  {
    SameHead(a, b);
    KeyShape(a);
    KeyShape(b);
    CancelPrefix(DEVICE, a.user + ":" + Tail(a), b.user + ":" + Tail(b));
    CutAtLast(':', a.user, Tail(a), b.user, Tail(b));
  }

  /** Neither the user id with the colon after it nor the context can be cut in another way. */
  predicate PlainStepUp(user: string, device: string, ip: string)
  {
    !Contains(user + ":", STEP_UP) && ':' !in device && ':' !in ip && ip != "failures" && ip != "last-ip"
  }

  /** Cut at an earlier separator of several characters, a text has it inside the longer left part. */
  lemma EarlierCut(part: string, c: char, u: string, x: string, v: string, y: string)
    requires |part| >= 2 && part[0] == c && forall k | 0 < k < |part| - 1 :: part[k] != c
    requires u + part + x == v + part + y && |v| < |u|
    ensures Contains(u + [c], part)
  {
    var s, n := u + part + x, |part|;
    assert s == v + part + y;
    assert s[|u|] == c;
    assert forall k | 0 < k < n - 1 :: s[|v| + k] == part[k];
    assert |u| >= |v| + n - 1;
    assert s[..|u| + 1] == u + [c];
    assert (u + [c])[|v|..|v| + n] == s[|v|..|v| + n] == part;
    ContainsPart(u + [c], part, |v|);
  }

  /** There are not colons enough for a later one. */
  lemma NoLaterStepUp(u: string, device: string, ip: string, v: string, x: string, y: string)
    requires ':' !in device && ':' !in ip
    requires v + STEP_UP + (x + ":" + y) == u + STEP_UP + (device + ":" + ip)
    ensures |v| <= |u|
  {
    var s := v + STEP_UP + (x + ":" + y);
    assert s == u + STEP_UP + (device + ":" + ip);
    assert s[|v|] == ':' && s[|v| + 7] == ':' && s[|v| + 8 + |x|] == ':';
    var n := |u| + 8;
    assert forall k | |u| < k < |u| + 7 :: s[k] == STEP_UP[k - |u|];
    assert forall k | 0 < k < 7 :: STEP_UP[k] != ':';
    assert forall k | n <= k < n + |device| :: s[k] == device[k - n];
    assert forall k | n + |device| < k < |s| :: s[k] == ip[k - n - |device| - 1];
  }

  lemma StepUpShapeOf(user: string, device: string, ip: string)
    ensures KeyOf(StepUp(user, device, ip)) == RISK + (user + STEP_UP + (device + ":" + ip))
  {
    KeyShape(StepUp(user, device, ip));
    hide KeyOf;
    StepUpJoin(user, device + ":" + ip);
  }

  /** No key that ends in a word is a step-up key with a plain address. */
  lemma WordIsNoStepUp(a: Slot, user: string, device: string, ip: string)
    requires a.Failures? || a.LastIp?
    requires PlainStepUp(user, device, ip)
    ensures KeyOf(a) != KeyOf(StepUp(user, device, ip))
  {
    KeyShape(a);
    StepUpShapeOf(user, device, ip);
    hide KeyOf, Contains;
    CancelPrefix(RISK, a.user + ":" + Tail(a), user + STEP_UP + (device + ":" + ip));
    assert user + STEP_UP + (device + ":" + ip) == user + STEP_UP + device + ":" + ip;
    if user + STEP_UP + device + ":" + ip == a.user + ":" + Tail(a) {
      CutAtLast(':', user + STEP_UP + device, ip, a.user, Tail(a));
      assert false;
    }
  }

  /** A plain step-up shares its key with nothing at all. */
  lemma StepUpKeyIsOwn(a: Slot, user: string, device: string, ip: string)
    requires PlainStepUp(user, device, ip) && KeyOf(a) == KeyOf(StepUp(user, device, ip))
    ensures a == StepUp(user, device, ip)
  {
    SameHead(a, StepUp(user, device, ip));
    if a.StepUp? {
      StepUpShapeOf(user, device, ip);
      StepUpShapeOf(a.user, a.device, a.ip);
      hide KeyOf;
      CancelPrefix(RISK, a.user + STEP_UP + (a.device + ":" + a.ip), user + STEP_UP + (device + ":" + ip));
      OneStepUp(user, device, ip, a.user, a.device, a.ip);
    } else {
      assert a.Failures? || a.LastIp?;
      hide KeyOf;
      WordIsNoStepUp(a, user, device, ip);
    }
  }

  lemma OneStepUp(u: string, device: string, ip: string, v: string, x: string, y: string)
    requires !Contains(u + ":", STEP_UP) && ':' !in device && ':' !in ip
    requires v + STEP_UP + (x + ":" + y) == u + STEP_UP + (device + ":" + ip)
    ensures v == u && x == device && y == ip
  {
    NoLaterStepUp(u, device, ip, v, x, y);
    if |v| < |u| {
      EarlierCut(STEP_UP, ':', u, device + ":" + ip, v, x + ":" + y);
      assert false;
    }
    var s := u + STEP_UP + (device + ":" + ip);
    assert v == s[..|u|] == u;
    CancelPrefix(u + STEP_UP, x + ":" + y, device + ":" + ip);
    CutAtOnly(':', device, ip, x, y);
  }

  /** One store for everything: a write for one user and kind changes nothing another one reads. */
  lemma WritesStayApart(st: TtlStore.State, a: Slot, b: Slot, value: TtlStore.Value, seconds: int)
    requires Separable(a, b)
    requires KindOf(a) != KindOf(b) || OwnerOf(a) != OwnerOf(b)
    ensures
      var before := TtlStore.View(st, KeyOf(b));
      && TtlStore.View(TtlStore.Set(st, KeyOf(a), value, seconds), KeyOf(b)) == before
      && TtlStore.View(TtlStore.Del(st, KeyOf(a)), KeyOf(b)) == before
      && TtlStore.View(TtlStore.Incr(st, KeyOf(a)).0, KeyOf(b)) == before
      && TtlStore.View(TtlStore.Expire(st, KeyOf(a), seconds), KeyOf(b)) == before
  {
    if KeyOf(a) == KeyOf(b) {
      KeysTellOwners(a, b);
      assert false;
    }
    TtlStore.WritesTouchOneKey(st, KeyOf(a), value, seconds);
    TtlStore.SameView(st, TtlStore.Set(st, KeyOf(a), value, seconds), KeyOf(a), KeyOf(b));
    TtlStore.SameView(st, TtlStore.Del(st, KeyOf(a)), KeyOf(a), KeyOf(b));
    TtlStore.SameView(st, TtlStore.Incr(st, KeyOf(a)).0, KeyOf(a), KeyOf(b));
    TtlStore.SameView(st, TtlStore.Expire(st, KeyOf(a), seconds), KeyOf(a), KeyOf(b));
  }

  /** A collision across kinds: one user's last address is another's step-up mark. */
  lemma ColonsMixOwners(user: string, device: string)
    ensures KeyOf(LastIp(user + ":stepup:" + device)) == KeyOf(StepUp(user, device, "last-ip"))
  {}
}
