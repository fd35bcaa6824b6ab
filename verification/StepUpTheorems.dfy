/** Step-up windows: when a step-up is valid, and for which users and contexts that is what was marked. */
module StepUpTheorems {
  import opened Prelude
  import opened StoreKeys
  import opened RiskMemory
  import opened History
  import TtlStore

  // ---------------------------------------------------------------- what the key holds

  /** The last event on a key, or -1. */
  function LastOn(setup: Setup, h: seq<Stamped>, key: string): (i: int)
    ensures -1 <= i < |h|
  {
    if h == [] then -1
    else if KeyOf(SlotOf(setup, h[|h| - 1].event)) == key then |h| - 1
    else LastOn(setup, h[..|h| - 1], key)
  }

  lemma {:induction false} LastOnIsLast(setup: Setup, h: seq<Stamped>, key: string)
    ensures
      var i := LastOn(setup, h, key);
      && (i >= 0 ==> KeyOf(SlotOf(setup, h[i].event)) == key)
      && forall j | i < j < |h| :: KeyOf(SlotOf(setup, h[j].event)) != key
    decreases |h|
  {
    hide KeyOf, SlotOf;
    if h != [] {
      LastOnIsLast(setup, h[..|h| - 1], key);
    }
  }

  /** What the step-up key holds when nothing has happened to it since the mark or clearing `e`. */
  function Marked(e: Stamped, now: int): Option<TtlStore.Value>
  {
    if e.event.StepUpMarked? && now - e.time < 600 then
      Some(TtlStore.StepUpRecord(e.event.context.ip, e.event.context.deviceId))
    else None
  }

  predicate OnStepUp(e: Event, user: string)
  {
    (e.StepUpMarked? || e.StepUpCleared?) && e.user == user
  }

  /** Nothing but this user's own step-ups works on the key. */
  ghost predicate Undisturbed(setup: Setup, h: seq<Stamped>, user: string, c: StepUpContext)
  {
    forall i | 0 <= i < |h| && KeyOf(SlotOf(setup, h[i].event)) == KeyOf(StepUpSlot(user, c)) ::
      OnStepUp(h[i].event, user)
  }

  /** Users whose ids are apart do not disturb each other. */
  lemma ApartIsUndisturbed(setup: Setup, h: seq<Stamped>, user: string, c: StepUpContext)
    requires forall i | 0 <= i < |h| :: Separable(SlotOf(setup, h[i].event), StepUpSlot(user, c))
    ensures Undisturbed(setup, h, user, c)
  {
    forall i | 0 <= i < |h| && KeyOf(SlotOf(setup, h[i].event)) == KeyOf(StepUpSlot(user, c))
      ensures OnStepUp(h[i].event, user)
    {
      KeysTellOwners(SlotOf(setup, h[i].event), StepUpSlot(user, c));
      hide KeyOf, Separable;
    }
  }

  lemma StepUpEventHere(setup: Setup, st: TtlStore.State, e: Stamped, now: int)
    requires e.event.StepUpMarked? || e.event.StepUpCleared?
    requires st.now == e.time <= now
    ensures TtlStore.Get(Later(Do(setup, st, e.event), now), KeyOf(SlotOf(setup, e.event))) == Marked(e, now)
  {
    hide KeyOf;
  }

  /** A step-up key holds what its last event left there. */
  lemma {:induction false} StepUpKeyHolds(setup: Setup, h: seq<Stamped>, user: string, c: StepUpContext, now: int)
    requires Ordered(h, now) && Undisturbed(setup, h, user, c)
    ensures
      var key := KeyOf(StepUpSlot(user, c));
      var i := LastOn(setup, h, key);
      && (i >= 0 ==> OnStepUp(h[i].event, user))
      && TtlStore.Get(Later(Replay(setup, h), now), key) == if i >= 0 then Marked(h[i], now) else None
    decreases |h|
  {
    hide KeyOf, SlotOf, Do;
    if h != [] {
      var key := KeyOf(StepUpSlot(user, c));
      var last, before := h[|h| - 1], h[..|h| - 1];
      var st := Later(Replay(setup, before), last.time);
      if KeyOf(SlotOf(setup, last.event)) == key {
        StepUpEventHere(setup, st, last, now);
      } else {
        EventElsewhere(setup, st, last.event, key, now);
        StepUpKeyHolds(setup, before, user, c, now);
        assert Later(st, now) == Later(Replay(setup, before), now);
      }
    }
  }

  /** The user marked this device and address at event `i`, recently enough, and did not clear it since. */
  ghost predicate MarkedAndKept(h: seq<Stamped>, user: string, c: StepUpContext, now: int, i: nat)
  {
    && i < |h| && h[i].event.StepUpMarked? && h[i].event.user == user
    && StepUpSlot(user, h[i].event.context) == StepUpSlot(user, c)
    && now - h[i].time < 600
    && forall j | i < j < |h| && h[j].event.StepUpCleared? && h[j].event.user == user ::
         StepUpSlot(user, h[j].event.context) != StepUpSlot(user, c)
  }

  /** One user's step-ups share a key exactly when they share the text after `:stepup:`. */
  lemma SameStepUpKey(user: string, a: StepUpContext, b: StepUpContext)
    ensures
      var x, y := StepUpSlot(user, a), StepUpSlot(user, b);
      KeyOf(x) == KeyOf(y) <==> x.device + ":" + x.ip == y.device + ":" + y.ip
  {
    hide KeyOf;
    var x, y := StepUpSlot(user, a), StepUpSlot(user, b);
    StepUpShapeOf(user, x.device, x.ip);
    StepUpShapeOf(user, y.device, y.ip);
    CancelPrefix(RISK, user + STEP_UP + (x.device + ":" + x.ip), user + STEP_UP + (y.device + ":" + y.ip));
    CancelPrefix(user + STEP_UP, x.device + ":" + x.ip, y.device + ":" + y.ip);
  }

  // ---------------------------------------------------------------- a valid step-up was marked

  /**
   * The text `device:address` cannot be read as a mark that leaves out the very field the
   * context leaves out.
   */
  predicate Unmixable(c: StepUpContext)
  {
    && (Given(c.deviceId) && !Given(c.ip) ==>
          !(":" <= c.deviceId.value) && !("unknown-device:" <= c.deviceId.value))
    && (Given(c.ip) && !Given(c.deviceId) ==>
          !EndsWith(c.ip.value, ":") && !EndsWith(c.ip.value, ":unknown-ip"))
  }

  /** A mark without a device id: the first colon ends its device text, and that is where the context's ends. */
  lemma DeviceOnly(m: StepUpContext, c: StepUpContext, user: string)
    requires Given(c.deviceId) && !(":" <= c.deviceId.value) && !("unknown-device:" <= c.deviceId.value)
    requires !Given(m.deviceId)
    requires
      var x, y := StepUpSlot(user, m), StepUpSlot(user, c);
      x.device + ":" + x.ip == y.device + ":" + y.ip
    ensures StepUpSlot(user, m) == StepUpSlot(user, c)
  {
    var x, y := StepUpSlot(user, m), StepUpSlot(user, c);
    assert ':' !in x.device;
    assert x.device + ":" == if m.deviceId.Some? then ":" else "unknown-device:";
    CutTwice(':', x.device, x.ip, y.device, y.ip);
  }

  /** A mark without an address: the last colon begins its address text, and the context's. */
  lemma AddressOnly(m: StepUpContext, c: StepUpContext, user: string)
    requires Given(c.ip) && !EndsWith(c.ip.value, ":") && !EndsWith(c.ip.value, ":unknown-ip")
    requires !Given(m.ip)
    requires
      var x, y := StepUpSlot(user, m), StepUpSlot(user, c);
      x.device + ":" + x.ip == y.device + ":" + y.ip
    ensures StepUpSlot(user, m) == StepUpSlot(user, c)
  {
    var x, y := StepUpSlot(user, m), StepUpSlot(user, c);
    assert ':' !in x.ip;
    assert ":" + x.ip == if m.ip.Some? then ":" else ":unknown-ip";
    hide EndsWith;
    CutTwiceFromEnd(':', x.device, x.ip, y.device, y.ip);
  }

  /** A mark under the same key that also passes the field checks is for the same device and address. */
  lemma MatchNamesContext(user: string, m: StepUpContext, c: StepUpContext)
    requires KeyOf(StepUpSlot(user, m)) == KeyOf(StepUpSlot(user, c))
    requires Unmixable(c) && Matches(TtlStore.StepUpRecord(m.ip, m.deviceId), c)
    ensures StepUpSlot(user, m) == StepUpSlot(user, c)
  {
    SameStepUpKey(user, m, c);
    hide KeyOf;
    var x, y := StepUpSlot(user, m), StepUpSlot(user, c);
    if Given(m.deviceId) && Given(c.deviceId) {
      CancelPrefix(x.device + ":", x.ip, y.ip);
    } else if Given(m.ip) && Given(c.ip) {
      assert x.ip == y.ip;
      var s := x.device + ":" + x.ip;
      assert x.device == s[..|s| - |x.ip| - 1] == y.device;
    } else if Given(c.deviceId) && !Given(c.ip) {
      DeviceOnly(m, c, user);
    } else if Given(c.ip) && !Given(c.deviceId) {
      AddressOnly(m, c, user);
    } else if Given(c.ip) {
      assert ':' !in x.device && ':' !in x.ip;
      CutAtOnly(':', x.device, x.ip, y.device, y.ip);
    } else {
      assert ':' !in y.device && ':' !in y.ip;
      CutAtOnly(':', y.device, y.ip, x.device, x.ip);
    }
  }

  /** A valid step-up was marked for this very device and address, whatever colons they hold. */
  lemma StepUpIsSound(setup: Setup, h: seq<Stamped>, user: string, c: StepUpContext, now: int)
    requires Ordered(h, now) && Undisturbed(setup, h, user, c) && Unmixable(c)
    requires IsStepUpValid(Later(Replay(setup, h), now), user, c)
    ensures exists i: nat :: MarkedAndKept(h, user, c, now, i)
  {
    hide KeyOf, Replay, Undisturbed, Unmixable, Matches;
    StepUpKeyHolds(setup, h, user, c, now);
    LastOnIsLast(setup, h, KeyOf(StepUpSlot(user, c)));
    var i := LastOn(setup, h, KeyOf(StepUpSlot(user, c)));
    MatchNamesContext(user, h[i].event.context, c);
    assert MarkedAndKept(h, user, c, now, i);
  }

  /** In every undisturbed history, a valid step-up of this context was marked and kept. */
  ghost predicate AlwaysSound(setup: Setup, user: string, c: StepUpContext)
  {
    forall h, now | Ordered(h, now) && Undisturbed(setup, h, user, c)
                    && IsStepUpValid(Later(Replay(setup, h), now), user, c) ::
      exists i: nat :: MarkedAndKept(h, user, c, now, i)
  }

  /** A mark for another device and address that is taken for one of this context. */
  function Mixed(c: StepUpContext): StepUpContext
    requires !Unmixable(c)
  {
    var x := StepUpSlot("", c);
    if Given(c.deviceId) then
      if ":" <= x.device then StepUpContext(Some(x.device[1..] + ":" + x.ip), Some(""))
      else StepUpContext(Some(x.device[15..] + ":" + x.ip), None)
    else if EndsWith(x.ip, ":") then StepUpContext(Some(""), Some(x.device + ":" + x.ip[..|x.ip| - 1]))
    else StepUpContext(None, Some(x.device + ":" + x.ip[..|x.ip| - 11]))
  }

  /** The separator may be any colon of the text. */
  lemma MoveSeparator(device: string, ip: string, i: nat)
    ensures i < |device| && device[i] == ':' ==>
              device[..i] + ":" + (device[i + 1..] + ":" + ip) == device + ":" + ip
    ensures i < |ip| && ip[i] == ':' ==>
              device + ":" + ip[..i] + ":" + ip[i + 1..] == device + ":" + ip
  {
    if i < |device| && device[i] == ':' {
      assert device == device[..i] + ":" + device[i + 1..];
    }
    if i < |ip| && ip[i] == ':' {
      assert ip == ip[..i] + ":" + ip[i + 1..];
    }
  }

  lemma MixedText(c: StepUpContext)
    requires !Unmixable(c)
    ensures
      var x, y := StepUpSlot("", Mixed(c)), StepUpSlot("", c);
      x.device + ":" + x.ip == y.device + ":" + y.ip && x.device != y.device
  {
    if Given(c.deviceId) {
      MixedDevice(c);
    } else {
      MixedAddress(c);
    }
  }

  lemma MixedDevice(c: StepUpContext)
    requires !Unmixable(c) && Given(c.deviceId)
    ensures
      var x, y := StepUpSlot("", Mixed(c)), StepUpSlot("", c);
      x.device + ":" + x.ip == y.device + ":" + y.ip && x.device != y.device
  {
    var y := StepUpSlot("", c);
    var n := if ":" <= y.device then 0 else 14;
    assert y.device[..n] == if ":" <= y.device then "" else "unknown-device";
    MoveSeparator(y.device, y.ip, n);
    hide EndsWith;
  }

  lemma MixedAddress(c: StepUpContext)
    requires !Unmixable(c) && !Given(c.deviceId)
    ensures
      var x, y := StepUpSlot("", Mixed(c)), StepUpSlot("", c);
      x.device + ":" + x.ip == y.device + ":" + y.ip && x.device != y.device
  {
    var y := StepUpSlot("", c);
    var n := |y.ip| - if EndsWith(y.ip, ":") then 1 else 11;
    assert y.ip[n + 1..] == if EndsWith(y.ip, ":") then "" else "unknown-ip";
    MoveSeparator(y.device, y.ip, n);
  }

  lemma MixedSharesKey(user: string, c: StepUpContext)
    requires !Unmixable(c)
    ensures KeyOf(StepUpSlot(user, Mixed(c))) == KeyOf(StepUpSlot(user, c))
    ensures StepUpSlot(user, Mixed(c)) != StepUpSlot(user, c)
    ensures Matches(TtlStore.StepUpRecord(Mixed(c).ip, Mixed(c).deviceId), c)
  {
    MixedText(c);
    SameStepUpKey(user, Mixed(c), c);
    hide KeyOf, EndsWith;
  }

  lemma MixedIsAccepted(setup: Setup, user: string, c: StepUpContext)
    requires !Unmixable(c)
    ensures !AlwaysSound(setup, user, c)
  {
    var h := [At(0, StepUpMarked(user, Mixed(c)))];
    MixedSharesKey(user, c);
    hide KeyOf, Mixed, Unmixable, Matches;
    assert LastOn(setup, h, KeyOf(StepUpSlot(user, c))) == 0;
    assert Undisturbed(setup, h, user, c);
    StepUpKeyHolds(setup, h, user, c, 0);
    hide Replay, LastOn;
    assert forall i: nat :: !MarkedAndKept(h, user, c, 0, i);
  }

  /** For which contexts a valid step-up can be trusted to be one that was marked. */
  lemma SoundExactly(setup: Setup, user: string, c: StepUpContext)
    ensures AlwaysSound(setup, user, c) <==> Unmixable(c)
  {
    hide IsStepUpValid, Replay, Undisturbed, Unmixable;
    if Unmixable(c) {
      forall h, now | Ordered(h, now) && Undisturbed(setup, h, user, c)
                      && IsStepUpValid(Later(Replay(setup, h), now), user, c)
        ensures exists i: nat :: MarkedAndKept(h, user, c, now, i)
      {
        StepUpIsSound(setup, h, user, c, now);
      }
    } else {
      MixedIsAccepted(setup, user, c);
    }
  }

  // ---------------------------------------------------------------- exactly what was marked

  /** Nothing but this user's step-ups of this device and address works on the key. */
  ghost predicate Sole(setup: Setup, h: seq<Stamped>, user: string, c: StepUpContext)
  {
    forall i | 0 <= i < |h| && KeyOf(SlotOf(setup, h[i].event)) == KeyOf(StepUpSlot(user, c)) ::
      SlotOf(setup, h[i].event) == StepUpSlot(user, c)
  }

  lemma SameSlotMatches(user: string, m: StepUpContext, c: StepUpContext)
    requires StepUpSlot(user, m) == StepUpSlot(user, c)
    ensures Matches(TtlStore.StepUpRecord(m.ip, m.deviceId), c)
  {}

  /** Where the key is the context's own, a step-up is valid exactly when it was marked and kept. */
  lemma SoleIsExact(setup: Setup, h: seq<Stamped>, user: string, c: StepUpContext, now: int)
    requires Ordered(h, now) && Sole(setup, h, user, c)
    ensures
      var valid := IsStepUpValid(Later(Replay(setup, h), now), user, c);
      valid <==> exists i: nat :: MarkedAndKept(h, user, c, now, i)
  {
    hide KeyOf, Replay, Matches;
    var key := KeyOf(StepUpSlot(user, c));
    assert Undisturbed(setup, h, user, c);
    StepUpKeyHolds(setup, h, user, c, now);
    LastOnIsLast(setup, h, key);
    var l := LastOn(setup, h, key);
    if l >= 0 {
      assert SlotOf(setup, h[l].event) == StepUpSlot(user, c);
      SameSlotMatches(user, h[l].event.context, c);
    }
    if IsStepUpValid(Later(Replay(setup, h), now), user, c) {
      assert MarkedAndKept(h, user, c, now, l);
    }
    if i: nat :| MarkedAndKept(h, user, c, now, i) {
      assert SlotOf(setup, h[i].event) == StepUpSlot(user, c);
      assert l >= i && h[l].time >= h[i].time;
    }
  }

  ghost predicate PlainDevices(h: seq<Stamped>, user: string)
  {
    forall i | 0 <= i < |h| && OnStepUp(h[i].event, user) ::
      ':' !in StepUpSlot(user, h[i].event.context).device
  }

  /** With this user's device ids free of colons, whatever the addresses are, validity is exact. */
  lemma StepUpIsExact(setup: Setup, h: seq<Stamped>, user: string, c: StepUpContext, now: int)
    requires Ordered(h, now) && Undisturbed(setup, h, user, c)
    requires PlainDevices(h, user) && ':' !in StepUpSlot(user, c).device
    ensures
      var valid := IsStepUpValid(Later(Replay(setup, h), now), user, c);
      valid <==> exists i: nat :: MarkedAndKept(h, user, c, now, i)
  {
    hide Replay, IsStepUpValid;
    var y := StepUpSlot(user, c);
    forall i | 0 <= i < |h| && KeyOf(SlotOf(setup, h[i].event)) == KeyOf(y)
      ensures SlotOf(setup, h[i].event) == y
    {
      var x := StepUpSlot(user, h[i].event.context);
      SameStepUpKey(user, h[i].event.context, c);
      hide KeyOf;
      CutAtFirst(':', x.device, x.ip, y.device, y.ip);
    }
    SoleIsExact(setup, h, user, c, now);
  }

  /** Validity and marks agree for this user and context in every history. */
  ghost predicate AlwaysExact(setup: Setup, user: string, c: StepUpContext)
  {
    forall h, now | Ordered(h, now) ::
      IsStepUpValid(Later(Replay(setup, h), now), user, c) <==> exists i: nat :: MarkedAndKept(h, user, c, now, i)
  }

  /** A mark, and then an event that works on its key without being for the same device and address. */
  function Spoiled(user: string, c: StepUpContext, spoiler: Event): seq<Stamped>
  {
    [At(0, StepUpMarked(user, c)), At(0, spoiler)]
  }

  /** The event leaves nothing on the key, an unreadable text, or a mark that does not match. */
  predicate Spoils(spoiler: Event, user: string, c: StepUpContext)
  {
    match spoiler
    case FailuresReset(_) => true
    case IpStored(_, _) => true
    case StepUpCleared(other, context) => StepUpSlot(other, context) != StepUpSlot(user, c)
    case StepUpMarked(_, context) => !Matches(TtlStore.StepUpRecord(context.ip, context.deviceId), c)
    case _ => false
  }

  lemma SpoiledMark(setup: Setup, user: string, c: StepUpContext, spoiler: Event)
    requires Spoils(spoiler, user, c) && KeyOf(SlotOf(setup, spoiler)) == KeyOf(StepUpSlot(user, c))
    ensures
      var h := Spoiled(user, c, spoiler);
      && Ordered(h, 0) && MarkedAndKept(h, user, c, 0, 0)
      && !IsStepUpValid(Later(Replay(setup, h), 0), user, c)
  {
    var h := Spoiled(user, c, spoiler);
    assert h[..|h| - 1] == [At(0, StepUpMarked(user, c))];
    hide KeyOf, Matches;
  }

  /** The other context with the same text, made by moving the separator to a colon of this one. */
  function Twin(c: StepUpContext): StepUpContext
    requires ':' in StepUpSlot("", c).device || ':' in StepUpSlot("", c).ip
  {
    var x := StepUpSlot("", c);
    if ':' in x.device then
      var i := IndexOf(x.device, ':');
      StepUpContext(Some(x.device[i + 1..] + ":" + x.ip), Some(x.device[..i]))
    else
      var i := IndexOf(x.ip, ':');
      StepUpContext(Some(x.ip[i + 1..]), Some(x.device + ":" + x.ip[..i]))
  }

  lemma TwinText(c: StepUpContext)
    requires ':' in StepUpSlot("", c).device || ':' in StepUpSlot("", c).ip
    ensures
      var t, y := Twin(c), StepUpSlot("", c);
      && t.deviceId.value + ":" + t.ip.value == y.device + ":" + y.ip
      && |t.deviceId.value| != |y.device| && |t.ip.value| != |y.ip|
  {
    var d, p := StepUpSlot("", c).device, StepUpSlot("", c).ip;
    MoveSeparator(d, p, if ':' in d then IndexOf(d, ':') else IndexOf(p, ':'));
    hide IndexOf;
  }

  lemma TwinSharesKey(user: string, c: StepUpContext)
    requires ':' in StepUpSlot("", c).device || ':' in StepUpSlot("", c).ip
    ensures KeyOf(StepUpSlot(user, Twin(c))) == KeyOf(StepUpSlot(user, c))
    ensures |Twin(c).deviceId.value| != |StepUpSlot("", c).device| && |Twin(c).ip.value| != |StepUpSlot("", c).ip|
  {
    TwinText(c);
    SameStepUpKey(user, Twin(c), c);
    hide KeyOf, IndexOf;
  }

  /** A mark for the twin replaces a kept mark, which then no longer counts. */
  lemma TwinReplacesMark(setup: Setup, user: string, c: StepUpContext)
    requires Given(c.ip) && Given(c.deviceId) && (':' in c.deviceId.value || ':' in c.ip.value)
    ensures
      var h := Spoiled(user, c, StepUpMarked(user, Twin(c)));
      && Ordered(h, 0) && MarkedAndKept(h, user, c, 0, 0)
      && !IsStepUpValid(Later(Replay(setup, h), 0), user, c)
  {
    TwinSharesKey(user, c);
    assert ':' in c.deviceId.value ==> Given(Twin(c).ip);
    assert ':' !in c.deviceId.value ==> Given(Twin(c).deviceId);
    SpoiledMark(setup, user, c, StepUpMarked(user, Twin(c)));
  }

  /** What somebody can do to the key when it is not plain. */
  lemma Spoiler(setup: Setup, user: string, c: StepUpContext) returns (spoiler: Event)
    requires !PlainStepUp(user, StepUpSlot(user, c).device, StepUpSlot(user, c).ip)
    ensures Spoils(spoiler, user, c) && KeyOf(SlotOf(setup, spoiler)) == KeyOf(StepUpSlot(user, c))
  {
    hide KeyOf, Twin, Contains;
    var d, p := StepUpSlot(user, c).device, StepUpSlot(user, c).ip;
    if ':' in d || ':' in p {
      TwinSharesKey(user, c);
      spoiler := StepUpCleared(user, Twin(c));
    } else if p == "failures" {
      spoiler := FailuresReset(user + STEP_UP + d);
      SharedWithWord(user, d, p);
    } else if p == "last-ip" {
      spoiler := IpStored(user + STEP_UP + d, "");
      SharedWithWord(user, d, p);
    } else {
      var v, device := ShorterOwner(user, d, p);
      spoiler := StepUpCleared(v, StepUpContext(Some(d + ":" + p), Some(device)));
    }
  }

  /** A user whose step-ups share this key because `:stepup:` is in the longer id. */
  lemma ShorterOwner(user: string, d: string, p: string) returns (v: string, device: string)
    requires Contains(user + ":", STEP_UP)
    ensures |v| < |user| && KeyOf(StepUp(v, device, d + ":" + p)) == KeyOf(StepUp(user, d, p))
  {
    hide KeyOf;
    var i := PartOf(user + ":", STEP_UP);
    var rest := (user + ":")[i + 8..];
    v, device := (user + ":")[..i], rest + "stepup";
    SharedWithShorter(user, v, rest, d, p);
  }

  lemma SharedWithWord(user: string, d: string, p: string)
    ensures p == "failures" ==> KeyOf(Failures(user + STEP_UP + d)) == KeyOf(StepUp(user, d, p))
    ensures p == "last-ip" ==> KeyOf(LastIp(user + STEP_UP + d)) == KeyOf(StepUp(user, d, p))
  {
    KeyShape(Failures(user + STEP_UP + d));
    KeyShape(LastIp(user + STEP_UP + d));
    StepUpShapeOf(user, d, p);
    hide KeyOf;
    Rejoin(user + STEP_UP, d, p);
  }

  lemma Rejoin(a: string, b: string, d: string)
    ensures a + b + ":" + d == a + (b + ":" + d)
  {}

  lemma SharedWithShorter(user: string, v: string, rest: string, d: string, p: string)
    requires user + ":" == v + STEP_UP + rest
    ensures KeyOf(StepUp(v, rest + "stepup", d + ":" + p)) == KeyOf(StepUp(user, d, p))
  {
    hide KeyOf;
    StepUpShapeOf(user, d, p);
    StepUpShapeOf(v, rest + "stepup", d + ":" + p);
    var text := d + ":" + p;
    assert STEP_UP == ":" + ("stepup" + ":");
    assert user + STEP_UP + text == (user + ":") + ("stepup" + ":" + text);
    assert v + STEP_UP + (rest + "stepup" + ":" + text) == (v + STEP_UP + rest) + ("stepup" + ":" + text);
  }

  /**
   * Step-up validity is exact, in every history, precisely when neither the device id nor the
   * address holds a colon, the address is no word that ends another key, and `:stepup:` is not
   * in the user id and the colon after it. IPv6 addresses hold colons.
   */
  lemma ExactIffPlain(setup: Setup, user: string, c: StepUpContext)
    ensures AlwaysExact(setup, user, c) <==> PlainStepUp(user, StepUpSlot(user, c).device, StepUpSlot(user, c).ip)
  {
    hide IsStepUpValid, Replay, PlainStepUp;
    var y := StepUpSlot(user, c);
    if PlainStepUp(user, y.device, y.ip) {
      forall h: seq<Stamped>, now | Ordered(h, now)
        ensures
          var valid := IsStepUpValid(Later(Replay(setup, h), now), user, c);
          valid <==> exists i: nat :: MarkedAndKept(h, user, c, now, i)
      {
        forall i | 0 <= i < |h| && KeyOf(SlotOf(setup, h[i].event)) == KeyOf(y)
          ensures SlotOf(setup, h[i].event) == y
        {
          StepUpKeyIsOwn(SlotOf(setup, h[i].event), user, y.device, y.ip);
        }
        hide KeyOf;
        SoleIsExact(setup, h, user, c, now);
      }
    } else {
      var spoiler := Spoiler(setup, user, c);
      SpoiledMark(setup, user, c, spoiler);
    }
  }
}
