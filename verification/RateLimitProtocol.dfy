/**
 * The rate limiter under concurrency: any number of callers on one key, each of whose store
 * operations may be separated from the next by other callers' operations, clock ticks,
 * other services' writes to other keys, or a crash.
 *
 * `hits` records every INCR in order. An epoch is one lifetime of the key: `first[e]` is the
 * hit that created the key for the e-th time and `starts[e]` is when.
 */
module RateLimitProtocol {
  import opened Prelude
  import TtlStore
  import RateLimit

  datatype Config = Config(key: string, settings: RateLimit.Settings) {
    function W(): int { settings.WindowSeconds() }
    function Limit(): int { settings.limit }
  }

  /** Where a caller stands in `isAllowed`; `hit` is the position of its INCR in the record. */
  datatype Phase =
    | NeedsExpire(hit: nat)
    | NeedsTtl(current: nat, hit: nat)
    | Answered(current: nat, hit: nat, ttl: int, at: int)

  datatype Hit = Hit(time: int, epoch: nat, current: nat)

  datatype System = System(
    store: TtlStore.State,
    callers: map<nat, Phase>,
    hits: seq<Hit>,
    starts: seq<int>,
    first: seq<nat>) {

    /** The epoch whose key is the most recent one. */
    function Newest(): int { |starts| - 1 }

    /** One past the last hit of an epoch. */
    function End(e: nat): int
      requires e < |first|
    {
      if e + 1 < |first| then first[e + 1] else |hits|
    }

    predicate Owes(id: nat) { id in callers && callers[id].NeedsExpire? }
  }

  datatype Step =
    | DoIncr(id: nat)
    | DoExpire(id: nat)
    | DoTtl(id: nat)
    | Tick(seconds: nat)
    | Crash(id: nat)
    | OtherKeys(store: TtlStore.State)

  ghost predicate Init(c: Config, st: System)
  {
    && TtlStore.View(st.store, c.key) == None
    && st.callers == map[] && st.hits == [] && st.starts == [] && st.first == []
  }

  function View(c: Config, st: System): Option<TtlStore.Entry>
  {
    TtlStore.View(st.store, c.key)
  }

  ghost predicate Enabled(c: Config, st: System, step: Step)
  {
    match step
    case DoIncr(id) => id !in st.callers && TtlStore.Incr(st.store, c.key).1.Ok?
    case DoExpire(id) => st.Owes(id)
    case DoTtl(id) => id in st.callers && st.callers[id].NeedsTtl?
    case Tick(_) => true
    case Crash(id) => id in st.callers && !st.callers[id].Answered?
    case OtherKeys(store) => store.now == st.store.now && TtlStore.View(store, c.key) == View(c, st)
  }

  ghost function Apply(c: Config, st: System, step: Step): System
    requires Enabled(c, st, step)
  {
    match step
    case DoIncr(id) =>
      var (store, counted) := TtlStore.Incr(st.store, c.key);
      var current := counted.value;
      var hit := |st.hits|;
      if current == 1 then
        st.(store := store,
            callers := st.callers[id := NeedsExpire(hit)],
            hits := st.hits + [Hit(st.store.now, |st.starts|, current)],
            starts := st.starts + [st.store.now],
            first := st.first + [hit])
      else
        st.(store := store,
            callers := st.callers[id := NeedsTtl(current, hit)],
            hits := st.hits + [Hit(st.store.now, Max(st.Newest(), 0), current)])
    case DoExpire(id) =>
      st.(store := TtlStore.Expire(st.store, c.key, c.W()),
          callers := st.callers[id := NeedsTtl(1, st.callers[id].hit)])
    case DoTtl(id) =>
      var p := st.callers[id];
      st.(callers := st.callers[id := Answered(p.current, p.hit, TtlStore.Ttl(st.store, c.key), st.store.now)])
    case Tick(seconds) => st.(store := TtlStore.Tick(st.store, seconds))
    case Crash(id) => st.(callers := st.callers - {id})
    case OtherKeys(store) => st.(store := store)
  }

  /** The state a list of steps leads to, if every step could be taken. */
  ghost function Run(c: Config, st: System, steps: seq<Step>): Option<System>
  {
    if steps == [] then Some(st)
    else
      match Run(c, st, steps[..|steps| - 1])
      case None => None
      case Some(mid) =>
        var last := steps[|steps| - 1];
        if Enabled(c, mid, last) then Some(Apply(c, mid, last)) else None
  }

  /** The record of hits is cut into epochs, each counting 1, 2, 3, ... from its first hit. */
  ghost predicate EpochsCount(st: System)
  {
    && |st.first| == |st.starts|
    && (st.hits == [] <==> st.starts == [])
    && (st.first != [] ==> st.first[0] == 0)
    && (forall e | 0 <= e < |st.first| :: st.first[e] < |st.hits|)
    && (forall e, f | 0 <= e < f < |st.first| :: st.first[e] < st.first[f])
    && (forall i | 0 <= i < |st.hits| :: HitFits(st, i))
  }

  ghost predicate HitFits(st: System, i: nat)
    requires i < |st.hits| && |st.first| == |st.starts|
  {
    var h := st.hits[i];
    && h.epoch < |st.first|
    && st.first[h.epoch] <= i < st.End(h.epoch)
    && h.current == i - st.first[h.epoch] + 1
    && st.starts[h.epoch] <= h.time <= st.store.now
    && (h.current == 1 ==> h.time == st.starts[h.epoch])
    && (h.epoch + 1 < |st.starts| ==> h.time < st.starts[h.epoch + 1])
  }

  /** Epochs begin at least one window apart. */
  ghost predicate EpochsSpaced(c: Config, st: System)
  {
    && (forall e | 0 <= e < |st.starts| :: st.starts[e] <= st.store.now)
    && (forall e | 0 <= e < |st.starts| - 1 :: st.starts[e] + c.W() <= st.starts[e + 1])
  }

  /** The live key belongs to the newest epoch, and an epoch ends no earlier than one window after its start. */
  ghost predicate KeyFits(c: Config, st: System)
    requires |st.first| == |st.starts|
  {
    match View(c, st)
    case None =>
      && (st.starts != [] ==> st.starts[st.Newest()] + c.W() <= st.store.now)
      && (forall i | 0 <= i < |st.hits| :: st.hits[i].time < st.store.now)
    case Some(e) =>
      && st.starts != []
      && e.value.Count? && e.value.n == |st.hits| - st.first[st.Newest()]
      && (e.deadline.Some? ==>
            st.starts[st.Newest()] + c.W() <= e.deadline.value <= st.store.now + c.W())
  }

  /** The newest epoch is over by `deadline`, or hit `hit` is not in it. */
  ghost predicate OverBy(c: Config, st: System, hit: nat, deadline: int)
    requires hit < |st.hits|
  {
    || st.hits[hit].epoch < st.Newest()
    || match View(c, st)
       case None => true
       case Some(e) => e.deadline.Some? && e.deadline.value <= deadline
  }

  ghost predicate CallerFits(c: Config, st: System, p: Phase)
  {
    && p.hit < |st.hits|
    && match p
       case NeedsExpire(hit) => st.hits[hit].current == 1 && st.hits[hit].epoch == st.Newest()
       case NeedsTtl(current, hit) => st.hits[hit].current == current
       case Answered(current, hit, ttl, at) =>
         && st.hits[hit].current == current
         && st.hits[hit].time <= at
         && ttl <= c.W()
         && (ttl != -1 ==> OverBy(c, st, hit, at + Max(ttl, 0)))
  }

  /** The key is live and has no deadline. */
  predicate Unbounded(c: Config, st: System)
  {
    View(c, st).Some? && View(c, st).value.deadline.None?
  }

  /** One caller at most owes the key its deadline, and only while it has none. */
  ghost predicate Owed(c: Config, st: System)
  {
    && (forall a, b | st.Owes(a) && st.Owes(b) :: a == b)
    && (forall a | st.Owes(a) :: Unbounded(c, st))
  }

  ghost predicate Inv(c: Config, st: System)
  {
    && EpochsCount(st)
    && EpochsSpaced(c, st)
    && KeyFits(c, st)
    && (forall id | id in st.callers :: CallerFits(c, st, st.callers[id]))
    && (forall a, b | a in st.callers && b in st.callers && a != b :: st.callers[a].hit != st.callers[b].hit)
    && Owed(c, st)
  }

  /** Steps that do not INCR keep what the invariant says about the record. */
  lemma RecordKept(c: Config, st: System, st': System)
    requires Inv(c, st)
    requires st'.hits == st.hits && st'.starts == st.starts && st'.first == st.first
    requires st'.store.now >= st.store.now
    ensures EpochsCount(st') && EpochsSpaced(c, st')
  {
    forall i | 0 <= i < |st'.hits|
      ensures HitFits(st', i)
    {
      assert HitFits(st, i);
    }
  }

  lemma NewEpochKeepsHit(c: Config, st: System, id: nat, i: nat)
    requires c.W() > 0 && Inv(c, st) && Enabled(c, st, DoIncr(id)) && View(c, st).None?
    requires i < |st.hits|
    ensures |Apply(c, st, DoIncr(id)).first| == |Apply(c, st, DoIncr(id)).starts|
    ensures i < |Apply(c, st, DoIncr(id)).hits| && HitFits(Apply(c, st, DoIncr(id)), i)
  {
    hide CallerFits, Owed;
    assert HitFits(st, i);
  }

  lemma NewEpochKeepsRecord(c: Config, st: System, id: nat)
    requires c.W() > 0 && Inv(c, st) && Enabled(c, st, DoIncr(id)) && View(c, st).None?
    ensures EpochsCount(Apply(c, st, DoIncr(id))) && EpochsSpaced(c, Apply(c, st, DoIncr(id)))
  {
    forall i | 0 <= i < |st.hits| {
      NewEpochKeepsHit(c, st, id, i);
    }
    hide CallerFits, Owed;
    var st' := Apply(c, st, DoIncr(id));
    assert HitFits(st', |st.hits|);
    hide HitFits;
  }

  lemma SameEpochKeepsRecord(c: Config, st: System, id: nat)
    requires c.W() > 0 && Inv(c, st) && Enabled(c, st, DoIncr(id)) && View(c, st).Some?
    ensures EpochsCount(Apply(c, st, DoIncr(id))) && EpochsSpaced(c, Apply(c, st, DoIncr(id)))
  {
    var st' := Apply(c, st, DoIncr(id));
    assert HitFits(st, st.first[st.Newest()]);
    forall i | 0 <= i < |st'.hits|
      ensures HitFits(st', i)
    {
      if i < |st.hits| {
        assert HitFits(st, i);
      }
    }
  }

  lemma IncrKeepsCallers(c: Config, st: System, id: nat, a: nat)
    requires c.W() > 0 && Inv(c, st) && Enabled(c, st, DoIncr(id))
    requires a in Apply(c, st, DoIncr(id)).callers
    ensures CallerFits(c, Apply(c, st, DoIncr(id)), Apply(c, st, DoIncr(id)).callers[a])
  {
    if a != id {
      assert CallerFits(c, st, st.callers[a]);
      assert HitFits(st, st.callers[a].hit);
      assert st.callers[a].NeedsExpire? ==> st.Owes(a);
    }
  }

  lemma IncrKeepsOwed(c: Config, st: System, id: nat)
    requires c.W() > 0 && Inv(c, st) && Enabled(c, st, DoIncr(id))
    ensures Owed(c, Apply(c, st, DoIncr(id)))
  {
    var st' := Apply(c, st, DoIncr(id));
    if View(c, st).None? {
      assert st'.Owes(id);
      assert forall a | st'.Owes(a) :: a == id || st.Owes(a);
    } else {
      assert forall a :: st'.Owes(a) <==> st.Owes(a);
    }
  }

  lemma IncrKeepsInv(c: Config, st: System, id: nat)
    requires c.W() > 0 && Inv(c, st) && Enabled(c, st, DoIncr(id))
    ensures Inv(c, Apply(c, st, DoIncr(id)))
  {
    if View(c, st).None? {
      NewEpochKeepsRecord(c, st, id);
    } else {
      SameEpochKeepsRecord(c, st, id);
    }
    forall a | a in Apply(c, st, DoIncr(id)).callers {
      IncrKeepsCallers(c, st, id, a);
    }
    assert forall a | a in st.callers :: CallerFits(c, st, st.callers[a]);
    IncrKeepsOwed(c, st, id);
  }

  lemma ExpireKeepsInv(c: Config, st: System, id: nat)
    requires c.W() > 0 && Inv(c, st) && Enabled(c, st, DoExpire(id))
    ensures Inv(c, Apply(c, st, DoExpire(id)))
  {
    var st' := Apply(c, st, DoExpire(id));
    RecordKept(c, st, st');
    forall a | a in st'.callers
      ensures CallerFits(c, st', st'.callers[a])
    {
      assert CallerFits(c, st, st.callers[a]);
    }
    assert forall a :: st'.Owes(a) ==> st.Owes(a);
    assert st.Owes(id) && !st'.Owes(id);
  }

  lemma TtlKeepsInv(c: Config, st: System, id: nat)
    requires c.W() > 0 && Inv(c, st) && Enabled(c, st, DoTtl(id))
    ensures Inv(c, Apply(c, st, DoTtl(id)))
  {
    var st' := Apply(c, st, DoTtl(id));
    RecordKept(c, st, st');
    forall a | a in st'.callers
      ensures CallerFits(c, st', st'.callers[a])
    {
      assert CallerFits(c, st, st.callers[a]);
      assert HitFits(st, st.callers[a].hit);
    }
    assert forall a :: st'.Owes(a) <==> st.Owes(a);
  }

  /** Time passing and writes to other keys: at most the key's deadline is reached. */
  lemma StoreStepKeepsInv(c: Config, st: System, st': System)
    requires c.W() > 0 && Inv(c, st)
    requires st' == st.(store := st'.store) && st'.store.now >= st.store.now
    requires View(c, st') == View(c, st)
          || (View(c, st).Some? && View(c, st').None?
              && View(c, st).value.deadline.Some? && View(c, st).value.deadline.value <= st'.store.now)
    ensures Inv(c, st')
  {
    RecordKept(c, st, st');
    forall a | a in st'.callers
      ensures CallerFits(c, st', st'.callers[a])
    {
      assert CallerFits(c, st, st.callers[a]);
    }
    assert forall a :: st'.Owes(a) <==> st.Owes(a);
    forall i | 0 <= i < |st.hits|
      ensures View(c, st').None? ==> st'.hits[i].time < st'.store.now
    {
      assert HitFits(st, i);
    }
  }

  lemma CrashKeepsInv(c: Config, st: System, id: nat)
    requires c.W() > 0 && Inv(c, st) && Enabled(c, st, Crash(id))
    ensures Inv(c, Apply(c, st, Crash(id)))
  {
    var st' := Apply(c, st, Crash(id));
    RecordKept(c, st, st');
    forall a | a in st'.callers
      ensures CallerFits(c, st', st'.callers[a])
    {
      assert CallerFits(c, st, st.callers[a]);
    }
    assert forall a :: st'.Owes(a) ==> st.Owes(a);
  }

  /** Every state any run can reach satisfies the invariant. */
  lemma {:induction false} RunKeepsInv(c: Config, st: System, steps: seq<Step>)
    requires c.W() > 0 && Inv(c, st) && Run(c, st, steps).Some?
    ensures Inv(c, Run(c, st, steps).value)
    decreases |steps|
  {
    if steps != [] {
      var mid := Run(c, st, steps[..|steps| - 1]).value;
      RunKeepsInv(c, st, steps[..|steps| - 1]);
      match steps[|steps| - 1]
      case DoIncr(id) => IncrKeepsInv(c, mid, id);
      case DoExpire(id) => ExpireKeepsInv(c, mid, id);
      case DoTtl(id) => TtlKeepsInv(c, mid, id);
      case Crash(id) => CrashKeepsInv(c, mid, id);
      case Tick(seconds) => StoreStepKeepsInv(c, mid, Apply(c, mid, Tick(seconds)));
      case OtherKeys(store) => StoreStepKeepsInv(c, mid, Apply(c, mid, OtherKeys(store)));
    }
  }

  ghost predicate Reachable(c: Config, st: System)
  {
    exists init, steps :: Init(c, init) && Run(c, init, steps) == Some(st)
  }

  lemma ReachableInv(c: Config, st: System)
    requires c.W() > 0 && Reachable(c, st)
    ensures Inv(c, st)
  {
    var init, steps :| Init(c, init) && Run(c, init, steps) == Some(st);
    RunKeepsInv(c, init, steps);
  }
}
