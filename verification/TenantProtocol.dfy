/**
 * Concurrent verifications over one shared cache, against a tenant service whose answers may
 * change at any time. A verification reads the cache, asks the service, and writes a positive
 * answer back, with other verifications, clock ticks, evictions and other services' writes
 * in between. `answers` and `outcomes` record what the service said and what was decided.
 */
module TenantProtocol {
  import opened Prelude
  import opened Tenant
  import TtlStore

  /** `delay` bounds the seconds from the service's answer to the end of the cache write. */
  datatype Config = Config(caching: bool, delay: nat)

  datatype Phase = Asking(user: string, tenant: string) | Writing(user: string, tenant: string, answer: nat)

  datatype Told = Told(time: int, user: string, tenant: string, reply: Reply)

  /** A finished verification; `source` is the answer it rests on. */
  datatype Outcome = Outcome(time: int, user: string, tenant: string, verdict: Verdict, source: nat)

  datatype System = System(
    store: TtlStore.State,
    callers: map<nat, Phase>,
    answers: seq<Told>,
    outcomes: seq<Outcome>,
    origin: map<string, nat>)

  datatype Step =
    | Read(id: nat, user: string, tenant: string, fails: bool)
    | Ask(id: nat, reply: Reply)
    | Write(id: nat, fails: bool)
    | Drop(id: nat)
    | Tick(seconds: nat)
    | OtherKeys(store: TtlStore.State)

  function Cached(st: System, user: string, tenant: string): Option<TtlStore.Entry>
  {
    TtlStore.View(st.store, CacheKey(user, tenant))
  }

  ghost predicate Init(st: System)
  {
    && (forall u, t :: Cached(st, u, t).None?)
    && st.callers == map[] && st.answers == [] && st.outcomes == [] && st.origin == map[]
  }

  ghost predicate Enabled(c: Config, st: System, step: Step)
  {
    match step
    case Read(id, user, _, _) => id !in st.callers && user != ""
    case Ask(id, _) => id in st.callers && st.callers[id].Asking?
    case Write(id, _) =>
      && id in st.callers && st.callers[id].Writing?
      && (st.callers[id].answer < |st.answers| ==>
            st.store.now - st.answers[st.callers[id].answer].time <= c.delay)
    case Drop(id) => id in st.callers
    case Tick(_) => true
    case OtherKeys(store) =>
      && store.now == st.store.now
      && (forall u, t :: var seen := TtlStore.View(store, CacheKey(u, t)); seen == None || seen == Cached(st, u, t))
  }

  ghost function Finish(st: System, id: nat, user: string, tenant: string, verdict: Verdict, source: nat): System
  {
    st.(callers := st.callers - {id},
        outcomes := st.outcomes + [Outcome(st.store.now, user, tenant, verdict, source)])
  }

  ghost function Apply(c: Config, st: System, step: Step): System
    requires Enabled(c, st, step)
  {
    match step
    case Read(id, user, tenant, fails) =>
      var key := CacheKey(user, tenant);
      if c.caching && !fails && TtlStore.Get(st.store, key).Some? then
        Finish(st, id, user, tenant, Accepted, if key in st.origin then st.origin[key] else 0)
      else
        st.(callers := st.callers[id := Asking(user, tenant)])
    case Ask(id, reply) =>
      var p := st.callers[id];
      var told := st.(answers := st.answers + [Told(st.store.now, p.user, p.tenant, reply)]);
      var verdict := JudgeMembership(reply);
      if verdict.Accepted? then
        told.(callers := st.callers[id := Writing(p.user, p.tenant, |st.answers|)])
      else
        Finish(told, id, p.user, p.tenant, verdict, |st.answers|)
    case Write(id, fails) =>
      var p := st.callers[id];
      var key := CacheKey(p.user, p.tenant);
      var written :=
        if c.caching && !fails then
          st.(store := TtlStore.Set(st.store, key, TtlStore.Text("1"), CACHE_TTL_SECONDS),
              origin := st.origin[key := p.answer])
        else st;
      Finish(written, id, p.user, p.tenant, Accepted, p.answer)
    case Drop(id) => st.(callers := st.callers - {id})
    case Tick(seconds) => st.(store := TtlStore.Tick(st.store, seconds))
    case OtherKeys(store) => st.(store := store)
  }

  ghost function Run(c: Config, st: System, steps: seq<Step>): Option<System>
  {
    if steps == [] then Some(st)
    else
      match Run(c, st, steps[..|steps| - 1])
      case None => None
      case Some(mid) =>
        var last := steps[|steps| - 1];
        if Enabled(c, mid, last) then Some(Apply(c, mid, last)) else None
  }

  ghost predicate Reachable(c: Config, st: System)
  {
    exists init, steps :: Init(init) && Run(c, init, steps) == Some(st)
  }

  /** The service said yes for a pair with this cache key. */
  ghost predicate SaidYes(a: Told, user: string, tenant: string)
  {
    JudgeMembership(a.reply).Accepted? && CacheKey(a.user, a.tenant) == CacheKey(user, tenant)
  }

  ghost predicate CacheFits(c: Config, st: System, user: string, tenant: string)
  {
    var key := CacheKey(user, tenant);
    match Cached(st, user, tenant)
    case None => true
    case Some(e) =>
      && key in st.origin && st.origin[key] < |st.answers|
      && SaidYes(st.answers[st.origin[key]], user, tenant)
      && e.deadline.Some?
      && e.deadline.value <= st.answers[st.origin[key]].time + c.delay + 45
  }

  ghost predicate CallerFits(st: System, p: Phase)
  {
    && p.user != ""
    && (p.Writing? ==>
      && p.answer < |st.answers|
      && st.answers[p.answer].user == p.user && st.answers[p.answer].tenant == p.tenant
      && JudgeMembership(st.answers[p.answer].reply).Accepted?)
  }

  ghost predicate OutcomeFits(c: Config, st: System, o: Outcome)
  {
    && o.time <= st.store.now
    && o.source < |st.answers|
    && var a := st.answers[o.source];
       && a.time <= o.time
       && (c.caching || (a.user == o.user && a.tenant == o.tenant))
       && match o.verdict
          case Accepted => SaidYes(a, o.user, o.tenant) && o.time < a.time + 45 + c.delay
          case Rejected(_) => a.user == o.user && a.tenant == o.tenant && JudgeMembership(a.reply) == o.verdict
  }

  ghost predicate Inv(c: Config, st: System)
  {
    && (forall i | 0 <= i < |st.answers| :: st.answers[i].time <= st.store.now && st.answers[i].user != "")
    && (forall u, t :: CacheFits(c, st, u, t))
    && (forall id | id in st.callers :: CallerFits(st, st.callers[id]))
    && (forall i | 0 <= i < |st.outcomes| :: OutcomeFits(c, st, st.outcomes[i]))
  }

  lemma ReadKeepsInv(c: Config, st: System, step: Step)
    requires Inv(c, st) && step.Read? && Enabled(c, st, step)
    ensures Inv(c, Apply(c, st, step))
  {
    assert CacheFits(c, st, step.user, step.tenant);
    assert forall u, t :: CacheFits(c, st, u, t) ==> CacheFits(c, Apply(c, st, step), u, t);
  }

  lemma AskKeepsInv(c: Config, st: System, step: Step)
    requires Inv(c, st) && step.Ask? && Enabled(c, st, step)
    ensures Inv(c, Apply(c, st, step))
  {
    assert forall u, t :: CacheFits(c, st, u, t) ==> CacheFits(c, Apply(c, st, step), u, t);
  }

  lemma WriteKeepsInv(c: Config, st: System, step: Step)
    requires Inv(c, st) && step.Write? && Enabled(c, st, step)
    ensures Inv(c, Apply(c, st, step))
  {
    var st' := Apply(c, st, step);
    var p := st.callers[step.id];
    assert CallerFits(st, p);
    forall u, t
      ensures CacheFits(c, st', u, t)
    {
      assert CacheFits(c, st, u, t);
    }
  }

  lemma StoreStepKeepsInv(c: Config, st: System, st': System)
    requires Inv(c, st)
    requires st' == st.(store := st'.store) && st'.store.now >= st.store.now
    requires forall u, t :: Cached(st', u, t) == None || Cached(st', u, t) == Cached(st, u, t)
    ensures Inv(c, st')
  {
    forall u, t
      ensures CacheFits(c, st', u, t)
    {
      assert CacheFits(c, st, u, t);
    }
  }

  lemma {:induction false} RunKeepsInv(c: Config, st: System, steps: seq<Step>)
    requires Inv(c, st) && Run(c, st, steps).Some?
    ensures Inv(c, Run(c, st, steps).value)
    decreases |steps|
  {
    if steps != [] {
      var mid := Run(c, st, steps[..|steps| - 1]).value;
      RunKeepsInv(c, st, steps[..|steps| - 1]);
      match steps[|steps| - 1]
      case Read(_, _, _, _) => ReadKeepsInv(c, mid, steps[|steps| - 1]);
      case Ask(_, _) => AskKeepsInv(c, mid, steps[|steps| - 1]);
      case Write(_, _) => WriteKeepsInv(c, mid, steps[|steps| - 1]);
      case Drop(_) =>
        assert forall u, t :: CacheFits(c, mid, u, t) ==> CacheFits(c, Run(c, st, steps).value, u, t);
      case Tick(seconds) => StoreStepKeepsInv(c, mid, Apply(c, mid, Tick(seconds)));
      case OtherKeys(store) => StoreStepKeepsInv(c, mid, Apply(c, mid, OtherKeys(store)));
    }
  }

  lemma ReachableInv(c: Config, st: System)
    requires Reachable(c, st)
    ensures Inv(c, st)
  {
    var init, steps :| Init(init) && Run(c, init, steps) == Some(st);
    assert forall u, t :: Cached(init, u, t).None?;
    RunKeepsInv(c, init, steps);
  }

  /**
   * Bounded staleness: every accepted verification rests on a positive answer, given no later
   * and less than 45 + delay seconds earlier, for a pair with the same cache key.
   */
  lemma AcceptanceIsFresh(c: Config, st: System, i: nat)
    requires Reachable(c, st) && i < |st.outcomes| && st.outcomes[i].verdict.Accepted?
    ensures
      var o := st.outcomes[i];
      exists j :: 0 <= j < |st.answers|
        && SaidYes(st.answers[j], o.user, o.tenant)
        && st.answers[j].time <= o.time < st.answers[j].time + 45 + c.delay
  {
    ReachableInv(c, st);
    assert OutcomeFits(c, st, st.outcomes[i]);
  }

  /** The service itself said yes for exactly this pair, recently enough. */
  ghost predicate SaidYesLately(c: Config, st: System, user: string, tenant: string, time: int)
  {
    exists j :: 0 <= j < |st.answers|
      && st.answers[j].user == user && st.answers[j].tenant == tenant
      && JudgeMembership(st.answers[j].reply).Accepted?
      && st.answers[j].time <= time < st.answers[j].time + 45 + c.delay
  }

  ghost predicate AcceptedOnlyWhenBacked(c: Config, st: System, user: string, tenant: string)
  {
    forall i | 0 <= i < |st.outcomes| && st.outcomes[i].verdict.Accepted?
               && st.outcomes[i].user == user && st.outcomes[i].tenant == tenant ::
      SaidYesLately(c, st, user, tenant, st.outcomes[i].time)
  }

  /** Every yes about the pair was given before `r`. */
  ghost predicate RevokedAt(st: System, user: string, tenant: string, r: int)
  {
    forall j | 0 <= j < |st.answers| && st.answers[j].user == user && st.answers[j].tenant == tenant ::
      JudgeMembership(st.answers[j].reply).Accepted? ==> st.answers[j].time < r
  }

  /** Whenever it was revoked, the pair is no longer accepted 45 + delay seconds later. */
  ghost predicate Revocable(c: Config, st: System, user: string, tenant: string)
  {
    forall r, i | RevokedAt(st, user, tenant, r) && 0 <= i < |st.outcomes|
                  && st.outcomes[i].user == user && st.outcomes[i].tenant == tenant
                  && st.outcomes[i].time >= r + 45 + c.delay ::
      st.outcomes[i].verdict.Rejected?
  }

  /** The service never said anything else about the pair. */
  ghost predicate Constant(st: System, user: string, tenant: string, truth: Reply)
  {
    forall j | 0 <= j < |st.answers| && st.answers[j].user == user && st.answers[j].tenant == tenant ::
      st.answers[j].reply == truth
  }

  /** If the service's answer about the pair never changes, every verification ends as without a cache. */
  ghost predicate Transparent(st: System, user: string, tenant: string)
  {
    forall truth, i | Constant(st, user, tenant, truth) && 0 <= i < |st.outcomes|
                      && st.outcomes[i].user == user && st.outcomes[i].tenant == tenant ::
      st.outcomes[i].verdict == JudgeMembership(truth)
  }

  /** With the cache on, the service was not asked about another pair with this pair's cache key. */
  ghost predicate Unmixed(c: Config, st: System, user: string, tenant: string)
  {
    c.caching ==>
      forall j | 0 <= j < |st.answers|
                 && CacheKey(st.answers[j].user, st.answers[j].tenant) == CacheKey(user, tenant) ::
        st.answers[j].user == user && st.answers[j].tenant == tenant
  }

  /** Acceptances in an unmixed run are backed by answers for exactly that pair. */
  lemma UnmixedIsBacked(c: Config, st: System, user: string, tenant: string)
    requires Reachable(c, st) && Unmixed(c, st, user, tenant)
    ensures AcceptedOnlyWhenBacked(c, st, user, tenant)
  {
    ReachableInv(c, st);
    forall i | 0 <= i < |st.outcomes| && st.outcomes[i].verdict.Accepted?
               && st.outcomes[i].user == user && st.outcomes[i].tenant == tenant
      ensures SaidYesLately(c, st, user, tenant, st.outcomes[i].time)
    {
      assert OutcomeFits(c, st, st.outcomes[i]);
    }
  }

  /** Once the service stops saying yes at `r`, the pair is no longer accepted from r + 45 + delay on. */
  lemma RevocationTakesEffect(c: Config, st: System, user: string, tenant: string)
    requires Reachable(c, st) && Unmixed(c, st, user, tenant)
    ensures Revocable(c, st, user, tenant)
  {
    UnmixedIsBacked(c, st, user, tenant);
  }

  /**
   * Transparency: if what the service says about a pair never changes, every verification of
   * the pair ends as it would without a cache, whatever the cache did.
   */
  lemma CacheIsTransparent(c: Config, st: System, user: string, tenant: string)
    requires Reachable(c, st) && Unmixed(c, st, user, tenant)
    ensures Transparent(st, user, tenant)
  {
    ReachableInv(c, st);
    assert forall i | 0 <= i < |st.outcomes| :: OutcomeFits(c, st, st.outcomes[i]);
  }

  ghost predicate AllGuarantees(c: Config, st: System, user: string, tenant: string)
  {
    AcceptedOnlyWhenBacked(c, st, user, tenant) && Revocable(c, st, user, tenant) && Transparent(st, user, tenant)
  }

  lemma UnmixedIsSafe(c: Config, st: System, user: string, tenant: string)
    requires Reachable(c, st) && Unmixed(c, st, user, tenant)
    ensures AllGuarantees(c, st, user, tenant)
  {
    UnmixedIsBacked(c, st, user, tenant);
    RevocationTakesEffect(c, st, user, tenant);
    CacheIsTransparent(c, st, user, tenant);
  }

  /** Pairs with one possible separator are never mixed up, whoever else is verified. */
  lemma OneSeparatorIsSafe(c: Config, st: System, user: string, tenant: string)
    requires Reachable(c, st) && OneSeparator(user, tenant)
    ensures AllGuarantees(c, st, user, tenant)
  {
    ReachableInv(c, st);
    KeyOwnership(user, tenant);
    UnmixedIsSafe(c, st, user, tenant);
  }

  /** Nor is any tenant id, as long as no user id holds a colon. */
  lemma PlainUsersAreSafe(c: Config, st: System, user: string, tenant: string)
    requires Reachable(c, st) && ':' !in user && forall j | 0 <= j < |st.answers| :: ':' !in st.answers[j].user
    ensures AllGuarantees(c, st, user, tenant)
  {
    forall j | 0 <= j < |st.answers| && CacheKey(st.answers[j].user, st.answers[j].tenant) == CacheKey(user, tenant)
      ensures st.answers[j].user == user && st.answers[j].tenant == tenant
    {
      SameKeySameJoin(st.answers[j].user, st.answers[j].tenant, user, tenant);
      CutAtFirst(':', st.answers[j].user, st.answers[j].tenant, user, tenant);
    }
    UnmixedIsSafe(c, st, user, tenant);
  }

  lemma RunOneMore(c: Config, st: System, steps: seq<Step>, step: Step)
    requires Run(c, st, steps).Some? && Enabled(c, Run(c, st, steps).value, step)
    ensures Run(c, st, steps + [step]) == Some(Apply(c, Run(c, st, steps).value, step))
  {}

  const YES := Membership(true, true, true, true)
  const NO := Membership(false, false, false, false)

  /** One pair is verified, and then another one with the same key. */
  lemma SharedKeyRun(c: Config, user: string, tenant: string, u: string, t: string) returns (st: System)
    requires c.caching && user != "" && u != "" && CacheKey(u, t) == CacheKey(user, tenant)
    ensures Reachable(c, st) && st.answers == [Told(0, u, t, YES)]
    ensures |st.outcomes| == 2 && st.outcomes[1] == Outcome(0, user, tenant, Accepted, 0)
  {
    var init := System(TtlStore.State(map[], 0), map[], [], [], map[]);
    var s0, s1, s2, s3 := Read(0, u, t, false), Ask(0, YES), Write(0, false), Read(1, user, tenant, false);
    RunOneMore(c, init, [], s0);
    RunOneMore(c, init, [] + [s0], s1);
    RunOneMore(c, init, [] + [s0] + [s1], s2);
    RunOneMore(c, init, [] + [s0] + [s1] + [s2], s3);
    var steps := [] + [s0] + [s1] + [s2] + [s3];
    st := Run(c, init, steps).value;
    assert Reachable(c, st);
  }

  /** Two pairs that share a key: a yes for one lets the other in without the service being asked about it. */
  lemma SharedKeyLetsIn(c: Config, user: string, tenant: string, u: string, t: string) returns (st: System)
    requires c.caching && user != "" && u != "" && (u != user || t != tenant)
    requires CacheKey(u, t) == CacheKey(user, tenant)
    ensures Reachable(c, st) && !AcceptedOnlyWhenBacked(c, st, user, tenant)
    ensures !Revocable(c, st, user, tenant) && !Transparent(st, user, tenant)
  {
    hide Reachable;
    st := SharedKeyRun(c, user, tenant, u, t);
    assert !SaidYesLately(c, st, user, tenant, 0);
    assert RevokedAt(st, user, tenant, -45 - c.delay);
    assert Constant(st, user, tenant, NO);
  }

  /**
   * With the cache on, acceptances of a pair always rest on a recent positive answer for exactly
   * that pair, revocations of it always take effect and constant answers always make the cache
   * invisible, each precisely when neither the user id after its first character nor the
   * tenant id holds a colon.
   */
  lemma ExactGuarantees(c: Config, user: string, tenant: string)
    requires c.caching && user != ""
    ensures OneSeparator(user, tenant) <==>
              forall st | Reachable(c, st) :: AcceptedOnlyWhenBacked(c, st, user, tenant)
    ensures OneSeparator(user, tenant) <==> forall st | Reachable(c, st) :: Revocable(c, st, user, tenant)
    ensures OneSeparator(user, tenant) <==> forall st | Reachable(c, st) :: Transparent(st, user, tenant)
  {
    hide Reachable;
    if OneSeparator(user, tenant) {
      forall st | Reachable(c, st)
        ensures AllGuarantees(c, st, user, tenant)
      {
        OneSeparatorIsSafe(c, st, user, tenant);
      }
      hide AcceptedOnlyWhenBacked, Revocable, Transparent;
    } else {
      KeyOwnership(user, tenant);
      var u, t :| u != "" && CacheKey(u, t) == CacheKey(user, tenant) && !(u == user && t == tenant);
      var st := SharedKeyLetsIn(c, user, tenant, u, t);
    }
  }

  /** A verification run alone is its protocol steps in a row. */
  lemma VerifyIsSteps(c: Config, st: System, id: nat, user: string, tenant: string,
                      readFails: bool, reply: Reply, writeFails: bool)
    requires id !in st.callers && user != ""
    ensures
      var read := Apply(c, st, Read(id, user, tenant, readFails));
      var asked := if id in read.callers then Apply(c, read, Ask(id, reply)) else read;
      && (id in asked.callers ==> Enabled(c, asked, Write(id, writeFails)))
      && var done := if id in asked.callers then Apply(c, asked, Write(id, writeFails)) else asked;
         && |done.outcomes| == |st.outcomes| + 1 && id !in done.callers
         && VerifyAlone(c.caching, st.store, user, tenant, readFails, reply, writeFails)
              == (done.store, done.outcomes[|st.outcomes|].verdict)
  {}
}
