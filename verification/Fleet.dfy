/**
 * A fleet of nodes, each started with its own key ring, that issue and read sessions while keys
 * are rotated: appended to rings, put first, and dropped. Whether a step may be taken is decided
 * from the rings, the clock and the time of the last issue under each key alone; nobody
 * needs to know the sessions.
 */
module Fleet {
  import opened Prelude
  import opened Jwe
  import opened Session

  datatype Issued = Issued(token: Token, claims: Claims, exp: int)

  /** `last` is when a session was last issued under each key material. */
  datatype State = State(now: int, rings: map<nat, Keyring>, last: map<string, int>, sessions: seq<Issued>)

  datatype Step =
    | IssueOn(node: nat, payload: Claims, options: IssueOptions, uuid: string)
    | Tick(ms: nat)
    | Start(node: nat, like: nat)
    | Append(node: nat, key: Key)
    | Promote(node: nat, key: Key)
    | Drop(node: nat, material: string)

  function Without(keys: seq<Key>, material: string): (r: seq<Key>)
    ensures forall k :: k in r <==> k in keys && k.material != material
  {
    if keys == [] then []
    else if keys[0].material == material then Without(keys[1..], material)
    else [keys[0]] + Without(keys[1..], material)
  }

  function Remove(keys: seq<Key>, key: Key): (r: seq<Key>)
    ensures forall k :: k in r <==> k in keys && k != key
  {
    if keys == [] then []
    else if keys[0] == key then Remove(keys[1..], key)
    else [keys[0]] + Remove(keys[1..], key)
  }

  predicate Configured(f: State, node: nat)
  {
    node in f.rings && f.rings[node].keys != []
  }

  /** A key may be dropped once no node seals with it and every session under it has run out. */
  ghost predicate MayDrop(ttl: Option<int>, f: State, material: string)
  {
    && (forall m | m in f.rings :: Configured(f, m) && f.rings[m].keys[0].material != material)
    && (material in f.last ==> f.last[material] + Ttl(ttl) < f.now)
  }

  ghost predicate Enabled(ttl: Option<int>, f: State, step: Step)
  {
    match step
    case IssueOn(node, _, _, _) => Configured(f, node)
    case Tick(_) => true
    case Start(_, like) => Configured(f, like)
    case Append(node, _) => Configured(f, node)
    case Promote(node, key) => Configured(f, node) && forall m | m in f.rings :: key in f.rings[m].keys
    case Drop(node, material) => Configured(f, node) && MayDrop(ttl, f, material)
  }

  function WithRing(f: State, node: nat, ring: Keyring): State
  {
    f.(rings := f.rings[node := ring])
  }

  function Apply(ttl: Option<int>, f: State, step: Step): State
    requires (step.IssueOn? || step.Append? || step.Promote? || step.Drop?) ==> Configured(f, step.node)
    requires step.Start? ==> Configured(f, step.like)
  {
    match step
    case IssueOn(node, payload, options, uuid) =>
      var token := Issue(f.rings[node], payload, options, uuid, ttl, f.now).value;
      var issued := Issued(token, ClaimsOf(payload, options, uuid, ttl, f.now), f.now + Ttl(ttl));
      f.(sessions := f.sessions + [issued], last := f.last[f.rings[node].keys[0].material := f.now])
    case Tick(ms) => f.(now := f.now + ms)
    case Start(node, like) => WithRing(f, node, f.rings[like])
    case Append(node, key) => WithRing(f, node, Keyring(f.rings[node].keys + [key]))
    case Promote(node, key) => WithRing(f, node, Keyring([key] + Remove(f.rings[node].keys, key)))
    case Drop(node, material) => WithRing(f, node, Keyring(Without(f.rings[node].keys, material)))
  }

  ghost function Run(ttl: Option<int>, f: State, steps: seq<Step>): Option<State>
  {
    if steps == [] then Some(f)
    else
      match Run(ttl, f, steps[..|steps| - 1])
      case None => None
      case Some(mid) =>
        var last := steps[|steps| - 1];
        if Enabled(ttl, mid, last) then Some(Apply(ttl, mid, last)) else None
  }

  /** A fresh fleet: every node has the same ring and nothing was issued. */
  ghost predicate Fresh(f: State)
  {
    && f.sessions == [] && f.last == map[]
    && (forall n | n in f.rings :: Configured(f, n))
    && (forall n, m | n in f.rings && m in f.rings :: f.rings[n] == f.rings[m])
  }

  /** A fresh fleet whose sessions will expire after the instant 0, which is read as no expiry at all. */
  ghost predicate Init(ttl: Option<int>, f: State)
  {
    Fresh(f) && f.now + Ttl(ttl) > 0
  }

  /** Every session still current was sealed with a key that this ring holds. */
  ghost predicate ReadsAll(f: State, ring: Keyring)
  {
    forall i | 0 <= i < |f.sessions| && Current(f.sessions[i].exp, f.now) ::
      f.sessions[i].token.Sealed? && ring.Holds(f.sessions[i].token.material)
  }

  /** Two rings of which each holds the other's active key. */
  predicate ShareHeads(a: Keyring, b: Keyring)
    requires a.keys != [] && b.keys != []
  {
    a.Holds(b.keys[0].material) && b.Holds(a.keys[0].material)
  }

  ghost predicate Fits(ttl: Option<int>, f: State, s: Issued)
  {
    && s.token.Sealed? && s.token.content == Some(s.claims)
    && "exp" in s.claims && s.claims["exp"] == Number(s.exp)
    && s.token.material in f.last
    && 0 < s.exp <= f.last[s.token.material] + Ttl(ttl)
  }

  /** The last issue under a key left a session that runs out one lifetime later. */
  ghost predicate LastIsReal(ttl: Option<int>, f: State, material: string)
    requires material in f.last
  {
    exists i :: 0 <= i < |f.sessions| && f.sessions[i].token.Sealed?
      && f.sessions[i].token.material == material && f.sessions[i].exp == f.last[material] + Ttl(ttl)
  }

  ghost predicate Inv(ttl: Option<int>, f: State)
  {
    && f.now + Ttl(ttl) > 0
    && (forall n | n in f.rings :: Configured(f, n))
    && (forall m | m in f.last :: f.last[m] <= f.now && LastIsReal(ttl, f, m))
    && (forall i | 0 <= i < |f.sessions| :: Fits(ttl, f, f.sessions[i]))
    && (forall n | n in f.rings :: ReadsAll(f, f.rings[n]))
    && (forall n, m | n in f.rings && m in f.rings :: ShareHeads(f.rings[n], f.rings[m]))
  }

  lemma HeadIsHeld(ring: Keyring)
    requires ring.keys != []
    ensures ring.Holds(ring.keys[0].material)
  {}

  /** A node may be given any ring that reads all current sessions and shares heads with the others. */
  ghost predicate RestartIsSafe(f: State, node: nat, ring: Keyring)
  {
    && ring.keys != []
    && ReadsAll(f, ring)
    && forall m | m in f.rings && m != node :: Configured(f, m) && ShareHeads(ring, f.rings[m])
  }

  lemma SafeRestartReads(f: State, node: nat, ring: Keyring, n: nat)
    requires n in WithRing(f, node, ring).rings && ReadsAll(f, ring)
    requires forall m | m in f.rings :: ReadsAll(f, f.rings[m])
    ensures ReadsAll(WithRing(f, node, ring), WithRing(f, node, ring).rings[n])
  {
    assert ReadsAll(f, WithRing(f, node, ring).rings[n]);
  }

  lemma SafeRestartShares(ttl: Option<int>, f: State, node: nat, ring: Keyring, n: nat, m: nat)
    requires Inv(ttl, f) && RestartIsSafe(f, node, ring)
    requires n in WithRing(f, node, ring).rings && m in WithRing(f, node, ring).rings
    ensures Configured(WithRing(f, node, ring), n) && Configured(WithRing(f, node, ring), m)
    ensures ShareHeads(WithRing(f, node, ring).rings[n], WithRing(f, node, ring).rings[m])
  {
    hide ReadsAll, Fits, LastIsReal;
    HeadIsHeld(ring);
  }

  lemma SafeRestartKeepsInv(ttl: Option<int>, f: State, node: nat, ring: Keyring)
    requires Inv(ttl, f) && RestartIsSafe(f, node, ring)
    ensures Inv(ttl, WithRing(f, node, ring))
  {
    var f' := WithRing(f, node, ring);
    forall n | n in f'.rings {
      SafeRestartReads(f, node, ring, n);
    }
    forall n, m | n in f'.rings && m in f'.rings
      ensures Configured(f', n) && Configured(f', m) && ShareHeads(f'.rings[n], f'.rings[m])
    {
      SafeRestartShares(ttl, f, node, ring, n, m);
    }
    assert forall m | m in f.last :: LastIsReal(ttl, f, m) ==> LastIsReal(ttl, f', m);
    assert forall i | 0 <= i < |f.sessions| :: Fits(ttl, f, f.sessions[i]) ==> Fits(ttl, f', f.sessions[i]);
    hide Fits, LastIsReal, ReadsAll, ShareHeads;
  }

  lemma AppendIsSafe(ttl: Option<int>, f: State, node: nat, key: Key)
    requires Inv(ttl, f) && node in f.rings
    ensures RestartIsSafe(f, node, Keyring(f.rings[node].keys + [key]))
  {
    assert ReadsAll(f, f.rings[node]);
  }

  lemma PromoteIsSafe(ttl: Option<int>, f: State, node: nat, key: Key)
    requires Inv(ttl, f) && node in f.rings && forall m | m in f.rings :: key in f.rings[m].keys
    ensures RestartIsSafe(f, node, Keyring([key] + Remove(f.rings[node].keys, key)))
  {
    var ring := Keyring([key] + Remove(f.rings[node].keys, key));
    assert forall k | k in f.rings[node].keys :: k in ring.keys;
    assert ReadsAll(f, f.rings[node]);
  }

  /** Past the last issue plus one lifetime, no current session was sealed with the key. */
  lemma DropIsSafe(ttl: Option<int>, f: State, node: nat, material: string)
    requires Inv(ttl, f) && node in f.rings && MayDrop(ttl, f, material)
    ensures RestartIsSafe(f, node, Keyring(Without(f.rings[node].keys, material)))
  {
    var ring := Keyring(Without(f.rings[node].keys, material));
    assert f.rings[node].keys[0] in ring.keys;
    assert ReadsAll(f, f.rings[node]);
    forall i | 0 <= i < |f.sessions| && Current(f.sessions[i].exp, f.now)
      ensures f.sessions[i].token.Sealed? && ring.Holds(f.sessions[i].token.material)
    {
      assert Fits(ttl, f, f.sessions[i]);
    }
    forall m | m in f.rings && m != node
      ensures Configured(f, m) && ShareHeads(ring, f.rings[m])
    {
      assert ShareHeads(f.rings[node], f.rings[m]);
      WithoutKeepsHead(f.rings[node].keys, material);
    }
  }

  lemma WithoutKeepsHead(keys: seq<Key>, material: string)
    requires keys != [] && keys[0].material != material
    ensures Without(keys, material) != [] && Without(keys, material)[0] == keys[0]
  {}

  /** A real last issue stays real while sessions are only added and it is not overtaken. */
  lemma LastStaysReal(ttl: Option<int>, f: State, f': State, material: string)
    requires material in f.last && LastIsReal(ttl, f, material)
    requires f.sessions <= f'.sessions && material in f'.last && f'.last[material] == f.last[material]
    ensures LastIsReal(ttl, f', material)
  {
    var i :| 0 <= i < |f.sessions| && f.sessions[i].token.Sealed?
      && f.sessions[i].token.material == material && f.sessions[i].exp == f.last[material] + Ttl(ttl);
    assert f'.sessions[i] == f.sessions[i];
  }

  lemma IssueIsLast(ttl: Option<int>, f: State, step: Step, m: string)
    requires Inv(ttl, f) && step.IssueOn? && Enabled(ttl, f, step) && m in Apply(ttl, f, step).last
    ensures Apply(ttl, f, step).last[m] <= f.now && LastIsReal(ttl, Apply(ttl, f, step), m)
  {
    hide Fits, ReadsAll, ShareHeads;
    var f' := Apply(ttl, f, step);
    assert f'.sessions[|f.sessions|].token.material == f.rings[step.node].keys[0].material;
    if m != f.rings[step.node].keys[0].material {
      hide LastIsReal;
      LastStaysReal(ttl, f, f', m);
    }
  }

  lemma IssueFits(ttl: Option<int>, f: State, step: Step, i: nat)
    requires Inv(ttl, f) && step.IssueOn? && Enabled(ttl, f, step) && i < |Apply(ttl, f, step).sessions|
    ensures Fits(ttl, Apply(ttl, f, step), Apply(ttl, f, step).sessions[i])
  {
    hide ReadsAll, ShareHeads, LastIsReal;
    assert i < |f.sessions| ==> Fits(ttl, f, f.sessions[i]) && f.last.Keys <= Apply(ttl, f, step).last.Keys;
  }

  lemma IssueIsRead(ttl: Option<int>, f: State, step: Step, m: nat)
    requires Inv(ttl, f) && step.IssueOn? && Enabled(ttl, f, step) && m in f.rings
    ensures ReadsAll(Apply(ttl, f, step), f.rings[m])
  {
    hide Fits, LastIsReal;
    assert ReadsAll(f, f.rings[m]);
    assert ShareHeads(f.rings[m], f.rings[step.node]);
  }

  lemma IssueKeepsInv(ttl: Option<int>, f: State, step: Step)
    requires Inv(ttl, f) && step.IssueOn? && Enabled(ttl, f, step)
    ensures Inv(ttl, Apply(ttl, f, step))
  {
    forall m | m in Apply(ttl, f, step).last {
      IssueIsLast(ttl, f, step, m);
    }
    forall i | 0 <= i < |Apply(ttl, f, step).sessions| {
      IssueFits(ttl, f, step, i);
    }
    forall m | m in f.rings {
      IssueIsRead(ttl, f, step, m);
    }
    hide Fits, LastIsReal, ReadsAll, ShareHeads;
  }

  lemma TickKeepsInv(ttl: Option<int>, f: State, step: Step)
    requires Inv(ttl, f) && step.Tick?
    ensures Inv(ttl, Apply(ttl, f, step))
  {
    var f' := Apply(ttl, f, step);
    forall m | m in f.last {
      LastStaysReal(ttl, f, f', m);
    }
    assert forall i | 0 <= i < |f.sessions| :: Fits(ttl, f, f.sessions[i]) ==> Fits(ttl, f', f.sessions[i]);
    forall n | n in f'.rings
      ensures ReadsAll(f', f'.rings[n])
    {
      assert ReadsAll(f, f.rings[n]);
    }
    hide Fits, LastIsReal, ReadsAll, ShareHeads;
  }

  lemma StepKeepsInv(ttl: Option<int>, f: State, step: Step)
    requires Inv(ttl, f) && Enabled(ttl, f, step)
    ensures Inv(ttl, Apply(ttl, f, step))
  {
    match step
    case IssueOn(_, _, _, _) => IssueKeepsInv(ttl, f, step);
    case Tick(_) => TickKeepsInv(ttl, f, step);
    case Start(node, like) =>
      assert ReadsAll(f, f.rings[like]);
      SafeRestartKeepsInv(ttl, f, node, f.rings[like]);
    case Append(node, key) =>
      AppendIsSafe(ttl, f, node, key);
      SafeRestartKeepsInv(ttl, f, node, Keyring(f.rings[node].keys + [key]));
    case Promote(node, key) =>
      PromoteIsSafe(ttl, f, node, key);
      SafeRestartKeepsInv(ttl, f, node, Keyring([key] + Remove(f.rings[node].keys, key)));
    case Drop(node, material) =>
      DropIsSafe(ttl, f, node, material);
      SafeRestartKeepsInv(ttl, f, node, Keyring(Without(f.rings[node].keys, material)));
  }

  lemma {:induction false} RunKeepsInv(ttl: Option<int>, f: State, steps: seq<Step>)
    requires Inv(ttl, f) && Run(ttl, f, steps).Some?
    ensures Inv(ttl, Run(ttl, f, steps).value)
    decreases |steps|
  {
    if steps != [] {
      RunKeepsInv(ttl, f, steps[..|steps| - 1]);
      StepKeepsInv(ttl, Run(ttl, f, steps[..|steps| - 1]).value, steps[|steps| - 1]);
    }
  }

  ghost predicate Reachable(ttl: Option<int>, f: State)
  {
    exists init, steps :: Init(ttl, init) && Run(ttl, init, steps) == Some(f)
  }

  lemma ReachableInv(ttl: Option<int>, f: State)
    requires Reachable(ttl, f)
    ensures Inv(ttl, f)
  {
    var init, steps :| Init(ttl, init) && Run(ttl, init, steps) == Some(f);
    forall n | n in init.rings {
      HeadIsHeld(init.rings[n]);
    }
    RunKeepsInv(ttl, init, steps);
  }

  /**
   * Whatever order sessions are issued, time passes, nodes are started and keys are appended,
   * promoted and dropped in: every session any node issued is read back by every node as it was
   * issued for as long as it is current, and rejected by all afterwards.
   */
  lemma SessionsAreReadEverywhere(ttl: Option<int>, f: State, i: nat, node: nat)
    requires Reachable(ttl, f) && i < |f.sessions| && node in f.rings
    ensures
      var s := f.sessions[i];
      && (Current(s.exp, f.now) ==> Read(f.rings[node], s.token, f.now) == Ok(s.claims))
      && (!Current(s.exp, f.now) ==> Read(f.rings[node], s.token, f.now).Err?)
  {
    ReachableInv(ttl, f);
    assert Fits(ttl, f, f.sessions[i]);
    assert ReadsAll(f, f.rings[node]);
  }

  /**
   * The waiting time is exact: after dropping a key no node seals with, a node reads every
   * current session exactly when the last issue under the key is more than one lifetime ago.
   */
  lemma DropTimeIsExact(ttl: Option<int>, f: State, node: nat, material: string)
    requires Reachable(ttl, f) && node in f.rings
    requires forall m | m in f.rings :: Configured(f, m) && f.rings[m].keys[0].material != material
    ensures
      var f' := Apply(ttl, f, Drop(node, material));
      ReadsCurrent(f', node) <==> (material in f.last ==> f.last[material] + Ttl(ttl) < f.now)
  {
    ReachableInv(ttl, f);
    var f' := Apply(ttl, f, Drop(node, material));
    if material in f.last ==> f.last[material] + Ttl(ttl) < f.now {
      StepKeepsInv(ttl, f, Drop(node, material));
      InvReadsCurrent(ttl, f', node);
    } else {
      EarlyDropLoses(ttl, f, node, material);
    }
  }

  lemma EarlyDropLoses(ttl: Option<int>, f: State, node: nat, material: string)
    requires Configured(f, node) && material in f.last && LastIsReal(ttl, f, material)
    requires f.now <= f.last[material] + Ttl(ttl)
    ensures !ReadsCurrent(Apply(ttl, f, Drop(node, material)), node)
  {
    var f' := Apply(ttl, f, Drop(node, material));
    var i :| 0 <= i < |f.sessions| && f.sessions[i].token.Sealed?
      && f.sessions[i].token.material == material && f.sessions[i].exp == f.last[material] + Ttl(ttl);
    assert !f'.rings[node].Holds(material);
    assert !ReadsSession(f', node, f'.sessions[i]);
  }

  /** The node reads this session as it was issued. */
  predicate ReadsSession(f: State, node: nat, s: Issued)
    requires node in f.rings
  {
    Read(f.rings[node], s.token, f.now) == Ok(s.claims)
  }

  ghost predicate ReadsCurrent(f: State, node: nat)
    requires node in f.rings
  {
    forall i | 0 <= i < |f.sessions| && Current(f.sessions[i].exp, f.now) :: ReadsSession(f, node, f.sessions[i])
  }

  lemma InvReadsCurrent(ttl: Option<int>, f: State, node: nat)
    requires Inv(ttl, f) && node in f.rings
    ensures ReadsCurrent(f, node)
  {
    assert ReadsAll(f, f.rings[node]);
    assert forall i | 0 <= i < |f.sessions| :: Fits(ttl, f, f.sessions[i]);
  }

  /** A session issued right now on one node is read at once by another. */
  ghost predicate NextIsRead(ttl: Option<int>, f: State, node: nat, other: nat)
  {
    && Configured(f, node) && other in f.rings
    && forall payload: Claims, options: IssueOptions, uuid: string ::
         var f' := Apply(ttl, f, IssueOn(node, payload, options, uuid));
         ReadsSession(f', other, f'.sessions[|f.sessions|])
  }

  /** No session is lost: not a current one, and not one that any node may issue next. */
  ghost predicate NothingLost(ttl: Option<int>, f: State)
  {
    && (forall n | n in f.rings :: ReadsCurrent(f, n))
    && (forall n, m | n in f.rings && m in f.rings :: NextIsRead(ttl, f, n, m))
  }

  lemma NextNeedsHead(ttl: Option<int>, f: State, node: nat, other: nat)
    requires Configured(f, node) && Configured(f, other) && NextIsRead(ttl, f, node, other)
    ensures f.rings[other].Holds(f.rings[node].keys[0].material)
  {
    var options := IssueOptions(None, None, None);
    var f' := Apply(ttl, f, IssueOn(node, map[], options, ""));
    assert ReadsSession(f', other, f'.sessions[|f.sessions|]);
  }

  lemma HeadReadsNext(ttl: Option<int>, f: State, node: nat, other: nat)
    requires Configured(f, node) && Configured(f, other) && Ttl(ttl) >= 0
    requires f.rings[other].Holds(f.rings[node].keys[0].material)
    ensures NextIsRead(ttl, f, node, other)
  {
    forall payload: Claims, options: IssueOptions, uuid: string
      ensures
        var f' := Apply(ttl, f, IssueOn(node, payload, options, uuid));
        ReadsSession(f', other, f'.sessions[|f.sessions|])
    {
      MetadataRoundTrip(f.rings[node], f.rings[other], payload, options, uuid, ttl, f.now, f.now);
    }
  }

  /**
   * Giving a node any ring at all: no session is lost, now or by the next issue, exactly when the
   * ring is safe in the sense above.
   */
  lemma RestartConditionIsExact(ttl: Option<int>, f: State, node: nat, ring: Keyring)
    requires Reachable(ttl, f) && Ttl(ttl) >= 0
    ensures NothingLost(ttl, WithRing(f, node, ring)) <==> RestartIsSafe(f, node, ring)
  {
    ReachableInv(ttl, f);
    var f' := WithRing(f, node, ring);
    if RestartIsSafe(f, node, ring) {
      SafeRestartKeepsInv(ttl, f, node, ring);
      forall n | n in f'.rings {
        InvReadsCurrent(ttl, f', n);
      }
      forall n, m | n in f'.rings && m in f'.rings
        ensures NextIsRead(ttl, f', n, m)
      {
        assert ShareHeads(f'.rings[n], f'.rings[m]);
        HeadReadsNext(ttl, f', n, m);
      }
    }
    if NothingLost(ttl, f') {
      assert NextIsRead(ttl, f', node, node) && ReadsCurrent(f', node) && f'.rings[node] == ring;
      forall i | 0 <= i < |f.sessions| && Current(f.sessions[i].exp, f.now)
        ensures f.sessions[i].token.Sealed? && ring.Holds(f.sessions[i].token.material)
      {
        assert ReadsSession(f', node, f'.sessions[i]);
      }
      forall m | m in f.rings && m != node
        ensures Configured(f, m) && ShareHeads(ring, f.rings[m])
      {
        assert f'.rings[m] == f.rings[m];
        NextNeedsHead(ttl, f', node, m);
        NextNeedsHead(ttl, f', m, node);
      }
    }
  }

  /** A node whose active key another node lacks issues a session the other cannot read. */
  lemma UnsharedHeadLosesSessions(ttl: Option<int>, f: State, node: nat, other: nat, payload: Claims,
                                  options: IssueOptions, uuid: string)
    requires Configured(f, node) && Configured(f, other)
    requires !f.rings[other].Holds(f.rings[node].keys[0].material)
    ensures
      var f' := Apply(ttl, f, IssueOn(node, payload, options, uuid));
      Read(f'.rings[other], f'.sessions[|f.sessions|].token, f'.now) == Err(CannotDecrypt)
  {}

  // ---------------------------------------------------------------- the starting time

  /** Every node reads every current session as it was issued. */
  ghost predicate AllRead(f: State)
  {
    forall n | n in f.rings :: ReadsCurrent(f, n)
  }

  /** No run of a fleet that starts at this time ever loses a session. */
  ghost predicate NeverLoses(ttl: Option<int>, start: int)
  {
    forall init, steps | Fresh(init) && init.now == start && Run(ttl, init, steps).Some? ::
      AllRead(Run(ttl, init, steps).value)
  }

  lemma RunOneMore(ttl: Option<int>, f: State, steps: seq<Step>, step: Step)
    requires Run(ttl, f, steps).Some? && Enabled(ttl, Run(ttl, f, steps).value, step)
    ensures Run(ttl, f, steps + [step]) == Some(Apply(ttl, Run(ttl, f, steps).value, step))
  {
    assert (steps + [step])[..|steps + [step]| - 1] == steps;
  }

  lemma RunTwoMore(ttl: Option<int>, f: State, steps: seq<Step>, a: Step, b: Step)
    requires Run(ttl, f, steps).Some? && Enabled(ttl, Run(ttl, f, steps).value, a)
    requires Enabled(ttl, Apply(ttl, Run(ttl, f, steps).value, a), b)
    ensures Run(ttl, f, steps + [a] + [b]) == Some(Apply(ttl, Apply(ttl, Run(ttl, f, steps).value, a), b))
  {
    RunOneMore(ttl, f, steps, a);
    RunOneMore(ttl, f, steps + [a], b);
  }

  const OLD := Key("old", "old")
  const NEW := Key("new", "new")

  /** A node puts the new key first, waits, and drops the old one. */
  lemma RotateAway(ttl: Option<int>, f: State, wait: nat)
    requires f.rings == map[0 := Keyring([OLD, NEW])]
    requires "old" in f.last && f.last["old"] + Ttl(ttl) < f.now + wait
    ensures Enabled(ttl, f, Promote(0, NEW))
    ensures
      var waited := Apply(ttl, Apply(ttl, f, Promote(0, NEW)), Tick(wait));
      && Enabled(ttl, waited, Drop(0, "old"))
      && var dropped := Apply(ttl, waited, Drop(0, "old"));
         dropped.sessions == f.sessions && dropped.now == f.now + wait && dropped.rings.Keys == {0}
         && !dropped.rings[0].Holds("old")
  {
    assert NEW in f.rings[0].keys;
    assert Apply(ttl, f, Promote(0, NEW)).rings[0].keys[0] == NEW;
    assert "old" != "new";
  }

  /** A single node that issues a session whose expiry is the instant 0. */
  lemma ZeroExpirySession(ttl: Option<int>, start: int) returns (init: State, steps: seq<Step>, f: State)
    requires start + Ttl(ttl) <= 0
    ensures Fresh(init) && init.now == start && Run(ttl, init, steps) == Some(f)
    ensures f.rings == map[0 := Keyring([OLD, NEW])] && "old" in f.last && f.last["old"] == f.now == -Ttl(ttl)
    ensures |f.sessions| == 1 && f.sessions[0].exp == 0
    ensures f.sessions[0].token.Sealed? && f.sessions[0].token.material == "old"
  {
    init := State(start, map[0 := Keyring([OLD, NEW])], map[], []);
    var tick := Tick(-Ttl(ttl) - start);
    var issue := IssueOn(0, map[], IssueOptions(None, None, None), "");
    RunTwoMore(ttl, init, [], tick, issue);
    steps := [] + [tick] + [issue];
    f := Apply(ttl, Apply(ttl, init, tick), issue);
  }

  lemma RotateAwayRun(ttl: Option<int>, init: State, steps: seq<Step>, f: State, wait: nat)
    returns (all: seq<Step>, after: State)
    requires Run(ttl, init, steps) == Some(f) && f.rings == map[0 := Keyring([OLD, NEW])]
    requires "old" in f.last && f.last["old"] + Ttl(ttl) < f.now + wait
    ensures Run(ttl, init, all) == Some(after)
    ensures after.sessions == f.sessions && after.rings.Keys == {0} && !after.rings[0].Holds("old")
  {
    RotateAway(ttl, f, wait);
    hide Apply, Run;
    RunTwoMore(ttl, init, steps, Promote(0, NEW), Tick(wait));
    var waited := steps + [Promote(0, NEW)] + [Tick(wait)];
    RunOneMore(ttl, init, waited, Drop(0, "old"));
    all := waited + [Drop(0, "old")];
    after := Run(ttl, init, all).value;
  }

  /** Once its key is rotated away such a session is lost, though it never expires. */
  lemma ZeroExpiryIsLost(ttl: Option<int>, start: int)
    requires start + Ttl(ttl) <= 0
    ensures !NeverLoses(ttl, start)
  {
    var init, steps, f := ZeroExpirySession(ttl, start);
    var all, lost := RotateAwayRun(ttl, init, steps, f, Max(Ttl(ttl) + 1, 0));
    hide Run, Fresh;
    assert !ReadsSession(lost, 0, lost.sessions[0]);
    assert !ReadsCurrent(lost, 0);
    assert !AllRead(lost);
  }

  /** Rotation never loses a session exactly when the fleet starts late enough for no session to expire at 0. */
  lemma StartTimeIsExact(ttl: Option<int>, start: int)
    ensures NeverLoses(ttl, start) <==> start + Ttl(ttl) > 0
  {
    if start + Ttl(ttl) > 0 {
      forall init, steps | Fresh(init) && init.now == start && Run(ttl, init, steps).Some?
        ensures AllRead(Run(ttl, init, steps).value)
      {
        var f := Run(ttl, init, steps).value;
        assert Reachable(ttl, f);
        ReachableInv(ttl, f);
        forall n | n in f.rings {
          InvReadsCurrent(ttl, f, n);
        }
      }
    } else {
      ZeroExpiryIsLost(ttl, start);
    }
  }
}
