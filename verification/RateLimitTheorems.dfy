/** What the rate limiter guarantees in every reachable state of the concurrent protocol. */
module RateLimitTheorems {
  import opened Prelude
  import opened RateLimitProtocol
  import TtlStore
  import RateLimit

  /** The hits in a half-open span of time whose callers are let through. */
  ghost function AdmittedIn(c: Config, st: System, from: int, to: int): set<int>
  {
    set i | 0 <= i < |st.hits| && from <= st.hits[i].time < to && st.hits[i].current <= c.Limit()
  }

  ghost function AdmittedInEpochs(c: Config, st: System, lo: int, hi: int): set<int>
  {
    set i | 0 <= i < |st.hits| && lo <= st.hits[i].epoch <= hi && st.hits[i].current <= c.Limit()
  }

  ghost function Interval(a: int, b: int): (s: set<int>)
    requires a <= b
    ensures |s| == b - a
    ensures forall i :: i in s <==> a <= i < b
    decreases b - a
  {
    if a == b then {} else Interval(a, b - 1) + {b - 1}
  }

  lemma SubsetSize<T>(a: set<T>, b: set<T>)
    requires a <= b
    ensures |a| <= |b|
    decreases b
  {
    if x :| x in a {
      SubsetSize(a - {x}, b - {x});
    }
  }

  /**
   * In one epoch the counter values handed out are 1, 2, ..., n, each once and in order,
   * and exactly min(limit, n) callers are let through.
   */
  lemma EpochServesLimit(c: Config, st: System, e: nat)
    requires c.W() > 0 && Reachable(c, st) && e < |st.first|
    ensures |st.first| == |st.starts| && st.first[e] < st.End(e) <= |st.hits|
    ensures forall i | 0 <= i < |st.hits| :: st.hits[i].epoch == e <==> st.first[e] <= i < st.End(e)
    ensures forall i | st.first[e] <= i < st.End(e) :: st.hits[i].current == i - st.first[e] + 1
    ensures |AdmittedInEpochs(c, st, e, e)| == Min(Max(c.Limit(), 0), st.End(e) - st.first[e])
  {
    ReachableInv(c, st);
    forall i | 0 <= i < |st.hits|
      ensures st.hits[i].epoch == e <==> st.first[e] <= i < st.End(e)
      ensures st.hits[i].epoch == e ==> st.hits[i].current == i - st.first[e] + 1
    {
      assert HitFits(st, i);
      var f := st.hits[i].epoch;
      assert f < e ==> st.End(f) <= st.first[e];
      assert e < f ==> st.End(e) <= st.first[f];
    }
    var n := Min(Max(c.Limit(), 0), st.End(e) - st.first[e]);
    assert AdmittedInEpochs(c, st, e, e) == Interval(st.first[e], st.first[e] + n);
  }

  lemma OneMore(a: int, n: int)
    ensures a * (n + 1) == a * n + a
  {}

  lemma SplitEpochs(c: Config, st: System, lo: int, hi: int)
    requires lo <= hi
    ensures |AdmittedInEpochs(c, st, lo, hi)|
              <= |AdmittedInEpochs(c, st, lo, hi - 1)| + |AdmittedInEpochs(c, st, hi, hi)|
  {
    var before, last := AdmittedInEpochs(c, st, lo, hi - 1), AdmittedInEpochs(c, st, hi, hi);
    assert AdmittedInEpochs(c, st, lo, hi) == before + last;
    assert |before + last| == |before| + |last| - |before * last|;
  }

  /** A run of epochs lets at most `limit` callers through in each. */
  lemma EpochsServeLimit(c: Config, st: System, lo: nat, hi: int)
    requires c.W() > 0 && Reachable(c, st) && lo - 1 <= hi < |st.first|
    ensures |AdmittedInEpochs(c, st, lo, hi)| <= Max(c.Limit(), 0) * (hi - lo + 1)
    decreases hi + 1
  {
    if hi < lo {
      assert AdmittedInEpochs(c, st, lo, hi) == {};
    } else {
      EpochServesLimit(c, st, hi);
      EpochsServeLimit(c, st, lo, hi - 1);
      SplitEpochs(c, st, lo, hi);
      OneMore(Max(c.Limit(), 0), hi - lo);
    }
  }

  lemma EpochStartsSpread(c: Config, st: System, lo: nat, hi: nat)
    requires c.W() > 0 && Inv(c, st) && lo <= hi < |st.starts|
    ensures st.starts[lo] + c.W() * (hi - lo) <= st.starts[hi]
    decreases hi - lo
  {
    if lo < hi {
      EpochStartsSpread(c, st, lo, hi - 1);
      assert st.starts[hi - 1] + c.W() <= st.starts[hi - 1 + 1];
      assert c.W() * (hi - lo) == c.W() * (hi - 1 - lo) + c.W();
    }
  }

  ghost function Pick<T>(s: set<T>): (x: T)
    requires s != {}
    ensures x in s
  {
    var x :| x in s;
    x
  }

  lemma Extremes(s: set<int>) returns (lo: int, hi: int)
    requires s != {}
    ensures lo in s && hi in s && forall i | i in s :: lo <= i <= hi
    decreases |s|
  {
    var x := Pick(s);
    if s == {x} {
      return x, x;
    }
    assert s - {x} != {};
    var a, b := Extremes(s - {x});
    assert forall i | i in s :: i == x || i in s - {x};
    lo, hi := if x < a then x else a, if b < x then x else b;
  }

  /** All hits admitted in a span lie in a run of at most ceil(T / W) + 1 epochs. */
  lemma SpanIsFewEpochs(c: Config, st: System, from: int, span: int) returns (lo: nat, hi: nat)
    requires c.W() > 0 && span > 0 && Inv(c, st) && AdmittedIn(c, st, from, from + span) != {}
    ensures lo <= hi < |st.first| && hi - lo <= CeilDiv(span, c.W()) && st.starts[hi] < from + span
    ensures (span - 1) % c.W() == 0 ==> hi - lo < CeilDiv(span, c.W())
    ensures AdmittedIn(c, st, from, from + span) <= AdmittedInEpochs(c, st, lo, hi)
  {
    var admitted := AdmittedIn(c, st, from, from + span);
    var i, j := Extremes(admitted);
    assert HitFits(st, i) && HitFits(st, j);
    lo, hi := st.hits[i].epoch, st.hits[j].epoch;
    OrderedEpochs(c, st, i, j);
    EpochsInSpan(c, st, i, j, from, span);
    if (span - 1) % c.W() == 0 {
      SpanMissesNextEpoch(c, st, i, from, span, hi);
    }
    forall k | k in admitted
      ensures lo <= st.hits[k].epoch <= hi
    {
      OrderedEpochs(c, st, i, k);
      OrderedEpochs(c, st, k, j);
    }
  }

  /** The whole seconds of a span one longer than some windows begin those windows and one more. */
  lemma ExtraSecond(span: int, w: int)
    requires w > 0 && span > 0
    ensures (span - 1) % w == 0 <==> w * (CeilDiv(span, w) - 1) == span - 1
  {
    var q := CeilDiv(span, w);
    assert w * (q - 1) < span <= w * q;
    assert w * q == w * (q - 1) + w;
    var k := (span - 1) / w;
    assert span - 1 == w * k + (span - 1) % w;
    if k < q - 1 {
      Monotone(w, k + 1, q - 1);
      OneMore(w, k);
    } else if k > q - 1 {
      Monotone(w, q, k);
    }
  }

  lemma OneWindow(span: int, w: int)
    requires 0 < span <= w
    ensures CeilDiv(span, w) == 1
    ensures (span - 1) % w == 0 <==> span == 1
  {
    ExtraSecond(span, w);
    OnlyOneWindow(CeilDiv(span, w), span, w);
  }

  lemma OnlyOneWindow(q: int, span: int, w: int)
    requires 0 < span <= w && w * (q - 1) < span <= w * q
    ensures q == 1
  {
    if q < 1 {
      Monotone(w, q, 0);
    } else if q > 1 {
      Monotone(w, 1, q - 1);
    }
  }

  /** A span one second longer than some windows reaches no epoch beyond theirs. */
  lemma SpanMissesNextEpoch(c: Config, st: System, i: nat, from: int, span: int, hi: nat)
    requires c.W() > 0 && span > 0 && Inv(c, st) && (span - 1) % c.W() == 0
    requires i < |st.hits| && from <= st.hits[i].time && hi < |st.first| && st.starts[hi] < from + span
    ensures hi - st.hits[i].epoch < CeilDiv(span, c.W())
  {
    assert HitFits(st, i);
    var lo, windows := st.hits[i].epoch, CeilDiv(span, c.W());
    ExtraSecond(span, c.W());
    if hi - lo >= windows {
      EpochStartsSpread(c, st, lo + 1, hi);
      Monotone(c.W(), windows - 1, hi - lo - 1);
      assert false;
    }
  }

  /** When the span reaches one epoch more than it has windows, it misses that epoch's first hit. */
  lemma FirstHitIsMissed(c: Config, st: System, from: int, span: int, lo: nat, hi: nat)
    requires c.W() > 0 && c.Limit() > 0 && span > 0 && Inv(c, st) && lo <= hi < |st.first|
    requires hi - lo == CeilDiv(span, c.W()) && st.starts[hi] < from + span
    ensures st.first[lo] !in AdmittedIn(c, st, from, from + span)
    ensures st.first[lo] in AdmittedInEpochs(c, st, lo, hi)
  {
    assert HitFits(st, st.first[lo]);
    assert forall e, f | 0 <= e < f < |st.first| :: st.End(e) <= st.first[f];
    EpochStartsSpread(c, st, lo, hi);
  }

  /**
   * The most callers that a span of whole seconds can let through. A span that is one second longer
   * than some windows has room for one epoch in each of them and one more in that second; any
   * other span has room for all but the first hit of an earlier epoch as well.
   */
  function MostAdmitted(limit: int, window: int, span: int): int
    requires window > 0
  {
    if limit <= 0 then 0
    else if (span - 1) % window == 0 then limit * CeilDiv(span, window)
    else limit * (CeilDiv(span, window) + 1) - 1
  }

  lemma SomeAdmitted(c: Config, st: System, from: int, span: int)
    requires c.W() > 0 && c.Limit() > 0 && span > 0 && Reachable(c, st)
    requires AdmittedIn(c, st, from, from + span) != {}
    ensures |AdmittedIn(c, st, from, from + span)| <= MostAdmitted(c.Limit(), c.W(), span)
  {
    var admitted := AdmittedIn(c, st, from, from + span);
    var windows, cap := CeilDiv(span, c.W()), Max(c.Limit(), 0);
    ReachableInv(c, st);
    var lo, hi := SpanIsFewEpochs(c, st, from, span);
    var all := AdmittedInEpochs(c, st, lo, hi);
    EpochsServeLimit(c, st, lo, hi);
    hide CeilDiv, AdmittedIn, AdmittedInEpochs, Reachable, Inv;
    if hi - lo < windows {
      SubsetSize(admitted, all);
      Monotone(cap, hi - lo + 1, windows);
      OneMore(cap, windows);
    } else {
      FirstHitIsMissed(c, st, from, span, lo, hi);
      SubsetSize(admitted, all - {st.first[lo]});
    }
  }

  /**
   * The admission bound: in every reachable state, for every span of time, fewer callers are let
   * through than limit * (ceil(T / W) + 1), so fewer than twice the limit in one window, and no
   * more than the limit in one second.
   */
  lemma AdmissionBound(c: Config, st: System, from: int, span: int)
    requires c.W() > 0 && span > 0 && Reachable(c, st)
    ensures |AdmittedIn(c, st, from, from + span)| <= MostAdmitted(c.Limit(), c.W(), span)
    ensures 1 < span <= c.W() ==> MostAdmitted(c.Limit(), c.W(), span) == Max(2 * c.Limit() - 1, 0)
    ensures span == 1 ==> MostAdmitted(c.Limit(), c.W(), span) == Max(c.Limit(), 0)
  {
    if c.Limit() <= 0 {
      NobodyWithoutLimit(c, st, from, from + span);
    } else if AdmittedIn(c, st, from, from + span) != {} {
      SomeAdmitted(c, st, from, span);
    } else {
      Monotone(c.W(), CeilDiv(span, c.W()), 0);
      Monotone(Max(c.Limit(), 0), 1, CeilDiv(span, c.W()) + 1);
    }
    if span <= c.W() {
      OneWindow(span, c.W());
    }
  }

  /** The callers told they may go on in a span of time, no later than `delay` after their INCR. */
  ghost function LetThroughIn(c: Config, st: System, from: int, to: int, delay: int): set<nat>
  {
    set id | id in st.callers && st.callers[id].Answered? && st.callers[id].hit < |st.hits|
             && st.callers[id].current <= c.Limit()
             && from <= st.callers[id].at < to
             && st.callers[id].at - st.hits[st.callers[id].hit].time <= delay
  }

  lemma ImageSize(ids: set<nat>, image: map<nat, int>, target: set<int>)
    requires forall a | a in ids :: a in image && image[a] in target
    requires forall a, b | a in ids && b in ids && a != b :: image[a] != image[b]
    ensures |ids| <= |target|
    decreases |ids|
  {
    if ids != {} {
      var a := Pick(ids);
      ImageSize(ids - {a}, image, target - {image[a]});
    }
  }

  /** The same bound by the time of the answer: the span grows by the longest delay. */
  lemma AnswerBound(c: Config, st: System, from: int, span: int, delay: nat)
    requires c.W() > 0 && span > 0 && Reachable(c, st)
    ensures |LetThroughIn(c, st, from, from + span, delay)|
              <= MostAdmitted(c.Limit(), c.W(), span + delay)
  {
    ReachableInv(c, st);
    var ids := LetThroughIn(c, st, from, from + span, delay);
    var image: map<nat, int> := map id | id in st.callers :: st.callers[id].hit;
    forall id | id in ids
      ensures image[id] in AdmittedIn(c, st, from - delay, from - delay + (span + delay))
    {
      assert CallerFits(c, st, st.callers[id]);
    }
    hide AdmittedIn, Inv, Reachable;
    ImageSize(ids, image, AdmittedIn(c, st, from - delay, from - delay + (span + delay)));
    AdmissionBound(c, st, from - delay, span + delay);
  }

  lemma Monotone(a: int, x: int, y: int)
    ensures a >= 0 && x <= y ==> a * x <= a * y
  {}

  lemma OrderedEpochs(c: Config, st: System, i: nat, j: nat)
    requires c.W() > 0 && Inv(c, st) && i <= j < |st.hits|
    ensures st.hits[i].epoch <= st.hits[j].epoch
  {
    assert HitFits(st, i) && HitFits(st, j);
    assert forall e, f | 0 <= f < e < |st.first| :: st.End(f) <= st.first[e];
  }

  /** Two hits less than `span` apart are at most ceil(span / W) epochs apart. */
  lemma EpochsInSpan(c: Config, st: System, i: nat, j: nat, from: int, span: int)
    requires c.W() > 0 && Inv(c, st) && i <= j < |st.hits| && span > 0
    requires from <= st.hits[i].time && st.hits[j].time < from + span
    ensures st.hits[j].epoch - st.hits[i].epoch <= CeilDiv(span, c.W())
  {
    assert HitFits(st, i) && HitFits(st, j);
    var lo, hi := st.hits[i].epoch, st.hits[j].epoch;
    var windows := CeilDiv(span, c.W());
    if hi - lo > windows {
      EpochStartsSpread(c, st, lo + 1, hi);
      Monotone(c.W(), windows, hi - lo - 1);
      assert false;
    }
  }

  /**
   * Whenever a caller sets a deadline, it is the only one that owes it, and it sets it on the
   * epoch its own INCR began.
   */
  lemma DeadlineIsOwed(c: Config, st: System)
    requires c.W() > 0 && Reachable(c, st)
    ensures forall a, b | st.Owes(a) && st.Owes(b) :: a == b
    ensures forall id | Enabled(c, st, DoExpire(id)) ::
              && st.callers[id].hit < |st.hits|
              && View(c, st).Some?
              && st.hits[st.callers[id].hit].epoch == st.Newest()
              && st.hits[st.callers[id].hit].current == 1
              && View(c, Apply(c, st, DoExpire(id))).value.deadline == Some(st.store.now + c.W())
  {
    ReachableInv(c, st);
    forall id | Enabled(c, st, DoExpire(id))
      ensures CallerFits(c, st, st.callers[id]) && st.Owes(id)
    {}
  }

  lemma {:induction false} KeyHoldsCounter(c: Config, init: System, steps: seq<Step>)
    requires Init(c, init) && Run(c, init, steps).Some?
    ensures
      var key := View(c, Run(c, init, steps).value);
      key.Some? ==> key.value.value.Count?
    decreases |steps|
  {
    if steps != [] {
      KeyHoldsCounter(c, init, steps[..|steps| - 1]);
    }
  }

  /** No caller ever finds the limiter's key unusable for INCR, whatever the window. */
  lemma CallersAreServed(c: Config, st: System, id: nat)
    requires Reachable(c, st) && id !in st.callers
    ensures Enabled(c, st, DoIncr(id))
  {
    var init, steps :| Init(c, init) && Run(c, init, steps) == Some(st);
    KeyHoldsCounter(c, init, steps);
  }

  /**
   * The answer a caller gets: one that is let through is told how much of the limit its own
   * counter value leaves; one that is denied is told to wait between 1 and W seconds.
   */
  lemma AnswersAreSound(c: Config, st: System, id: nat)
    requires c.W() > 0 && Reachable(c, st) && id in st.callers && st.callers[id].Answered?
    ensures
      var p := st.callers[id];
      var answer := RateLimit.Respond(c.settings, p.current, p.ttl, p.at * 1000);
      && p.hit < |st.hits| && p.current == st.hits[p.hit].current
      && (answer.allowed <==> st.hits[p.hit].current <= c.Limit())
      && (answer.allowed ==> answer.remaining == Some(c.Limit() - p.current))
      && (!answer.allowed ==> answer.remaining == Some(0))
      && (!answer.allowed ==> answer.retryAfterSeconds == Some(if p.ttl > 0 then p.ttl else c.W()))
      && (!answer.allowed ==> 1 <= answer.retryAfterSeconds.value <= c.W())
      && answer.resetAt == Some(if p.ttl > 0 then (p.at + p.ttl) * 1000 else p.at * 1000 + c.settings.windowMs)
  {
    ReachableInv(c, st);
    assert CallerFits(c, st, st.callers[id]);
  }

  /**
   * The retry time a denied caller is told is enough: once that many seconds have passed since
   * the ttl was read, the epoch that denied it is over. Only a ttl of -1, read while the key
   * still waits for its deadline, promises nothing.
   */
  lemma RetryTimeIsEnough(c: Config, st: System, id: nat)
    requires c.W() > 0 && Reachable(c, st) && id in st.callers && st.callers[id].Answered?
    requires st.callers[id].ttl != -1
    ensures
      var p := st.callers[id];
      var answer := RateLimit.Respond(c.settings, p.current, p.ttl, p.at * 1000);
      && p.hit < |st.hits|
      && (!answer.allowed ==> answer.retryAfterSeconds.Some?)
      && (!answer.allowed && st.store.now >= p.at + answer.retryAfterSeconds.value ==>
            View(c, st).None? || st.hits[p.hit].epoch < st.Newest())
  {
    ReachableInv(c, st);
    assert CallerFits(c, st, st.callers[id]);
  }

  /** `n` callers at one instant, the first of whom has not yet set the deadline. */
  ghost function Hurried(n: nat): seq<Step>
  {
    if n == 0 then [] else Hurried(n - 1) + [DoIncr(n)]
  }

  lemma RunSnoc(c: Config, st: System, steps: seq<Step>, step: Step)
    requires Run(c, st, steps).Some? && Enabled(c, Run(c, st, steps).value, step)
    ensures Run(c, st, steps + [step]) == Some(Apply(c, Run(c, st, steps).value, step))
  {}

  /** `n` hits at the instant 0, and no deadline yet. */
  ghost predicate Undated(c: Config, st: System, n: nat)
  {
    && st.store.now == 0 && |st.hits| == n && (forall id | id in st.callers :: id <= n)
    && (n == 0 ==> View(c, st) == None && st.starts == [])
    && (n > 0 ==>
          && View(c, st) == Some(TtlStore.Entry(TtlStore.Count(n), None))
          && |st.starts| == 1 && st.hits[n - 1].epoch == 0)
    && (n > 1 ==> n in st.callers && st.callers[n] == NeedsTtl(n, n - 1))
  }

  lemma OneMoreHurries(c: Config, st: System, n: nat)
    requires Undated(c, st, n)
    ensures Enabled(c, st, DoIncr(n + 1)) && Undated(c, Apply(c, st, DoIncr(n + 1)), n + 1)
  {}

  lemma {:induction false} HurriedRun(c: Config, st: System, n: nat)
    requires Undated(c, st, 0)
    ensures Run(c, st, Hurried(n)).Some? && Undated(c, Run(c, st, Hurried(n)).value, n)
  {
    if n > 0 {
      HurriedRun(c, st, n - 1);
      hide Undated;
      OneMoreHurries(c, Run(c, st, Hurried(n - 1)).value, n - 1);
      RunSnoc(c, st, Hurried(n - 1), DoIncr(n));
    }
  }

  /** So a caller denied while the deadline is still owed may wait its retry time and find the same epoch. */
  lemma OwedDeadlineOutlastsRetry(c: Config) returns (st: System, id: nat)
    requires c.W() > 0
    ensures Reachable(c, st) && id in st.callers && st.callers[id].Answered? && st.callers[id].ttl == -1
    ensures
      var p := st.callers[id];
      var answer := RateLimit.Respond(c.settings, p.current, p.ttl, p.at * 1000);
      && !answer.allowed && answer.retryAfterSeconds.Some? && p.hit < |st.hits|
      && st.store.now >= p.at + answer.retryAfterSeconds.value
      && View(c, st).Some? && st.hits[p.hit].epoch == st.Newest()
  {
    var init := System(TtlStore.State(map[], 0), map[], [], [], []);
    var n := Max(c.Limit(), 1) + 1;
    HurriedRun(c, init, n);
    var full := Run(c, init, Hurried(n)).value;
    var answered := Apply(c, full, DoTtl(n));
    RunSnoc(c, init, Hurried(n), DoTtl(n));
    RunSnoc(c, init, Hurried(n) + [DoTtl(n)], Tick(c.W()));
    st, id := Apply(c, answered, Tick(c.W())), n;
    assert Init(c, init);
    hide Run;
  }

  /** The key is live, has no deadline, and nobody is left to set one. */
  ghost predicate Stuck(c: Config, st: System)
  {
    Unbounded(c, st) && forall id :: !st.Owes(id)
  }

  lemma StuckStep(c: Config, st: System, step: Step)
    requires c.W() > 0 && Inv(c, st) && Stuck(c, st) && Enabled(c, st, step)
    ensures
      var st' := Apply(c, st, step);
      Stuck(c, st') && st'.first == st.first && st.hits <= st'.hits
  {
    var st' := Apply(c, st, step);
    match step
    case DoIncr(id) =>
      assert HitFits(st, st.first[st.Newest()]);
      assert forall a :: st'.Owes(a) ==> st.Owes(a);
    case DoExpire(id) => assert false;
    case _ =>
      assert forall a :: st'.Owes(a) ==> st.Owes(a);
  }

  lemma {:induction false} StuckRun(c: Config, st: System, steps: seq<Step>)
    requires c.W() > 0 && Inv(c, st) && Stuck(c, st) && Run(c, st, steps).Some?
    ensures
      var st' := Run(c, st, steps).value;
      Inv(c, st') && Stuck(c, st') && st'.first == st.first && st.hits <= st'.hits
    decreases |steps|
  {
    if steps != [] {
      var before := steps[..|steps| - 1];
      StuckRun(c, st, before);
      RunKeepsInv(c, st, steps);
      StuckStep(c, Run(c, st, before).value, steps[|steps| - 1]);
    }
  }

  /** Step `k` of the run is the crash of a caller that still owes the key its deadline. */
  ghost predicate CrashesOwing(c: Config, init: System, steps: seq<Step>, k: nat)
  {
    && k < |steps| && steps[k].Crash?
    && Run(c, init, steps[..k]).Some? && Run(c, init, steps[..k]).value.Owes(steps[k].id)
  }

  /** Only the crash of a caller that owes the deadline can lock a key that was not locked. */
  lemma OnlyOwingCrashLocks(c: Config, st: System, step: Step)
    requires c.W() > 0 && Inv(c, st) && !Stuck(c, st) && Enabled(c, st, step)
    requires Stuck(c, Apply(c, st, step))
    ensures step.Crash? && st.Owes(step.id)
  {
    var st' := Apply(c, st, step);
    if Unbounded(c, st) {
      var a :| st.Owes(a);
      assert !st'.Owes(a);
    } else if step.DoIncr? {
      assert View(c, st).None? ==> st'.Owes(step.id);
    }
  }

  lemma OwingCrashLocks(c: Config, st: System, id: nat)
    requires c.W() > 0 && Inv(c, st) && st.Owes(id)
    ensures Enabled(c, st, Crash(id)) && Stuck(c, Apply(c, st, Crash(id)))
  {
    assert forall a :: Apply(c, st, Crash(id)).Owes(a) ==> st.Owes(a);
  }

  /** A run is locked as soon as, and only if, some caller crashed while it owed the deadline. */
  lemma {:induction false} LockedIffCrashedOwing(c: Config, init: System, steps: seq<Step>)
    requires c.W() > 0 && Init(c, init) && Run(c, init, steps).Some?
    ensures
      var final := Run(c, init, steps).value;
      Stuck(c, final) <==> exists k: nat :: CrashesOwing(c, init, steps, k)
    decreases |steps|
  {
    if steps != [] {
      var before, last := steps[..|steps| - 1], steps[|steps| - 1];
      var mid := Run(c, init, before).value;
      LockedIffCrashedOwing(c, init, before);
      RunKeepsInv(c, init, before);
      assert forall k: nat | k < |before| :: steps[..k] == before[..k] && steps[k] == before[k];
      assert forall k: nat | k < |before| :: CrashesOwing(c, init, steps, k) <==> CrashesOwing(c, init, before, k);
      if Stuck(c, mid) {
        StuckStep(c, mid, last);
        var k: nat :| CrashesOwing(c, init, before, k);
        assert CrashesOwing(c, init, steps, k);
      } else if Stuck(c, Apply(c, mid, last)) {
        OnlyOwingCrashLocks(c, mid, last);
        assert CrashesOwing(c, init, steps, |before|);
      } else if k: nat :| CrashesOwing(c, init, steps, k) {
        if k == |before| {
          OwingCrashLocks(c, mid, last.id);
        }
        assert false;
      }
    }
  }

  /** So unless a caller crashed owing it, a live key lacks its deadline exactly while some caller owes it. */
  lemma DeadlineComes(c: Config, init: System, steps: seq<Step>)
    requires c.W() > 0 && Init(c, init) && Run(c, init, steps).Some?
    requires forall k: nat :: !CrashesOwing(c, init, steps, k)
    ensures
      var final := Run(c, init, steps).value;
      Unbounded(c, final) <==> exists id :: final.Owes(id)
  {
    LockedIffCrashedOwing(c, init, steps);
    RunKeepsInv(c, init, steps);
  }

  lemma RunsCompose(c: Config, st: System, a: seq<Step>, b: seq<Step>)
    requires Run(c, st, a).Some? && Run(c, Run(c, st, a).value, b).Some?
    ensures Run(c, st, a + b) == Run(c, Run(c, st, a).value, b)
    decreases |b|
  {
    if b == [] {
      assert a + b == a;
    } else {
      var b' := b[..|b| - 1];
      RunsCompose(c, st, a, b');
      assert (a + b)[..|a + b| - 1] == a + b';
      assert (a + b)[|a + b| - 1] == b[|b| - 1];
    }
  }

  /**
   * A caller that crashes between its INCR and its EXPIRE leaves the key without a deadline for
   * good: whatever happens afterwards, for however long, at most limit - count more callers
   * are ever let through.
   */
  lemma CrashLocksTheKey(c: Config, st: System, id: nat, steps: seq<Step>)
    requires c.W() > 0 && Reachable(c, st) && st.Owes(id)
    requires Run(c, Apply(c, st, Crash(id)), steps).Some?
    ensures
      var later := Run(c, Apply(c, st, Crash(id)), steps).value;
      && [] < st.hits <= later.hits
      && Stuck(c, later)
      && |set i | |st.hits| <= i < |later.hits| && later.hits[i].current <= c.Limit()|
           <= Max(c.Limit() - st.hits[|st.hits| - 1].current, 0)
  {
    ReachableInv(c, st);
    var crashed := Apply(c, st, Crash(id));
    OwingCrashLocks(c, st, id);
    CrashKeepsInv(c, st, id);
    assert crashed.hits == st.hits && crashed.first == st.first && View(c, crashed) == View(c, st);
    hide Inv, Apply, Run, Reachable;
    StuckRun(c, crashed, steps);
    var later := Run(c, crashed, steps).value;
    FewMoreAdmitted(c, st, later);
  }

  lemma FewMoreAdmitted(c: Config, st: System, later: System)
    requires c.W() > 0 && Inv(c, st) && Inv(c, later)
    requires st.hits <= later.hits && st.first == later.first && View(c, st).Some?
    ensures st.hits != []
    ensures |set i | |st.hits| <= i < |later.hits| && later.hits[i].current <= c.Limit()|
              <= Max(c.Limit() - st.hits[|st.hits| - 1].current, 0)
  {
    LaterHitsCountOn(c, st, later);
    hide Inv;
    var n := |st.hits|;
    var room := Max(c.Limit() - st.hits[n - 1].current, 0);
    SubsetSize((set i | n <= i < |later.hits| && later.hits[i].current <= c.Limit()), Interval(n, n + room));
  }

  /** As long as no new epoch begins, counter values go on from the last one. */
  lemma LaterHitsCountOn(c: Config, st: System, later: System)
    requires c.W() > 0 && Inv(c, st) && Inv(c, later)
    requires st.hits <= later.hits && st.first == later.first && View(c, st).Some?
    ensures st.hits != []
    ensures forall i | |st.hits| <= i < |later.hits| ::
              later.hits[i].current == st.hits[|st.hits| - 1].current + (i - |st.hits| + 1)
  {
    var last := |st.hits| - 1;
    assert HitFits(st, last);
    assert HitFits(later, last) && later.hits[last] == st.hits[last];
    forall i | last <= i < |later.hits|
      ensures later.hits[i].epoch == later.Newest()
    {
      assert HitFits(later, i);
      assert forall e, f | 0 <= f < e < |later.first| :: later.End(f) <= later.first[e];
    }
    forall i | |st.hits| <= i < |later.hits|
      ensures later.hits[i].current == st.hits[last].current + (i - last)
    {
      assert HitFits(later, i);
    }
  }

  /** Several whole calls in a row at one instant, none of them interrupted. */
  ghost function Calls(n: nat): seq<Step>
  {
    if n == 0 then [] else Calls(n - 1) + [DoIncr(n), DoExpire(n), DoTtl(n)]
  }

  /** With a window of zero or less the deadline is past as soon as it is set, so every call starts over. */
  lemma {:induction false} EmptyWindowAdmitsAll(c: Config, st: System, n: nat)
    requires c.W() <= 0 && c.Limit() > 0 && Init(c, st)
    ensures Run(c, st, Calls(n)).Some?
    ensures
      var st' := Run(c, st, Calls(n)).value;
      && st'.store.now == st.store.now && View(c, st').None?
      && (forall id | id in st'.callers :: id <= n)
      && |st'.hits| == n && (forall i | 0 <= i < n :: st'.hits[i].time == st.store.now && st'.hits[i].current == 1)
  {
    if n > 0 {
      EmptyWindowAdmitsAll(c, st, n - 1);
      var mid := Run(c, st, Calls(n - 1)).value;
      var a := Apply(c, mid, DoIncr(n));
      var b := Apply(c, a, DoExpire(n));
      var done := Apply(c, b, DoTtl(n));
      var three := [DoIncr(n), DoExpire(n), DoTtl(n)];
      assert Run(c, mid, three[..0]) == Some(mid);
      assert three[..1][..0] == three[..0];
      assert Run(c, mid, three[..1]) == Some(a);
      assert three[..2][..1] == three[..1];
      assert Run(c, mid, three[..2]) == Some(b);
      assert three[..3] == three && three[..3][..2] == three[..2];
      assert Run(c, mid, three) == Some(done);
      RunsCompose(c, st, Calls(n - 1), three);
    }
  }

  ghost function AdmittedAt(c: Config, st: System, second: int): set<int>
  {
    AdmittedIn(c, st, second, second + 1)
  }

  /** No run ever lets more than `b` callers through in one second. */
  ghost predicate Bounds(c: Config, b: int)
  {
    forall st, second | Reachable(c, st) :: |AdmittedAt(c, st, second)| <= b
  }

  /** Admissions per second are bounded at all exactly when the window is positive or nobody is let through. */
  lemma BoundedIffWindowPositive(c: Config)
    ensures (exists b :: Bounds(c, b)) <==> c.settings.windowMs > 0 || c.settings.limit <= 0
  {
    if c.W() > 0 {
      forall st, second | Reachable(c, st)
        ensures |AdmittedAt(c, st, second)| <= MostAdmitted(c.Limit(), c.W(), 1)
      {
        AdmissionBound(c, st, second, 1);
      }
      assert Bounds(c, MostAdmitted(c.Limit(), c.W(), 1));
    } else if c.Limit() > 0 {
      forall b
        ensures !Bounds(c, b)
      {
        NoBound(c, b);
      }
    } else {
      forall st, second | Reachable(c, st)
        ensures |AdmittedAt(c, st, second)| <= 0
      {
        NobodyWithoutLimit(c, st, second, second + 1);
      }
      assert Bounds(c, 0);
    }
  }

  lemma NoBound(c: Config, b: int)
    requires c.W() <= 0 && c.Limit() > 0
    ensures !Bounds(c, b)
  {
    var n := Max(b, 0) + 1;
    var init := System(TtlStore.State(map[], 0), map[], [], [], []);
    EmptyWindowAdmitsAll(c, init, n);
    var st := Run(c, init, Calls(n)).value;
    assert Reachable(c, st);
    assert AdmittedAt(c, st, 0) == Interval(0, n);
  }

  lemma NobodyWithoutLimit(c: Config, st: System, from: int, to: int)
    requires c.Limit() <= 0 && Reachable(c, st)
    ensures AdmittedIn(c, st, from, to) == {}
  {
    var init, steps :| Init(c, init) && Run(c, init, steps) == Some(st);
    CountsArePositive(c, init, steps);
  }

  lemma {:induction false} CountsArePositive(c: Config, st: System, steps: seq<Step>)
    requires (forall i | 0 <= i < |st.hits| :: st.hits[i].current >= 1) && Run(c, st, steps).Some?
    ensures forall i | 0 <= i < |Run(c, st, steps).value.hits| :: Run(c, st, steps).value.hits[i].current >= 1
    decreases |steps|
  {
    if steps != [] {
      CountsArePositive(c, st, steps[..|steps| - 1]);
    }
  }

  /** A call of the service with nothing in between is the three protocol steps in a row. */
  lemma CallIsThreeSteps(c: Config, st: System, id: nat)
    requires Reachable(c, st) && id !in st.callers
    ensures Enabled(c, st, DoIncr(id))
    ensures
      var counted := Apply(c, st, DoIncr(id));
      var armed := if counted.Owes(id) then Apply(c, counted, DoExpire(id)) else counted;
      Enabled(c, armed, DoTtl(id)) &&
      var done := Apply(c, armed, DoTtl(id));
      var p := done.callers[id];
      RateLimit.Call(c.settings, st.store, c.key, st.store.now * 1000)
        == (done.store, Ok(RateLimit.Respond(c.settings, p.current, p.ttl, p.at * 1000)))
  {
    CallersAreServed(c, st, id);
  }

  // ---------------------------------------------------------------- the bound is reached

  lemma ReachOn(c: Config, st: System, steps: seq<Step>)
    requires Reachable(c, st) && Run(c, st, steps).Some?
    ensures Reachable(c, Run(c, st, steps).value)
  {
    var init, before :| Init(c, init) && Run(c, init, before) == Some(st);
    RunsCompose(c, init, before, steps);
  }

  lemma ReachStep(c: Config, st: System, step: Step)
    requires Reachable(c, st) && Enabled(c, st, step)
    ensures Reachable(c, Apply(c, st, step))
  {
    assert [step][..0] == [];
    assert Run(c, st, [step]) == Some(Apply(c, st, step));
    ReachOn(c, st, [step]);
  }

  /** The key counts `count` and lasts until `deadline`, and caller ids are those of the hits so far. */
  ghost predicate Counting(c: Config, st: System, count: nat, deadline: int)
  {
    && View(c, st) == Some(TtlStore.Entry(TtlStore.Count(count), Some(deadline)))
    && forall id | id in st.callers :: id < |st.hits|
  }

  /** One more record of hits at this instant, all within the limit. */
  ghost predicate MoreHits(c: Config, st: System, st': System, n: nat)
  {
    && st'.store.now == st.store.now
    && |st'.hits| == |st.hits| + n && st.hits <= st'.hits
    && forall i | |st.hits| <= i < |st'.hits| :: st'.hits[i].time == st.store.now && st'.hits[i].current <= c.Limit()
  }

  /** Further callers at one instant, while the window is open. */
  lemma Burst(c: Config, st: System, count: nat, deadline: int, n: nat) returns (st': System)
    requires Reachable(c, st) && Counting(c, st, count, deadline) && 1 <= count && count + n <= c.Limit()
    ensures Reachable(c, st') && Counting(c, st', count + n, deadline) && MoreHits(c, st, st', n)
    decreases n
  {
    st' := st;
    if n > 0 {
      var mid := Burst(c, st, count, deadline, n - 1);
      hide Reachable;
      ReachStep(c, mid, DoIncr(|mid.hits|));
      st' := Apply(c, mid, DoIncr(|mid.hits|));
    }
  }

  /** A first caller opens a window and sets its deadline at once. */
  lemma Open(c: Config, st: System) returns (st': System)
    requires c.W() > 0 && c.Limit() > 0 && Reachable(c, st) && View(c, st).None?
    requires forall id | id in st.callers :: id < |st.hits|
    ensures Reachable(c, st') && Counting(c, st', 1, st.store.now + c.W()) && MoreHits(c, st, st', 1)
  {
    var id := |st.hits|;
    var mid := Apply(c, st, DoIncr(id));
    ReachStep(c, st, DoIncr(id));
    ReachStep(c, mid, DoExpire(id));
    st' := Apply(c, mid, DoExpire(id));
  }

  /** The first hit at 0, the rest of the first window at `lead`, then `windows` full ones at their starts. */
  ghost predicate Saturated(c: Config, st: System, lead: nat, windows: nat)
  {
    && st.store.now == Max(lead, windows * c.W())
    && Counting(c, st, Max(c.Limit(), 0), (windows + 1) * c.W())
    && |st.hits| == c.Limit() * (windows + 1)
    && (forall i | 0 <= i < |st.hits| :: st.hits[i].current <= c.Limit())
    && (|st.hits| > 0 ==> st.hits[0].time == 0)
    && (forall i | 1 <= i < |st.hits| :: lead <= st.hits[i].time <= st.store.now)
  }

  lemma FirstWindow(c: Config, lead: nat) returns (st: System)
    requires c.Limit() > 0 && lead < c.W()
    ensures Reachable(c, st) && Saturated(c, st, lead, 0)
  {
    var init := System(TtlStore.State(map[], 0), map[], [], [], []);
    assert Run(c, init, []) == Some(init) && Init(c, init);
    var begun := Open(c, init);
    ReachStep(c, begun, Tick(lead));
    var waited := Apply(c, begun, Tick(lead));
    hide Reachable, Run;
    st := Burst(c, waited, 1, c.W(), c.Limit() - 1);
  }

  lemma NextWindow(c: Config, st: System, lead: nat, windows: nat) returns (next: System)
    requires c.Limit() > 0 && lead < c.W() && Reachable(c, st) && Saturated(c, st, lead, windows)
    ensures Reachable(c, next) && Saturated(c, next, lead, windows + 1)
  {
    hide Reachable, Run;
    OneMore(c.W(), windows);
    OneMore(c.W(), windows + 1);
    OneMore(c.Limit(), windows + 1);
    var wait := (windows + 1) * c.W() - st.store.now;
    var idle := Apply(c, st, Tick(wait));
    ReachStep(c, st, Tick(wait));
    var begun := Open(c, idle);
    next := Burst(c, begun, 1, idle.store.now + c.W(), c.Limit() - 1);
    forall i | 0 <= i < |next.hits|
      ensures next.hits[i].current <= c.Limit()
      ensures i == 0 ==> next.hits[i].time == 0
      ensures i >= 1 ==> lead <= next.hits[i].time <= next.store.now
    {
      assert i < |st.hits| ==> next.hits[i] == begun.hits[i] == st.hits[i];
      assert |st.hits| <= i < |begun.hits| ==> next.hits[i] == begun.hits[i];
    }
  }

  lemma SaturatedReachable(c: Config, lead: nat, windows: nat) returns (st: System)
    requires c.Limit() > 0 && lead < c.W()
    ensures Reachable(c, st) && Saturated(c, st, lead, windows)
  {
    if windows == 0 {
      st := FirstWindow(c, lead);
    } else {
      var before := SaturatedReachable(c, lead, windows - 1);
      st := NextWindow(c, before, lead, windows - 1);
    }
  }

  /** When every hit is within the limit, a span that holds all hits from the first `skipped` on admits them. */
  lemma AllSeen(c: Config, st: System, from: int, to: int, skipped: nat)
    requires skipped <= |st.hits| && forall i | 0 <= i < |st.hits| :: st.hits[i].current <= c.Limit()
    requires forall i | 0 <= i < |st.hits| :: from <= st.hits[i].time < to <==> skipped <= i
    ensures |AdmittedIn(c, st, from, to)| == |st.hits| - skipped
  {
    assert AdmittedIn(c, st, from, to) == Interval(skipped, |st.hits|);
  }

  /** When the hits of a saturated state happened, in a span that ends before `end`. */
  lemma SaturatedTimes(c: Config, st: System, lead: nat, windows: nat, end: int)
    requires Saturated(c, st, lead, windows) && Max(lead, windows * c.W()) < end
    ensures forall i | 0 <= i < |st.hits| :: st.hits[i].current <= c.Limit()
    ensures forall i | 0 <= i < |st.hits| :: 0 <= st.hits[i].time < end
    ensures lead > 0 ==> forall i | 0 <= i < |st.hits| :: lead <= st.hits[i].time <==> 1 <= i
    ensures |st.hits| == c.Limit() * (windows + 1)
  {
    hide Counting;
    forall i | 0 <= i < |st.hits|
      ensures 0 <= st.hits[i].time < end
      ensures lead > 0 ==> (lead <= st.hits[i].time <==> 1 <= i)
    {
      if i == 0 {
        assert st.hits[0].time == 0;
      }
    }
  }

  /** All windows full at their starts: a span one second longer than the windows before the last sees them all. */
  lemma StartsAreSeen(c: Config, span: int) returns (st: System)
    requires c.Limit() > 0 && c.W() > 0 && span > 0 && (span - 1) % c.W() == 0
    ensures Reachable(c, st) && |AdmittedIn(c, st, 0, span)| == MostAdmitted(c.Limit(), c.W(), span)
  {
    hide Reachable, CeilDiv, AdmittedIn, Saturated;
    var windows := CeilDiv(span, c.W()) - 1;
    ExtraSecond(span, c.W());
    assert windows >= 0;
    assert windows * c.W() == span - 1;
    st := SaturatedReachable(c, 0, windows);
    SaturatedTimes(c, st, 0, windows, span);
    AllSeen(c, st, 0, span, 0);
  }

  /** The first window full at its end: any other span sees all hits but the very first. */
  lemma AllButFirstAreSeen(c: Config, span: int) returns (st: System)
    requires c.Limit() > 0 && c.W() > 0 && span > 0 && (span - 1) % c.W() != 0
    ensures Reachable(c, st)
    ensures |AdmittedIn(c, st, c.W() - 1, c.W() - 1 + span)| == MostAdmitted(c.Limit(), c.W(), span)
  {
    hide Reachable, CeilDiv, AdmittedIn, Saturated;
    var windows := CeilDiv(span, c.W());
    assert c.W() >= 2;
    ExtraSecond(span, c.W());
    OneMore(c.W(), windows - 1);
    assert windows * c.W() < c.W() - 1 + span;
    st := SaturatedReachable(c, c.W() - 1, windows);
    SaturatedTimes(c, st, c.W() - 1, windows, c.W() - 1 + span);
    Monotone(c.Limit(), 1, windows + 1);
    AllSeen(c, st, c.W() - 1, c.W() - 1 + span, 1);
  }

  /** The bound is exact: for every span some run lets just that many callers through. */
  lemma BoundIsReached(c: Config, span: int) returns (st: System, from: int)
    requires c.W() > 0 && span > 0
    ensures Reachable(c, st)
    ensures |AdmittedIn(c, st, from, from + span)| == MostAdmitted(c.Limit(), c.W(), span)
  {
    if c.Limit() <= 0 {
      st, from := System(TtlStore.State(map[], 0), map[], [], [], []), 0;
      assert Run(c, st, []) == Some(st) && Init(c, st);
      assert AdmittedIn(c, st, from, from + span) == {};
    } else if (span - 1) % c.W() == 0 {
      st := StartsAreSeen(c, span);
      from := 0;
    } else {
      st := AllButFirstAreSeen(c, span);
      from := c.W() - 1;
    }
  }
}
