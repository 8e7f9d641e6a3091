/** The client object: its two marks are updated under the lock, by whichever caller holds it.

  Every locked region is proved to be one event of the interleaving model, so the safety and
  throughput results about runs are results about this object. */
module RpcClients {
  import opened Options
  import opened RateLimiter

  /** The outcome of the first locked region. */
  datatype Decision = WaitForCooldown(target: real) | Reserved(target: real) | Unlimited

  /** Where the caller goes with it, when n slots had been reserved before. */
  function PhaseAfter(d: Decision, n: nat): Phase
  {
    match d
    case WaitForCooldown(target) => Sleeping(target, None)
    case Reserved(target) => Sleeping(target, Some(n))
    case Unlimited => Outside
  }

  class RpcClient {
    const requestsPerSecond: real
    var nextRequestAt: real
    var cooldownUntil: real

    /** The object is the shared part of the state. */
    ghost predicate Tracks(s: State)
      reads this
    {
      requestsPerSecond == s.rate && nextRequestAt == s.next && cooldownUntil == s.cooldown && Inv(s)
    }

    constructor (rate: real)
      ensures requestsPerSecond == rate && forall callers: nat :: Tracks(Start(rate, callers))
    {
      requestsPerSecond := rate;
      nextRequestAt, cooldownUntil := 0.0, 0.0;
      forall callers: nat ensures Inv(Start(rate, callers)) { StartInv(rate, callers); }
    }

    /** First region of `_wait_for_rate_slot`: the caller's Decide event.  A reserved slot starts no
        earlier than now and at least 1 / rate after every slot reserved before; it is now or exactly
        1 / rate after the previous slot. */
    method Decide(now: real, ghost s: State, ghost c: nat) returns (decision: Decision)
      requires Tracks(s) && now == s.now && Enabled(s, Event.Decide(c))
      modifies this`nextRequestAt
      ensures Tracks(Step(s, Event.Decide(c)))
      ensures Step(s, Event.Decide(c)).callers[c] == PhaseAfter(decision, |s.slots|)
      ensures decision.WaitForCooldown? <==> now < cooldownUntil
      ensures decision.WaitForCooldown? ==> decision.target == cooldownUntil
      ensures decision.Reserved? ==> requestsPerSecond > 0.0 && decision.target >= now >= cooldownUntil
      ensures decision.Reserved? ==>
        forall i :: 0 <= i < |s.slots| ==> (decision.target - s.slots[i]) * requestsPerSecond >= 1.0
      ensures decision.Reserved? ==>
        || decision.target == now
        || (s.slots != [] && (decision.target - s.slots[|s.slots| - 1]) * requestsPerSecond == 1.0)
      ensures decision.Unlimited? ==> requestsPerSecond <= 0.0
      ensures nextRequestAt >= old(nextRequestAt)
    {
      hide Inv, Interval, Start;
      StepInv(s, Event.Decide(c));
      if now < cooldownUntil {
        return WaitForCooldown(cooldownUntil);
      } else if requestsPerSecond > 0.0 {
        EarliestStep(s, c);
        var target := Max(now, nextRequestAt);
        AllSlotsEarlier(s, target);
        nextRequestAt := target + Interval(requestsPerSecond);
        return Reserved(target);
      } else {
        return Unlimited;
      }
    }

    /** Second region: the caller's Check event.  It leaves only at or after its slot, with no
        cooldown in force, and otherwise starts over. */
    method Check(now: real, ghost s: State, ghost c: nat) returns (leave: bool)
      requires Tracks(s) && now == s.now && Enabled(s, Event.Check(c))
      ensures Tracks(Step(s, Event.Check(c)))
      ensures s.callers[c].held < |s.slots|
      ensures leave ==> now >= s.slots[s.callers[c].held] && now >= cooldownUntil
      ensures !leave ==> now < cooldownUntil
      ensures Step(s, Event.Check(c)).callers[c] == if leave then Outside else Deciding
      ensures |Step(s, Event.Check(c)).departures| == |s.departures| + if leave then 1 else 0
    {
      hide Spaced, Exclusive, Interval;
      StepInv(s, Event.Check(c));
      assert CallerOk(s, s.callers[c]);
      leave := !(now < cooldownUntil);
    }

    /** `_impose_client_wide_cooldown`: an Impose event.  Both marks cover the cooldown and neither
        retreats. */
    method Impose(now: real, seconds: real, ghost s: State)
      requires Tracks(s) && now == s.now
      modifies this`nextRequestAt, this`cooldownUntil
      ensures Tracks(Step(s, Event.Impose(seconds)))
      ensures now + seconds <= cooldownUntil <= nextRequestAt && now <= cooldownUntil
      ensures old(cooldownUntil) <= cooldownUntil && old(nextRequestAt) <= nextRequestAt
      ensures cooldownUntil in {old(cooldownUntil), now, now + seconds}
      ensures nextRequestAt in {old(nextRequestAt), cooldownUntil}
    {
      hide Inv;
      StepInv(s, Event.Impose(seconds));
      var until := now + Max(0.0, seconds);
      cooldownUntil := Max(cooldownUntil, until);
      nextRequestAt := Max(nextRequestAt, cooldownUntil);
    }
  }

  /** The next free time lies at least 1 / rate after every reserved slot. */
  lemma AllSlotsEarlier(s: State, t: real)
    requires Inv(s) && s.rate > 0.0 && t >= s.next
    ensures forall i :: 0 <= i < |s.slots| ==> (t - s.slots[i]) * s.rate >= 1.0
  {
    hide Interval, Intervals;
    InvSpaced(s);
    forall i | 0 <= i < |s.slots| ensures (t - s.slots[i]) * s.rate >= 1.0 {
      var last := |s.slots| - 1;
      SlotsApart(s, i, last);
      MoreIntervals(0, last - i, s.rate);
      AtRate(s.rate, t - s.slots[i]);
    }
  }

  lemma AtRate(rate: real, span: real)
    requires rate > 0.0 && span >= Interval(rate)
    ensures span * rate >= 1.0
  {
    assert (span - Interval(rate)) * rate >= 0.0;
  }

  /** Any number of threads using one client, driven by an arbitrary schedule; an event that is not
      enabled when its turn comes does not happen.  Whatever the schedule, the object ends in a
      state of the model, so nobody leaves early and the throughput bound holds. */
  method Interleave(rate: real, threads: nat, schedule: seq<Event>)
    returns (client: RpcClient, callers: seq<Phase>, slots: seq<real>, departures: seq<Departure>, now: real)
    ensures fresh(client) && client.requestsPerSecond == rate
    ensures var s := State(rate, now, client.nextRequestAt, client.cooldownUntil, callers, slots, departures);
      && Inv(s)
      && (exists run :: Reaches(rate, threads, run, s))
    ensures rate > 0.0 && departures != [] ==>
      slots != [] && (|departures| - 1) as real <= rate * (now - slots[0])
  {
    hide Inv, Interval, Intervals, Start, Reaches, Step;
    client := new RpcClient(rate);
    callers, slots, departures, now := seq(threads, _ => Outside), [], [], 0.0;
    ghost var s := Start(rate, threads);
    ghost var run: seq<Event> := [];
    StartReached(rate, threads);
    for i := 0 to |schedule|
      invariant fresh(client) && client.requestsPerSecond == rate && client.Tracks(s)
      invariant s == State(rate, now, client.nextRequestAt, client.cooldownUntil, callers, slots, departures)
      invariant Reaches(rate, threads, run, s)
    {
      var e := schedule[i];
      if !Enabled(State(rate, now, client.nextRequestAt, client.cooldownUntil, callers, slots, departures), e) {
        continue;
      }
      callers, slots, departures, now := Perform(client, e, callers, slots, departures, now, s);
      ReachOn(rate, threads, run, s, e);
      s, run := Step(s, e), run + [e];
    }
    if rate > 0.0 && departures != [] { ThroughputBound(rate, threads, run, s); }
  }

  lemma StartReached(rate: real, threads: nat)
    ensures Start(rate, threads) == State(rate, 0.0, 0.0, 0.0, seq(threads, _ => Outside), [], [])
    ensures Reaches(rate, threads, [], Start(rate, threads))
  {
  }

  lemma ReachOn(rate: real, threads: nat, run: seq<Event>, s: State, e: Event)
    requires Reaches(rate, threads, run, s) && Enabled(s, e)
    ensures Reaches(rate, threads, run + [e], Step(s, e))
  {
    hide Step;
    var longer := run + [e];
    assert longer[..|longer| - 1] == run && longer[|longer| - 1] == e;
    assert Reaches(rate, threads, longer[..|longer| - 1], s);
  }

  /** One enabled event, performed on the object. */
  method Perform(client: RpcClient, e: Event, callers0: seq<Phase>, slots0: seq<real>, departures0: seq<Departure>,
      now0: real, ghost s: State)
    returns (callers: seq<Phase>, slots: seq<real>, departures: seq<Departure>, now: real)
    requires client.Tracks(s) && Enabled(s, e)
    requires s.callers == callers0 && s.slots == slots0 && s.departures == departures0 && s.now == now0
    modifies client
    ensures client.Tracks(Step(s, e))
    ensures Step(s, e)
         == State(s.rate, now, client.nextRequestAt, client.cooldownUntil, callers, slots, departures)
  {
    hide Inv, Interval;
    callers, slots, departures, now := callers0, slots0, departures0, now0;
    StepInv(s, e);
    match e
    case Advance(elapsed) => now := now + elapsed;
    case Begin(c) => callers := callers[c := Deciding];
    case Decide(c) =>
      var d := client.Decide(now, s, c);
      callers := callers[c := PhaseAfter(d, |slots|)];
      if d.Reserved? { slots := slots + [d.target]; }
      if d.Unlimited? { departures := departures + [Departure(None, now, client.cooldownUntil)]; }
    case Wake(c) => callers := callers[c := AfterSleep(callers[c])];
    case Check(c) =>
      var leave := client.Check(now, s, c);
      if leave { departures := departures + [Departure(Some(callers[c].held), now, client.cooldownUntil)]; }
      callers := callers[c := if leave then Outside else Deciding];
    case Impose(seconds) => client.Impose(now, seconds, s);
  }
}
