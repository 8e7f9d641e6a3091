/** The shared rate limiter: lock-protected slot reservation with a client-wide cooldown,
    over every interleaving of any number of callers. */
module RateLimiter {
  import opened Options

  function Max(a: real, b: real): real { if a >= b then a else b }

  function Interval(rate: real): (d: real)
    requires rate > 0.0
    ensures d > 0.0 && d * rate == 1.0
  {
    1.0 / rate
  }

  // -------------------------------------------------------------- callers and interleavings

  /** Where a caller is: outside, before the first locked region, sleeping until a target (with
      the slot it reserved, if any), or before the second locked region. */
  datatype Phase = Outside | Deciding | Sleeping(until: real, slot: Option<nat>) | Checking(held: nat)

  /** A caller let through: its slot, the time and the cooldown mark of its last locked check. */
  datatype Departure = Departure(slot: Option<nat>, at: real, cooldownSeen: real)

  datatype State = State(
    rate: real, now: real, next: real, cooldown: real,
    callers: seq<Phase>, slots: seq<real>, departures: seq<Departure>)

  /** One atomic event.  Time passes only in `Advance`; a locked region reads the clock once. */
  datatype Event =
    | Advance(elapsed: real)
    | Begin(caller: nat)
    | Decide(caller: nat)
    | Wake(caller: nat)
    | Check(caller: nat)
    | Impose(seconds: real)

  function Start(rate: real, callers: nat): State
  {
    State(rate, 0.0, 0.0, 0.0, seq(callers, _ => Outside), [], [])
  }

  predicate Enabled(s: State, e: Event)
  {
    match e
    case Advance(d) => d >= 0.0
    case Begin(c) => c < |s.callers| && s.callers[c].Outside?
    case Decide(c) => c < |s.callers| && s.callers[c].Deciding?
    case Wake(c) => c < |s.callers| && s.callers[c].Sleeping? && s.now >= s.callers[c].until
    case Check(c) => c < |s.callers| && s.callers[c].Checking?
    case Impose(_) => true
  }

  /** First locked region: a cooldown is seen, a slot is reserved, or there is no limit. */
  function AfterDecide(s: State, c: nat): State
    requires c < |s.callers|
  {
    if s.now < s.cooldown then s.(callers := s.callers[c := Sleeping(s.cooldown, None)])
    else if s.rate > 0.0 then
      var target := Max(s.now, s.next);
      s.(next := target + Interval(s.rate), slots := s.slots + [target],
         callers := s.callers[c := Sleeping(target, Some(|s.slots|))])
    else
      s.(callers := s.callers[c := Outside], departures := s.departures + [Departure(None, s.now, s.cooldown)])
  }

  /** Second locked region: leave, or start over when a cooldown has begun meanwhile. */
  function AfterCheck(s: State, c: nat): State
    requires c < |s.callers| && s.callers[c].Checking?
  {
    if s.now < s.cooldown then s.(callers := s.callers[c := Deciding])
    else
      s.(callers := s.callers[c := Outside],
         departures := s.departures + [Departure(Some(s.callers[c].held), s.now, s.cooldown)])
  }

  function AfterSleep(p: Phase): Phase
    requires p.Sleeping?
  {
    if p.slot.Some? then Checking(p.slot.value) else Deciding
  }

  function Step(s: State, e: Event): State
    requires Enabled(s, e)
  {
    match e
    case Advance(d) => s.(now := s.now + d)
    case Begin(c) => s.(callers := s.callers[c := Deciding])
    case Decide(c) => AfterDecide(s, c)
    case Wake(c) => s.(callers := s.callers[c := AfterSleep(s.callers[c])])
    case Check(c) => AfterCheck(s, c)
    case Impose(seconds) =>
      var cooldown := Max(s.cooldown, s.now + Max(0.0, seconds));
      s.(cooldown := cooldown, next := Max(s.next, cooldown))
  }

  /** s can be reached from the start. */
  ghost predicate Reaches(rate: real, callers: nat, run: seq<Event>, s: State)
    decreases |run|
  {
    if run == [] then s == Start(rate, callers)
    else
      var last := run[|run| - 1];
      exists before: State ::
        Reaches(rate, callers, run[..|run| - 1], before) && Enabled(before, last) && s == Step(before, last)
  }

  // ----------------------------------------------------------------------- monotonicity

  /** No event moves the clock or either mark backwards. */
  lemma MarksNeverRetreat(s: State, e: Event)
    requires Enabled(s, e)
    ensures var t := Step(s, e); t.now >= s.now && t.cooldown >= s.cooldown && t.next >= s.next
  {
    hide Interval;
  }

  // ------------------------------------------------------------------------- invariant

  ghost predicate Spaced(s: State)
  {
    s.rate > 0.0 ==>
      && (forall i :: 0 < i < |s.slots| ==> s.slots[i] >= s.slots[i - 1] + Interval(s.rate))
      && (s.slots != [] ==> s.next >= s.slots[|s.slots| - 1] + Interval(s.rate))
  }

  /** Nothing is held back: the next free time is the cooldown mark or one interval after the last slot. */
  ghost predicate Tight(s: State)
  {
    || s.next == s.cooldown
    || (s.rate > 0.0 && s.slots != [] && s.next == s.slots[|s.slots| - 1] + Interval(s.rate))
  }

  function Held(p: Phase): Option<nat>
  {
    match p
    case Sleeping(_, slot) => slot
    case Checking(held) => Some(held)
    case _ => None
  }

  ghost predicate CallerOk(s: State, p: Phase)
  {
    && (Held(p).Some? ==> Held(p).value < |s.slots|)
    && (p.Sleeping? && p.slot.Some? ==> p.until == s.slots[p.slot.value])
    && (p.Checking? ==> s.now >= s.slots[p.held])
  }

  /** No caller leaves before its slot, or when its last locked check saw a cooldown. */
  ghost predicate DepartureOk(s: State, d: Departure)
  {
    && d.cooldownSeen <= d.at <= s.now
    && (d.slot.Some? ==> d.slot.value < |s.slots| && d.at >= s.slots[d.slot.value])
    && (s.rate > 0.0 ==> d.slot.Some?)
  }

  /** Every slot has at most one holder, counting those who left with it. */
  ghost predicate Exclusive(s: State)
  {
    && (forall i, j ::
          0 <= i < j < |s.callers| && Held(s.callers[i]).Some? ==> Held(s.callers[i]) != Held(s.callers[j]))
    && (forall i, j ::
          0 <= i < j < |s.departures| && s.departures[i].slot.Some? ==> s.departures[i].slot != s.departures[j].slot)
    && (forall i, j ::
          0 <= i < |s.callers| && 0 <= j < |s.departures| && Held(s.callers[i]).Some? ==>
          Held(s.callers[i]) != s.departures[j].slot)
  }

  ghost predicate Inv(s: State)
  {
    && s.cooldown <= s.next && Spaced(s) && Tight(s) && Exclusive(s)
    && (forall c :: 0 <= c < |s.callers| ==> CallerOk(s, s.callers[c]))
    && (forall d :: 0 <= d < |s.departures| ==> DepartureOk(s, s.departures[d]))
  }

  lemma StartInv(rate: real, callers: nat)
    ensures Inv(Start(rate, callers))
  {
  }

  lemma CallersInv(s: State, t: State, c: nat, p: Phase)
    requires Inv(s) && c < |s.callers| && t == s.(callers := s.callers[c := p]) && CallerOk(s, p)
    requires Held(p).Some? ==> Held(p) == Held(s.callers[c])
    ensures Inv(t)
  {
    hide Interval;
    forall i | 0 <= i < |t.callers| ensures CallerOk(t, t.callers[i]) { assert CallerOk(s, s.callers[i]); }
    forall d | 0 <= d < |t.departures| ensures DepartureOk(t, t.departures[d]) {
      assert DepartureOk(s, s.departures[d]);
    }
  }

  lemma ReserveInv(s: State, c: nat, target: real)
    requires Inv(s) && c < |s.callers| && s.rate > 0.0 && target >= s.next
    ensures Inv(s.(next := target + Interval(s.rate), slots := s.slots + [target],
                   callers := s.callers[c := Sleeping(target, Some(|s.slots|))]))
  {
    hide Interval;
    var t := s.(next := target + Interval(s.rate), slots := s.slots + [target],
                callers := s.callers[c := Sleeping(target, Some(|s.slots|))]);
    forall i | 0 <= i < |t.callers| ensures CallerOk(t, t.callers[i]) {
      if i != c { assert CallerOk(s, s.callers[i]); }
    }
    forall d | 0 <= d < |t.departures| ensures DepartureOk(t, t.departures[d]) {
      assert DepartureOk(s, s.departures[d]);
    }
  }

  lemma DepartInv(s: State, c: nat, slot: Option<nat>)
    requires Inv(s) && c < |s.callers| && s.now >= s.cooldown && slot == Held(s.callers[c])
    requires DepartureOk(s, Departure(slot, s.now, s.cooldown))
    ensures Inv(s.(callers := s.callers[c := Outside],
                   departures := s.departures + [Departure(slot, s.now, s.cooldown)]))
  {
    hide Interval;
    var t := s.(callers := s.callers[c := Outside],
                departures := s.departures + [Departure(slot, s.now, s.cooldown)]);
    forall i | 0 <= i < |t.callers| ensures CallerOk(t, t.callers[i]) {
      if i != c { assert CallerOk(s, s.callers[i]); }
    }
    forall d | 0 <= d < |t.departures| ensures DepartureOk(t, t.departures[d]) {
      if d < |s.departures| { assert DepartureOk(s, s.departures[d]); }
    }
  }

  lemma TimeInv(s: State, now: real, cooldown: real, next: real)
    requires Inv(s) && now >= s.now && cooldown >= s.cooldown && next == Max(s.next, cooldown)
    ensures Inv(s.(now := now, cooldown := cooldown, next := next))
  {
    hide Interval;
    var t := s.(now := now, cooldown := cooldown, next := next);
    forall i | 0 <= i < |t.callers| ensures CallerOk(t, t.callers[i]) { assert CallerOk(s, s.callers[i]); }
    forall d | 0 <= d < |t.departures| ensures DepartureOk(t, t.departures[d]) {
      assert DepartureOk(s, s.departures[d]);
    }
  }

  /** Every event keeps the invariant. */
  lemma StepInv(s: State, e: Event)
    requires Inv(s) && Enabled(s, e)
    ensures Inv(Step(s, e))
  {
    hide Spaced, Tight, Exclusive, Interval;
    match e
    case Advance(d) => TimeInv(s, s.now + d, s.cooldown, s.next);
    case Begin(c) => CallersInv(s, Step(s, e), c, Deciding);
    case Decide(c) =>
      assert CallerOk(s, s.callers[c]);
      if s.now < s.cooldown {
        CallersInv(s, Step(s, e), c, Sleeping(s.cooldown, None));
      } else if s.rate > 0.0 {
        ReserveInv(s, c, Max(s.now, s.next));
      } else {
        DepartInv(s, c, None);
      }
    case Wake(c) =>
      assert CallerOk(s, s.callers[c]);
      CallersInv(s, Step(s, e), c, AfterSleep(s.callers[c]));
    case Check(c) =>
      assert CallerOk(s, s.callers[c]);
      if s.now < s.cooldown {
        CallersInv(s, Step(s, e), c, Deciding);
      } else {
        DepartInv(s, c, Some(s.callers[c].held));
      }
    case Impose(seconds) =>
      var cooldown := Max(s.cooldown, s.now + Max(0.0, seconds));
      TimeInv(s, s.now, cooldown, Max(s.next, cooldown));
  }

  /** Safety over every run: slots are an interval apart, no slot is used twice, and nobody
      leaves early or against a cooldown it saw. */
  lemma {:induction false} RunInv(rate: real, callers: nat, run: seq<Event>, s: State)
    requires Reaches(rate, callers, run, s)
    ensures Inv(s) && s.rate == rate
    decreases |run|
  {
    hide Inv, Enabled, Step;
    if run == [] {
      StartInv(rate, callers);
    } else {
      var last := run[|run| - 1];
      var before: State :|
        Reaches(rate, callers, run[..|run| - 1], before) && Enabled(before, last) && s == Step(before, last);
      RunInv(rate, callers, run[..|run| - 1], before);
      StepInv(before, last);
      RateFixed(before, last);
    }
  }

  lemma RateFixed(s: State, e: Event)
    requires Enabled(s, e)
    ensures Step(s, e).rate == s.rate
  {
  }

  // --------------------------------------------------------------- how many get through

  function Intervals(n: int, rate: real): real
    requires rate > 0.0
  {
    n as real * Interval(rate)
  }

  lemma MoreIntervals(a: int, b: int, rate: real)
    requires rate > 0.0
    ensures Intervals(a + 1, rate) == Intervals(a, rate) + Interval(rate)
    ensures a <= b ==> Intervals(a, rate) <= Intervals(b, rate)
    ensures Intervals(0, rate) == 0.0
  {
    var d := Interval(rate);
    assert (a as real + 1.0) * d == a as real * d + d;
    if a <= b { assert (b as real - a as real) * d >= 0.0; }
  }

  /** Slots i and j are at least j - i intervals apart. */
  lemma {:induction false} SlotsApart(s: State, i: nat, j: nat)
    requires s.rate > 0.0 && Spaced(s) && i <= j < |s.slots|
    ensures s.slots[j] >= s.slots[i] + Intervals(j - i, s.rate)
    decreases j - i
  {
    hide Interval, Intervals;
    MoreIntervals(j - i - 1, 0, s.rate);
    if i < j { SlotsApart(s, i, j - 1); }
  }

  /** What n intervals in a span of time mean for the rate. */
  lemma IntervalsInRate(n: int, rate: real, span: real)
    requires rate > 0.0 && Intervals(n, rate) <= span
    ensures n as real <= rate * span
  {
    hide Interval;
    var d := Interval(rate);
    RateOfSpan(n as real, d, rate, span);
  }

  lemma RateOfSpan(x: real, d: real, rate: real, span: real)
    requires rate > 0.0 && d * rate == 1.0 && x * d <= span
    ensures x <= rate * span
  {
    var unit := d * rate;
    assert (x * d) * rate == x * unit == x;
    assert (span - x * d) * rate >= 0.0;
  }

  /** In any window that opens at one slot and closes at another, at most rate times its length plus one
      slots were given out. */
  lemma WindowBound(rate: real, callers: nat, run: seq<Event>, s: State, i: nat, j: nat)
    requires rate > 0.0 && Reaches(rate, callers, run, s) && i <= j < |s.slots|
    ensures (j - i) as real <= rate * (s.slots[j] - s.slots[i])
  {
    hide Interval, Intervals, Reaches, Inv;
    RunInv(rate, callers, run, s);
    InvSpaced(s);
    SlotsApart(s, i, j);
    IntervalsInRate(j - i, rate, s.slots[j] - s.slots[i]);
  }

  /** Nobody is delayed needlessly: a slot is given out for now or for exactly one interval after the
      previous slot. */
  lemma SlotIsEarliest(rate: real, callers: nat, run: seq<Event>, s: State, c: nat)
    requires Reaches(rate, callers, run, s) && Enabled(s, Decide(c)) && |Step(s, Decide(c)).slots| > |s.slots|
    ensures var t := Step(s, Decide(c)); var n := |s.slots|;
      && t.slots == s.slots + [t.slots[n]]
      && (t.slots[n] == s.now || (n > 0 && (t.slots[n] - s.slots[n - 1]) * rate == 1.0))
  {
    hide Reaches, Interval;
    RunInv(rate, callers, run, s);
    EarliestStep(s, c);
  }

  lemma EarliestStep(s: State, c: nat)
    requires Inv(s) && Enabled(s, Decide(c)) && s.now >= s.cooldown && s.rate > 0.0
    ensures var target := Max(s.now, s.next); var n := |s.slots|;
      target == s.now || (n > 0 && (target - s.slots[n - 1]) * s.rate == 1.0)
  {
    hide Exclusive, Spaced, Interval;
  }

  /** In every run, the requests let through by any time are at most one plus the rate times the
      time since the first slot. */
  lemma ThroughputBound(rate: real, callers: nat, run: seq<Event>, s: State)
    requires rate > 0.0 && Reaches(rate, callers, run, s) && s.departures != []
    ensures s.slots != [] && |s.departures| <= |s.slots|
    ensures (|s.departures| - 1) as real <= rate * (s.now - s.slots[0])
  {
    hide Interval, Intervals, Reaches, Inv;
    RunInv(rate, callers, run, s);
    InvSpaced(s);
    var used := UsedPrefix(s, |s.departures|);
    var top := LargestUsed(s, used);
    SlotsApart(s, 0, top);
    MoreIntervals(|s.departures| - 1, top, rate);
    IntervalsInRate(|s.departures| - 1, rate, s.now - s.slots[0]);
  }

  lemma InvSpaced(s: State)
    requires Inv(s)
    ensures Spaced(s)
  {
    hide Interval;
  }

  /** The slots of the first n who left: n different ones. */
  lemma {:induction false} UsedPrefix(s: State, n: nat) returns (used: set<nat>)
    requires Inv(s) && s.rate > 0.0 && n <= |s.departures|
    ensures |used| == n
    ensures forall k :: k in used ==> exists i :: 0 <= i < n && s.departures[i].slot == Some(k)
  {
    hide Spaced, Exclusive, Interval;
    if n == 0 {
      used := {};
    } else {
      var smaller := UsedPrefix(s, n - 1);
      assert DepartureOk(s, s.departures[n - 1]);
      var k := s.departures[n - 1].slot.value;
      if k in smaller {
        var i :| 0 <= i < n - 1 && s.departures[i].slot == Some(k);
        SlotTwice(s, i, n - 1);
      }
      used := smaller + {k};
    }
  }

  lemma SlotTwice(s: State, i: nat, j: nat)
    requires Exclusive(s) && i < j < |s.departures| && s.departures[i].slot.Some?
    ensures s.departures[i].slot != s.departures[j].slot
  {
  }

  /** Among m distinct slots used, one has index at least m - 1, and its time has come. */
  lemma LargestUsed(s: State, used: set<nat>) returns (top: nat)
    requires Inv(s) && used != {} && |used| == |s.departures|
    requires forall k :: k in used ==> exists i :: 0 <= i < |s.departures| && s.departures[i].slot == Some(k)
    ensures |s.departures| - 1 <= top < |s.slots| && s.slots[top] <= s.now
  {
    hide Spaced, Exclusive;
    top := Pigeonhole(used);
    var i :| 0 <= i < |s.departures| && s.departures[i].slot == Some(top);
    assert DepartureOk(s, s.departures[i]);
  }

  lemma Pigeonhole(used: set<nat>) returns (top: nat)
    requires used != {}
    ensures top in used && top >= |used| - 1
  {
    if !(exists k :: k in used && k >= |used| - 1) { Below(used, |used| - 1); }
    top :| top in used && top >= |used| - 1;
  }

  lemma {:induction false} Below(used: set<nat>, m: nat)
    requires forall k :: k in used ==> k < m
    ensures |used| <= m
    decreases m
  {
    if m == 0 {
      assert forall k :: k !in used;
      assert used == {};
    } else {
      Below(used - {m - 1}, m - 1);
    }
  }
}
