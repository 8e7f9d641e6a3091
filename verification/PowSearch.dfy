/** The parallel nonce search: GPU lanes under an arbitrary scheduler, and the host
    loop that tiles the 64-bit nonce space with chunks. */
module PowSearch {
  import opened Options
  import opened Nonlinear

  const LIMB := 0x1_0000_0000
  const MAX := 0xffff_ffff_ffff_ffff

  /** One dispatch: lane g visits base + g, base + g + threads, ... */
  datatype Chunk = Chunk(base: nat, threads: nat, trials: nat)
  {
    predicate WellFormed() { base <= MAX && 0 < threads < LIMB && 0 < trials < LIMB }
  }

  /** A lane before its range check, inside its trial loop, or returned. */
  datatype Lane = Start(gid: nat) | Trial(trial: nat, lo: nat, hi: nat) | Done(result: nat)

  predicate LaneOk(c: Chunk, lane: Lane)
  {
    match lane
    case Start(gid) => gid < c.threads
    case Trial(trial, lo, hi) => trial < c.trials && lo < LIMB && hi < LIMB
    case Done(result) => true
  }

  /** One step of one lane of `mine_pow`, on its two nonce limbs. */
  function LaneStep(c: Chunk, valid: nat -> bool, lane: Lane): (next: Lane)
    requires c.WellFormed() && LaneOk(c, lane) && !lane.Done?
    ensures LaneOk(c, next)
  {
    match lane
    case Start(gid) =>
      if gid > MAX - c.base then Done(MAX)
      else Trial(0, (c.base + gid) % LIMB, (c.base + gid) / LIMB)
    case Trial(trial, lo, hi) =>
      if valid(hi * LIMB + lo) then Done(hi * LIMB + lo)
      else if trial + 1 < c.trials then
        var nextLo := (lo + c.threads) % LIMB;
        var carry := if nextLo < lo then 1 else 0;
        if carry != 0 && hi == LIMB - 1 then Done(MAX) else Trial(trial + 1, nextLo, hi + carry)
      else Done(MAX)
  }

  // ------------------------------------------------------- what a lane finally writes

  /** The first valid nonce among the remaining candidates, or MAX. */
  function Scan(c: Chunk, valid: nat -> bool, nonce: nat, trial: nat): (r: nat)
    decreases c.trials - trial
  {
    if valid(nonce) then nonce
    else if trial + 1 < c.trials && nonce + c.threads <= MAX then Scan(c, valid, nonce + c.threads, trial + 1)
    else MAX
  }

  function Final(c: Chunk, valid: nat -> bool, lane: Lane): nat
    requires c.base <= MAX
  {
    match lane
    case Start(gid) => if gid > MAX - c.base then MAX else Scan(c, valid, c.base + gid, 0)
    case Trial(trial, lo, hi) => Scan(c, valid, hi * LIMB + lo, trial)
    case Done(result) => result
  }

  function Measure(c: Chunk, lane: Lane): nat
    requires LaneOk(c, lane)
  {
    match lane
    case Start(_) => c.trials + 1
    case Trial(trial, _, _) => c.trials - trial
    case Done(_) => 0
  }

  /** A step never changes what the lane will finally write, and makes progress. */
  lemma StepKeepsFinal(c: Chunk, valid: nat -> bool, lane: Lane)
    requires c.WellFormed() && LaneOk(c, lane) && !lane.Done?
    ensures Final(c, valid, LaneStep(c, valid, lane)) == Final(c, valid, lane)
    ensures Measure(c, LaneStep(c, valid, lane)) < Measure(c, lane)
  {
    if lane.Start? && lane.gid <= MAX - c.base {
      var n := c.base + lane.gid;
      assert (n / LIMB) * LIMB + n % LIMB == n;
    }
  }

  /** `Scan` returns the least valid candidate of its progression. */
  lemma {:induction false} ScanLeast(c: Chunk, valid: nat -> bool, nonce: nat, trial: nat, j: nat)
    requires c.WellFormed() && nonce <= MAX
    requires trial + j < c.trials && nonce + c.threads * j <= MAX && valid(nonce + c.threads * j)
    ensures Scan(c, valid, nonce, trial) <= nonce + c.threads * j
    decreases j
  {
    MulLe(c.threads, 0, j);
    if j > 0 && !valid(nonce) {
      Distribute(c.threads, j - 1, 1);
      MulLe(c.threads, 0, j - 1);
      ScanLeast(c, valid, nonce + c.threads, trial + 1, j - 1);
    }
  }

  /** ... and that candidate is valid and lies in the chunk. */
  lemma {:induction false} ScanSound(c: Chunk, valid: nat -> bool, nonce: nat, trial: nat) returns (j: nat)
    requires c.WellFormed() && nonce <= MAX && trial < c.trials
    ensures var r := Scan(c, valid, nonce, trial);
      r == MAX || (valid(r) && trial + j < c.trials && r == nonce + c.threads * j && r <= MAX)
    decreases c.trials - trial
  {
    j := 0;
    assert c.threads * 0 == 0;
    if !valid(nonce) && trial + 1 < c.trials && nonce + c.threads <= MAX {
      var i := ScanSound(c, valid, nonce + c.threads, trial + 1);
      j := i + 1;
      Distribute(c.threads, i, 1);
    }
  }

  // --------------------------------------------------------------- every interleaving

  ghost function TotalMeasure(c: Chunk, lanes: seq<Lane>): nat
    requires forall g :: 0 <= g < |lanes| ==> LaneOk(c, lanes[g])
  {
    if lanes == [] then 0 else Measure(c, lanes[0]) + TotalMeasure(c, lanes[1..])
  }

  lemma {:induction false} TotalMeasureDrops(c: Chunk, lanes: seq<Lane>, g: nat, lane: Lane)
    requires forall k :: 0 <= k < |lanes| ==> LaneOk(c, lanes[k])
    requires g < |lanes| && LaneOk(c, lane) && Measure(c, lane) < Measure(c, lanes[g])
    ensures TotalMeasure(c, lanes[g := lane]) < TotalMeasure(c, lanes)
  {
    if g == 0 {
      assert lanes[g := lane][1..] == lanes[1..];
    } else {
      TotalMeasureDrops(c, lanes[1..], g - 1, lane);
      assert lanes[g := lane][1..] == lanes[1..][g - 1 := lane];
    }
  }

  /** A dispatch under a demonic scheduler: at each moment any unfinished lane may be
      the one that advances.  Every schedule ends with the same result buffer. */
  method Dispatch(c: Chunk, valid: nat -> bool) returns (results: seq<nat>)
    requires c.WellFormed()
    ensures |results| == c.threads
    ensures forall g :: 0 <= g < c.threads ==> results[g] == Final(c, valid, Start(g))
  {
    hide LaneStep, Scan, Final, Measure;
    var lanes := seq(c.threads, g requires 0 <= g < c.threads => Start(g));
    while exists g :: 0 <= g < |lanes| && !lanes[g].Done?
      invariant |lanes| == c.threads
      invariant forall g :: 0 <= g < |lanes| ==> LaneOk(c, lanes[g])
      invariant forall g :: 0 <= g < |lanes| ==> Final(c, valid, lanes[g]) == Final(c, valid, Start(g))
      decreases TotalMeasure(c, lanes)
    {
      var g :| 0 <= g < |lanes| && !lanes[g].Done?;
      StepKeepsFinal(c, valid, lanes[g]);
      TotalMeasureDrops(c, lanes, g, LaneStep(c, valid, lanes[g]));
      lanes := lanes[g := LaneStep(c, valid, lanes[g])];
    }
    forall g | 0 <= g < c.threads ensures lanes[g].Done? && lanes[g].result == Final(c, valid, Start(g)) {
      FinalDone(c, valid, lanes[g]);
    }
    results := seq(c.threads, g requires 0 <= g < c.threads => lanes[g].result);
  }

  lemma FinalDone(c: Chunk, valid: nat -> bool, lane: Lane)
    requires c.base <= MAX && lane.Done?
    ensures Final(c, valid, lane) == lane.result
  {
  }

  // ---------------------------------------------------------------------- one chunk

  /** A valid nonce in [lo, hi), the sentinel 2^64 - 1 excluded. */
  ghost predicate HasValid(valid: nat -> bool, lo: nat, hi: nat)
  {
    exists n: nat :: lo <= n < hi && n < MAX && valid(n)
  }

  /** A valid nonce anywhere in [start, 2^64 - 1]. */
  ghost predicate AnyValid(valid: nat -> bool, start: nat)
  {
    exists n: nat :: start <= n <= MAX && valid(n)
  }

  ghost predicate IsLeastValid(valid: nat -> bool, start: nat, nonce: nat)
  {
    start <= nonce < MAX && valid(nonce) && !HasValid(valid, start, nonce)
  }

  lemma Locate(d: nat, threads: nat, trials: nat) returns (g: nat, j: nat)
    requires 0 < threads && d < threads * trials
    ensures d == threads * j + g && g < threads && j < trials
  {
    g, j := d % threads, d / threads;
    assert d == threads * j + g;
    if j >= trials { MulLe(threads, trials, j); }
  }

  /** The lane that visits n writes something no larger than n. */
  lemma ChunkCovers(c: Chunk, valid: nat -> bool, n: nat) returns (g: nat)
    requires c.WellFormed() && c.base <= n <= MAX && n < c.base + c.threads * c.trials && valid(n)
    ensures g < c.threads && Final(c, valid, Start(g)) <= n
  {
    hide Scan;
    var j: nat;
    g, j := Locate(n - c.base, c.threads, c.trials);
    MulLe(c.threads, 0, j);
    ScanLeast(c, valid, c.base + g, 0, j);
  }

  lemma LaneSound(c: Chunk, valid: nat -> bool, g: nat)
    requires c.WellFormed() && g < c.threads
    ensures var r := Final(c, valid, Start(g));
      r == MAX || (c.base <= r < c.base + c.threads * c.trials && r <= MAX && valid(r))
  {
    if g <= MAX - c.base {
      var j := ScanSound(c, valid, c.base + g, 0);
      if Final(c, valid, Start(g)) != MAX {
        MulLe(c.threads, 0, j);
        MulLe(c.threads, j + 1, c.trials);
        Distribute(c.threads, j, 1);
      }
    }
  }

  /** The host's minimum over lanes is the least valid nonce of the chunk. */
  method ChunkMinimum(c: Chunk, valid: nat -> bool) returns (nonce: nat)
    requires c.WellFormed()
    ensures nonce <= MAX
    ensures nonce != MAX ==> IsLeastValid(valid, c.base, nonce) && nonce < c.base + c.threads * c.trials
    ensures nonce == MAX ==> !HasValid(valid, c.base, c.base + c.threads * c.trials)
  {
    hide Final;
    var results := Dispatch(c, valid);
    nonce := MAX;
    for gid := 0 to c.threads
      invariant nonce <= MAX
      invariant nonce == MAX || exists g :: 0 <= g < gid && nonce == results[g]
      invariant forall g :: 0 <= g < gid ==> nonce <= results[g]
    {
      if results[gid] < nonce { nonce := results[gid]; }
    }
    forall n: nat | c.base <= n < c.base + c.threads * c.trials && n < MAX && valid(n) ensures nonce <= n {
      var g := ChunkCovers(c, valid, n);
      assert nonce <= results[g];
    }
    if nonce != MAX {
      var g :| 0 <= g < c.threads && nonce == results[g];
      LaneSound(c, valid, g);
    }
  }

  lemma {:induction false} SentinelScan(c: Chunk, valid: nat -> bool, other: nat -> bool, nonce: nat, trial: nat)
    requires c.WellFormed() && nonce <= MAX
    requires forall n: nat :: n < MAX ==> (valid(n) <==> other(n))
    ensures Scan(c, valid, nonce, trial) == Scan(c, other, nonce, trial)
    decreases c.trials - trial
  {
    if trial + 1 < c.trials && nonce + c.threads <= MAX {
      SentinelScan(c, valid, other, nonce + c.threads, trial + 1);
    }
  }

  /** Nonce 2^64 - 1 doubles as "nothing found": whether it is valid or not changes no entry of
      the result buffer, so the search can neither emit it nor tell that it was valid. */
  lemma SentinelInvisible(c: Chunk, valid: nat -> bool, other: nat -> bool, g: nat)
    requires c.WellFormed() && g < c.threads
    requires forall n: nat :: n < MAX ==> (valid(n) <==> other(n))
    ensures Final(c, valid, Start(g)) == Final(c, other, Start(g))
  {
    hide Scan;
    if g <= MAX - c.base { SentinelScan(c, valid, other, c.base + g, 0); }
  }

  // ------------------------------------------------------------------- the host loop

  datatype Outcome = Found(nonce: nat) | Exhausted | LimitReached(next: nat)

  /** The whole search.  Chunks tile [start, 2^64 - 1] without gap, repeat or wrap; the
      emitted nonce is the least valid one, exhaustion means there is none, and at a
      hash limit nothing before the next base was missed (so a checkpoint there
      resumes soundly).  Exhaustion overlooks a valid nonce exactly when 2^64 - 1 is the only one. */
  method Search(start: nat, threads: nat, trials: nat, maxHashes: Option<nat>, valid: nat -> bool)
    returns (outcome: Outcome)
    requires start <= MAX && 0 < threads < LIMB && 0 < trials < LIMB
    ensures outcome.Found? ==> IsLeastValid(valid, start, outcome.nonce)
    ensures outcome.Exhausted? ==> !HasValid(valid, start, MAX)
    ensures maxHashes.None? ==> (outcome.Found? <==> HasValid(valid, start, MAX))
    ensures maxHashes.None? ==>
      (outcome.Exhausted? && AnyValid(valid, start) <==> valid(MAX) && !HasValid(valid, start, MAX))
    ensures outcome.LimitReached? ==> maxHashes.Some? && start <= outcome.next && !HasValid(valid, start, outcome.next)
    ensures outcome.LimitReached? ==> maxHashes.value <= outcome.next - start < maxHashes.value + threads * trials
  {
    var hashesPerChunk := threads * trials;
    MulLe(threads, 1, trials);
    var base, tested := start, 0;
    while true
      invariant start <= base <= MAX
      invariant !HasValid(valid, start, base) && tested == base - start
      invariant maxHashes.Some? && base > start ==> base - start < maxHashes.value + hashesPerChunk
      decreases MAX - base
    {
      if maxHashes.Some? && tested >= maxHashes.value {
        return LimitReached(base);
      }
      var nonce := ChunkMinimum(Chunk(base, threads, trials), valid);
      var remaining := MAX - base;
      var candidates := if remaining >= hashesPerChunk - 1 then hashesPerChunk else remaining + 1;
      tested := if tested + candidates > MAX then MAX else tested + candidates;
      if nonce != MAX {
        return Found(nonce);
      }
      if candidates != hashesPerChunk {
        return Exhausted;
      }
      if base + hashesPerChunk > MAX {
        return Exhausted;
      }
      base := base + hashesPerChunk;
    }
  }
}
