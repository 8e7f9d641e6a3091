/** The miner: the parallel search over the kernel's own test, and the host's independent
    re-check of what it emits. */
module PowMiner {
  import opened Options
  import opened Sha256
  import opened PowKernel
  import opened PowSearch

  /** A 64-bit nonce meets the difficulty, on the plain digest of state, tag and nonce. */
  predicate ValidNonce(state: seq<Byte>, bits: Word, n: nat)
    requires |state| == 32 && bits <= 63
  {
    n <= MAX && ValidDigest(state, Limb(n % LIMB), Limb(n / LIMB), bits)
  }

  function Limb(x: nat): Word
    requires x < LIMB
  {
    x as Word
  }

  /** What a lane tests: the two words the kernel computes (`KernelHead`). */
  predicate KernelTest(state: seq<Byte>, bits: Word, n: nat)
    requires |state| == 32 && bits <= 63
  {
    hide Compress;
    n <= MAX &&
    var digest := Compress(INITIAL, KernelBlock(StateWords(state), Limb(n % LIMB), Limb(n / LIMB)));
    ValidHead(digest.a, digest.b, bits)
  }

  lemma KernelTestIsValid(state: seq<Byte>, bits: Word, n: nat)
    requires |state| == 32 && bits <= 63
    ensures KernelTest(state, bits, n) == ValidNonce(state, bits, n)
  {
    hide Digest, ValidHead, ValidDigest, Compress, KernelBlock, StateWords, Message;
    if n <= MAX {
      var lo, hi := Limb(n % LIMB), Limb(n / LIMB);
      DigestOfMessage(state, lo, hi);
      DigestTest(state, lo, hi, bits);
    }
  }

  /** A nonce meets the difficulty exactly when the plain digest of state, tag and its two 32-bit limbs
      starts with that many zero bits. */
  lemma ValidMeansLeadingZeros(state: seq<Byte>, bits: Word, lo: nat, hi: nat)
    requires |state| == 32 && bits <= 63 && lo < LIMB && hi < LIMB
    ensures var d := Digest(Message(state, Limb(lo), Limb(hi)));
      ValidNonce(state, bits, LIMB * hi + lo) <==> forall i: Word :: i < bits ==> !HeadBit(d.a, d.b, i)
  {
    hide Digest, ValidHead, ValidDigest, Message, HeadBit, Limb;
    Limbs(lo, hi);
    DigestTest(state, Limb(lo), Limb(hi), bits);
    var d := Digest(Message(state, Limb(lo), Limb(hi)));
    LeadingZeros(d.a, d.b, bits);
  }

  lemma DigestTest(state: seq<Byte>, lo: Word, hi: Word, bits: Word)
    requires |state| == 32 && bits <= 63
    ensures var d := Digest(Message(state, lo, hi)); ValidDigest(state, lo, hi, bits) <==> ValidHead(d.a, d.b, bits)
  {
    hide Digest, ValidHead, HeadOf, Message;
    var d := Digest(Message(state, lo, hi));
    HeadBits(d.a, d.b, bits);
    HeadOfWords(d.a, d.b);
    assert DigestBytes(d)[..8] == WordBytes(d.a) + WordBytes(d.b);
  }

  lemma Limbs(lo: nat, hi: nat)
    requires lo < LIMB && hi < LIMB
    ensures LIMB * hi + lo <= MAX && (LIMB * hi + lo) % LIMB == lo && (LIMB * hi + lo) / LIMB == hi
  {
  }

  lemma SameLeast(state: seq<Byte>, bits: Word, kernel: nat -> bool, plain: nat -> bool)
    requires |state| == 32 && bits <= 63
    requires forall n: nat :: kernel(n) == KernelTest(state, bits, n) && plain(n) == ValidNonce(state, bits, n)
    ensures forall n: nat :: kernel(n) == plain(n)
  {
    hide KernelTest, ValidNonce;
    forall n: nat ensures kernel(n) == plain(n) { KernelTestIsValid(state, bits, n); }
  }

  datatype Report = Emitted(nonce: nat) | SpaceExhausted | Stopped(next: nat) | RecheckFailed

  /** For every 32-byte state and difficulty the re-check passes, and without a hash limit
      the program emits the least valid nonce in [start, 2^64 - 2] exactly when there is
      one. */
  method Mine(state: seq<Byte>, bits: Word, start: nat, threads: nat, trials: nat, maxHashes: Option<nat>)
    returns (report: Report)
    requires |state| == 32 && bits <= 63
    requires start <= MAX && 0 < threads < LIMB && 0 < trials < LIMB
    ensures report != RecheckFailed
    ensures report.Emitted? ==> start <= report.nonce < MAX && ValidNonce(state, bits, report.nonce)
    ensures report.Emitted? ==> forall n: nat :: start <= n < report.nonce ==> !ValidNonce(state, bits, n)
    ensures report.SpaceExhausted? ==> forall n: nat :: start <= n < MAX ==> !ValidNonce(state, bits, n)
    ensures report.Stopped? ==>
      maxHashes.Some? && forall n: nat :: start <= n < report.next && n < MAX ==> !ValidNonce(state, bits, n)
    ensures report.Stopped? ==> maxHashes.value <= report.next - start < maxHashes.value + threads * trials
    ensures maxHashes.None? ==> (report.Emitted? <==> exists n: nat :: start <= n < MAX && ValidNonce(state, bits, n))
  {
    hide KernelTest, ValidNonce;
    var kernel := (n: nat) => KernelTest(state, bits, n);
    ghost var plain := (n: nat) => ValidNonce(state, bits, n);
    SameLeast(state, bits, kernel, plain);
    var outcome := Search(start, threads, trials, maxHashes, kernel);
    match outcome
    case Found(nonce) =>
      assert plain(nonce);
      return if ValidNonce(state, bits, nonce) then Emitted(nonce) else RecheckFailed;
    case Exhausted =>
      forall n: nat | start <= n < MAX ensures !ValidNonce(state, bits, n) { assert !kernel(n) && !plain(n); }
      return SpaceExhausted;
    case LimitReached(next) =>
      forall n: nat | start <= n < next && n < MAX ensures !ValidNonce(state, bits, n) {
        assert !kernel(n) && !plain(n);
      }
      return Stopped(next);
  }

  /** The miss at an input: at difficulty zero every nonce is valid, yet a search started at the
      last one reports that the space is exhausted. */
  method LastNonceOverlooked(state: seq<Byte>, threads: nat, trials: nat) returns (report: Report)
    requires |state| == 32 && 0 < threads < LIMB && 0 < trials < LIMB
    ensures ValidNonce(state, 0, MAX) && report == SpaceExhausted
  {
    report := Mine(state, 0, MAX, threads, trials, None);
    ZeroDifficulty(state, MAX);
  }

  lemma ZeroDifficulty(state: seq<Byte>, n: nat)
    requires |state| == 32 && n <= MAX
    ensures ValidNonce(state, 0, n)
  {
    hide Digest, HeadOf;
  }
}
