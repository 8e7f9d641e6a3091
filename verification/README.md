# Aspis verification project

A Dafny model of the mathematics, table generators and deployment wire formats that
surround the Aspis Circle STARK verifier, with proofs for every size and every input of
facts the repository's own scripts check on samples or at one frozen size.

* **Field tower, circle group and circle FFT.** `M31`, `M31Field`, `GaussianTower`, `QM31`,
  `Circle`, `CircleDomain`, `CircleOrder`, `CircleTables`, `CircleFft`, `CircleEncoder`,
  `CircleBasis`, `CircleVanishing`.  Primality of 2^31 - 1 comes from a primitive-root certificate, the order
  of the generator from thirty-one literal doublings.  The main result is
  `CircleBasis.EncodeMessage`: table construction, zero padding and in-place butterflies
  together compute the closed-form basis sum at every stored domain point.
* **Determinants.** `Determinant`, `QDeterminant`, `CircleVandermonde`: `qdet` is the
  determinant and vanishes exactly on singular matrices, and the y * prod (x - a_k)
  configurations are singular for every even size.
* **Proof of work and Merkle tree.** `Sha256`, `Sha256Constants`, `Sha256Abc`, `PowKernel`,
  `PowSearch`, `PowMiner`, `Radix4`: the constants of SHA-256 are derived from the primes, the
  optimised kernel refines plain SHA-256, the parallel search is deterministic under every
  schedule, and the radix-4 root binds.
* **Frontier counting.** `FiniteSets`, `MerkleFrontier`, `FrontierCount`, `FrontierTable`,
  `FrontierSparse`, `FrontierEnvelope`, `FrontierClosure`: what the table counts, and why the
  sparse evaluation is exact.
* **Exact linear algebra and sumcheck.** `Vectors`, `Elimination`, `Schur`, `Dimension`,
  `Echelons`, `RawSchur`; `QPoly`, `Lagrange`, `Sumcheck`, `SumcheckView`, `MaskFactor`,
  `TracePoints`; `NaturalBasis`, `BasisChange`; `Matrices`, `GaussJordan`.
* **Deployment.** `Base58`, `Wire`, `WireParser`, `Upload`, `Replay`, `Archive`, `ArchiveRoles`,
  `RateLimiter`, `RpcClients`.  `ArchiveRoles.ReconstructedExactly` and `Replay.AcceptsExactly`
  together say exactly which wires are reconstructed.

Conventions.  Field elements are integers in [0, P) and every reduction is written out;
32-bit words of SHA-256 are bit vectors.  A span is the intersection of all subspaces that
contain the generators, so no coefficient lists appear in statements about it.  A failure
of the original (an exception, a panic, a failed assertion) is `None`; the texts of failure
messages are not modelled.  Randomness becomes a parameter (the stream of draws), the clock
a parameter of the locked regions and an event of the run, and the predicate "this nonce is
valid" a parameter of the search that `PowMiner` fills in.

Where code and documentation part ways the code is followed.  Four findings:

* `support_max` is described as an exact envelope.  It is an upper bound, attained exactly
  when at most half of the leaves are selected or the tree is a single leaf
  (`FrontierEnvelope.EnvelopeAttained`; `FrontierClosure.EnvelopeNotAttained` is the smallest miss).
* Nonce 2^64 - 1 doubles as "nothing found", so the search can neither emit it nor tell that
  it was valid (`PowSearch.SentinelInvisible`, and `PowMiner.LastNonceOverlooked` at an input);
  exhaustion is wrong exactly when it is the only valid nonce left (`PowSearch.Search`).
* `read_shortvec` also accepts lengths with redundant continuation bytes
  (`Wire.CanonicalExactly` says exactly which), so the round trip keeps the raw length bytes.
* The replay counts any write whose range is already covered with the same bytes as a
  duplicate, so outside plans acceptance can depend on order (`Replay.OrderMatters`;
  `Replay.EveryOrderAccepted` says exactly when it does not).

Check everything with `dafny verify dfyconfig.toml`.

## Model

| member | source | states |
|---|---|---|
| `M31.PowLoop` | crates/aspis-core/build.rs:32-43 | square-and-multiply returns the power for every base and exponent |
| `M31Field.PrimitiveRoot` | tools/verify_circle_vandermonde.py:72-73 | every nonzero residue mod 2^31 - 1 is a power of 7 (certificate from the factored P - 1), which is what the Fermat inversion of every tool rests on |
| `M31Field.Fermat` | tools/verify_circle_vandermonde.py:72-73 | x^(P-1) = 1 for every nonzero x |
| `M31Field.MulInv` | tools/verify_circle_vandermonde.py:72-73 | `minv` is a true inverse of every nonzero residue |
| `M31Field.NoZeroDivisors` | tools/verify_circle_vandermonde.py:72-73 | a product is zero exactly when a factor is |
| `M31Field.PIsPrime` | tools/verify_circle_vandermonde.py:72-73 | no integer strictly between 1 and P divides P |
| `M31Field.InvLoop` | crates/aspis-core/build.rs:32-43 | the product of a nonzero residue and the result is 1; zero is sent to zero |
| `QM31.MulIsSchoolbook` | tools/verify_circle_vandermonde.py:88-104 | the Karatsuba product equals schoolbook multiplication in the tower (2 + i a square of u), reduced mod P |
| `QM31.QMulComm` | tools/verify_circle_vandermonde.py:88-104 | multiplication is commutative |
| `QM31.QMulAssoc` | tools/verify_circle_vandermonde.py:88-104 | multiplication is associative |
| `QM31.QMulAdd` | tools/verify_circle_vandermonde.py:76-104 | multiplication distributes over addition on both sides |
| `QM31.NormNonzero` | tools/verify_circle_vandermonde.py:116-130 | the norm `qinv` divides by is zero exactly at zero |
| `QM31.QMulInv` | tools/verify_circle_vandermonde.py:116-138 | `qinv` is a two-sided inverse of every nonzero element |
| `QM31.QNoZeroDivisors` | tools/verify_circle_vandermonde.py:88-138 | QM31 has no zero divisors |
| `QM31.QInvChecked` | tools/verify_circle_vandermonde.py:116-138 | inversion fails exactly at zero and otherwise returns an inverse |
| `QM31.SecurePointOnCircle` | tools/verify_circle_vandermonde.py:254-260 | every rational-parameter point satisfies x^2 + y^2 = 1 |
| `QM31.SecurePointHalfAngle` | tools/verify_circle_vandermonde.py:254-260 | t (1 + x) = y, so x and y are not interchangeable, and there is no point exactly when t^2 = -1 |
| `Circle.CAddAssoc` | tools/verify_circle_vandermonde.py:201-203 | circle addition is associative |
| `Circle.CAddComm` | crates/aspis-core/build.rs:13-18 | circle addition is commutative |
| `Circle.CMulLoop` | tools/verify_circle_vandermonde.py:206-215 | double-and-add returns the scalar multiple |
| `Circle.Turns` | crates/aspis-core/build.rs:57-65 | thirty-one literal doublings of (2, 1268011823): quarter, half and full turn |
| `CircleOrder.ExactOrder` | crates/aspis-core/build.rs:57-65 | the generator has order exactly 2^31 |
| `CircleOrder.GroupPointInjective` | crates/aspis-core/build.rs:57-65 | exponents below 2^31 give different points |
| `CircleOrder.YZero` | crates/aspis-core/build.rs:67-80 | y = 0 exactly at multiples of the half turn |
| `CircleOrder.XZero` | crates/aspis-core/build.rs:67-80 | x = 0 exactly at odd quarter turns |
| `CircleOrder.GeneratorIs` | tools/verify_circle_vandermonde.py:194-198 | the generator is the point over x = 2 whose y is the larger of the two square roots of -3 |
| `Bits.BitReverseTwice` | tools/verify_circle_vandermonde.py:222-225 | bit reversal is an involution on indices of its width |
| `CircleDomain.FiberSlots` | crates/aspis-core/build.rs:67-80 | for every log size the four stored slots of a fiber are (x,y), (x,-y), (-x,-y), (-x,y) |
| `CircleDomain.CirclePointX` | tools/verify_circle_vandermonde.py:236-247 | the x-coordinate of stored slot i is the line coordinate of slot i / 2 one size down |
| `CircleDomain.LineXDouble` | crates/aspis-core/build.rs:82-85 | 2x^2 - 1 maps line coordinate i to line coordinate i / 2 of the next size |
| `CircleDomain.NeighbourFiber` | tools/verify_circle_vandermonde.py:440-446 | the fiber next to (x, y) is its quarter turn, the reason y-twiddles can be read off x-coordinates |
| `CircleTables.Transport` | tools/verify_soundness_params.py:299-351 | for every log size and fiber, 2x^2 - 1 of the fiber point is the independent layer-one line coordinate |
| `CircleTables.FiberRootsDistinct` | tools/verify_soundness_params.py:324-351 | fiber roots are pairwise distinct and never 1 |
| `CircleTables.FiberRootWalk` | tools/verify_soundness_params.py:278-296 | the sequential walk lists every definitional fiber root, at its bit-reversed index, without repetition and without 1 |
| `CircleTables.CircleInverseTables` | crates/aspis-core/build.rs:123-130 | every entry is the inverse of 2x or 2y at its fiber; nothing passed to `inverse` is zero |
| `CircleTables.LineInverseTable` | crates/aspis-core/build.rs:132-141 | the three entries per fiber are inverses of the doubled line coordinates; nothing inverted is zero |
| `CircleTables.TwoWindows` | crates/aspis-core/build.rs:159-174 | the sum of a low and a high window entry is the group point of the joined index |
| `CircleTables.ThreeWindows` | crates/aspis-core/build.rs:181-204 | the same for three windows |
| `CircleTables.VanishesOnDomain` | tools/verify_circle_vandermonde.py:545-574 | Z_H, whose constant is 0, vanishes at every point of H, for every size of H |
| `CircleTables.NonzeroOnLargerDomain` | tools/verify_circle_vandermonde.py:545-574 | Z_H vanishes nowhere on a strictly larger canonical domain |
| `CircleTables.VanishesExactlyOnDomain` | tools/verify_circle_vandermonde.py:545-569 | among all M31 group points Z_H vanishes exactly on H |
| `CircleVanishing.OnlyRoots` | tools/verify_circle_vandermonde.py:553-557 | the iterated doubling has no roots in QM31 besides the x-coordinates of H |
| `CircleVanishing.VanishesExactlyOnH` | tools/verify_circle_vandermonde.py:553-574 | at every QM31 point of the circle Z_H is zero exactly when the point lies in H |
| `CircleFft.ButterflyLanes` | tools/verify_circle_vandermonde.py:449-458 | one block of the in-place butterfly: sums and differences with the twiddled upper half, nothing else touched |
| `CircleFft.ApplyLayer` | tools/verify_circle_vandermonde.py:449-476 | a whole layer, in place, equals the butterfly applied at every index |
| `CircleFft.LevelStep` | tools/verify_circle_vandermonde.py:469-476 | if the array holds the level-(L+1) partial evaluations, one butterfly with the line twiddles yields the level-L ones |
| `CircleFft.CircleStep` | tools/verify_circle_vandermonde.py:469-476 | the last butterfly, with y-twiddles, yields the evaluations at the circle points |
| `CircleEncoder.BitReverseSlice` | tools/verify_circle_vandermonde.py:406-412 | the swap loop permutes the array by bit reversal |
| `CircleEncoder.BuildSegment` | tools/verify_circle_vandermonde.py:415-427 | one coset segment holds the line coordinates in stored order |
| `CircleEncoder.PrecomputeTwiddles` | tools/verify_circle_vandermonde.py:415-427 | the flat table is the concatenation of all segments and a final 1 |
| `CircleEncoder.LineTwiddleLayers` | tools/verify_circle_vandermonde.py:430-437 | cutting the flat table from its end and reversing recovers each layer |
| `CircleEncoder.CircleTwiddles` | tools/verify_circle_vandermonde.py:440-446 | [y, -y, -x, x] per pair of x-coordinates are the y-coordinates of the stored domain |
| `CircleEncoder.Encode` | tools/verify_circle_vandermonde.py:469-476 | zero padding and in-place butterflies evaluate the recursive circle polynomial at every stored index |
| `CircleEncoder.BuildAndEncode` | tools/verify_circle_vandermonde.py:461-476 | the same with the tables built by the program itself |
| `CircleBasis.PhiTower` | tools/verify_circle_vandermonde.py:271-278 | the tower holds the iterated doublings of x |
| `CircleBasis.BasisRow` | tools/verify_circle_vandermonde.py:281-297 | the row holds B_0 .. B_(b-1) at the point |
| `CircleBasis.EvaluationIsBasisSum` | tools/verify_circle_vandermonde.py:501-532 | the recursive evaluation is the sum of message[j] * B_j at the stored point |
| `CircleBasis.EncodeMessage` | tools/verify_circle_vandermonde.py:415-476 | circle FFT correctness: for every log size from 3 to 30 and every message of length at most 2^n, entry i of the codeword is the sum over j of message[j] * B_j(circle_point(n, i)) |
| `Determinant.DetSwap` | tools/verify_circle_vandermonde.py:315-317 | exchanging two rows negates the first-column expansion determinant |
| `Determinant.DetElim` | tools/verify_circle_vandermonde.py:321-326 | subtracting a multiple of another row leaves it unchanged |
| `Determinant.DetTriangular` | tools/verify_circle_vandermonde.py:318-327 | on a triangular matrix it is the diagonal product |
| `QDeterminant.Qdet` | tools/verify_circle_vandermonde.py:303-327 | for every square matrix the elimination returns the determinant, and it is zero exactly when a nonzero vector is mapped to zero |
| `QDeterminant.BackSolve` | tools/verify_circle_vandermonde.py:308-314 | where no pivot is left, back-solving yields a kernel vector with a one in that column |
| `QDeterminant.OnlyZero` | tools/verify_circle_vandermonde.py:318-327 | a full set of nonzero pivots kills only the zero vector |
| `CircleVandermonde.SumIsProduct` | tools/verify_circle_vandermonde.py:653-658 | every product of x - a_k has coefficients in the line basis |
| `CircleVandermonde.TopCoefficient` | tools/verify_circle_vandermonde.py:653-658 | and its top coefficient is nonzero |
| `CircleVandermonde.ZerosAreSingular` | tools/verify_circle_vandermonde.py:653-692 | for every even b, rows of basis values at zeros of y * prod (x - a_k) with b / 2 - 1 roots form a singular matrix |
| `CircleVandermonde.SingularYq` | tools/verify_circle_vandermonde.py:653-683 | rejection sampling yields b distinct points of the circle, two poles and conjugate pairs over roots drawn from the stream, and gives up exactly when the stream has fewer than b / 2 - 1 usable x-coordinates |
| `CircleVandermonde.SingularDeterminant` | tools/verify_circle_vandermonde.py:637-683 | `vandermonde_det` of any such configuration is zero |
| `Sha256Constants.RoundConstants` | reference/stwo-circle-candidate/aspis_circle_candidate_digests.rs:138-203 | every round constant is the first 32 fractional bits of the cube root of its prime, the t-th prime counted from 2 (section 4.2.2 of FIPS 180-4) |
| `Sha256Constants.InitialState` | reference/stwo-circle-candidate/aspis_circle_candidate_digests.rs:128-137 | the initial words are the first 32 fractional bits of the square roots of the first eight primes (section 5.3.3 of FIPS 180-4) |
| `Sha256Abc.AbcDigest` | reference/stwo-circle-candidate/aspis_circle_candidate_digests.rs:127-267 | the digest of the three bytes "abc" is the published one, which fixes every rotation, shift and schedule offset |
| `Sha256.PaddedLayout` | reference/stwo-circle-candidate/aspis_circle_candidate_digests.rs:205-211 | the padded message is the input, 0x80, the fewest zeros that fill whole blocks, and the bit count modulo 2^64 most significant byte first |
| `Sha256.BlockLayout` | reference/stwo-circle-candidate/aspis_circle_candidate_digests.rs:216-218 | word i of a block is bytes 4 i to 4 i + 3, most significant first |
| `Sha256.HashConcat` | reference/stwo-circle-candidate/aspis_circle_candidate_digests.rs:213-260 | blocks are folded from the front: a concatenation is the second part folded onto the first |
| `Sha256.DigestReadBack` | reference/stwo-circle-candidate/aspis_circle_candidate_digests.rs:262-267 | read most significant byte first, the digest bytes are the eight words in order |
| `Sha256.CompressBlock` | reference/stwo-circle-candidate/aspis_circle_candidate_digests.rs:215-260 | schedule array and sixty-four in-place rounds compute the compression function (section 6.2.2 of FIPS 180-4) |
| `Sha256.Hash` | reference/stwo-circle-candidate/aspis_circle_candidate_digests.rs:205-267 | padding loop and chunk loop compute the digest of the padded message (sections 5.1.1 and 6.2.2 of FIPS 180-4) |
| `PowKernel.KernelTable` | tools/aspis-pow-metal.swift:11-20 | the device's own table of round constants is the standard one |
| `PowKernel.FirstEightTable` | tools/aspis-pow-metal.swift:219-222 | the host's own first eight constants are the standard ones |
| `PowKernel.ShaRound` | tools/aspis-pow-metal.swift:35-40 | one round macro with rewritten choose and majority is one plain round, registers renamed |
| `PowKernel.ExpandRound` | tools/aspis-pow-metal.swift:35-44 | an expansion and the round that uses it: the next schedule word, and the two written registers complete the next plain state |
| `PowKernel.ExpandAndCompress16` | tools/aspis-pow-metal.swift:45-62 | sixteen rolling-window rounds are sixteen plain rounds, and the window holds the next sixteen schedule words |
| `PowKernel.PrestateAfterEightRounds` | tools/aspis-pow-metal.swift:231-251 | the host prefix is the state after the first eight rounds |
| `PowKernel.BlockIsMessage` | tools/aspis-pow-metal.swift:88-98 | the hand-packed words are the padded 41-byte message (state, tag 3, little-endian nonce) |
| `PowKernel.MessageLayout` | tools/aspis-pow-metal.swift:208-212 | the message is the state, the byte 3, and the nonce least significant byte first |
| `PowKernel.KernelHead` | tools/aspis-pow-metal.swift:88-113 | prestate, rotated registers and rolling schedule give the first two words of the compression of that block |
| `PowKernel.KernelRefinesSha256` | tools/aspis-pow-metal.swift:22-113 | for every 32-byte state and nonce the two words the kernel compares are the first two of the plain SHA-256 digest |
| `PowKernel.HeadBits` | tools/aspis-pow-metal.swift:64-68 | for every bits <= 63 the two-word test agrees with comparing the 64-bit head |
| `PowKernel.LeadingZeros` | tools/aspis-pow-metal.swift:64-68 | the two-word test at bits asks exactly that the first bits bits be zero |
| `PowKernel.KernelAccepts` | tools/aspis-pow-metal.swift:64-114 | the kernel accepts a nonce exactly when `validDigest` does |
| `PowSearch.StepKeepsFinal` | tools/aspis-pow-metal.swift:79-131 | a lane step, with its two-limb carry, never changes what the lane will finally write |
| `PowSearch.Dispatch` | tools/aspis-pow-metal.swift:70-131 | under every interleaving of lanes the result buffer is the same |
| `PowSearch.ChunkMinimum` | tools/aspis-pow-metal.swift:333-340 | the minimum over lanes is the least valid nonce of the chunk, or the chunk has none |
| `PowSearch.Search` | tools/aspis-pow-metal.swift:295-358 | chunks tile the range without gap, repeat or wrap: an emitted nonce is the least valid one from the start, exhaustion means there is none up to 2^64 - 2, and a hash limit stops with nothing missed, after the limit and within one chunk of it; without a limit, exhaustion overlooks a valid nonce exactly when 2^64 - 1 is valid and no smaller nonce from the start is |
| `PowSearch.SentinelInvisible` | tools/aspis-pow-metal.swift:79-84 | whether nonce 2^64 - 1 is valid changes no entry of the result buffer |
| `PowMiner.KernelTestIsValid` | tools/aspis-pow-metal.swift:208-217 | the device test and the independent host test agree on every nonce |
| `PowMiner.ValidMeansLeadingZeros` | tools/aspis-pow-metal.swift:208-217 | a nonce meets the difficulty exactly when the digest of state, tag and its two limbs starts with that many zero bits |
| `PowMiner.LastNonceOverlooked` | tools/aspis-pow-metal.swift:295-358 | the miss at an input: with difficulty 0 and start 2^64 - 1 the last nonce is valid and the space is reported exhausted |
| `PowMiner.Mine` | tools/aspis-pow-metal.swift:295-358 | the host re-check never fails; without a limit a nonce is emitted exactly when a valid one exists below 2^64 - 1, the least; a limit stops after that many hashes and within one chunk of it, with nothing missed |
| `Radix4.Radix4Root` | reference/stwo-circle-candidate/aspis_circle_candidate_digests.rs:298-323 | returns the root exactly on power-of-four lengths, in every other case the original panics |
| `Radix4.GroupLayout` | reference/stwo-circle-candidate/aspis_circle_candidate_digests.rs:311-318 | a node hashes 129 bytes: 0x12, then its four children in order, 32 bytes each |
| `Radix4.LeafLayout` | reference/stwo-circle-candidate/aspis_circle_candidate_digests.rs:299-306 | a leaf hashes 0x10, the tag, then the leaf |
| `Radix4.RootOfQuarters` | reference/stwo-circle-candidate/aspis_circle_candidate_digests.rs:308-323 | the root of 4^(h+1) digests is the node over the roots of its four quarters, in order |
| `Radix4.RootBinds` | reference/stwo-circle-candidate/aspis_circle_candidate_digests.rs:298-323 | equal roots under one tag mean equal leaf lists, of whatever heights, or two different inputs hashed by the two computations with the same digest |
| `Radix4.C1Leaves` | reference/stwo-circle-candidate/aspis_circle_candidate_digests.rs:91-104 | the packing loops produce slot-major little-endian leaves |
| `Radix4.LeafWord` | reference/stwo-circle-candidate/aspis_circle_candidate_digests.rs:91-104 | the four bytes at 4 (slot n + c) of a leaf, least significant first, are column c at domain index 4 fiber + slot |
| `Radix4.RootBindsCodewords` | reference/stwo-circle-candidate/aspis_circle_candidate_digests.rs:91-104 | equal roots over 4^h fibers mean equal codewords or such a collision |
| `MerkleFrontier.FrontierSplit` | tools/generate_v6_compact_frontier_tail.py:76-98 | the multiproof frontier of a schedule is that of its two halves, plus one sibling when exactly one half is empty |
| `FrontierCount.EntryCountsSchedules` | tools/generate_v6_compact_frontier_tail.py:76-98 | table entry times 2^f is the number of k-subsets of the 2^d leaves whose multiproof frontier has f nodes |
| `FrontierCount.TotalIsBinomial` | tools/generate_v7_compact_frontier_delta.py:300-330 | summed over all frontiers this is binomial(2^d, k) |
| `FrontierTable.CoefficientTables` | tools/generate_v6_compact_frontier_tail.py:76-98 | for every depth and size the dictionary loops hold every coefficient, a missing entry standing for zero |
| `FrontierSparse.ZeroOutside` | tools/generate_v6_compact_frontier_tail.py:54-73 | every nonzero coefficient lies inside the envelope |
| `FrontierSparse.EnvelopeTotal` | tools/generate_v6_compact_frontier_tail.py:54-73 | summing only inside the envelope already gives binomial(2^d, k) |
| `FrontierSparse.SupportedConvolution` | tools/generate_v6_compact_frontier_tail.py:397-405 | the convolution restricted to the supported frontiers equals the full one |
| `FrontierEnvelope.EnvelopeAttained` | tools/generate_v6_compact_frontier_tail.py:54-69 | the envelope value has a nonzero coefficient exactly when at most half of the leaves are selected, or at the single leaf of depth 0 |
| `FrontierEnvelope.EnvelopeIsBalanced` | tools/generate_v6_compact_frontier_tail.py:54-69 | one level up the envelope is the balanced split, exactly except at depth 1 with several leaves |
| `FrontierClosure.Closure` | tools/generate_v6_compact_frontier_tail.py:183-195 | the worklist ends with the least set containing the seeds and closed under `dependencies`, except below the stop set |
| `FrontierClosure.DependenciesExactly` | tools/generate_v6_compact_frontier_tail.py:120-143 | a dependency is exactly a cell one level down, inside the envelope, that is the single child with one frontier node less or a factor of a product whose other factor is inside too |
| `FrontierClosure.SparseIsDense` | tools/generate_v6_compact_frontier_tail.py:120-143 | values computed from a closed set of cells alone match the dense table |
| `FrontierClosure.DeltaClosed` | tools/generate_v7_compact_frontier_delta.py:152-181 | the V7 local cells together with the V6 cells are closed, nothing is unresolved, and their values match the dense table |
| `FrontierClosure.DeltaSymbolGraph` | tools/generate_v7_compact_frontier_delta.py:152-181 | running both worklists for any seeds: local and external cells resolve every dependency, and all values match the dense table |
| `FrontierClosure.EnvelopeNotAttained` | tools/generate_v6_compact_frontier_tail.py:54-69 | at depth 1 with both leaves selected the envelope allows frontier 1, whose coefficient is zero |
| `Elimination.ReduceAdd` | tools/verify_hiding_ranks.py:536-552 | reduction against echelon pivots is additive |
| `Elimination.ReduceScale` | tools/verify_hiding_ranks.py:536-552 | and homogeneous |
| `Elimination.ReduceSpan` | tools/verify_hiding_ranks.py:536-552 | a vector lies in a span containing the pivots exactly when its reduction does |
| `Elimination.ReduceStable` | tools/verify_hiding_ranks.py:547-552 | adding a pivot at a free position does not disturb what already reduces to zero there |
| `Schur.SchurImage` | tools/verify_hiding_ranks.py:556-593 | the residuals span exactly the carries c for which (0, c) lies in the span of everything inserted |
| `Schur.Membership` | tools/verify_hiding_ranks.py:536-553 | with nothing carried, a vector is in the span exactly when it reduces to zero |
| `Schur.PivotsAreLeaders` | tools/verify_hiding_ranks.py:536-553 | a position has a pivot exactly when some vector of the span leads there |
| `Dimension.FreshCountIsLeaders` | tools/verify_hiding_ranks.py:525-553 | the number of vectors outside the span of their predecessors depends on the span only |
| `Dimension.DimensionUnique` | tools/verify_hiding_ranks.py:525-553 | every independent list with the same span has exactly `rank` members |
| `Dimension.FreshOnesBasis` | tools/verify_hiding_ranks.py:525-553 | the vectors that were new form a basis of the span |
| `Echelons.ColumnEchelon.Insert` | tools/verify_hiding_ranks.py:533-553 | True exactly when the column is outside the span so far; the column is reduced in place, to a pivot kept by reference or to zero, and `rank` stays the dimension |
| `Echelons.CarryEchelon.Reduce` | tools/verify_hiding_ranks.py:566-593 | None exactly when the raw part is new; otherwise the raw list has become zero, the carry reduced in place is returned, and the residuals grow by it |
| `Echelons.CarryEchelon.Image` | tools/verify_hiding_ranks.py:556-593 | the residuals returned so far span exactly the Schur image |
| `RawSchur.VerifyRawSchur` | tools/verify_hiding_ranks.py:779-803 | query rank is the dimension of the raw parts, terminal rank the dimension of the carries left once every raw part is eliminated |
| `Lagrange.LagrangeBasisTransposed` | tools/verify_hiding_ranks.py:318-341 | for every number of sample points the table holds the cardinal polynomials |
| `Lagrange.Interpolates` | tools/verify_hiding_ranks.py:318-356 | dotting the samples of any polynomial with row k of the table returns its coefficient k |
| `Lagrange.DotLoop` | tools/verify_hiding_ranks.py:350-356 | the skipping dot loop is the full sum |
| `QPoly.SamePolynomial` | tools/verify_hiding_ranks.py:318-341 | n coefficients are determined by n values |
| `Sumcheck.CubeSumCollapses` | tools/verify_hiding_ranks.py:376-408 | the sum over all Boolean suffixes is the single term at the row's own bits |
| `Sumcheck.RoundPolyIsSum` | tools/verify_hiding_ranks.py:376-408 | each round's polynomial takes, everywhere, the value of the sum over all Boolean suffixes |
| `Sumcheck.ClaimsChain` | tools/verify_hiding_ranks.py:376-408 | g_r(0) + g_r(1) is the claim entering the round and g_r(z_r) the one leaving it |
| `MaskFactor.ExplicitFactor` | tools/verify_hiding_ranks.py:370-373 | the explicit factor is one plus the plain factor of the same family and exponent over the first tower element |
| `MaskFactor.TowerFactor` | tools/verify_hiding_ranks.py:373-373 | a plain factor is its tower element times the one over the first tower element |
| `MaskFactor.FactorsMultiply` | tools/verify_hiding_ranks.py:370-373 | plain factors of one family multiply by adding exponents |
| `MaskFactor.FirstPower` | tools/verify_hiding_ranks.py:366-373 | the plain factor of exponent one is the linear form times its tower element |
| `MaskFactor.FactorAtZero` | tools/verify_hiding_ranks.py:364-373 | at the zero point the explicit factor is one and every plain factor of positive exponent is zero |
| `MaskFactor.LinearPlus` | tools/verify_hiding_ranks.py:366-369 | the linear form is additive in the point |
| `MaskFactor.LinearScaled` | tools/verify_hiding_ranks.py:366-369 | and homogeneous over QM31 |
| `MaskFactor.LinearUnit` | tools/verify_hiding_ranks.py:367-369 | at the c-th unit point it is (3 + 17 family) + c (22 + 8 family) |
| `MaskFactor.TowerBasis` | tools/verify_hiding_ranks.py:93-93 | every QM31 element is exactly one M31 combination of the four tower elements |
| `MaskFactor.TowerLaws` | tools/verify_hiding_ranks.py:93-93 | they are 1, i, u and iu with i^2 = -1 and u^2 = 2 + i |
| `SumcheckView.FactorValue` | tools/verify_hiding_ranks.py:364-373 | the loop computes the mask factor of the linear form |
| `SumcheckView.RoundObservations` | tools/verify_hiding_ranks.py:384-407 | sampling and interpolation return the kept coefficients of the true round polynomial |
| `SumcheckView.Observations` | tools/verify_hiding_ranks.py:376-408 | the vector is the claim followed by the kept coefficients of every true round polynomial, for every row, challenge vector and factor of degree at most n - 2 |
| `SumcheckView.RecoverExact` | tools/verify_hiding_ranks.py:345-347 | the omitted linear coefficient is recovered from the claim |
| `SumcheckView.ReplayExact` | tools/verify_hiding_ranks.py:345-408 | reading the vector back recovers every round polynomial and ends at the summand at the challenges |
| `TracePoints.EqWeight` | tools/verify_hiding_ranks.py:287-293 | the loop computes the eq weight of the row |
| `TracePoints.EqIsIndicator` | tools/verify_hiding_ranks.py:287-293 | on Boolean points the eq weight is the indicator of the row |
| `TracePoints.BinarySuccessorPoint` | tools/verify_hiding_ranks.py:296-304 | each coordinate is the toggled bit under the carry from the right |
| `TracePoints.SuccessorIsNextRow` | tools/verify_hiding_ranks.py:296-304 | on the bits of a row it gives the bits of the next row, cyclically |
| `TracePoints.RowBitsValue` | tools/verify_hiding_ranks.py:287-293 | the bits of a row spell the row index modulo the number of rows |
| `TracePoints.SuccessorSelects` | tools/verify_hiding_ranks.py:287-304 | the successor point of row r is the point of row r + 1, and the eq weight there is the indicator of that row |
| `NaturalBasis.MulPoly` | tools/v5_atomic_a_conversion_cert.rs:54-59 | the double loop computes the convolution |
| `NaturalBasis.ProductEval` | tools/v5_atomic_a_conversion_cert.rs:54-76 | the convolution multiplies values, at every point of QM31 |
| `NaturalBasis.Factors` | tools/v5_atomic_a_conversion_cert.rs:49-63 | factor k is the k-fold doubling of x: degree 2^k, one parity, leading coefficient 2^(2^k - 1) |
| `NaturalBasis.NaturalLineBasis` | tools/v5_atomic_a_conversion_cert.rs:48-79 | for every size N_i has degree exactly i, monomials of one parity, leading coefficient 2^(i - popcount i), and the closed-form basis function as its value |
| `BasisChange.MonomialInNatural` | tools/v5_atomic_a_conversion_cert.rs:82-101 | back-substitution expresses x^degree in the natural basis and the residual assertion always holds |
| `BasisChange.LeftIsRight` | tools/v5_atomic_a_conversion_cert.rs:103-123 | a left inverse of a triangular matrix with nonzero diagonal is a two-sided inverse |
| `BasisChange.ConversionTables` | tools/v5_atomic_a_conversion_cert.rs:48-123 | for every size the two tables are inverse to each other on both sides |
| `BasisChange.OrdinaryToNatural` | tools/verify_hiding_ranks.py:449-461 | any polynomial is expressed in a triangular basis exactly |
| `GaussJordan.Invert` | tools/v5_good_gate_sparse_shift.py:56-80 | a two-sided inverse, or a report of singularity exactly when there is none |
| `GaussJordan.TwoSided` | tools/v5_good_gate_sparse_shift.py:56-80 | row operations from [A given I] to [I given B] make B inverse to A on both sides |
| `GaussJordan.Multiply` | tools/v5_good_gate_sparse_shift.py:83-91 | the comprehension is the matrix product |
| `GaussJordan.DeriveShift` | tools/v5_good_gate_sparse_shift.py:101-122 | for every invertible conversion the derived shift satisfies the commuting square on every basis vector, the top degree going to zero |
| `Base58.ConvertBack` | release/aspis-v5-tag67-mainnet-rpc-archive-v1/verify.py:50-70 | changing base and back is the identity, leading zeros included |
| `Base58.DecodeEncode` | release/aspis-v5-tag67-mainnet-rpc-archive-v1/verify.py:50-70 | decoding the encoding of any byte string returns it |
| `Base58.EncodeDecode` | release/aspis-v5-tag67-mainnet-rpc-archive-v1/verify.py:50-70 | encoding what any Base58 string decodes to returns the string |
| `Base58.EncodeLoop` | release/aspis-v5-tag67-mainnet-rpc-archive-v1/verify.py:50-58 | repeated division and reversal compute the encoding |
| `Base58.DecodeLoop` | release/aspis-v5-tag67-mainnet-rpc-archive-v1/verify.py:61-70 | the accumulation computes the decoding and fails exactly on a foreign character |
| `Base58.ByteCount` | release/aspis-v5-tag67-mainnet-rpc-archive-v1/verify.py:68-68 | (bit_length + 7) // 8 is the number of base-256 digits |
| `Base58.AlphabetOrder` | release/aspis-v5-tag67-mainnet-rpc-archive-v1/verify.py:23-24 | the alphabet is in character order |
| `Base58.AlphabetExactly` | release/aspis-v5-tag67-mainnet-rpc-archive-v1/verify.py:23-24 | the accepted characters are exactly the alphanumeric ones other than 0, I, O and l |
| `WireParser.ReadShortvec` | release/aspis-v5-tag67-mainnet-rpc-archive-v1/verify.py:73-84 | the length field at an offset, at most four bytes, and the offset after it; fails exactly when there is none |
| `Wire.CanonicalAccepted` | release/aspis-v5-tag67-mainnet-rpc-archive-v1/verify.py:73-84 | every length below 2^28 has a canonical field the reader accepts |
| `Wire.CanonicalExactly` | release/aspis-v5-tag67-mainnet-rpc-archive-v1/verify.py:73-84 | an accepted field is the canonical one exactly when it does not end in a redundant zero byte |
| `Wire.RedundantZeroAccepted` | release/aspis-v5-tag67-mainnet-rpc-archive-v1/verify.py:73-84 | the reader accepts 0x80 0x00 for zero |
| `Wire.LengthExplicit` | release/aspis-v5-tag67-mainnet-rpc-archive-v1/verify.py:73-84 | the value of a length field is the low seven bits of its bytes at shifts 0, 7, 14 and 21 |
| `Wire.InstructionLayout` | release/aspis-v5-tag67-mainnet-rpc-archive-v1/verify.py:117-148 | program index, account count, account indices, data length, data stand in this order |
| `Wire.TransactionLayout` | release/aspis-v5-tag67-mainnet-rpc-archive-v1/verify.py:87-115 | where every signature, header byte, key, the blockhash and the instructions stand on the wire |
| `WireParser.ParseInstruction` | release/aspis-v5-tag67-mainnet-rpc-archive-v1/verify.py:117-148 | an instruction is reported exactly when the bytes at the cursor are one with every index in range: program index at the cursor, accounts after the first length field, data after the second |
| `Wire.ReadThenWrite` | release/aspis-v5-tag67-mainnet-rpc-archive-v1/verify.py:87-157 | every accepted wire is byte for byte the serialisation of what was read: all bytes consumed once, every index in range |
| `Wire.WriteThenRead` | release/aspis-v5-tag67-mainnet-rpc-archive-v1/verify.py:87-157 | every well-formed transaction is read back unchanged |
| `WireParser.ParseLegacyTransaction` | release/aspis-v5-tag67-mainnet-rpc-archive-v1/verify.py:87-157 | the cursor-driven parser reports exactly that transaction, and fails exactly when there is none |
| `WireParser.ViewInjective` | release/aspis-v5-tag67-mainnet-rpc-archive-v1/verify.py:151-157 | two well-formed transactions have the same report exactly when they differ at most in the raw bytes of the signature count |
| `Upload.WireBytesExact` | xtask/src/spend_mainnet_loader.rs:240-249 | the serialised length of a write transaction is a fixed part, the payload and its length field |
| `Upload.WriteTransactionOk` | xtask/src/spend_mainnet_loader.rs:240-249 | the write transaction is a well-formed wire, so the archive parser reads it back |
| `Upload.PacketSafeWriteChunkBytes` | xtask/src/spend_mainnet_loader.rs:253-284 | the binary search returns the largest payload that fits a packet, 1012 bytes when the payer is the authority and 916 otherwise; it rejects exactly the roles the original rejects |
| `Upload.ReconstructProgramBytes` | xtask/src/spend_mainnet_loader.rs:97-112 | the concatenation, exactly when the offsets are contiguous |
| `Upload.TilingConcat` | xtask/src/spend_mainnet_loader.rs:97-112 | the writes of a tiling are contiguous and concatenate to the image |
| `Upload.BuildPlan` | xtask/src/spend_mainnet_loader.rs:287-327 | succeeds exactly on an acceptable image and roles; the writes tile the image, fit packets, and no packet-safe plan uses fewer |
| `Upload.DecodeWriteData` | release/aspis-v5-tag67-mainnet-rpc-archive-v1/verify.py:512-515 | the archive decodes the write instruction that was built |
| `Upload.DecodeLayout` | release/aspis-v5-tag67-mainnet-rpc-archive-v1/verify.py:509-514 | a write has its variant in bytes 0 to 3, offset in 4 to 7, payload length in 8 to 15, all least significant byte first, and its payload from 16; it decodes exactly when variant and length fit |
| `Replay.ReplayWrites` | release/aspis-v5-tag67-mainnet-rpc-archive-v1/verify.py:503-532 | the loop over the two byte buffers computes the specified run, failing where the original fails |
| `Replay.AcceptedConsistent` | release/aspis-v5-tag67-mainnet-rpc-archive-v1/verify.py:503-532 | in every accepted history covered plus repeated bytes are all bytes written, every write agrees with the image, and exactly the written positions are covered |
| `Replay.AcceptedExactly` | release/aspis-v5-tag67-mainnet-rpc-archive-v1/verify.py:520-531 | a history is accepted exactly when every write is in bounds and touches nothing written before or repeats it byte for byte; the latter are exactly what is counted as duplicates |
| `Replay.AnyOrderRebuilds` | release/aspis-v5-tag67-mainnet-rpc-archive-v1/verify.py:503-540 | the writes of a plan in any order with any exact retries rebuild the image; covered bytes are total length minus repeats |
| `Replay.AnyOrderAccepted` | release/aspis-v5-tag67-mainnet-rpc-archive-v1/verify.py:503-540 | end to end from the encoded write instructions, with the surplus writes as the repeat count |
| `Replay.EveryOrderAccepted` | release/aspis-v5-tag67-mainnet-rpc-archive-v1/verify.py:520-531 | every reordering of a history is accepted exactly when all writes are in bounds and any two nonempty ones are equal or disjoint |
| `Replay.OrderMatters` | release/aspis-v5-tag67-mainnet-rpc-archive-v1/verify.py:523-528 | a write inside an earlier one that agrees with it is accepted, the reverse order is not |
| `Replay.SameWritesSameImage` | release/aspis-v5-tag67-mainnet-rpc-archive-v1/verify.py:503-532 | whenever two orders of the same writes are both accepted they rebuild the same image |
| `Replay.AcceptedWritesAgree` | release/aspis-v5-tag67-mainnet-rpc-archive-v1/verify.py:533-540 | acceptance means every write is a slice of the image and every byte was written |
| `Replay.AcceptsExactly` | release/aspis-v5-tag67-mainnet-rpc-archive-v1/verify.py:503-540 | the final test passes exactly when the data decode to slices of the image that cover it, each over bytes all new or all written before, with the expected number of repeats |
| `Replay.Reconstructs` | release/aspis-v5-tag67-mainnet-rpc-archive-v1/verify.py:533-540 | the final test decides acceptance |
| `Archive.ReconstructDeployed` | release/aspis-v5-tag67-mainnet-rpc-archive-v1/verify.py:459-540 | from transaction wires: true exactly when every wire parses, every selected loader write has exactly buffer and authority as accounts, is signed by the authority with the buffer writable, and the replay accepts |
| `ArchiveRoles.ReconstructedExactly` | release/aspis-v5-tag67-mainnet-rpc-archive-v1/verify.py:459-540 | the same on transaction fields: every wire is a transaction, every loader write to the buffer stands on accounts buffer and authority with the authority among the signers and the buffer outside both read-only tails, and the data of those writes in order replay to the image |
| `ArchiveRoles.MisplacedRefused` | release/aspis-v5-tag67-mainnet-rpc-archive-v1/verify.py:506-519 | one loader write on other accounts, not signed by the authority, or to a buffer among the read-only keys, and the history is refused whatever else it holds |
| `ArchiveRoles.IrrelevantWire` | release/aspis-v5-tag67-mainnet-rpc-archive-v1/verify.py:459-471 | a transaction without a loader write to the buffer changes nothing, wherever it stands |
| `ArchiveRoles.RolesByPosition` | release/aspis-v5-tag67-mainnet-rpc-archive-v1/verify.py:160-176 | for distinct keys, the first header[0] are the signers, and read-only are the last header[1] of them and the last header[2] of all |
| `ArchiveRoles.ReadOnlyCounted` | release/aspis-v5-tag67-mainnet-rpc-archive-v1/verify.py:160-176 | exactly header[1] of the signing keys and header[2] of the others are read-only, and header[0] keys sign |
| `ArchiveRoles.WritableFirst` | release/aspis-v5-tag67-mainnet-rpc-archive-v1/verify.py:168-176 | within the signed and within the other keys, those before a writable key are writable |
| `ArchiveRoles.WriteRoles` | xtask/src/spend_mainnet_loader.rs:240-249 | in a write transaction the payer comes first, payer and buffer are the writable keys, payer and authority the signers |
| `Archive.WriteReported` | release/aspis-v5-tag67-mainnet-rpc-archive-v1/verify.py:506-519 | parsing a built write transaction reports one loader instruction that decodes to the write and passes the account, signer and writability tests |
| `Archive.UploadReconstructed` | release/aspis-v5-tag67-mainnet-rpc-archive-v1/verify.py:459-540 | end to end: the packet-safe writes of a plan, one transaction each, in any order with any exact retries, are reconstructed from their wires |
| `RateLimiter.MarksNeverRetreat` | tools/reconstruct_spend_mainnet_sbf.py:208-235 | no event of any caller moves the clock, the cooldown or the next-slot mark backwards |
| `RateLimiter.StepInv` | tools/reconstruct_spend_mainnet_sbf.py:208-235 | every event keeps the invariant: slots 1 / rate apart, the next free time the cooldown mark or 1 / rate after the last slot, one holder per slot, nobody leaves before its slot or against a cooldown it saw |
| `RateLimiter.RunInv` | tools/reconstruct_spend_mainnet_sbf.py:208-235 | the invariant holds after every run of any number of callers |
| `RateLimiter.ThroughputBound` | tools/reconstruct_spend_mainnet_sbf.py:208-235 | in every run the callers let through by any time are at most one plus the rate times the time since the first slot |
| `RateLimiter.WindowBound` | tools/reconstruct_spend_mainnet_sbf.py:208-229 | in every run, between any two slots at most the rate times the time between them lie, plus one |
| `RateLimiter.SlotIsEarliest` | tools/reconstruct_spend_mainnet_sbf.py:216-218 | in every run a slot is given out for now or for exactly 1 / rate after the previous slot |
| `RpcClients.RpcClient.Decide` | tools/reconstruct_spend_mainnet_sbf.py:210-220 | the first locked region is the caller's Decide event on the object: a reserved slot starts no earlier than now and at least 1 / rate after every slot reserved before, and is now or exactly 1 / rate after the previous one; a cooldown is waited for exactly |
| `RpcClients.RpcClient.Check` | tools/reconstruct_spend_mainnet_sbf.py:226-229 | the second locked region is the Check event: the caller leaves only at or after its slot with no cooldown in force, otherwise it starts over |
| `RpcClients.RpcClient.Impose` | tools/reconstruct_spend_mainnet_sbf.py:231-235 | imposing a cooldown is the Impose event: both marks cover it, neither retreats, and each moves only as far as that needs |
| `RpcClients.Interleave` | tools/reconstruct_spend_mainnet_sbf.py:208-235 | any number of threads on one client object under any schedule: the object ends in a reachable state of the model, so the invariant and the throughput bound hold of it |

## Left out

- Echelons.ColumnEchelon.Insert: the caller must not pass a list that is already stored as a pivot, because reducing a pivot against itself destroys it; the original has the same need without saying so.
- Echelons.CarryEchelon.Reduce: likewise, the two lists must differ from each other and from every stored list, and all carries have one length.
- CircleBasis.EncodeMessage: stops at log size 30, because the group of order 2^31 supports no larger domain; the encoder's circle twiddles need log size 3.
- RpcClients.Interleave: time is real-valued and `time.sleep` is taken to last at least as long as asked; floating-point rounding of 1 / rate is not modelled.
- Upload.WireBytesExact: the transaction layout follows the legacy wire format the archive parses, with payer, optional authority, buffer and loader as four different keys, because the SDK's message compiler is not part of the repository.
- Replay.ReplayWrites: takes the instruction data only; the account, signer and writability tests on each write are in `Archive.ReconstructDeployed`.
- Archive.ReconstructDeployed: takes the wires of the successful transactions; which transactions succeeded is read from RPC results, and the frozen write counts, the deploy instruction and the slot order are not modelled.
- Radix4.RootBinds: says nothing about how hard a collision is to find.
- `qrank`, the Monte-Carlo singular fraction and the random point samplers of `verify_circle_vandermonde.py`: statistics, or a second copy of the elimination.
- `balanced_full_domain_sources`, the joint root-neutral block and its ranks 1404 / 324 / 328 / 1076 in `verify_hiding_ranks.py`: facts about one frozen instance.
- `natural_t_polynomials` of `verify_hiding_ranks.py`: the same basis as `NaturalBasis`, truncated to a cap it never reaches.
- The final-layer coordinate table of `build.rs` and the emission of Rust text: direct copies of `line_x`.
- `partition_states` and all Lean text emission in the two frontier generators, and the frozen cell counts 753 and 412 / 652.
- `c2_leaves`, the stwo encodings and the fixture generator of the digest program: the same packing in another order, or library calls whose code is not part of this model.
- Checkpoint files, option parsing and Metal dispatch details beyond the interleaving of lanes in `aspis-pow-metal.swift`.
- Floating-point ledger arithmetic in `verify_soundness_params.py`.
- JSON-RPC clients, retries, finality polling, receipts and account validators in `xtask/src/spend_*` and the archive tools: input and output.
- Reconstruction of the uploaded proof and of account lifecycles in the archive's `verify.py`: frozen counts and identities.
