# A verified model of the PIR engine and of the DNS bucket index

This project models two parts of a DNS-over-PIR system in Dafny and proves that they do what they are for.

**The PIR engine** answers a query for one entry of a database without learning which one. A shard stores the
entries as values at the powers of 5, each rotated back, in the order in which a loop will read them. The loop
rotates an accumulator by X -> X^5 and adds the next stored element times the encrypted query. The a-half of that
computation does not depend on the client and is run once per database; the b-half is run per query, on
number-theoretic transforms, in two RNS components, with a fused permutation, two swapped buffers and delayed
reductions. The replies of all shards become the entries of a second, per-query database.

**The bucket index** stores the records of a DNS zone in fixed-size buckets under 14-bit discriminators. The
server searches a salt for every bucket; the client reads the salt back from the bucket it retrieved.

What is proved, from the inside out:

* Arithmetic on lanes: representatives stay in [0, 2p] through every operation (`SpecialZn`), the two-digit
  decomposition is exact (`Gadget`), rescaling and modulus switching have exact conditions and bounds (`Bfv`).
* The algebra: 5 has order loop_len modulo 4·loop_len, sums over the group cancel without any division
  (`GaloisGroup`), automorphisms are ring homomorphisms and permute transform values (`Negacyclic`, `Ntt`).
* The loop: the stored layout is what `Retrieval` needs (`Database`), and with it the loop returns entry idx.
* The split: phases of the offline and online halves together follow the plaintext loop, plus an explicit error
  sum (`PhaseSplit`); `Offline` and `OnlineLoop` with `Refinement` and `PerformPir` show that the two loops, as
  they run on transforms, compute exactly those halves; `PirDatabase` puts them together as a class.
* The client's view: `EndToEnd` says when a decrypted reply is the requested entry, as an if-and-only-if on the
  carry of an explicit disturbance, and `Noise` gives a condition on the client's errors alone. `DoublePir` does
  the same for both levels together.
* Odd loops: the buffer swaps lose the last iteration of a loop of odd length. `LoopParity` determines exactly which
  databases that harms.
* The wire: bit-plane packing and its inverse for every width (`Wire`), with the place of every bit (`WireLayout`), the
  sections of queries and replies (`QueryFormat`), and the shape that client and server derive independently (`Shape`).
  A rounded query is the query of a client with moved errors (`ReceivedQuery`); `Protocol` goes from the bytes of a
  query to the decrypted reply, and `Guarantee` gives a condition on sizes alone under which every coefficient arrives.
* The index: `Bucket`, `BucketFormat` and `BucketIndex` prove that the client's lookup equals a plain map lookup for
  every name in the zone, for arbitrary hash functions; `Zones`, `ZoneNames`, `ZoneText`, `LineFormat`, `Utf8` and
  `ZoneFile` say what the text of a zone means and prove its round trip, `DnsService` goes from that text to an answered
  query, and `PrivateLookup` puts the index behind the encrypted exchange.

`Instances` shows that the hypotheses of these results can be met together, on a deployment of rank 8 with the
program's moduli. `Arith`, `Sums`, `Permute`, `Options`, `Parameters` and `Addresses` hold what the others share. Loops
and in-place updates of the program are methods here, proved against functions about which the lemmas speak;
expressions and recursion are functions.

Conventions. `N` is any power of two unless `Shape` or `QueryFormat` fixes the program's 2048. A ring element is its
list of coefficients; a transform is the list of values at the odd exponents. `h` is the inverse of the generator
modulo 2N. Keys, masks and errors are arbitrary inputs. A transform holds an element when its entries are congruent
to the element's values, so lazily reduced values are covered.

Where the code and its comments disagree, or the code falls short, the code is followed:

* The comment of `reduce_after_mul` promises results of at most p; the code gives at most 2p
  (crates/pir/src/simd_zn.rs:220-230). The comment is right if and only if alpha is 0
  (`SpecialZn.ReduceAfterMulBoundIff`), and wrong for both rings in use (`Gadget.RingsAboveP`).
* `main_pir_loop` leaves its result in the caller's `sum` only for an even number of iterations
  (crates/pir/src/base_pir.rs:1240); otherwise the last iteration is lost (`OnlineLoop.MainPirLoop`). The constructors
  accept groups with the odd loop length 1, for which every query is answered with zero. `LoopParity` proves that the
  reply is right for all entries and queries if and only if the loop length is even, and `Shape` that every reachable
  shape has an even one. `EndToEnd` and the modules above it speak of the reply that the recurrence defines, which
  `PirDatabase` shows to be the computed one for even loop lengths.
* `compress` loses the representative 2p when K = 30 and alpha = 0 (crates/pir/src/simd_zn.rs:124-137); the two rings
  in use have alpha = 4095.
* At width 50 a mod-switched value does not always survive another switch (crates/pir/src/bfv.rs:52-69), unlike at
  the widths 12, 17 and 34.

## Model

| member | source | states |
|---|---|---|
| GaloisGroup.OrderOfFive | crates/pir/src/base_pir.rs:164-182 | 5^d is 1 modulo 4·2^m if and only if 2^m divides d, so the powers of 5 run through loop_len values before they repeat |
| GaloisGroup.FiveInjective | crates/pir/src/base_pir.rs:168-182 | the powers of 5 with exponents below L are pairwise distinct modulo 4L |
| GaloisGroup.ValidLayout | crates/pir/src/base_pir.rs:140-178 | every group that the constructors accept has a power-of-two loop length with 2N = 4·loop_len·query_base_power, and the base power is 1 for the full group |
| GaloisGroup.ElementInjective | crates/pir/src/base_pir.rs:430-443 | the listed group elements are pairwise distinct modulo 4·loop_len, for the subgroup and for the full group |
| GaloisGroup.EveryOddResidue | crates/pir/src/base_pir.rs:430-443 | the elements ±5^i of the full group hit every odd residue modulo 2N, each exactly once |
| GaloisGroup.CosetIndexExact | crates/pir/src/base_pir.rs:416-435 | in coset_ntt the checked division is exact and every computed position is below l, for zeta_power an odd multiple of the base power |
| GaloisGroup.CosetIndexPermutes | crates/pir/src/base_pir.rs:430-443 | the positions handed to permute in coset_ntt form a bijection, for both kinds of group |
| GaloisGroup.Orthogonality | crates/pir/src/base_pir.rs:116-124 | a full-circle sum of rotated coefficients is zero; proved by pairing terms half a turn apart, without any division |
| GaloisGroup.GroupOrthogonality | crates/pir/src/base_pir.rs:116-128 | summing X^(bp·j·d)·a over all group elements j gives l·a for d = 0 and zero for every other |d| < l |
| GaloisGroup.SlotExponent | crates/pir/src/base_pir.rs:185-191 | galois_to_index never fails: the division is exact and the index is below N |
| GaloisGroup.SlotInverse | crates/pir/src/base_pir.rs:507-513 | moving a slot by an exponent and then by its inverse returns to the same slot |
| Negacyclic.GaloisMul | crates/pir/src/bfv.rs:106-116 | the coefficient map of an automorphism is multiplicative on Z[X]/(X^N + 1) |
| Ntt.WeightedNtt | crates/pir/src/base_pir.rs:453-466 | the in-place weighted transform leaves the values at the odd exponents 1, 3, ..., 2N-1 |
| Ntt.InvWeightedNtt | crates/pir/src/base_pir.rs:471-483 | the in-place inverse transform computes the inverse FFT followed by the weighting loop |
| Ntt.NttRoundTrip | crates/pir/src/base_pir.rs:468-483 | the inverse transform returns the coefficients modulo p of whatever was transformed |
| Ntt.InvNttElemCong | crates/pir/src/base_pir.rs:471-483 | lazily reduced values give the same coefficients modulo p |
| Ntt.CosetNtt | crates/pir/src/base_pir.rs:397-444 | coset_ntt leaves in slot k the value at exponent zeta_power times the k-th group element |
| Ntt.EvalGalois | crates/pir/src/base_pir.rs:507-514 | an automorphism permutes the values: the value at exponent e of the image is that at exponent g·e of the element |
| Ntt.EvalMul | crates/pir/src/base_pir.rs:580-592 | pointwise products of transforms are the transform of the ring product |
| Permute.Permute | crates/pir/src/permute.rs:27-45 | for every bijection the in-place cycle walk terminates and leaves values_new[i] = values[perm(i)] |
| Permute.PermuteInv | crates/pir/src/permute.rs:66-82 | for every bijection the in-place cycle walk terminates and leaves values_new[perm(i)] = values[i] |
| Permute.PermuteRoundTrip | crates/pir/src/permute.rs:22-82 | each of the two undoes the other |
| Database.HatBound | crates/pir/src/base_pir.rs:668-670 | every coefficient of every transformed entry stays within l·(t-1) in absolute value, at every position including the negated ones |
| Database.HatValue | crates/pir/src/base_pir.rs:698-701 | the row-wise transform of the entries' values is the value of the transformed entry |
| Database.TransformColumns | crates/pir/src/base_pir.rs:688-693 | step 2: every column holds the values of one entry |
| Database.TransformRows | crates/pir/src/base_pir.rs:698-703 | step 3: column k holds the values of the k-th transformed entry |
| Database.UndoAutomorphisms | crates/pir/src/base_pir.rs:711-718 | step 4: every column is rotated back by its power of 5, also in the conjugated half |
| Database.RecoveredColumn | crates/pir/src/base_pir.rs:740-748 | the centred lift modulo q1 recovers the exact integer coefficients, so reducing it modulo t is right |
| Database.RecoverElement | crates/pir/src/base_pir.rs:740-750 | step 6 turns one column into the centred, scaled stored element |
| Database.SetTransformedEntries | crates/pir/src/base_pir.rs:662-764 | all six steps together leave exactly the layout that the Horner loop reads, in both RNS components and for both halves |
| Retrieval.HornerUnrolled | crates/pir/src/base_pir.rs:838-861 | the loop that rotates by 5 and adds a stored element each time is a sum over the powers of 5 |
| Retrieval.AnswerSum | crates/pir/src/base_pir.rs:116-128 | adding the transformed entries over the whole group leaves l times the requested entry |
| Retrieval.RetrievalIdentity | crates/pir/src/base_pir.rs:116-128 | for every power-of-two N, every index group, every list of l entries and every idx < l the loop (plus the conjugated loop) returns entry idx modulo t |
| Gadget.RingModuli | crates/pir/src/base_pir.rs:529-537 | the two primes pass the invariant check of the lane rings and multiply to the ciphertext modulus |
| Gadget.RingsAboveP | crates/pir/src/simd_zn.rs:220-230 | in both rings in use, 2^K - 1 comes out above p |
| Gadget.ShortestLiftRange | crates/pir/src/base_pir.rs:547-555 | after the two masked subtractions the lane holds the centred lift of the combined residues |
| Gadget.DigitsRecombine | crates/pir/src/base_pir.rs:557-570 | the two balanced digits recombine to the lift, lie in [-2^25, 2^25) and carry nothing out |
| Gadget.StoredDigitLaw | crates/pir/src/base_pir.rs:532-533 | the shifted digit meets the precondition of the lane reduction for both primes and keeps its residue |
| Gadget.GadgetExact | crates/pir/src/base_pir.rs:529-571 | for any RNS residues the digits recombine exactly to the unique centred representative modulo q |
| Gadget.FromRnsExact | crates/pir/src/base_pir.rs:911-933 | the reply conversion returns the coefficient modulo q from its two residues |
| PhaseSplit.PhaseStep | crates/pir/src/base_pir.rs:485-495 | one step, exactly modulo q: the phase rotates, gains the stored element times the query phase, and the digits times the key noise |
| PhaseSplit.PhaseOfSplit | crates/pir/src/base_pir.rs:819-862 | after any number of steps the offline a-half and the online b-half together have the ideal phase plus an explicit error sum |
| Offline.ScatterGalois | crates/pir/src/base_pir.rs:505-514 | the first loop of partial_gal turns the transform of an element into that of its image under the automorphism |
| Offline.Decompose | crates/pir/src/base_pir.rs:542-571 | the decomposition loop leaves both digits of every coefficient, in both components |
| Offline.PartialGal | crates/pir/src/base_pir.rs:496-594 | partial_gal returns the inner product of the digits with the key and the digits themselves, as transforms |
| Offline.PreprocessStep | crates/pir/src/base_pir.rs:838-861 | one iteration advances the a-half by one stored element |
| Offline.PreprocessLoop | crates/pir/src/base_pir.rs:819-862 | the whole loop leaves the a-half of the reply, and in the slabs the digits of every iteration |
| OnlineLoop.BudgetSuffices | crates/pir/src/base_pir.rs:1001-1005 | the reduction interval is 341 iterations, and within it no u64 accumulator of either component can wrap |
| OnlineLoop.OneIteration | crates/pir/src/base_pir.rs:1115-1240 | one pass writes every slot plus its three products through the lookup table, without overflow |
| OnlineLoop.ReduceBuffer | crates/pir/src/base_pir.rs:1243-1245 | the block-end reduction keeps all residues and brings every slot below p |
| OnlineLoop.MainPirLoop | crates/pir/src/base_pir.rs:1085-1248 | the fused scatter, the buffer swaps and the delayed reductions compute the textbook recurrence; the caller's sum ends with all iterations if their number is even, with all but the last if it is odd, and untouched after a single one |
| Refinement.LookupTable | crates/pir/src/base_pir.rs:971-978 | galois_lookup_table is a bijection whose inverse multiplies exponents by the generator |
| Refinement.RotatedSlot | crates/pir/src/base_pir.rs:507-514 | a rotated element has in slot j the value the element has in the slot of exponent g·(2j+1) |
| Refinement.RecurrenceIsPartB | crates/pir/src/base_pir.rs:1113-1248 | slot by slot the recurrence is the transform of the b-half of the reply |
| PerformPir.RunLoop | crates/pir/src/base_pir.rs:1007-1033 | for every loop length, one call of the loop leaves the transform of the b-half over the iterations that are kept, scrambled by the table |
| PerformPir.AddConjugate | crates/pir/src/base_pir.rs:1066-1071 | the conjugate sums are added without overflow |
| PerformPir.Finish | crates/pir/src/base_pir.rs:1072-1077 | permute, reduction and inverse transform leave the coefficients of the b-half modulo p |
| PerformPir.JoinRns | crates/pir/src/base_pir.rs:917-934 | joining both components gives the b-half modulo q |
| PerformPir.PerformPirSplit | crates/pir/src/base_pir.rs:958-1077 | for every loop length of an index group: the b-half of the textbook recurrence, plus the conjugated one where the group needs it, modulo q, if the length is even; zero if it is 1 |
| PerformPir.OnlineCases | crates/pir/src/base_pir.rs:1113-1248 | what is kept is the whole b-half for even lengths, and nothing, whatever was asked, for length 1 |
| PirDatabase.ToSimd | crates/pir/src/base_pir.rs:865-878 | both transforms of a ring element, as representatives of at most 2p |
| PirDatabase.FromSimd | crates/pir/src/base_pir.rs:905-935 | the element modulo q back from its lazily reduced transforms |
| PirDatabase.ReadyIsPrepared | crates/pir/src/base_pir.rs:1085-1111 | what preprocessing leaves in the slabs is what the online loop expects |
| PirDatabase.Db.SetDb | crates/pir/src/base_pir.rs:632-637 | afterwards all slabs belong to the new entries, whatever the database held before |
| PirDatabase.Db.GetA | crates/pir/src/base_pir.rs:897-903 | the a-half of the reply, which depends on the entries alone |
| PirDatabase.Db.PerformPirSplit | crates/pir/src/base_pir.rs:958-1077 | a database that set_db filled answers every query with the b-half of the recurrence over its entries if its loop length is above 1, and with zero if it is 1 |
| PirDatabase.Retrieve | crates/pir/src/base_pir.rs:958-1077 | encrypt, answer, decrypt: for loop lengths above 1 a coefficient is that of the requested entry if and only if the carry of the disturbance is a multiple of t; for length 1 the client decrypts the a-half alone, whatever it asked for |
| LoopParity.LostQuery | crates/pir/src/base_pir.rs:1085-1248 | the witness: with loop length 1, the constant query 1 is answered wrongly wherever a stored element is not zero |
| LoopParity.AnswersEveryIff | crates/pir/src/base_pir.rs:958-1077 | a database answers every query as the recurrence demands if and only if its loop length is even or all its entries are zero |
| LoopParity.ReplyIsPartBIff | crates/pir/src/base_pir.rs:133-163 | for all entries and all queries the reply is that of the recurrence if and only if the loop length is even (or there is but one plaintext) |
| Bfv.EncRescaleValue | crates/pir/src/bfv.rs:79-84 | the modular division by t computes the exact quotient |
| Bfv.RescaleRoundTrip | crates/pir/src/bfv.rs:75-101 | decrypting the embedded message with error e gives the message plus a carry, and the message exactly if t divides that carry |
| Bfv.RescaleWithinBound | crates/pir/src/bfv.rs:75-101 | every error e with 2t·abs(e) + t <= q decrypts to the message |
| Bfv.RescaleFitsI64 | crates/pir/src/bfv.rs:79-100 | all intermediate products fit a signed 64-bit integer for the real parameters |
| Bfv.EncodeNonNegative | crates/pir/src/bfv.rs:52-58 | encoded values lie in [0, 2^B), and the shifted quotient is never negative |
| Bfv.ModSwitchError | crates/pir/src/bfv.rs:52-69 | switching down and back moves a coefficient by at most q/2^(B+1) + 1 modulo q |
| Bfv.ModSwitchExact | crates/pir/src/bfv.rs:52-69 | encoding a decoded value returns it if and only if the truncated fraction is below half a step |
| Bfv.ModSwitchWide | crates/pir/src/bfv.rs:52-69 | it always returns when 2^(B+1) <= q |
| Bfv.ModSwitchNarrow | crates/pir/src/pir_wrapper.rs:61-61 | the Galois-key width 50 is too wide for that: 5463 does not come back |
| Bfv.GaloisOfKeyIsAutomorphism | crates/pir/src/bfv.rs:106-116 | the coefficient loop of gen_gk_b never reads position N and is the automorphism X -> X^g |
| EndToEnd.KeyNoiseIsError | crates/pir/src/bfv.rs:117-124 | the noise of a Galois-key part is exactly the error it was made with, modulo q |
| EndToEnd.EncryptionRoundTrip | crates/pir/src/bfv.rs:72-102 | any message decrypts to itself, for every secret and mask and every error e with 2t·abs(e) + t <= q |
| EndToEnd.QueryPhase | crates/pir/src/bfv.rs:72-87 | an encrypted monomial has as its phase the scaled monomial plus the error |
| EndToEnd.IdealIsHorner | crates/pir/src/base_pir.rs:838-861 | the phase loop on a scaled monomial is the scaled plaintext loop, and the error goes through the same loop |
| EndToEnd.SidePhase | crates/pir/src/base_pir.rs:819-862 | one loop on an encrypted query decrypts to the scaled plaintext loop plus the accumulated errors |
| EndToEnd.ReplyPhase | crates/pir/src/base_pir.rs:897-1077 | the reply's phase is the scaled plaintext reply plus all errors, modulo q |
| EndToEnd.ShardRoundTrip | crates/pir/src/bfv.rs:90-102 | decrypting a reply gives the requested coefficient plus the carry of an explicit disturbance: right if and only if that carry is a multiple of t |
| EndToEnd.ShardWithError | crates/pir/src/bfv.rs:90-102 | the same for a reply that is off by a further error, such as that of mod-switching |
| Noise.SmallErrorsRetrieve | crates/pir/src/base_pir.rs:485-495 | if the client's errors are below explicit bounds for the shard's size, every coefficient of every entry is retrieved, for every key and all masks |
| Noise.ShortLoopsFit | crates/pir/src/base_pir.rs:485-495 | at rank 2048 and t = 1025 that condition admits key errors of 1 for loops of up to 4 iterations, and not for 8 or more |
| SpecialZn.ReduceStepValue | crates/pir/src/simd_zn.rs:197-200 | a reduction step replaces the quotient by 2^K with its multiple of alpha and keeps the residue |
| SpecialZn.ReduceAfterMulLaw | crates/pir/src/simd_zn.rs:224-230 | every input up to 2^(2K+1) comes out in [0, 2p] with its residue, without losing bits in the 32-bit multiply |
| SpecialZn.ReduceAfterMulBoundIff | crates/pir/src/simd_zn.rs:220-230 | the documented bound p holds for all inputs if and only if alpha is 0 |
| SpecialZn.AbovePStays | crates/pir/src/simd_zn.rs:220-230 | for every other alpha, the input that stays above p: 2^K - 1, or 2^(2K) + 2^K - 1 if alpha is 1 |
| SpecialZn.ReduceFrom2pLaw | crates/pir/src/simd_zn.rs:235-239 | inputs up to 2p come out at most p, with their residue |
| SpecialZn.ReduceFrom4pLaw | crates/pir/src/simd_zn.rs:245-249 | inputs up to 4p come out at most 2p, with their residue |
| SpecialZn.SmallestPositiveLiftLaw | crates/pir/src/simd_zn.rs:251-255 | the lift is the residue itself, also for the representatives p and 2p of zero |
| SpecialZn.FmaLaw | crates/pir/src/simd_zn.rs:313-323 | fma keeps representatives in range and is right modulo p |
| SpecialZn.AddAssign | crates/pir/src/simd_zn.rs:279-285 | in-place addition keeps the range and adds modulo p |
| SpecialZn.SubAssign | crates/pir/src/simd_zn.rs:287-294 | in-place subtraction keeps the range and subtracts modulo p |
| SpecialZn.NegateInplace | crates/pir/src/simd_zn.rs:296-300 | in-place negation keeps the range and negates modulo p |
| SpecialZn.MulAssign | crates/pir/src/simd_zn.rs:302-311 | in-place multiplication keeps the range and multiplies modulo p |
| SpecialZn.SumAll | crates/pir/src/simd_zn.rs:358-376 | a sum of any length is right modulo p and its running value never exceeds what the reduction accepts |
| SpecialZn.Butterfly | crates/pir/src/simd_zn.rs:458-468 | the butterfly maps (x, y) to (x + wy, x - wy) modulo p and keeps both in range |
| SpecialZn.InvButterfly | crates/pir/src/simd_zn.rs:471-481 | the inverse butterfly maps (x, y) to (x + y, w(x - y)) modulo p and keeps both in range |
| SpecialZn.ButterflyRoundTrip | crates/pir/src/simd_zn.rs:455-488 | the inverse butterfly with the inverse twiddle returns (2x, 2y) |
| SpecialZn.CompressLossless | crates/pir/src/simd_zn.rs:124-150 | storing a lane in 32 signed bits is lossless if and only if it is below 2^31, in particular whenever alpha > 0 |
| SpecialZn.CompressLosesTwoP | crates/pir/src/simd_zn.rs:124-150 | with K = 30 and alpha = 0 the representative 2p is lost |
| Wire.Condense | crates/pir/src/pir_wrapper.rs:84-113 | the planes of bytes, half-bytes, quarter-bytes and bits, in that order |
| Wire.Uncondense | crates/pir/src/pir_wrapper.rs:120-158 | the values, in place, and the rest of the stream, or None when it ends too early |
| Wire.ScheduleCovers | crates/pir/src/pir_wrapper.rs:87-110 | the planes of every width cover its bits without gap or overlap |
| Wire.CondenseRoundTrip | crates/pir/src/pir_wrapper.rs:84-158 | values below 2^bits survive, and whatever follows in the stream is left for the next reader |
| Wire.UncondenseRoundTrip | crates/pir/src/pir_wrapper.rs:84-158 | uncondense succeeds if and only if there are count/8·bits bytes, consumes exactly those, and condensing its values gives them back |
| Wire.CondenseLength | crates/pir/src/pir_wrapper.rs:111-111 | the length that the closing debug assertion expects |
| WireLayout.BitLayout | crates/pir/src/pir_wrapper.rs:84-113 | where every bit of every value lies: the section of its plane starts at one eighth of the count in bytes for each lower bit, and the values of a byte follow each other from its high end |
| WireLayout.UncondenseTakes | crates/pir/src/pir_wrapper.rs:120-158 | uncondense succeeds if and only if there are count/8·bits bytes, whatever they are, and leaves exactly what follows them |
| QueryFormat.SectionRoundTrip | crates/pir/src/pir_wrapper.rs:304-315 | one mod-switched, condensed section reads back as the rounded element and leaves the rest of the stream |
| QueryFormat.SectionError | crates/pir/src/bfv.rs:52-69 | a section moves no coefficient by more than q/2^(bits+1) + 1 |
| QueryFormat.WriteQuery | crates/pir/src/pir_wrapper.rs:303-316 | the order of the sections of a query |
| QueryFormat.QueryRoundTrip | crates/pir/src/pir_wrapper.rs:370-384 | a server that expects the client's conjugates reads every section where the client wrote it |
| QueryFormat.QueryLength | crates/pir/src/pir_wrapper.rs:303-316 | the exact length of a query for each combination of conjugates |
| QueryFormat.QueryLayout | crates/pir/src/pir_wrapper.rs:303-316 | the offset of every section of a query, with and without conjugates |
| QueryFormat.QueryReadable | crates/pir/src/pir_wrapper.rs:370-384 | a query can be read if and only if it has 168 bits a coefficient and 34 more for each conjugate |
| QueryFormat.ReplyRoundTrip | crates/pir/src/pir_wrapper.rs:401-437 | the ciphertexts of a reply read back one after the other |
| QueryFormat.ReplyLayout | crates/pir/src/pir_wrapper.rs:401-407 | the offsets of both halves of every ciphertext of a reply |
| QueryFormat.ReplyReadable | crates/pir/src/pir_wrapper.rs:434-437 | a reply can be read if and only if it has 29 bits a coefficient for each ciphertext |
| ReceivedQuery.RoundedEncryption | crates/pir/src/pir_wrapper.rs:307-314 | a mod-switched encryption is an encryption of the same message whose error has moved by the rounding, modulo q |
| ReceivedQuery.RoundedKeyPart | crates/pir/src/pir_wrapper.rs:304-306 | the same for a part of the Galois key |
| ReceivedQuery.ReplyToReceived | crates/pir/src/pir_wrapper.rs:370-384 | a shard answers a query that went over the wire exactly as it would answer the client with the moved errors |
| ReceivedQuery.ArrivedErrors | crates/pir/src/bfv.rs:52-69 | the wire adds at most 1 to each error of the key and at most 65525 to each error of the query |
| ReceivedQuery.DatabaseServes | crates/pir/src/base_pir.rs:897-1077 | both halves of a reply as the protocol uses them are those that the database class computes, for loop lengths above 1 |
| Shape.ShardBound | crates/pir/src/pir_wrapper.rs:166-241 | for 1 to N^2 entries the assertion on the number of shards never fires |
| Shape.SecondaryFits | crates/pir/src/pir_wrapper.rs:166-174 | the secondary group is one the constructors accept, has an even loop length, and holds 8·shards but not 16·shards entries |
| Shape.PrimaryFits | crates/pir/src/pir_wrapper.rs:219-230 | the primary group is accepted, has an even loop length, and needs conjugates exactly above N^2/16 entries |
| Shape.ShapesAgree | crates/pir/src/pir_wrapper.rs:219-241 | the server's choice from its fleet equals the client's choice from the entry count, and conjugates are sent exactly above N^2/16 and N^2/2 entries |
| Shape.SlotInShape | crates/dns-over-pir/src/dns/bucket.rs:190-197 | every slot meets the assertions of enc_double_pir, lies in an existing shard and determines its position |
| Shape.CandidatesFillShards | crates/dns-over-pir/src/dns/server.rs:390-398 | the candidate sizes start at 8192, grow by exactly one shard each time, end at N^2, and each fills its shards completely |
| Shape.CandidatesAreFull | crates/dns-over-pir/src/dns/server.rs:390-398 | the candidates are all sizes up to N^2 whose shards are full, and no others |
| Shape.PickNumEntries | crates/dns-over-pir/src/dns/server.rs:390-430 | the smallest size with full shards that passes the load test, or N^2 if none does |
| DoublePir.EncodeCiphertextPlaintext | crates/pir/src/double_pir.rs:70-81 | three base-1025 digits with nothing left over, for every pair in range |
| DoublePir.DecodeCiphertextPlaintext | crates/pir/src/double_pir.rs:83-93 | the number the digits stand for, split again, or None where the assertion fails |
| DoublePir.DigitsRoundTrip | crates/pir/src/double_pir.rs:70-93 | every pair of a 17-bit and a 12-bit coefficient survives |
| DoublePir.DigitsValue | crates/pir/src/double_pir.rs:70-81 | the digits, lowest first, are those of a·2^12 + b to the base 1025 |
| DoublePir.DecodesIff | crates/pir/src/double_pir.rs:83-93 | digits decode if and only if the number they stand for is below 2^29 |
| DoublePir.DigitsUnique | crates/pir/src/double_pir.rs:70-93 | digits that decode at all are those of the pair they decode to |
| DoublePir.LaneSelection | crates/pir/src/double_pir.rs:157-213 | the lane of a batch slot and part holds, at the client's position, that part of the answer of the database and lane the client means, whatever the other slot contains |
| DoublePir.RestIsZero | crates/pir/src/double_pir.rs:196-205 | everything else in the second-level database is zero: the unused lanes, the positions behind the databases, the slots without a query |
| DoublePir.ReceivedEntry | crates/pir/src/double_pir.rs:303-316 | a mod-switched reply decrypts to the entry exactly where it is undisturbed |
| DoublePir.PartsDecode | crates/pir/src/double_pir.rs:303-316 | parts that hold the digits of a mod-switched ciphertext decrypt to that ciphertext's plaintext |
| DoublePir.DoubleRetrieval | crates/pir/src/double_pir.rs:126-227 | where the second level is undisturbed the client obtains the decrypted first-level reply of the target shard, and the entry itself if and only if that reply is undisturbed |
| DoublePir.TargetEntry | crates/pir/src/double_pir.rs:268-269 | the client's positions are those of entry primary_idx of database secondary_idx |
| Protocol.SlotsAnswered | crates/pir/src/pir_wrapper.rs:346-412 | the batch as a whole fails if and only if some query is too short; otherwise exactly the slots with a query get a reply |
| Protocol.BatchIsValid | crates/pir/src/double_pir.rs:157-213 | what the server builds from the queries it received meets every condition of the two-level theorem, whatever the other slot holds |
| Protocol.Exchange | crates/pir/src/pir_wrapper.rs:346-437 | from the bytes of a query to the decrypted reply: the client obtains the result of the two-level retrieval for the client whose errors have moved, and exactly the slots with a query are answered |
| Protocol.ExchangeRetrieves | crates/pir/src/pir_wrapper.rs:346-437 | over the wire, and where the second level is undisturbed, a coefficient is that of the requested entry if and only if the first level's reply is undisturbed there |
| Protocol.ShortReply | crates/pir/src/pir_wrapper.rs:434-437 | a reply too short for three ciphertexts is not read |
| Guarantee.SmallErrorsExchange | crates/pir/src/pir_wrapper.rs:346-437 | if errors, secret and loop lengths satisfy an explicit inequality, every coefficient of every entry arrives over the wire, for every key, all masks and any other query in the batch |
| Bucket.TagRoundTrip | crates/dns-over-pir/src/dns/bucket.rs:201-213 | discriminator and kind survive the two-byte tag |
| Bucket.AppendEntry | crates/dns-over-pir/src/dns/bucket.rs:347-393 | refuses exactly what does not fit and leaves the bucket alone then; else the layout gains the entry, and what follows stays zero |
| Bucket.AppendKeepsLayout | crates/dns-over-pir/src/dns/bucket.rs:347-393 | salt, count and earlier entries are untouched, and the count field cannot overflow |
| Bucket.DecodeBucketMatching | crates/dns-over-pir/src/dns/bucket.rs:420-463 | walks the entries, stopping at corrupt ones, and collects those under one discriminator |
| Bucket.ReadBucket | crates/dns-over-pir/src/dns/bucket.rs:236-260 | a reader gets the salt back, and under each discriminator exactly the records stored with it, in order |
| BucketFormat.BucketLayout | crates/dns-over-pir/src/dns/bucket.rs:201-260 | the bytes at their offsets: salt in bytes 0 to 3, count in 4 and 5, then entry after entry the discriminator in 14 bits, the kind in two, and the address |
| BucketFormat.ReadAny | crates/dns-over-pir/src/dns/bucket.rs:420-463 | from any bucket, however corrupt, a reader takes the matching records of the entries up to the first that does not fit |
| BucketFormat.MatchingPicks | crates/dns-over-pir/src/dns/bucket.rs:440-458 | matching records are appended entry by entry, in order |
| BucketFormat.EntriesExist | crates/dns-over-pir/src/dns/bucket.rs:420-463 | every bucket of bytes has such entries |
| Bucket.PackBytesIntoCoeffs | crates/dns-over-pir/src/dns/bucket.rs:289-303 | five bytes to four coefficients, group by group |
| Bucket.UnpackCoeffsIntoBytes | crates/dns-over-pir/src/dns/bucket.rs:271-285 | four coefficients to five bytes, group by group |
| Bucket.PackRoundTrip | crates/dns-over-pir/src/dns/bucket.rs:271-303 | every bucket survives the trip through coefficients |
| Bucket.UnpackRoundTrip | crates/dns-over-pir/src/dns/bucket.rs:271-303 | 10-bit coefficients survive the trip through bytes |
| BucketFormat.PackLayout | crates/dns-over-pir/src/dns/bucket.rs:289-303 | every group of four coefficients has the 40 bits of its five bytes, low parts first |
| BucketFormat.UnpackLayout | crates/dns-over-pir/src/dns/bucket.rs:271-285 | the same for unpacking, where only the low ten bits of a coefficient count |
| BucketIndex.LocalQuery | crates/dns-over-pir/src/dns/client.rs:436-452 | a name's IPv4 addresses, IPv6 addresses and, for each name server, its first IPv4 address in the zone, else its first IPv6 address, else 192.0.2.h with h its bytes to the base 31 modulo 256; nothing for an unknown name |
| BucketIndex.PlainAnswerUnique | crates/dns-over-pir/src/dns/client.rs:436-452 | there is but one such answer |
| Zones.HostHashIs | crates/dns-over-pir/src/dns/zone.rs:268-276 | the 32-bit hash of a host is its bytes to the base 31, as far as the last byte is concerned |
| BucketIndex.FindBucketSalt | crates/dns-over-pir/src/dns/server.rs:605-625 | a salt if and only if one of the 65536 separates the 14-bit discriminators; then the first of them, and the number of attempts |
| BucketIndex.FillBucket | crates/dns-over-pir/src/dns/server.rs:505-575 | a bucket is built if and only if one of the 65536 salts separates its names and header and records take at most 2560 bytes; then it holds their entries under the first such salt, and zeros |
| BucketIndex.SecondSalt | crates/dns-over-pir/src/dns/server.rs:605-625 | two names that collide under salt 0 but not under salt 1 are served under salt 1 |
| BucketIndex.GroupNames | crates/dns-over-pir/src/dns/server.rs:478-486 | every name is put into the list of its slot, which exists |
| BucketIndex.NamesInOrder | crates/dns-over-pir/src/dns/server.rs:478-486 | the names of a bucket keep the order of the enumeration |
| BucketIndex.BuildBuckets | crates/dns-over-pir/src/dns/server.rs:464-590 | succeeds if and only if every bucket can be built; then every bucket serves its names, for all hash functions and enumeration orders |
| BucketIndex.MatchingName | crates/dns-over-pir/src/dns/server.rs:605-625 | a salt that separates the names of a bucket keeps the records of each under its own discriminator |
| BucketIndex.ClientQuery | crates/dns-over-pir/src/dns/client.rs:563-599 | the client's steps from the name to the matching entries |
| BucketIndex.IndexAgrees | crates/dns-over-pir/src/dns/client.rs:563-599 | for every name in the zone the client reads exactly the list of the plain lookup, in the same order |
| BucketIndex.SaltsDiffer | crates/dns-over-pir/src/dns/server.rs:85-91 | different attempts below 2^64 use different global salts |
| BucketIndex.TrySalts | crates/dns-over-pir/src/dns/server.rs:97-131 | the index under the first global salt that works, reported with it; fails only if none of the attempts works |
| DnsService.PackShards | crates/dns-over-pir/src/dns/server.rs:721-726 | every bucket is handed to the PIR engine as its packed coefficients |
| DnsService.Serve | crates/dns-over-pir/src/dns/server.rs:464-590 | from the text of a zone to the client's answer: an index is built unless every attempt fails, and then every name in the zone is answered like in the plain lookup |
| PrivateLookup.RequestFits | crates/dns-over-pir/src/dns/client.rs:571-580 | the position of every name's slot is one that the client may ask the server for |
| PrivateLookup.PrivateLookup | crates/dns-over-pir/src/dns/client.rs:563-599 | for every name in the zone, the records that the client reads out of the bytes of the reply are those of the plain lookup, whenever neither level's reply is disturbed |
| ZoneNames.CommonSuffixStr | crates/dns-over-pir/src/dns/zone.rs:251-263 | the labels both names share from the right |
| ZoneNames.SubNameIsPrefix | crates/dns-over-pir/src/dns/zone.rs:237-247 | the suffix test on characters is the comparison of labels |
| ZoneNames.CommonSuffixIsMeet | crates/dns-over-pir/src/dns/zone.rs:237-263 | the common suffix is the longest dot-bounded suffix of both names |
| ZoneNames.LongestUnique | crates/dns-over-pir/src/dns/zone.rs:184-195 | there is only one longest common suffix, so the order of the lines does not matter |
| ZoneNames.NextSuffixTracks | crates/dns-over-pir/src/dns/zone.rs:184-195 | updating the running suffix, with its fast path, keeps it the longest one of all names so far |
| ZoneText.LineRoundTrip | crates/dns-over-pir/src/dns/zone.rs:97-140 | parsing a printed line gives exactly the record it was printed from |
| LineFormat.LineRead | crates/dns-over-pir/src/dns/zone.rs:94-177 | every line, whatever its case, its white space and its optional times to live and classes: comments say nothing, any other line gives its canonical name the record that type and data say, or a known name if the address does not parse, or nothing for another type or too few fields |
| LineFormat.WhiteLine | crates/dns-over-pir/src/dns/zone.rs:91-96 | a line of white space says nothing |
| LineFormat.EveryLine | crates/dns-over-pir/src/dns/zone.rs:91-103 | there is no other kind of line |
| LineFormat.CanonicalUnique | crates/dns-over-pir/src/dns/bucket.rs:144-146 | there is but one canonical form of a name: without trailing dots, in lower case |
| LineFormat.LinesOf | crates/dns-over-pir/src/dns/zone.rs:81-90 | the lines are those between line feeds; put together again they give the text, but for a line feed at its end |
| LineFormat.LinePrinted | crates/dns-over-pir/src/dns/zone.rs:294-314 | the line written for a record of each type |
| LineFormat.RecordsComeFrom | crates/dns-over-pir/src/dns/zone.rs:131-172 | the records of a name and type are exactly those that the lines give it, in the order of the lines |
| LineFormat.NamesComeFrom | crates/dns-over-pir/src/dns/zone.rs:131-141 | a name is known if and only if a line of a known type with data starts with it |
| LineFormat.ServersListed | crates/dns-over-pir/src/dns/zone.rs:157-171 | the pool has exactly the hosts that some line lists as name servers, each once |
| LineFormat.ServersInOrder | crates/dns-over-pir/src/dns/zone.rs:157-171 | in the order of the first line for each |
| ZoneText.ParsedCanonical | crates/dns-over-pir/src/dns/zone.rs:97-140 | whatever the line, names and hosts taken from it are canonical and can be printed again |
| ZoneText.ZoneNameIsLongest | crates/dns-over-pir/src/dns/zone.rs:175-196 | the zone name is the longest dot-bounded suffix of the names that have records, in whatever order the lines come |
| LineFormat.ZoneNameCases | crates/dns-over-pir/src/dns/zone.rs:184-200 | a zone without records has the empty name; any other is named by the longest suffix of its names with records |
| ZoneText.TextRoundTrip | crates/dns-over-pir/src/dns/zone.rs:278-318 | printing a parsed zone in any order of its names and parsing the text gives the same lists for every name with a record, and the same zone name |
| ZoneFile.Parse | crates/dns-over-pir/src/dns/zone.rs:73-208 | the maps, the interned pool and the running suffix of the parser stand for the zone that the lines describe; the pool is that of the listed hosts, no host twice, and all addresses are proper |
| ZoneFile.SerializeBounded | crates/dns-over-pir/src/dns/zone.rs:291-318 | Ok with the whole text if and only if its UTF-8 bytes fit the cap; otherwise their number after the first line with which they do not |
| ZoneFile.Serialize | crates/dns-over-pir/src/dns/zone.rs:291-318 | the same with the names in the order of their bytes |
| ZoneFile.SortedUnique | crates/dns-over-pir/src/dns/zone.rs:292-293 | there is but one such order |
| Utf8.EncodeRoundTrip | crates/dns-over-pir/src/dns/zone.rs:297-301 | the bytes of a text, by section 3 of RFC 3629, give the text back |
| Utf8.AsciiBytes | crates/dns-over-pir/src/dns/zone.rs:297-301 | an ASCII text has one byte for every character |
| Utf8.CharLength | crates/dns-over-pir/src/dns/zone.rs:297-301 | how many bytes a character takes |
| ZoneFile.PrintAndParse | crates/dns-over-pir/src/dns/zone.rs:278-318 | both together: print under a cap, parse, and compare |

## Left out

- Ntt.Fft: the library FFT is specified as evaluation at the powers of its root, not modelled stage by stage; the butterflies it is built from are in `SpecialZn`.
- SpecialZn.Butterfly: the eight lanes of a vector are one generic lane; alignment and the transmutes between vector types are not modelled.
- SpecialZn.MulAssign: the additive and multiplicative laws are stated modulo p and in range, not as equality of the chosen representative.
- PerformPir.PerformPirSplit: loop lengths are powers of two, the only ones that index groups have; for other odd lengths the conjugate sums could wrap.
- OnlineLoop.MainPirLoop: the sixteen-fold unrolling with preloaded registers is a plain loop over the slots.
- Offline.PreprocessLoop: the slabs are lists that grow by one iteration at a time, not preallocated buffers written at an offset.
- Database.SetTransformedEntries: the matrix is a list of columns; only the one-dimensional transforms on its rows and columns are in place.
- PirDatabase.Db.SetDb: one lane of the eight, so the count of entries is the order of the group (the comment of `set_db` gives the same number, while the code asserts eight times as many, crates/pir/src/base_pir.rs:628-693), with the a-halves expanded from the seeds as given constants; generation of random masks, keys and errors is not modelled.
- PirDatabase.Retrieve: the condition for a correct answer is a property of the errors; how likely Gaussian errors meet it is not stated.
- Noise.SmallErrorsRetrieve: the bound is a worst case over all errors of a given size, and admits loops of at most 4 iterations at rank 2048 (`Noise.ShortLoopsFit`); the deployed shapes rely on typical errors instead.
- Protocol.Exchange: all shards of the server have the same index group, plaintext modulus and masks, as the program's own fleets do; where the program panics on a query that ends too early, the result is None.
- DoublePir.DoubleRetrieval: each level is the single-lane reply of `EndToEnd`; the thread-local buffer that the second level reuses is not modelled.
- Wire.Condense: lengths that are not a multiple of eight are excluded, as the padding expression underflows for them.
- Bucket.AppendEntry: the entry-count limit of 65535 is shown to be unreachable within 2560 bytes rather than exercised.
- Bucket.PackTag: the bitwise or of disjoint fields is written as their sum.
- BucketIndex.BuildBuckets: the running totals, maxima and messages are left out, as they do not influence the result; the reason for a failure is not reported.
- BucketIndex.TrySalts: the builder is `build_buckets` itself instead of an arbitrary closure.
- BucketIndex.IndexAgrees: exact answers are claimed for names in the zone only; another name may share a discriminator.
- Shape.PickNumEntries: the floating-point load estimate is an arbitrary test.
- ZoneText.LineRoundTrip: printing and parsing of addresses is an arbitrary codec whose parser inverts its printer on proper addresses; lines are lists of characters.
- DnsService.Serve: retrieval between server and client is ideal here; `PrivateLookup` states the same lookup over the encrypted exchange, under the condition that no reply is disturbed.
- ZoneFile.Parse: the limit of 2^32 distinct hosts, the warnings and read errors are left out.
- The quality of `mix64`: hash functions are arbitrary.
- Framing, sockets, files, compression of dumps, command lines, caches, timing and thread pools: no functional content.
- `one_hop` and `resolve_iteratively` in the client: a short suffix walk and a capped loop, which would add only easy members.
