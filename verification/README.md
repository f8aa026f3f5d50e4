# Verified model of private search over encrypted clusters

The system answers a search query without learning it. A client encrypts its embedding and a
selector for one cluster of documents; the server scores every cluster, keeps only the selected
one under encryption and sends the scores back; the client decodes them and picks the best
document. Queries and evaluation keys are sent seed-compressed, as bit-packed streams or in a
length-prefixed format, and the plaintext space may be split by the CRT over two component rings.

This project models that path and proves that it computes what it is for:

* **Bit-packed streams** (`Bits`, `BitStream`, `StreamCodecs`, `StreamPacking`, `StreamTheorems`,
  `StreamLayout`). The writer and reader with their carry accumulators refine bit strings. Each of the
  three stream layouts is a bijection between canonical values of the right shape and the byte strings
  its reader accepts, and every bit of a stream is accounted for by arithmetic alone.
* **Seeded streams** (`LittleEndian`, `SeededDistribution`, `SeededQueries`, `SeededQueryReplay`,
  `QueryReplayTheorems`, `SeededEvalKeys`, `KeyReplayTheorems`). Draws are a function of the
  keystream alone, whatever the refills; rejection is unbiased; what the server replays, however
  the draws of its rings interleave, is what the client drew with its rings interleaved per value,
  also through the packed streams.
* **CRT, signed decoding, scoring** (`Crt`, `DbPolynomial`, `Scoring`, `ParallelScoring`,
  `EndToEnd`). The parallel scoring loop, under every interleaving of its iterations' steps, and
  the sequential loop nest compute the same sums; recomposed and centred they are the exact
  signed dot products with the desired cluster.
* **The whole query** (`QueryModulus`, `PrivateQuery`). All of the above composed: encryption,
  packing, replay, scoring, packing back, decrypting, decoding; and exactly when a query sampled as
  the benchmark does decodes right.
* **Length-prefixed format** (`WireCodecs`, `WireLayout`, `WireProtocol`, `WireTheorems`): exact
  parsing, and every byte of a message by its place.
* **Sessions and dispatch** (`Sessions`, `Dispatch`): a store with lazy eviction refines the
  history of what was done to it, over whole runs of requests.
* **Database and best match** (`ServerDb`, `BestMatch`, `PrivateSearch`), and the same over a running
  server (`QueryProcessing`, `OnlineSearch`): a client registers, queries among any other requests
  in the length-prefixed format, and reads the best match off the reply.
* **Costs and parameters** (`CommunicationCosts`, `Parameters`).

`MachineInts`, `Codecs`, `Ragged`, `Schedules` and `Messages` hold what the others share. `Rem` is the
truncating remainder of C++, so the sign corrections of the sources are real branches here.

## How the sources are read

* Homomorphic encryption is an ideal one: a ciphertext of component ring k is its plaintext's
  coefficients modulo p_k. Multiplying by a database polynomial uses its coefficients as centred
  residues modulo q, because `build_polynomial_from_raw_values` reduces modulo q and ignores its
  `modulus` argument. In `PrivateQuery` the ciphertexts are the real pairs (a, b), and the
  scheme is a parameter whose decryption recovers what was encrypted and looks at b modulo q only;
  `NoiselessScheme` shows that such a scheme exists.
* The AES-128 counter-mode keystream is a parameter, one byte per index. `next` needs that an
  accepted word eventually comes (`Productive`); the sources' loop relies on the same.
* An encryption draws its mask in index order from the distribution installed in the key, a gadget
  encryption digit by digit, and the library builds the automorphism levels before the sk^2 rows.
  The number of the encryption stands for its noise. The key's own distribution, which is put back
  at the end, is modelled as an instance of the same class.
* Fresh seeds, the clock and the digit counts of the gadgets are parameters. So are, in `Dispatch`,
  rebuilding key material and answering a query; `OnlineSearch` fixes them to what
  `ReconstructPublicMaterial` and `ProcessQuery` are proved to do.
* An exception becomes a `None`, a false or a null result. Writers and readers that failed are not
  used again.
* Loops of one function are sometimes split over several methods.
* q exceeds twice the greatest embedding value (part of `Ready`), as lifting database coefficients
  from residues modulo q needs.
* Integers are unbounded except where a width matters: `int64` and `uint64` are checked in the CRT,
  the embedding values, the raw words and the two's complement of the length-prefixed format.
  Elsewhere the sources' parameters are assumed small enough not to overflow.

## Where the code differs from what one may expect

* `LimitIsMultiple`: the rejection limit is taken from 2^64 - 1, so a range dividing 2^64 loses a
  whole range of words although none would have to be rejected. The draw stays unbiased.
* The range of a draw is [0, q], both ends included.
* `OverflowExact`: for an even modulus the overflow predicate also turns away the one worst case
  equal to half the modulus, which would survive.
* `QueryModulusMatters`, `AlwaysRightIff`, `NegativeQueryFails`: with two rings an embedding value
  must be reduced modulo the combined modulus, as the scoring test does. The benchmark samples its
  query with `sample_signed_mod_value`, modulo the plaintext modulus. A slot then decodes right
  exactly when the plaintext modulus times the sum of the column over the query's negative
  coordinates is a multiple of the combined modulus; every database decodes right exactly when the
  query has no negative value or the moduli are equal. With moduli 11 and 10 and plaintext modulus
  71, the query [-1] against the document [-1] decodes to 40 instead of 1.
* The benchmark recomposes its results and drops them; centring them is what the scoring test does.
* `QueryMessageRoundTrip`, `RegistrationRoundTrip`: a vector of 2^32 or more entries is written
  with a wrapped count; round trips hold exactly when all counts fit. Trailing bytes are ignored.
* `BestIsADocument`: padding slots score 0 and take part in the search for the best match. When
  every document of a padded cluster scores below 0, a padding slot is reported;
  `PaddingReported` is such an input.
* include/params.hpp speaks of integer divisions for the cluster size and the clusters per server;
  the code rounds up, and so does the model.
* `DeriveDependentParameters` assigns the cluster counts before it rejects the component rings.
* A query that fails while being processed has already refreshed its session.

## Model

| member | source | states |
|---|---|---|
| BitStream.BitPacker.Put | src/stream_packing.cpp:132-141 | Appends exactly the low `width` bits to the bit string written so far, for widths 1 to 63; afterwards fewer than 8 bits are pending and the accumulator is below 2^nbits (on the way it holds at most 70 bits, an invariant of the loop) |
| BitStream.BitPacker.PutBytes | src/stream_packing.cpp:143-148 | Appends whole bytes on a byte boundary, and refuses exactly off one |
| BitStream.BitPacker.Finish | src/stream_packing.cpp:150-157 | Hands over the bits written so far padded with zeros to whole bytes, and leaves an empty writer |
| BitStream.BitUnpacker.Get | src/stream_packing.cpp:159-172 | For widths up to 64: fails exactly when fewer than `width` bits are left; otherwise takes those bits, and no others, off the remaining string (the accumulator holds fewer than `width` + 8 bits, an invariant of the loop) |
| BitStream.BitUnpacker.GetBytes | src/stream_packing.cpp:174-185 | Takes whole bytes; refuses exactly off a byte boundary or past the end |
| BitStream.BitUnpacker.ExpectEnd | src/stream_packing.cpp:187-194 | Passes exactly when less than a byte is left and all of it is zero |
| BitStream.OrAppends | src/stream_packing.cpp:132-135 | Shifting and ORing a value into the accumulator concatenates bit strings and stays within the accumulator |
| StreamTheorems.PutAll | src/stream_packing.cpp:132-157 | Any values at any mix of widths become their concatenated bits, zero-padded, in ceil(total bits / 8) bytes |
| StreamTheorems.GetAll | src/stream_packing.cpp:159-194 | Decodes a stream if and only if it is what some values of those widths are packed to |
| StreamTheorems.PaddedInjective | include/stream_packing.hpp:26-29 | Different values of the same widths never share a stream |
| StreamTheorems.BitCodecRoundTrip | src/stream_packing.cpp:132-194 | Putting everything, finishing and getting everything back returns the same values and passes the end check |
| MachineInts.QuotAndRem | include/crt.hpp:35-38 | What C++ promises of `/` and `%`: quotient times divisor plus remainder is the dividend, and the remainder is smaller than the divisor and has the sign of the dividend |
| Bits.WordOperators | src/stream_packing.cpp:134-169 | Shifting left multiplies by a power of two, shifting right divides by it, masking is the remainder |
| Bits.BitOrAt | src/stream_packing.cpp:134-164 | A bit of an OR is set exactly when it is set in either operand |
| Bits.ByteBitAt | include/stream_packing.hpp:26-27 | The bit string of a byte string has bit b of byte i in place 8i + b |
| StreamPacking.Canonical | src/stream_packing.cpp:19-25 | The one residue in [0, q) congruent to a signed value; residues are fixed points |
| StreamPacking.CoefficientBitWidth | src/stream_packing.cpp:70-80 | 2^(bits-1) < q <= 2^bits, for every q >= 2; fails exactly below |
| StreamPacking.AutomorphismLevels | src/stream_packing.cpp:91-94 | The floor of log2 n |
| StreamPacking.DeriveWireShape | src/stream_packing.cpp:82-99 | Derived parameters give a valid shape whenever q >= 2, so that widths never exceed 62 bits |
| StreamPacking.WriteCoefficients | src/stream_packing.cpp:46-56 | Refuses exactly a wrong count; otherwise appends, `bits` bits each and one after another, the binary digits of v % q for every value v |
| StreamPacking.ReadCoefficient | src/stream_packing.cpp:28-35 | Accepts exactly when the bits left begin with the binary digits of some v < q, and returns that v |
| StreamPacking.ReadCoefficients | src/stream_packing.cpp:58-64 | Agrees with the reference decoder of a row, on success and on failure |
| StreamPacking.PackPublicMaterial | src/stream_packing.cpp:198-222 | Succeeds exactly for material of the parameters' shape, with the reference stream of the keys layout |
| StreamPacking.UnpackPublicMaterial | src/stream_packing.cpp:224-246 | Agrees with the reference reader of the keys layout on every byte string |
| StreamPacking.PackQueryRing | src/stream_packing.cpp:250-276 | Succeeds exactly for an existing ring of the right shape; the selector goes into ring 0's stream only |
| StreamPacking.PackQuery | src/stream_packing.cpp:278-285 | One reference stream per ring, exactly when all rings have the right shape |
| StreamPacking.UnpackQuery | src/stream_packing.cpp:287-317 | Agrees with the reference reader on every list of byte strings |
| StreamPacking.PackResponseRing | src/stream_packing.cpp:321-341 | Succeeds exactly for the right number of ciphertexts, with the reference stream |
| StreamPacking.UnpackResponseRing | src/stream_packing.cpp:343-364 | Agrees with the reference reader of a response on every byte string |
| StreamCodecs.AcceptIff | include/stream_packing.hpp:20-29 | A stream is accepted as x if and only if it is the stream of x: wrong lengths, coefficients from q up and set padding bits never get through |
| StreamTheorems.KeysRoundTrip | src/stream_packing.cpp:101-105 | Packed keys have exactly the predicted size and unpack to themselves made canonical |
| StreamTheorems.KeysBijection | src/stream_packing.cpp:198-246 | Unpacking yields m if and only if m is canonical, of the right shape, and the stream is m packed |
| StreamTheorems.QueryRoundTrip | src/stream_packing.cpp:107-114 | Every ring's stream has the predicted size, and the query unpacks to itself made canonical |
| StreamTheorems.QueryBijection | src/stream_packing.cpp:250-317 | The same equivalence for queries over one or two rings |
| StreamTheorems.ResponseRoundTrip | src/stream_packing.cpp:116-120 | A response has the predicted size and unpacks to itself made canonical |
| StreamTheorems.ResponseBijection | src/stream_packing.cpp:321-364 | The same equivalence for responses |
| StreamLayout.KeysShapeSpelledOut | src/stream_packing.cpp:198-222 | Packed are exactly keys with a seed of 16 bytes, the right numbers of levels and digits, and n coefficients in every row |
| StreamLayout.KeysSpelledOut | include/stream_packing.hpp:31-34 | The stream of keys: 16 bytes of seed; at bit 128 + ((v * digits + d) * n + j) * bits the binary digits of coefficient j of digit d of level v modulo q; behind all levels the sk^2 digits likewise; fewer than 8 zero bits at the end |
| StreamLayout.RingShapeSpelledOut | src/stream_packing.cpp:250-276 | Packed are exactly existing rings of queries with a seed of 16 bytes and the right lengths, the selector counting in ring 0 only |
| StreamLayout.QueryRingSpelledOut | include/stream_packing.hpp:36-40 | The stream of a ring: 16 bytes of seed, the embedding coefficients modulo q from bit 128 on, in ring 0 digit d of cluster c in place embeddingLength + c * digits + d, then padding |
| StreamLayout.ResponseSpelledOut | include/stream_packing.hpp:42-43 | The stream of a response: of ciphertext s, coefficient j of a modulo q in place 2 * s * n + j and of b in place (2 * s + 1) * n + j, then padding |
| SeededDistribution.LimitIsMultiple | src/seeded_distribution.cpp:14-20 | The limit is the greatest multiple of the range up to 2^64 - 1, is at least 2^63, and at most `range` words are rejected: exactly so many when the range divides 2^64 |
| SeededDistribution.UniformPreimages | src/seeded_distribution.cpp:72-82 | Every value v of [from, to] is from + raw % range for the same number, UINT64_MAX / range, of words below the limit |
| SeededDistribution.DrawOfEmitted | src/seeded_distribution.cpp:72-82 | Draw number k does not depend on how many words have been consumed |
| SeededDistribution.DrawIsWord | src/seeded_distribution.cpp:72-82 | Draw k minus from is the remainder, modulo to - from + 1, of the one kept word with k kept words before it; kept are the words below the greatest multiple of the range |
| SeededDistribution.SeededUniformDistribution.Create | src/seeded_distribution.cpp:11-38 | Fails exactly for an empty range; otherwise nothing of the keystream is consumed yet |
| SeededDistribution.SeededUniformDistribution.RefillBuffer | src/seeded_distribution.cpp:46-60 | The buffer holds the keystream's next chunk and the words handed out stay the same |
| SeededDistribution.SeededUniformDistribution.NextRawU64 | src/seeded_distribution.cpp:62-70 | The k-th word has keystream bytes 8k to 8k+7 as its base-256 digits, least significant first, across any refills |
| SeededDistribution.SeededUniformDistribution.Next | src/seeded_distribution.cpp:72-82 | Passes over exactly the next words that are not below the greatest multiple of the range; the value minus from is the remainder of the first that is; and it is the next draw of the reference sequence |
| SeededQueries.RingDraw | src/seeded_query.cpp:41 | Draws of a ring are remainders modulo q + 1 of the kept words of its seed's keystream, and lie in [0, q] |
| SeededQueries.RingDrawsCover | src/seeded_query.cpp:41 | Both ends of [0, q] included, every value is drawn from the same number of words, and from at least one |
| SeededQueries.LweGadgetKey.GadgetEncrypt | src/seeded_query.cpp:81-85 | A gadget encryption takes one mask per digit from where the stream stands |
| SeededQueries.EncryptValue | src/seeded_query.cpp:57-74 | One embedding value: each ring's component under its own encoding, masked from its own stream, all other streams untouched |
| SeededQueries.BuildSeededQuery | src/seeded_query.cpp:23-89 | Ciphertext (k, j) is masked by slice j of ring k's keystream and the selector by the slices behind ring 0's embedding, though the rings are interleaved; the key's distribution is restored; fails exactly for a context with other rings |
| SeededQueries.EmbeddingSpelledOut | src/seeded_query.cpp:57-74 | The b of value j in ring k is the encryption, with draws j * dim, ... of seed k's stream as its mask, of the ring's encoding of the value itself or of its remainder modulo p1 or p1 - 1 |
| SeededQueries.SelectorSpelledOut | src/seeded_query.cpp:79-85 | The b of digit d of cluster c encrypts 1 for the desired cluster and 0 for others, with the draws of seed 0's stream behind the embedding's and all digits' before it |
| SeededQueryReplay.ReconstructLwe | src/seeded_distribution.cpp:92-100 | The mask is the stream's next `dim` draws, the rest is the received b |
| SeededQueryReplay.ReconstructQuery | src/seeded_query.cpp:91-141 | Under every interleaving of the rings' single draws, each row replays its ring's stream from the start and ragged selector rows go on where ring 0's embedding ended; fails exactly for a wrong number of rings |
| SeededQueryReplay.EmbeddingReplaySpelledOut | src/seeded_query.cpp:119-125 | Rebuilt ciphertext j of ring k has the received b and draws j * dim, ... on [0, q] of seed k's stream |
| SeededQueryReplay.SelectorReplaySpelledOut | src/seeded_query.cpp:130-138 | Rebuilt digit d of cluster c has the received b and the draws of seed 0's stream behind ring 0's embedding and all digits before it, for ragged rows |
| SeededQueryReplay.StepRing | src/seeded_query.cpp:119-125 | One step of a ring, a draw or storing a ciphertext with its mask complete, leaves the ring where its stream position says |
| Ragged.UniformRowStart | src/seeded_query.cpp:131-138 | With rows of one length, row v of a table read row after row starts v lengths behind its beginning: so for selector rows, and for levels of keys |
| QueryReplayTheorems.ReplayMatches | src/seeded_query.cpp:45-138 | Whatever representatives of the b-values arrived, the server's masks are the ones the client drew and every b agrees modulo q; if nothing was reduced, the ciphertexts are equal |
| QueryReplayTheorems.SendQuery | benchmarks/benchmark_latency_seeded_parallel.cpp:198-226 | Build, pack, unpack, reconstruct under any interleaving: never fails, and the server ends up with the client's ciphertexts |
| SeededEvalKeys.GenerateClientPublicMaterial | src/key_material.cpp:20-32 | Row d of level v is drawn as row v * digits + d of the stream, and sk^2 behind all levels |
| SeededEvalKeys.BuildSeededPublicMaterial | src/seeded_eval_keys.cpp:33-59 | What is sent is the seed and the b of every row so built; the key's distribution is restored |
| SeededEvalKeys.SentSpelledOut | src/seeded_eval_keys.cpp:33-59 | What is sent of digit d of level v is its b, whose mask is draws (v * digits + d) * n, ... on [0, q]; the sk^2 digits continue behind levels * digits rows |
| SeededEvalKeys.ReconstructPublicMaterial | src/seeded_eval_keys.cpp:61-94 | For levels of any lengths, each starts in the stream where the ones before it end, and sk^2 behind the last |
| SeededEvalKeys.RebuiltSpelledOut | src/seeded_eval_keys.cpp:61-88 | What is rebuilt has the first n received coefficients as b and the matching draws as a, for ragged levels |
| SeededEvalKeys.RebuiltIsSent | src/seeded_eval_keys.cpp:61-88 | Whatever is rebuilt from what was sent of some keys is those keys |
| SeededEvalKeys.KeyReplay | src/seeded_eval_keys.cpp:33-94 | The keys the server rebuilds are the client's, row for row and coefficient for coefficient |
| KeyReplayTheorems.SendKeys | src/stream_packing.cpp:198-246 | Build, pack, unpack, reconstruct: never fails; every a equals the client's, every b is the client's modulo q |
| Crt.RecomposeBounds | include/crt.hpp:32-40 | The sign correction yields (r2 - r1) modulo p2, and neither the product nor the sum leaves 64 bits |
| Crt.ComponentsAreResidues | include/crt.hpp:21-27 | Ring 0 gets the residue modulo p1 and ring 1 that modulo p1 - 1; a single ring gets the value itself |
| Crt.RecomposeResidues | include/crt.hpp:29-40 | Recomposing lands in the combined range and has the two given residues; splitting gives them back |
| Crt.ResiduesDetermine | include/crt.hpp:21-48 | Consecutive moduli are coprime: two residues determine a value below their product |
| Crt.SplitRecompose | include/crt.hpp:21-40 | Recomposing undoes splitting on [0, p1 * (p1 - 1)) for every p1 >= 2 |
| Crt.RecomposeOfResidues | include/crt.hpp:29-40 | Recomposing the residues of any integer is reducing it modulo the combined modulus |
| Crt.RingIsomorphism | include/crt.hpp:21-48 | Sums of products computed in each ring by itself recompose to the true sum of products modulo the combined modulus |
| DbPolynomial.PrecisionRange | src/db_polynomial.cpp:7-17 | The values of precision b are exactly the b-bit two's complement numbers, 2^b of them, from -2^(b-1) to 2^(b-1) - 1 |
| DbPolynomial.ReduceModIsResidue | src/db_polynomial.cpp:43-49 | The corrected C++ remainder is the mathematical residue |
| DbPolynomial.SurvivesIff | src/db_polynomial.cpp:43-56 | A value survives reduction and centring if and only if it lies in the centred range of the modulus |
| DbPolynomial.DotProductBounds | src/db_polynomial.cpp:31-41 | No in-range dot product exceeds the worst case upwards, nor the worst case less length * maximum downwards |
| DbPolynomial.OverflowThreshold | src/db_polynomial.cpp:31-41 | The overflow predicate compares 2^(2b - 2) * length with half the modulus rounded up |
| DbPolynomial.NoOverflow | src/db_polynomial.cpp:31-41 | If the predicate is false every in-range dot product survives, under the plaintext modulus and every larger one |
| DbPolynomial.OverflowExact | src/db_polynomial.cpp:31-41 | All in-range dot products survive if and only if the worst case is at most half the modulus: for odd moduli exactly when the predicate is false, for even ones also at equality |
| DbPolynomial.ProductsAreShortDots | src/db_polynomial.cpp:19-29 | The predicate for products is the one for dot products of length one, for every precision up to 32, at which the 64-bit square still fits |
| DbPolynomial.ComponentRings | src/db_polynomial.cpp:117-127 | Ring 0 of two has modulus p1 and ring 1 p1 - 1; a single ring has the plaintext modulus; any other ring is refused |
| DbPolynomial.BuildPolynomialFromRawValues | src/db_polynomial.cpp:100-115 | Fails exactly for a wrong number of values; otherwise each coefficient is the one in [0, q) congruent to its value modulo q, whatever modulus is passed |
| DbPolynomial.CrtSplitDatabasePolynomial | src/db_polynomial.cpp:129-138 | One copy per component ring; the copies do not differ |
| DbPolynomial.StoredLifts | src/db_polynomial.cpp:100-115 | Read as a centred residue modulo q, a stored in-range coefficient is the raw value, so that one stored form serves every ring |
| Scoring.ComputeSplitScore | benchmarks/benchmark_latency_seeded_parallel.cpp:86-95 | Slot i of the score is the dot product modulo p of the query with coefficient i of the split's polynomials |
| Scoring.NextCluster | benchmarks/benchmark_latency_seeded_parallel.cpp:293-299 | Adding a masked score, reduced at every step, is adding bit times dot product and reducing once |
| Schedules.SchedulesAreInterleavings | benchmarks/benchmark_latency_seeded_parallel.cpp:275-276 | Every order of whole iterations, of whatever numbers of steps, is one of the interleavings the results cover |
| ParallelScoring.SlotsAreIterations | benchmarks/benchmark_latency_seeded_parallel.cpp:277-278 | Different iterations never write the same slot |
| ParallelScoring.IterationOfSlot | benchmarks/benchmark_latency_seeded_parallel.cpp:277-278 | Every slot is some iteration's |
| ParallelScoring.ScoreParallel | benchmarks/benchmark_latency_seeded_parallel.cpp:268-291 | Under every interleaving of the iterations' steps each slot ends up with its cluster's masked score; the body asserts that a slot is still empty when its iteration stores into it |
| ParallelScoring.SumSlots | benchmarks/benchmark_latency_seeded_parallel.cpp:293-299 | The reduction leaves, for each split, the sum over clusters of bit times dot product |
| ParallelScoring.ScoreSequential | benchmarks/benchmark_latency_seeded.cpp:238-262 | The sequential loop nest over clusters, splits and rings arrives at the same results |
| EndToEnd.SelectorPicks | src/seeded_query.cpp:81-85 | Summing over clusters with the selector leaves the desired cluster alone, or nothing when there is none |
| EndToEnd.ComponentResidue | src/seeded_query.cpp:58-66 | A component of a canonical embedding value has the raw value's residue in its ring |
| EndToEnd.RingResult | benchmarks/benchmark_latency_seeded_parallel.cpp:264-300 | Each slot of a ring's result is the residue of the expected dot product |
| EndToEnd.Recomposed | benchmarks/benchmark_latency_seeded_parallel.cpp:343-352 | What the rings hold recomposes to the expected value modulo the message modulus |
| EndToEnd.ExpectedSurvives | tests/test_full_scoring_with_splits_seeded.cpp:248-257 | The expected value survives reduction and centring under the message modulus |
| EndToEnd.CanonicalizeEmbedding | tests/test_full_scoring_with_splits_seeded.cpp:129-142 | Embedding values are reduced modulo the message modulus and fit 64 bits |
| EndToEnd.ProcessRing | benchmarks/benchmark_latency_seeded_parallel.cpp:267-300 | Given right residues of the query, a ring's result holds the residues of the expected values, whatever the interleaving |
| EndToEnd.DecodeSlot | tests/test_full_scoring_with_splits_seeded.cpp:237-257 | For any residues: recomposing and centring one slot gives the centred residue of the signed dot product, which is the dot product itself for in-range values |
| EndToEnd.RunOneQuery | tests/test_full_scoring_with_splits_seeded.cpp:128-259 | For one or two rings, every database, in-range query, cluster and interleaving: the decoded result is, slot by slot, the signed dot product with the desired cluster alone |
| QueryModulus.ReducedSum | src/db_polynomial.cpp:74-84 | Reducing the query modulo m adds m to its dot product once for each unit of the column at a negative coordinate |
| QueryModulus.QueryModulusMatters | benchmarks/benchmark_latency_seeded_parallel.cpp:191-196 | Of a query sampled modulo the plaintext modulus, a slot decodes to its signed dot product if and only if the plaintext modulus times the sum of the column over negative coordinates is a multiple of the message modulus |
| QueryModulus.AlwaysRightIff | benchmarks/benchmark_latency_seeded_parallel.cpp:191-196 | For an existing cluster with a split, every in-range database decodes right if and only if the query so sampled has no negative value or the plaintext modulus is the message modulus |
| QueryModulus.NegativeQueryFails | tests/test_full_scoring_with_splits_seeded.cpp:133-141 | The failing input: two rings modulo 11 and 10, plaintext modulus 71, query [-1], document [-1]; 40 is decoded for a score of 1 |
| PrivateQuery.RebuiltValue | src/seeded_query.cpp:57-74 | Every ciphertext the server rebuilt decrypts to a residue of its raw embedding value |
| PrivateQuery.RebuiltBit | src/seeded_query.cpp:79-85 | Every rebuilt selector decrypts to 1 for the desired cluster and to 0 for the others |
| PrivateQuery.ReturnResponse | benchmarks/benchmark_latency_seeded_parallel.cpp:304-341 | A ring's result survives packing, unpacking and decrypting |
| PrivateQuery.AnswerQuery | benchmarks/benchmark_latency_seeded_parallel.cpp:197-354 | The whole query after sampling, through both directions of the wire, for any values canonical modulo the message modulus: the client decodes the centred residues of the desired cluster's dot products, which are the dot products themselves for in-range values; its key's distribution is restored |
| PrivateQuery.AnswerBenchmarkQuery | benchmarks/benchmark_latency_seeded_parallel.cpp:183-354 | The same with the benchmark's own sampling modulo the plaintext modulus: each slot is exact if and only if its column meets the condition of QueryModulusMatters |
| LittleEndian.LeNatDigit | src/wire_protocol.cpp:58-72 | Reading bytes as a number makes byte k its digit k to the base 256 |
| WireCodecs.WrapUnwrap | src/wire_protocol.cpp:19-21 | The 64-bit word of an int64 gives the int64 back |
| WireCodecs.WrappedIsCongruent | src/wire_protocol.cpp:19-21 | Two's complement: the 64-bit word of a value is the one congruent to it modulo 2^64, so that a non-negative value is its own word |
| WireCodecs.CountedLawful | src/wire_protocol.cpp:28-49 | Prefixing a count keeps a format an exact parser, at every nesting level |
| WireProtocol.ByteWriter.WriteU32 | src/wire_protocol.cpp:15-17 | Appends four bytes; byte k is base-256 digit k of the size |
| WireProtocol.ByteWriter.WriteI64 | src/wire_protocol.cpp:19-21 | Appends eight bytes; byte k is base-256 digit k of the value, by floored division for negative ones |
| WireLayout.QuerySpelledOut | src/wire_protocol.cpp:123-133 | A query's bytes by place: the number of seeds, the seeds, the embedding's rows, then the selector's, with every count and number at its offset for ragged rows |
| WireLayout.MaterialSpelledOut | src/wire_protocol.cpp:148-154 | The bytes of key material by place: the seed, ragged levels of ragged rows, then the sk^2 rows |
| WireLayout.ResponseSpelledOut | src/wire_protocol.cpp:165-178 | The bytes of a response by place: a count, and of each ciphertext the coefficients of a and then those of b |
| WireProtocol.ByteWriter.WriteVecVecVecI64 | src/wire_protocol.cpp:44-49 | Appends the reference bytes of a ragged triple vector |
| WireProtocol.ByteReader.ReadVecVecVecI64 | src/wire_protocol.cpp:54-119 | Agrees with the reference decoder on every rest of a buffer, on success and on failure |
| WireProtocol.SerializeSeededQuery | src/wire_protocol.cpp:123-133 | Writes the bytes of a query that QuerySpelledOut places, which are those of the reference codec |
| WireProtocol.DeserializeSeededQuery | src/wire_protocol.cpp:135-146 | Agrees with the reference decoder on every buffer |
| WireProtocol.SerializeSeededPublicMaterial | src/wire_protocol.cpp:148-154 | Writes the reference bytes of key material |
| WireProtocol.DeserializeSeededPublicMaterial | src/wire_protocol.cpp:156-163 | Agrees with the reference decoder on every buffer |
| WireProtocol.SerializeQueryResponse | src/wire_protocol.cpp:165-178 | Writes a count and the coefficients of every ciphertext, with no dimension |
| WireProtocol.DeserializeQueryResponse | src/wire_protocol.cpp:180-200 | Agrees with the reference decoder for the ring dimension on every buffer |
| WireProtocol.DeserializeRegistrationMessage | src/wire_protocol.cpp:210-220 | Agrees with the reference decoder of an envelope on every buffer; fewer than 16 bytes are refused, and the first 16 are the session id |
| WireProtocol.DeserializeQueryMessage | src/wire_protocol.cpp:230-240 | Agrees with the reference decoder of an envelope on every buffer; fewer than 16 bytes are refused, and the first 16 are the session id |
| WireTheorems.DecodedIff | src/wire_protocol.cpp:54-119 | A buffer decodes to x if and only if x is encodable and its encoding begins the buffer |
| WireTheorems.SeededQueryRoundTrip | src/wire_protocol.cpp:123-146 | A query decodes to itself if and only if all its counts fit 32 bits, whatever follows; no strict prefix of it decodes |
| WireTheorems.PublicMaterialRoundTrip | src/wire_protocol.cpp:148-163 | The same for key material |
| WireTheorems.ResponseRoundTrip | src/wire_protocol.cpp:165-200 | A response decodes to itself if and only if its count fits 32 bits, whatever follows it; no strict prefix of it decodes |
| WireTheorems.QueryMessageRoundTrip | src/wire_protocol.cpp:222-240 | A query envelope decodes to itself if and only if all counts fit 32 bits, whatever follows it |
| WireTheorems.QueryMessageCutShort | src/wire_protocol.cpp:222-240 | No strict prefix of a query envelope decodes |
| WireTheorems.QueryMessageAccepted | src/wire_protocol.cpp:230-240 | Whatever decodes to an envelope begins with that envelope's bytes |
| WireTheorems.RegistrationRoundTrip | src/wire_protocol.cpp:202-220 | A registration decodes to itself if and only if all counts fit 32 bits, whatever follows it |
| WireTheorems.RegistrationCutShort | src/wire_protocol.cpp:202-220 | No strict prefix of a registration decodes |
| WireTheorems.RegistrationAccepted | src/wire_protocol.cpp:210-220 | Whatever decodes to a registration begins with that registration's bytes |
| Sessions.SessionStore.RegisterSession | src/server_session.cpp:20-23 | Keeps the store a reflection of its history, whatever had expired in it |
| Sessions.SessionStore.GetAndTouch | src/server_session.cpp:25-38 | Answers from history alone: the material registered last, exactly when no gap up to now exceeded the lifetime; evicting lazily cannot be observed |
| Sessions.DeadUntilRegistered | src/server_session.cpp:32-35 | After one gap too long an id stays dead over every run without a registration of it |
| Sessions.ExpiryIsFinal | src/server_session.cpp:31-35 | With a monotone clock, expired now is expired later, looked up in between or not |
| Sessions.RegistrationRevives | src/server_session.cpp:20-23 | A registration makes the new material available for exactly the lifetime, whatever came before |
| Sessions.UnknownAtFirst | src/server_session.cpp:28-30 | Before anything happened no id has an answer |
| Sessions.LookupRefreshes | src/server_session.cpp:36-37 | A successful lookup makes the same material available for the lifetime from then on |
| Sessions.OthersUnaffected | src/server_session.cpp:20-38 | Nothing done to one id changes the answer for another |
| Dispatch.HandleMessage | src/server_dispatch.cpp:19-44 | Branch by branch: a rebuilt registration is acknowledged and recorded; an undecodable payload, a failed rebuild or a failed processing is a server error; a query for a dead id is told so; any other kind is unexpected. Only decodable queries and rebuilt registrations touch the sessions |
| Dispatch.RegistrationAcknowledged | src/server_dispatch.cpp:23-28 | A client's registration whose keys are rebuilt is acknowledged after every history |
| Dispatch.Serve | src/server_dispatch.cpp:19-44 | Over any run of requests every reply is the one its history determines |
| Dispatch.ProcessedOnlyWhenLive | src/server_dispatch.cpp:29-37 | A query is only answered for a live id, with the material an earlier registration of the run carried |
| Dispatch.DeadSessionRefused | src/server_dispatch.cpp:31-34 | A client's query for an id that is not live is always told to register again |
| Dispatch.TraceSinceRegistration | src/server_dispatch.cpp:22-36 | Over any run, what the store knows of an id is the material last registered under it and the times of that registration and of every query since |
| Dispatch.LiveQueryProcessed | src/server_dispatch.cpp:29-37 | A query is answered with what processing it under the registered material gives, when no gap since the registration exceeded the lifetime |
| ServerDb.BuildSplit | src/server_db.cpp:63-98 | Coefficient i of polynomial j is, modulo q, the byte at (split * n + i) * length + j of the cluster, and 0 behind the last document; fails exactly for a wrong length or cluster |
| ServerDb.SplitsCover | src/server_db.cpp:58-61 | The number of splits is the least that holds the cluster, and exists exactly for existing clusters |
| ServerDb.DocumentHasOneSlot | apps/client.cpp:106 | Every document has exactly one (split, position) among the cluster's splits |
| ServerDb.SlotIsDocument | src/server_db.cpp:75-95 | A slot's column is its document, or zeros |
| ServerDb.SlotScore | src/server_db.cpp:63-98 | A slot's score is its document's dot product with the query, or 0 |
| ServerDb.ScanValueRange | src/server_db.cpp:100-111 | The least and greatest value are attained bounds; without values they are the limits of the type |
| ServerDb.ValidateValueRange | src/server_db.cpp:113-126 | Passes exactly when every value is at least -2^(precision-1) and below 2^(precision-1) |
| ServerDb.ValidateUniformClusterSizes | src/server_db.cpp:128-139 | Passes exactly when every cluster has the derived size |
| ServerDb.ValidatedDatabase | src/server_db.cpp:58-139 | A database that passes both validations is one the scoring results are about, and each cluster fills the derived number of splits |
| BestMatch.FirstMaxUnique | src/client_core.cpp:45-56 | There is one first maximum |
| BestMatch.ScanStep | src/client_core.cpp:49-54 | The strict comparison keeps the first of equal scores |
| BestMatch.FlatAt | apps/client.cpp:106 | The global index of a slot is its place in the scan |
| BestMatch.DecryptAndFindBest | src/client_core.cpp:36-58 | Reports a slot that no slot decodes to more than and no earlier one to as much, with its score, padding included; the initial values when there is no slot |
| PrivateSearch.DecodedScores | src/client_core.cpp:45-49 | Decoded slot by slot, a response is the list of the documents' scores followed by zeros |
| PrivateSearch.Search | src/server_query_processing.cpp:27-95 | With one ring: loading, scoring under any interleaving, masking, summing, decoding and scanning report the first best slot of the desired cluster |
| PrivateSearch.BestSpelledOut | src/client_core.cpp:45-57 | The result of a search: the reported document's signed dot product with the query, or 0 for an empty slot; no document scores more, and none before the slot as much |
| PrivateSearch.BestIsADocument | src/client_core.cpp:36-58 | The reported slot is the best document's if and only if there is no padding or that document does not score below 0 |
| PrivateSearch.PaddingReported | src/client_core.cpp:45-56 | The failing input: one document [-1] in a split of two slots, query [1]; the empty slot is reported |
| QueryProcessing.ProcessQuery | src/server_query_processing.cpp:27-95 | With one ring, under any interleaving of replay and scoring: the response is the bytes of one ciphertext per split, sealing the masked sums of the replayed query's scores |
| QueryProcessing.JobIsForQuery | src/server_query_processing.cpp:32-49 | Scoring what was replayed of a client's query computes on the residues and selector bits the client meant |
| OnlineSearch.RegistrationArrives | src/client_core.cpp:14-24 | A registration message of keys whose counts fit decodes to the material it was made of |
| OnlineSearch.RegisteredClients | src/server_dispatch.cpp:23-28 | What the server registers for a client's registration are the very keys the client made |
| OnlineSearch.QueryIsProcessed | src/server_dispatch.cpp:29-37 | A live client's query is answered by its database scores under its own keys |
| OnlineSearch.ReadBestMatch | src/client_core.cpp:36-58 | From the bytes of a response to its query the client reads the first slot of greatest score |
| OnlineSearch.SearchOnline | tests/test_client_server_roundtrip.cpp:109-171 | Over any run of requests: a client that registers, is never silent for longer than the lifetime, and queries, has its registration acknowledged and ends up with the first slot of greatest signed score in the desired cluster, as an independent scan finds it |
| CommunicationCosts.MeasuredStreamSizes.RecordQuery | src/communication_cost.cpp:63-71 | Keeps the flag saying, of everything recorded so far, that each non-empty list of sizes was repeated |
| CommunicationCosts.RecordRuns | src/communication_cost.cpp:56-71 | Over any runs of non-empty measurements: the flag holds if and only if all runs measured the same |
| CommunicationCosts.MeasuredStreamSizes.AsCost | src/communication_cost.cpp:73-83 | The sums of the recorded stream sizes |
| CommunicationCosts.MeasuredWithinAByteAStream | src/communication_cost.cpp:37-83 | theoretical <= measured < theoretical + number of streams, for keys, upload and download |
| CommunicationCosts.PackedWithinAByteAStream | src/communication_cost.cpp:37-83 | The same for the streams the packing functions emit |
| Parameters.CeilingDivision | src/params.cpp:34-36 | Adding size - 1 before dividing gives the least sufficient number of groups |
| Parameters.ParamsObject.DeriveDependentParameters | src/params.cpp:13-62 | While p1 * (p1 - 1) fits 64 bits: succeeds exactly for positive counts, 0 <= q < 2^62, and one ring or two with p1 >= 2 and p1 * (p1 - 1) at least the plaintext modulus. The three counts round up, also when the rings are then refused; primary fields never change |

## Left out

- The encryption library's internals (transforms, key switching, gadget decomposition, noise growth, plaintext encodings): an ideal scheme with the stated laws takes their place.
- AES, OpenSSL and the generation of seeds: the keystream is an arbitrary function of the seed.
- Sockets, framing, the accept loop, command lines, JSON parameter files, the binary database loader (`load_from_file`) and printing of cost tables: input and output only.
- Timing, latency records, random sampling, and the pool and distributed benchmarks: measurements, not results.
- `pack_response`, `unpack_response` and `total_bytes` over all rings: one call per ring of functions that are modelled.
- Running two requests against the session store at the same time: every store operation holds the mutex from beginning to end, so runs are sequences of operations.
- Memory limits: a reader given a huge count allocates nothing here; the sources could fail in the allocation instead of at the end of the buffer.
- Host byte order in the length-prefixed format: little-endian is fixed.
- `process_query`, `build_split` and the length-prefixed search for two rings: the sources wrote them before the component rings, and they are modelled for one ring.
- SeededDistribution.SeededUniformDistribution.Create: does not model ranges with to - from of 2^63 or more, where that difference overflows int64 in the sources.
- Scoring.ComputeSplitScore: does not model evaluation form; products and sums are those of the ideal scheme.
- ParallelScoring.ScoreParallel: an iteration has three atomic steps (score, mask, store); finer steps inside the encryption library are not modelled.
- SeededEvalKeys.ReconstructPublicMaterial: requires every received b-polynomial to have at least n coefficients; with fewer the sources read past the end of a vector.
- DbPolynomial.ProductsAreShortDots: says nothing of a precision of 33 bits or more, where the 64-bit square in products_can_overflow overflows (undefined in C++).
- Parameters.ParamsObject.DeriveDependentParameters: promises success or refusal only while p1 * (p1 - 1) fits int64; from p1 of about 3.04e9 the product overflows in the sources (undefined in C++).
- CommunicationCosts.MeasuredWithinAByteAStream: over exact reals, without the rounding of double.
- StreamPacking.DeriveWireShape: the digit counts are parameters, because Utils::power_times is not part of this model.
