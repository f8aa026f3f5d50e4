/** The values that cross the network: seed-compressed keys and queries, and response
    ciphertexts (include/seeded_eval_keys.hpp, include/seeded_query.hpp). */
module Messages {
  import opened MachineInts

  const SEED_BYTES: nat := 16

  datatype SeededPublicMaterial = SeededPublicMaterial(
    evalKeySeed: seq<byte>,
    automorphismB: seq<seq<seq<int>>>,  // [level][digit][coefficient]
    skSquaredB: seq<seq<int>>)          // [digit][coefficient]

  datatype SeededQuery = SeededQuery(
    seeds: seq<seq<byte>>,              // [ring]
    embeddingB: seq<seq<int>>,          // [ring][j]
    selectorB: seq<seq<int>>)           // [cluster][digit], continues seeds[0]

  datatype RlweCt = RlweCt(a: seq<int>, b: seq<int>)
}
