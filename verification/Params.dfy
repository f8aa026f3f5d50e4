/** The protocol parameters and the fields derived from them (include/params.hpp,
    src/params.cpp). */
module Parameters {
  import opened MachineInts
  import Crt

  datatype Params = Params(
    n: int,
    q: int,
    plaintextModulus: int,
    databaseSize: int,
    embeddingLength: int,
    embeddingPrecision: int,
    numClusters: int,
    numServers: int,
    numComponentRings: int,
    compRingModulus: int,
    // derived
    clusterSize: int,
    splitsPerCluster: int,
    clustersPerServer: int,
    combinedComponentRingModulus: int)
  {
    /** The conditions under which the derived fields can be filled in. */
    predicate Acceptable() {
      && numClusters > 0 && numServers > 0 && n > 0
      && 0 <= q < 0x4000_0000_0000_0000
      && (numComponentRings == 1 || numComponentRings == 2)
      && (numComponentRings == 2 ==>
            compRingModulus >= 2 && Crt.CombinedModulus(compRingModulus) >= plaintextModulus)
    }

    /** The product of the two component moduli does not overflow the sources' integers. */
    predicate CombinedFits() {
      numComponentRings == 2 && compRingModulus >= 2 ==> Crt.CombinedModulus(compRingModulus) <= INT64_MAX
    }

    /** What the rest of the system relies on after derivation. */
    predicate Derived() {
      && Acceptable()
      && IsCeiling(clusterSize, databaseSize, numClusters)
      && IsCeiling(splitsPerCluster, clusterSize, n)
      && IsCeiling(clustersPerServer, numClusters, numServers)
      && combinedComponentRingModulus == if numComponentRings == 2 then Crt.CombinedModulus(compRingModulus) else 0
    }

    /** The same but for derived fields. */
    predicate SamePrimary(other: Params) {
      this == other.(clusterSize := clusterSize, splitsPerCluster := splitsPerCluster,
                     clustersPerServer := clustersPerServer,
                     combinedComponentRingModulus := combinedComponentRingModulus)
    }

    /** The message space a recomposed result lives in. */
    function MessageModulus(): int {
      if numComponentRings == 1 then plaintextModulus else combinedComponentRingModulus
    }
  }

  /** `count` groups of `size` hold `total` items, and one group fewer does not. */
  predicate IsCeiling(count: int, total: int, size: int) {
    (count - 1) * size < total <= count * size
  }

  lemma CeilingDivision(total: int, size: int)
    requires total >= 0 && size > 0
    ensures 0 <= (total + size - 1) / size == Quot(total + size - 1, size)
    ensures IsCeiling((total + size - 1) / size, total, size)
  {
    var c := (total + size - 1) / size;
    DivNonNegative(total + size - 1, size);
    assert total + size - 1 == c * size + (total + size - 1) % size;
    assert (c - 1) * size == c * size - size;
  }

  /** A parameter struct, filled in field by field. */
  class ParamsObject {
    var p: Params

    constructor (p: Params)
      ensures this.p == p
    {
      this.p := p;
    }

    /** False (the sources throw) when the primary fields are not acceptable; q is compared as
        an unsigned number, which turns away negative ones. The cluster counts are assigned
        before the component rings are validated. */
    method DeriveDependentParameters() returns (ok: bool)
      requires INT64_MIN <= p.q <= INT64_MAX
      modifies this
      ensures old(p).CombinedFits() ==> (ok <==> old(p).Acceptable())
      ensures old(p).CombinedFits() ==>
                (ok <==>
                      && p.numClusters > 0 && p.numServers > 0 && p.n > 0 && 0 <= p.q < Pow2(62)
                      && 1 <= p.numComponentRings <= 2
                      && (p.numComponentRings == 2 ==>
                            && p.compRingModulus >= 2
                            && p.compRingModulus * (p.compRingModulus - 1) >= p.plaintextModulus))
      ensures p.numClusters > 0 && p.numServers > 0 && p.n > 0 && 0 <= p.q < Pow2(62) && p.databaseSize >= 0 ==>
                && (p.clusterSize - 1) * p.numClusters < p.databaseSize <= p.clusterSize * p.numClusters
                && (p.splitsPerCluster - 1) * p.n < p.clusterSize <= p.splitsPerCluster * p.n
                && (p.clustersPerServer - 1) * p.numServers < p.numClusters <= p.clustersPerServer * p.numServers
      ensures ok ==>
                p.combinedComponentRingModulus
                == if p.numComponentRings == 2 then p.compRingModulus * (p.compRingModulus - 1) else 0
      ensures old(p).CombinedFits() && ok && p.databaseSize >= 0 ==>
                p.Derived() && p.clusterSize >= 0 && p.splitsPerCluster >= 0
      ensures p.SamePrimary(old(p))
      ensures p.numClusters <= 0 || p.numServers <= 0 || p.n <= 0 || p.q < 0 || p.q >= 0x4000_0000_0000_0000 ==>
                p == old(p)
    {
      hide Pow2;
      Pow2Word();
      if p.numClusters <= 0 || p.numServers <= 0 || p.n <= 0 {
        return false;
      }
      if p.q % (UINT64_MAX + 1) >= 0x4000_0000_0000_0000 {
        return false;
      }
      p := p.(clusterSize := Quot(p.databaseSize + p.numClusters - 1, p.numClusters));
      p := p.(splitsPerCluster := Quot(p.clusterSize + p.n - 1, p.n));
      p := p.(clustersPerServer := Quot(p.numClusters + p.numServers - 1, p.numServers));
      if p.databaseSize >= 0 {
        CeilingDivision(p.databaseSize, p.numClusters);
        CeilingDivision(p.clusterSize, p.n);
        CeilingDivision(p.numClusters, p.numServers);
      }
      if p.numComponentRings != 1 && p.numComponentRings != 2 {
        return false;
      }
      if p.numComponentRings == 2 {
        if p.compRingModulus < 2 {
          return false;
        }
        p := p.(combinedComponentRingModulus := Crt.CombinedModulus(p.compRingModulus));
        if p.combinedComponentRingModulus < p.plaintextModulus {
          return false;
        }
      } else {
        p := p.(combinedComponentRingModulus := 0);
      }
      return true;
    }
  }
}
