/** Scoring every cluster and split under encryption, masking by the encrypted selector and
    summing over the clusters (benchmarks/benchmark_latency_seeded_parallel.cpp), over ideal
    ciphertexts: a ciphertext of a component ring is its plaintext's coefficients modulo
    the ring's plaintext modulus. */
module Scoring {
  import opened MachineInts
  import opened Crt
  import DbPolynomial

  type Ct = seq<int>

  // ---- Ideal homomorphic operations ----------------------------------------------------------

  /** An encrypted constant times a database polynomial, whose coefficients modulo q stand for
      signed values. */
  function MulPlain(message: int, poly: seq<int>, q: int, p: int): (ct: Ct)
    requires q > 0 && p > 0
    ensures |ct| == |poly|
  {
    seq(|poly|, i requires 0 <= i < |poly| => (message * DbPolynomial.CenteredResidue(poly[i], q)) % p)
  }

  function AddCt(x: Ct, y: Ct, p: int): (ct: Ct)
    requires p > 0 && |x| == |y|
    ensures |ct| == |x|
  {
    seq(|x|, i requires 0 <= i < |x| => (x[i] + y[i]) % p)
  }

  /** An encrypted selector bit times a ciphertext. */
  function MulBit(bit: int, x: Ct, p: int): (ct: Ct)
    requires p > 0
    ensures |ct| == |x|
  {
    seq(|x|, i requires 0 <= i < |x| => (bit * x[i]) % p)
  }

  function ZeroCt(n: nat): (ct: Ct)
    ensures |ct| == n
  {
    seq(n, _ => 0)
  }

  /** Adding a reduced term to a reduced sum. */
  lemma ReducedSum(a: int, b: int, p: int)
    requires p > 0
    ensures (a % p + b % p) % p == (a + b) % p
  {
    CongruentMod(a, p);
    CongruentMod(b, p);
    CongruentAdd(a % p, a, b % p, b, p);
  }

  /** Adding a reduced multiple of a reduced value to a reduced sum. */
  lemma ReducedMultiple(a: int, bit: int, d: int, p: int)
    requires p > 0
    ensures (a % p + (bit * (d % p)) % p) % p == (a + bit * d) % p
  {
    CongruentMod(d, p);
    CongruentMul(bit, bit, d % p, d, p);
    ReducedSum(a, bit * d, p);
  }

  // ---- One component ring's work ---------------------------------------------------------------

  /** What the server computes on for one component ring. */
  datatype RingJob = RingJob(
    n: nat, q: int, p: int,
    query: seq<int>,                              // [j], residues modulo p
    bits: seq<int>,                               // [c], the selector
    db: seq<seq<seq<seq<int>>>>,                  // [c][s][j], stored polynomials
    splits: nat)
  {
    ghost predicate Valid() {
      && q > 0 && p > 0
      && |db| == |bits|
      && (forall c :: 0 <= c < |db| ==> |db[c]| == splits)
      && (forall c, s :: 0 <= c < |db| && 0 <= s < splits ==> SplitFits(db[c][s]))
    }

    ghost predicate SplitFits(split: seq<seq<int>>) {
      && |split| == |query|
      && forall j :: 0 <= j < |split| ==> |split[j]| == n
    }

    function Pairs(): nat {
      |bits| * splits
    }

    /** Coefficient `i` of every polynomial of a split, as signed values. */
    ghost function Column(split: seq<seq<int>>, i: nat): (column: seq<int>)
      requires q > 0 && SplitFits(split) && i < n
      ensures |column| == |query|
      ensures forall j :: 0 <= j < |query| ==> column[j] == DbPolynomial.CenteredResidue(split[j][i], q)
    {
      seq(|query|, j requires 0 <= j < |query| => DbPolynomial.CenteredResidue(split[j][i], q))
    }

    /** The score of slot `i` of a split: a dot product modulo p. */
    ghost function Dot(split: seq<seq<int>>, i: nat): int
      requires q > 0 && SplitFits(split) && i < n
    {
      SumOfProducts(query, Column(split, i))
    }

    ghost function Score(split: seq<seq<int>>): (ct: Ct)
      requires q > 0 && p > 0 && SplitFits(split)
      ensures |ct| == n
      ensures forall i :: 0 <= i < n ==> ct[i] == Dot(split, i) % p
    {
      seq(n, i requires 0 <= i < n => Dot(split, i) % p)
    }

    ghost function SlotValue(c: nat, s: nat): Ct
      requires Valid() && c < |bits| && s < splits
    {
      MulBit(bits[c], Score(db[c][s]), p)
    }

    ghost function Dots(s: nat, i: nat): (dots: seq<int>)
      requires Valid() && s < splits && i < n
      ensures |dots| == |bits|
      ensures forall c :: 0 <= c < |bits| ==> dots[c] == Dot(db[c][s], i)
    {
      seq(|bits|, c requires 0 <= c < |bits| => Dot(db[c][s], i))
    }

    /** The sum over the first `clusters` clusters, reduced once at the end. */
    ghost function PartialResult(s: nat, clusters: nat): (ct: Ct)
      requires Valid() && s < splits && clusters <= |bits|
      ensures |ct| == n
      ensures forall i :: 0 <= i < n ==>
                ct[i] == SumOfProducts(bits[..clusters], Dots(s, i)[..clusters]) % p
    {
      seq(n, i requires 0 <= i < n => SumOfProducts(bits[..clusters], Dots(s, i)[..clusters]) % p)
    }

    ghost function Result(s: nat): Ct
      requires Valid() && s < splits
    {
      PartialResult(s, |bits|)
    }
  }

  lemma SumOfProductsSnoc(xs: seq<int>, ys: seq<int>, k: nat)
    requires k < |xs| == |ys|
    ensures SumOfProducts(xs[..k + 1], ys[..k + 1]) == SumOfProducts(xs[..k], ys[..k]) + xs[k] * ys[k]
  {
    assert xs[..k + 1][..k] == xs[..k] && ys[..k + 1][..k] == ys[..k];
  }

  method ComputeSplitScore(job: RingJob, split: seq<seq<int>>) returns (score: Ct)
    requires job.q > 0 && job.p > 0 && job.SplitFits(split)
    ensures score == job.Score(split)
  {
    score := ZeroCt(job.n);
    for j := 0 to |job.query|
      invariant |score| == job.n
      invariant forall i :: 0 <= i < job.n ==>
                  score[i] == SumOfProducts(job.query[..j], job.Column(split, i)[..j]) % job.p
    {
      var product := MulPlain(job.query[j], split[j], job.q, job.p);
      ghost var before := score;
      score := AddCt(score, product, job.p);
      forall i | 0 <= i < job.n
        ensures score[i] == SumOfProducts(job.query[..j + 1], job.Column(split, i)[..j + 1]) % job.p
      {
        SumOfProductsSnoc(job.query, job.Column(split, i), j);
        ReducedSum(SumOfProducts(job.query[..j], job.Column(split, i)[..j]),
                   job.query[j] * job.Column(split, i)[j], job.p);
      }
    }
    forall i | 0 <= i < job.n
      ensures score[i] == job.Dot(split, i) % job.p
    {
      assert job.query[..|job.query|] == job.query;
      assert job.Column(split, i)[..|job.query|] == job.Column(split, i);
    }
  }

  /** Adding the slot of cluster `clusters` to the sum over the clusters before it. */
  lemma NextCluster(job: RingJob, s: nat, clusters: nat)
    requires job.Valid() && s < job.splits && clusters < |job.bits|
    ensures AddCt(job.PartialResult(s, clusters), job.SlotValue(clusters, s), job.p)
            == job.PartialResult(s, clusters + 1)
  {
    var next := AddCt(job.PartialResult(s, clusters), job.SlotValue(clusters, s), job.p);
    forall i | 0 <= i < job.n
      ensures next[i] == job.PartialResult(s, clusters + 1)[i]
    {
      var dots := job.Dots(s, i);
      SumOfProductsSnoc(job.bits, dots, clusters);
      ReducedMultiple(SumOfProducts(job.bits[..clusters], dots[..clusters]), job.bits[clusters], dots[clusters], job.p);
    }
  }

  lemma NoCluster(job: RingJob, s: nat)
    requires job.Valid() && s < job.splits
    ensures job.PartialResult(s, 0) == ZeroCt(job.n)
  {
  }
}
