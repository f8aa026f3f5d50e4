/** The parallel scoring loop under every interleaving of its iterations, the reduction that
    follows it, and the sequential loop nest it replaced
    (benchmarks/benchmark_latency_seeded_parallel.cpp, benchmarks/benchmark_latency_seeded.cpp). */
module ParallelScoring {
  import opened MachineInts
  import opened Codecs
  import opened Schedules
  import opened Scoring

  // ---- Interleavings -----------------------------------------------------------------------

  /** Each iteration computes its score, masks it, and stores it: three steps. */
  const STEPS: nat := 3

  ghost function ThreeSteps(total: nat): (steps: seq<nat>)
    ensures |steps| == total
    ensures forall idx :: 0 <= idx < total ==> steps[idx] == STEPS
  {
    seq(total, _ => STEPS)
  }

  /** The steps of `total` iterations in any order that keeps each iteration's own. */
  ghost predicate IsInterleaving(turns: seq<nat>, total: nat) {
    Interleaves(turns, ThreeSteps(total))
  }

  // ---- Slots: idx stands for cluster idx / S, split idx % S ------------------------------------

  lemma PairBounds(idx: nat, clusters: nat, splits: nat)
    requires idx < clusters * splits
    ensures splits > 0
    ensures 0 <= idx / splits < clusters && 0 <= idx % splits < splits
    ensures idx == (idx / splits) * splits + idx % splits
  {
    assert splits == 0 ==> clusters * splits == 0;
    var c := idx / splits;
    assert idx == c * splits + idx % splits;
    if c >= clusters {
      MulMonotone(clusters, c, splits);
    }
    DivNonNegative(idx, splits);
  }

  /** Two iterations write the same slot only if they are the same iteration, and every slot
      has its iteration. */
  lemma SlotsAreIterations(i: nat, j: nat, clusters: nat, splits: nat)
    requires i < clusters * splits && j < clusters * splits
    ensures splits > 0
    ensures i / splits == j / splits && i % splits == j % splits ==> i == j
  {
    PairBounds(i, clusters, splits);
    PairBounds(j, clusters, splits);
  }

  lemma IterationOfSlot(c: nat, s: nat, clusters: nat, splits: nat) returns (idx: nat)
    requires c < clusters && s < splits
    ensures idx < clusters * splits && idx / splits == c && idx % splits == s
  {
    idx := c * splits + s;
    FlatIndex(c, s, splits);
    FlatBound(c, s, splits, clusters);
  }

  ghost function SlotOf(job: RingJob, idx: nat): Ct
    requires job.Valid() && idx < job.Pairs()
  {
    PairBounds(idx, |job.bits|, job.splits);
    job.SlotValue(idx / job.splits, idx % job.splits)
  }

  // ---- The parallel loop -------------------------------------------------------------------------

  /** After any interleaving every slot holds its cluster's masked score. A slot is written
      once: it is still empty when its iteration stores into it. */
  method ScoreParallel(job: RingJob, turns: seq<nat>) returns (masked: array2<Option<Ct>>)
    requires job.Valid() && IsInterleaving(turns, job.Pairs())
    ensures fresh(masked) && masked.Length0 == job.splits && masked.Length1 == |job.bits|
    ensures forall s, c :: 0 <= s < job.splits && 0 <= c < |job.bits| ==> masked[s, c] == Some(job.SlotValue(c, s))
  {
    hide Interleaves, Occurrences, RingJob.SlotValue, RingJob.Score, MulBit;
    masked := new Option<Ct>[job.splits, |job.bits|]((s, c) => None);
    NoTurns(turns);
    var scores: seq<Ct> := seq(job.Pairs(), _ => []);
    var values: seq<Ct> := seq(job.Pairs(), _ => []);
    var steps: seq<nat> := seq(job.Pairs(), _ => 0);
    for t := 0 to |turns|
      invariant |scores| == |values| == |steps| == job.Pairs()
      invariant forall idx: nat :: idx < job.Pairs() ==> steps[idx] == Occurrences(turns[..t], idx)
      invariant forall idx: nat :: idx < job.Pairs() ==> IterationState(job, idx, steps[idx], scores[idx], values[idx])
      invariant forall idx: nat :: idx < job.Pairs() ==> SlotState(job, idx, steps[idx], masked)
    {
      TurnsSoFar(turns, ThreeSteps(job.Pairs()), t);
      var idx := turns[t];
      PairBounds(idx, |job.bits|, job.splits);
      var c := idx / job.splits;
      var s := idx % job.splits;
      assert IterationState(job, idx, steps[idx], scores[idx], values[idx]);
      assert SlotState(job, idx, steps[idx], masked);
      if steps[idx] == 0 {
        var score := ComputeSplitScore(job, job.db[c][s]);
        scores := scores[idx := score];
      } else if steps[idx] == 1 {
        values := values[idx := MulBit(job.bits[c], scores[idx], job.p)];
        SlotDefinition(job, idx);
      } else {
        assert masked[s, c].None?;
        masked[s, c] := Some(values[idx]);
        OtherSlotsKept(job, idx);
      }
      steps := steps[idx := steps[idx] + 1];
    }
    AllTurns(turns, ThreeSteps(job.Pairs()));
    forall s, c | 0 <= s < job.splits && 0 <= c < |job.bits|
      ensures masked[s, c] == Some(job.SlotValue(c, s))
    {
      var idx := IterationOfSlot(c, s, |job.bits|, job.splits);
      assert SlotState(job, idx, steps[idx], masked);
    }
  }

  lemma SlotDefinition(job: RingJob, idx: nat)
    requires job.Valid() && idx < job.Pairs()
    ensures job.splits > 0 && 0 <= idx / job.splits < |job.bits| && 0 <= idx % job.splits < job.splits
    ensures SlotOf(job, idx)
            == MulBit(job.bits[idx / job.splits], job.Score(job.db[idx / job.splits][idx % job.splits]), job.p)
  {
    PairBounds(idx, |job.bits|, job.splits);
  }

  lemma OtherSlotsKept(job: RingJob, idx: nat)
    requires job.Valid() && idx < job.Pairs()
    ensures job.splits > 0
    ensures forall j: nat :: j < job.Pairs() && j != idx ==>
              j / job.splits != idx / job.splits || j % job.splits != idx % job.splits
  {
    PairBounds(idx, |job.bits|, job.splits);
    forall j: nat | j < job.Pairs() && j != idx
      ensures j / job.splits != idx / job.splits || j % job.splits != idx % job.splits
    {
      SlotsAreIterations(idx, j, |job.bits|, job.splits);
    }
  }

  /** An iteration's private variables after so many of its steps. */
  ghost predicate IterationState(job: RingJob, idx: nat, steps: nat, score: Ct, value: Ct)
    requires job.Valid() && idx < job.Pairs()
  {
    PairBounds(idx, |job.bits|, job.splits);
    && (steps >= 1 ==> score == job.Score(job.db[idx / job.splits][idx % job.splits]))
    && (steps >= 2 ==> value == SlotOf(job, idx))
  }

  /** The shared slot of an iteration after so many of its steps. */
  ghost predicate SlotState(job: RingJob, idx: nat, steps: nat, masked: array2<Option<Ct>>)
    requires job.Valid() && idx < job.Pairs()
    requires masked.Length0 == job.splits && masked.Length1 == |job.bits|
    reads masked
  {
    PairBounds(idx, |job.bits|, job.splits);
    masked[idx % job.splits, idx / job.splits] == if steps >= STEPS then Some(SlotOf(job, idx)) else None
  }

  /** The reduction behind the parallel loop: split by split, sum over the clusters. */
  method SumSlots(job: RingJob, masked: array2<Option<Ct>>, result: array<Ct>)
    requires job.Valid()
    requires masked.Length0 == job.splits && masked.Length1 == |job.bits| && result.Length == job.splits
    requires forall s, c :: 0 <= s < job.splits && 0 <= c < |job.bits| ==> masked[s, c] == Some(job.SlotValue(c, s))
    requires forall s :: 0 <= s < job.splits ==> result[s] == ZeroCt(job.n)
    modifies result
    ensures forall s :: 0 <= s < job.splits ==> result[s] == job.Result(s)
  {
    hide RingJob.SlotValue, RingJob.PartialResult, AddCt, ZeroCt;
    for s := 0 to job.splits
      invariant forall r :: 0 <= r < s ==> result[r] == job.Result(r)
      invariant forall r :: s <= r < job.splits ==> result[r] == ZeroCt(job.n)
    {
      NoCluster(job, s);
      for c := 0 to |job.bits|
        invariant result[s] == job.PartialResult(s, c)
        invariant forall r :: 0 <= r < s ==> result[r] == job.Result(r)
        invariant forall r :: s < r < job.splits ==> result[r] == ZeroCt(job.n)
      {
        NextCluster(job, s, c);
        SlotDimension(job, c, s);
        result[s] := AddCt(result[s], masked[s, c].value, job.p);
      }
    }
  }

  lemma SlotDimension(job: RingJob, c: nat, s: nat)
    requires job.Valid() && c < |job.bits| && s < job.splits
    ensures |job.SlotValue(c, s)| == job.n
  {
  }

  // ---- The sequential loop nest --------------------------------------------------------------------

  ghost predicate JobsAlike(jobs: seq<RingJob>, clusters: nat, splits: nat) {
    forall k :: 0 <= k < |jobs| ==> jobs[k].Valid() && |jobs[k].bits| == clusters && jobs[k].splits == splits
  }

  /** Clusters summed for ring `k`, split `s` when the nest stands at cluster `c`, at split
      `atSplit` and ring `atRing` of it. */
  function Summed(c: nat, atSplit: nat, atRing: nat, k: nat, s: nat): nat {
    if s < atSplit || (s == atSplit && k < atRing) then c + 1 else c
  }

  /** The three nested loops over clusters, splits and rings, adding each masked score right
      where it is computed. */
  method ScoreSequential(jobs: seq<RingJob>, clusters: nat, splits: nat, result: array2<Ct>)
    requires JobsAlike(jobs, clusters, splits)
    requires result.Length0 == |jobs| && result.Length1 == splits
    requires forall k, s :: 0 <= k < |jobs| && 0 <= s < splits ==> result[k, s] == ZeroCt(jobs[k].n)
    modifies result
    ensures forall k, s :: 0 <= k < |jobs| && 0 <= s < splits ==> result[k, s] == jobs[k].Result(s)
  {
    hide RingJob.SlotValue, RingJob.PartialResult, RingJob.Score, AddCt, MulBit, ZeroCt;
    forall k, s | 0 <= k < |jobs| && 0 <= s < splits
      ensures result[k, s] == jobs[k].PartialResult(s, 0)
    {
      NoCluster(jobs[k], s);
    }
    for c := 0 to clusters
      invariant forall k, s :: 0 <= k < |jobs| && 0 <= s < splits ==> result[k, s] == jobs[k].PartialResult(s, c)
    {
      for s := 0 to splits
        invariant forall k, r :: 0 <= k < |jobs| && 0 <= r < splits ==>
                    result[k, r] == jobs[k].PartialResult(r, Summed(c, s, 0, k, r))
      {
        for ring := 0 to |jobs|
          invariant forall k, r :: 0 <= k < |jobs| && 0 <= r < splits ==>
                      result[k, r] == jobs[k].PartialResult(r, Summed(c, s, ring, k, r))
        {
          var job := jobs[ring];
          var score := ComputeSplitScore(job, job.db[c][s]);
          NextCluster(job, s, c);
          SlotIsMask(job, c, s);
          result[ring, s] := AddCt(result[ring, s], MulBit(job.bits[c], score, job.p), job.p);
        }
      }
    }
  }

  lemma SlotIsMask(job: RingJob, c: nat, s: nat)
    requires job.Valid() && c < |job.bits| && s < job.splits
    ensures job.SlotValue(c, s) == MulBit(job.bits[c], job.Score(job.db[c][s]), job.p)
    ensures |job.SlotValue(c, s)| == job.n
  {
  }
}
