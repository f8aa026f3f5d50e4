/** The client's search for the best score (src/client_core.cpp). */
module BestMatch {
  import opened MachineInts
  import DbPolynomial
  import opened ServerDb

  // ---- First maxima --------------------------------------------------------------------------

  /** Position `k` holds the greatest value, and no earlier position does. */
  ghost predicate FirstMax(xs: seq<int>, k: nat) {
    && k < |xs|
    && (forall j :: 0 <= j < |xs| ==> xs[j] <= xs[k])
    && (forall j :: 0 <= j < k ==> xs[j] < xs[k])
  }

  lemma FirstMaxUnique(xs: seq<int>, a: nat, b: nat)
    requires FirstMax(xs, a) && FirstMax(xs, b)
    ensures a == b
  {
    assert xs[a] <= xs[b] && xs[b] <= xs[a];
  }

  lemma {:induction false} FirstMaxExists(xs: seq<int>) returns (k: nat)
    requires |xs| > 0
    ensures FirstMax(xs, k)
  {
    var n := |xs| - 1;
    if n == 0 {
      k := 0;
    } else {
      k := FirstMaxExists(xs[..n]);
      if xs[n] > xs[k] {
        k := n;
      }
    }
  }

  // ---- The scan ----------------------------------------------------------------------------

  /** Rows one after another. */
  ghost function Flat(rows: seq<seq<int>>): seq<int> {
    if |rows| == 0 then [] else Flat(rows[..|rows| - 1]) + rows[|rows| - 1]
  }

  ghost predicate Rectangular(rows: seq<seq<int>>, n: nat) {
    forall s :: 0 <= s < |rows| ==> |rows[s]| == n
  }

  lemma {:induction false} FlatAt(rows: seq<seq<int>>, n: nat, s: nat, i: nat)
    requires Rectangular(rows, n) && s < |rows| && i < n
    ensures |Flat(rows)| == GlobalIndex(|rows|, n, 0)
    ensures GlobalIndex(s, n, i) < |Flat(rows)|
    ensures Flat(rows)[GlobalIndex(s, n, i)] == rows[s][i]
  {
    FlatLength(rows, n);
    var last := |rows| - 1;
    FlatLength(rows[..last], n);
    FlatBound(s, i, n, |rows|);
    if s < last {
      FlatAt(rows[..last], n, s, i);
    }
  }

  lemma {:induction false} FlatLength(rows: seq<seq<int>>, n: nat)
    requires Rectangular(rows, n)
    ensures |Flat(rows)| == GlobalIndex(|rows|, n, 0)
  {
    if |rows| == 0 {
    } else {
      FlatLength(rows[..|rows| - 1], n);
      assert |rows| * n == (|rows| - 1) * n + n;
    }
  }

  /** Best split, position and score. */
  datatype ClientQueryResult = ClientQueryResult(splitIndex: int, positionInSplit: int, score: int)

  /** The scores of all slots, split by split. */
  ghost function SignedRows(residues: seq<seq<int>>, modulus: int): (rows: seq<seq<int>>)
    requires modulus > 0
    ensures |rows| == |residues|
    ensures forall s :: 0 <= s < |rows| ==> |rows[s]| == |residues[s]|
    ensures forall s, i :: 0 <= s < |rows| && 0 <= i < |rows[s]| ==>
              rows[s][i] == DbPolynomial.CenteredResidue(residues[s][i], modulus)
  {
    seq(|residues|, s requires 0 <= s < |residues| =>
        seq(|residues[s]|, i requires 0 <= i < |residues[s]| => DbPolynomial.CenteredResidue(residues[s][i], modulus)))
  }

  /** The scan after the slots `seen`: their first maximum, or the initial values while
      nothing has been seen. */
  ghost predicate BestSoFar(n: nat, seen: seq<int>, best: ClientQueryResult) {
    if seen == [] then best == ClientQueryResult(-1, -1, INT64_MIN)
    else
      && 0 <= best.splitIndex && 0 <= best.positionInSplit < n
      && FirstMax(seen, GlobalIndex(best.splitIndex, n, best.positionInSplit))
      && best.score == seen[GlobalIndex(best.splitIndex, n, best.positionInSplit)]
  }

  lemma ScanStep(seen: seq<int>, n: nat, s: nat, i: nat, x: int, best: ClientQueryResult)
    requires BestSoFar(n, seen, best) && i < n && |seen| == GlobalIndex(s, n, i) && x > INT64_MIN
    ensures BestSoFar(n, seen + [x], if x > best.score then ClientQueryResult(s, i, x) else best)
  {
    hide GlobalIndex;
    var next := if x > best.score then ClientQueryResult(s, i, x) else best;
    var all := seen + [x];
    if x > best.score {
      assert all[|seen|] == x;
      if seen != [] {
        assert forall j :: 0 <= j < |seen| ==> all[j] == seen[j] && seen[j] <= best.score;
      }
    } else {
      var k := GlobalIndex(best.splitIndex, n, best.positionInSplit);
      assert all[k] == seen[k];
      assert forall j :: 0 <= j < |seen| ==> all[j] == seen[j];
    }
  }

  lemma NextIndex(s: nat, n: nat, i: nat)
    ensures GlobalIndex(s, n, i + 1) == GlobalIndex(s, n, i) + 1
    ensures GlobalIndex(s, n, n) == GlobalIndex(s + 1, n, 0)
    ensures GlobalIndex(0, n, 0) == 0
  {
    assert (s + 1) * n == s * n + n;
  }

  /** The lexicographically first slot with the greatest decoded score, padding included; the
      initial values when the response has no slot. */
  method DecryptAndFindBest(residues: seq<seq<int>>, n: nat, modulus: int) returns (best: ClientQueryResult)
    requires 0 < modulus <= INT64_MAX && Rectangular(residues, n)
    requires forall s, i :: 0 <= s < |residues| && 0 <= i < n ==> 0 <= residues[s][i] < modulus
    ensures BestSoFar(n, Flat(SignedRows(residues, modulus)), best)
    ensures |residues| == 0 || n == 0 ==> best == ClientQueryResult(-1, -1, INT64_MIN)
    ensures |residues| > 0 && n > 0 ==> FirstBest(residues, n, modulus, best)
  {
    hide GlobalIndex, FirstMax, BestSoFar;
    ghost var rows := SignedRows(residues, modulus);
    best := ClientQueryResult(-1, -1, INT64_MIN);
    assert BestSoFar(n, [], best) by { ScanStart(n); }
    NextIndex(0, n, 0);
    for s := 0 to |residues|
      invariant BestSoFar(n, Flat(rows[..s]), best)
      invariant |Flat(rows[..s])| == GlobalIndex(s, n, 0)
    {
      var decoded := DbPolynomial.CenteredResidues(residues[s], modulus);
      assert decoded == rows[s];
      ghost var before := Flat(rows[..s]);
      assert before + decoded[..0] == before;
      for i := 0 to n
        invariant |before + decoded[..i]| == GlobalIndex(s, n, i)
        invariant BestSoFar(n, before + decoded[..i], best)
      {
        ghost var seen := before + decoded[..i];
        ScanStep(seen, n, s, i, decoded[i], best);
        NextIndex(s, n, i);
        assert before + decoded[..i + 1] == seen + [decoded[i]];
        if decoded[i] > best.score {
          best := ClientQueryResult(s, i, decoded[i]);
        }
      }
      NextIndex(s, n, n);
      assert decoded[..n] == decoded;
      assert rows[..s + 1][..s] == rows[..s];
    }
    assert rows[..|residues|] == rows;
    ScanSpelledOut(residues, n, modulus, best);
  }

  /** The result, spelled out: no slot decodes to more, and no earlier slot to as much. */
  ghost predicate FirstBest(residues: seq<seq<int>>, n: nat, modulus: int, best: ClientQueryResult)
    requires modulus > 0 && Rectangular(residues, n)
  {
    && 0 <= best.splitIndex < |residues| && 0 <= best.positionInSplit < n
    && best.score == DbPolynomial.CenteredResidue(residues[best.splitIndex][best.positionInSplit], modulus)
    && forall s, i :: 0 <= s < |residues| && 0 <= i < n ==>
         && DbPolynomial.CenteredResidue(residues[s][i], modulus) <= best.score
         && (s < best.splitIndex || (s == best.splitIndex && i < best.positionInSplit) ==>
               DbPolynomial.CenteredResidue(residues[s][i], modulus) < best.score)
  }

  lemma ScanSpelledOut(residues: seq<seq<int>>, n: nat, modulus: int, best: ClientQueryResult)
    requires modulus > 0 && Rectangular(residues, n)
    requires BestSoFar(n, Flat(SignedRows(residues, modulus)), best)
    ensures |residues| == 0 || n == 0 ==> best == ClientQueryResult(-1, -1, INT64_MIN)
    ensures |residues| > 0 && n > 0 ==> FirstBest(residues, n, modulus, best)
  {
    hide DbPolynomial.CenteredResidue, GlobalIndex, Flat;
    var rows := SignedRows(residues, modulus);
    var flat := Flat(rows);
    FlatLength(rows, n);
    SlotOrder(|residues|, n, 0, 0, 0);
    if |residues| > 0 && n > 0 {
      FlatAt(rows, n, 0, 0);
      var at, pos := best.splitIndex, best.positionInSplit;
      SlotOrder(|residues|, n, at, pos, 0);
      FlatAt(rows, n, at, pos);
      forall s, i | 0 <= s < |residues| && 0 <= i < n
        ensures DbPolynomial.CenteredResidue(residues[s][i], modulus) <= best.score
        ensures s < at || (s == at && i < pos) ==> DbPolynomial.CenteredResidue(residues[s][i], modulus) < best.score
      {
        FlatAt(rows, n, s, i);
        SlotOrder(at, n, s, i, pos);
      }
    }
  }

  /** Slots are numbered split by split. */
  lemma SlotOrder(splits: nat, n: nat, s: nat, i: nat, pos: nat)
    ensures GlobalIndex(splits, n, 0) == splits * n && GlobalIndex(splits, n, pos) == splits * n + pos
    ensures s >= splits ==> GlobalIndex(s, n, i) >= splits * n
    ensures s < splits && i < n ==> GlobalIndex(s, n, i) < splits * n
    ensures s == splits && i < pos ==> GlobalIndex(s, n, i) < GlobalIndex(splits, n, pos)
    ensures splits == 0 || n == 0 ==> splits * n == 0
  {
    if s >= splits {
      MulMonotone(splits, s, n);
    } else if i < n {
      FlatBound(s, i, n, splits);
    }
  }

  lemma ScanStart(n: nat)
    ensures BestSoFar(n, [], ClientQueryResult(-1, -1, INT64_MIN))
  {
  }
}
