/** Totals, and where the rows of a ragged table start when it is read row after row. */
module Ragged {

  ghost function Total(xs: seq<nat>): nat {
    if |xs| == 0 then 0 else Total(xs[..|xs| - 1]) + xs[|xs| - 1]
  }

  /** The number of items in the first `v` rows. */
  ghost function RowStart<T>(rows: seq<seq<T>>, v: nat): nat
    requires v <= |rows|
  {
    if v == 0 then 0 else RowStart(rows, v - 1) + |rows[v - 1]|
  }

  lemma RowStarts<T>(rows: seq<seq<T>>, v: nat)
    requires v <= |rows|
    ensures RowStart(rows, 0) == 0
    ensures v < |rows| ==> RowStart(rows, v + 1) == RowStart(rows, v) + |rows[v]|
  {
  }

  lemma {:induction false} UniformRowStart<T>(rows: seq<seq<T>>, width: nat, v: nat)
    requires v <= |rows| && forall u :: 0 <= u < |rows| ==> |rows[u]| == width
    ensures RowStart(rows, v) == v * width
  {
    if v == 0 {
    } else {
      UniformRowStart(rows, width, v - 1);
      assert v * width == (v - 1) * width + width;
    }
  }
}
