/** The eligibility mask over a fibermap and the selection of the kept positions. */
module Selection {
  import opened SpectraModel

  /** A target is kept when its fibre status is good (0) and some target bit is set. */
  predicate Eligible(row: FibermapRow)
  {
    row.fiberStatus == 0 && row.desiTarget != 0
  }

  /** The element-wise keep-mask, one entry per fibermap row. */
  function Mask(fibermap: seq<FibermapRow>): seq<bool>
  {
    seq(|fibermap|, k requires 0 <= k < |fibermap| => Eligible(fibermap[k]))
  }

  predicate StrictlyIncreasing(s: seq<nat>)
  {
    forall i, j :: 0 <= i < j < |s| ==> s[i] < s[j]
  }

  /** The positions of the true entries of a one-dimensional mask, in increasing
      order: what numpy.where(mask)[0] returns. */
  function TrueIndices(mask: seq<bool>): (r: seq<nat>)
    ensures StrictlyIncreasing(r)
    ensures forall i :: 0 <= i < |r| ==> r[i] < |mask| && mask[r[i]]
    ensures forall k :: 0 <= k < |mask| && mask[k] ==> k in r
    decreases |mask|
  {
    if mask == [] then []
    else
      var n := |mask| - 1;
      TrueIndices(mask[..n]) + (if mask[n] then [n] else [])
  }

  /** The valid indices of a file: exactly the eligible fibermap positions, each once,
      in fibermap order. */
  function ValidIndices(fibermap: seq<FibermapRow>): (r: seq<nat>)
    ensures StrictlyIncreasing(r)
    ensures forall i :: 0 <= i < |r| ==> r[i] < |fibermap|
    ensures forall k :: 0 <= k < |fibermap| ==> (k in r <==> Eligible(fibermap[k]))
  {
    TrueIndices(Mask(fibermap))
  }

  /** Number of eligible rows of a fibermap. */
  function CountEligible(fibermap: seq<FibermapRow>): nat
  {
    if fibermap == [] then 0
    else CountEligible(fibermap[..|fibermap| - 1]) + (if Eligible(fibermap[|fibermap| - 1]) then 1 else 0)
  }

  /** There are as many valid indices as eligible rows. */
  lemma {:induction false} ValidIndicesCount(fibermap: seq<FibermapRow>)
    ensures |ValidIndices(fibermap)| == CountEligible(fibermap)
  {
    if fibermap != [] {
      var n := |fibermap| - 1;
      assert Mask(fibermap)[..n] == Mask(fibermap[..n]);
      ValidIndicesCount(fibermap[..n]);
    }
  }
}
