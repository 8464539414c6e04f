/** Concatenation of the three spectrograph bands, always in the order b, r, z. */
module Bands {

  function Min3(a: nat, b: nat, c: nat): nat
  {
    if a <= b && a <= c then a else if b <= c then b else c
  }

  /** numpy.concatenate([b, r, z]) on one-dimensional arrays. */
  function Concat3<T>(b: seq<T>, r: seq<T>, z: seq<T>): (brz: seq<T>)
    ensures |brz| == |b| + |r| + |z|
  {
    b + r + z
  }

  /** Cuts a concatenated array back into its three bands, given the b and r lengths. */
  function Split3<T>(brz: seq<T>, nb: nat, nr: nat): (bands: (seq<T>, seq<T>, seq<T>))
    requires nb + nr <= |brz|
    ensures |bands.0| == nb && |bands.1| == nr && |bands.2| == |brz| - nb - nr
  {
    (brz[..nb], brz[nb..nb + nr], brz[nb + nr..])
  }

  /** Splitting a concatenation at the band lengths gives the bands back. */
  lemma SplitConcat<T>(b: seq<T>, r: seq<T>, z: seq<T>)
    ensures Split3(Concat3(b, r, z), |b|, |r|) == (b, r, z)
  {
    var brz := Concat3(b, r, z);
    assert brz[..|b|] == b;
    assert brz[|b|..|b| + |r|] == r;
    assert brz[|b| + |r|..] == z;
  }

  /** Concatenating the split bands gives the array back. */
  lemma ConcatSplit<T>(brz: seq<T>, nb: nat, nr: nat)
    requires nb + nr <= |brz|
    ensures var bands := Split3(brz, nb, nr); Concat3(bands.0, bands.1, bands.2) == brz
  {
  }

  /** The per-target concatenation [concatenate([b, r, z]) for b, r, z in zip(fb, fr, fz)]:
      zip stops at the shortest band, so there are as many rows as in the shortest. */
  function ZipConcat<T>(fb: seq<seq<T>>, fr: seq<seq<T>>, fz: seq<seq<T>>): (brz: seq<seq<T>>)
    ensures |brz| == Min3(|fb|, |fr|, |fz|)
    ensures forall i :: 0 <= i < |brz| ==> brz[i] == fb[i] + fr[i] + fz[i]
    decreases |fb|
  {
    if fb == [] || fr == [] || fz == [] then []
    else [Concat3(fb[0], fr[0], fz[0])] + ZipConcat(fb[1..], fr[1..], fz[1..])
  }
}
