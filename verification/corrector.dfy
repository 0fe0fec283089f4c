/** The per-cutout correction as `_extract` performs it: the image, weight
    and bmask cutouts are arrays updated in place, step by step
    (ngmixer/imageio/extractor_corrector.py, lines 191-236). Each step is
    proved to leave the arrays holding what the matching function of
    module PixelPolicy computes. */
module Corrector {
  import opened Wrappers
  import opened MaskFlags
  import opened PixelPolicy

  /** The three cutout arrays have one pixel each per position, and the
      image and weight are different arrays. */
  predicate Shaped(img: array<real>, wt: array<real>, bm: array<Bits>)
  {
    img != wt && wt.Length == img.Length && bm.Length == img.Length
  }

  /** The current contents of the three arrays. */
  function Snap(img: array<real>, wt: array<real>, bm: array<Bits>): (c: Pixels)
    reads img, wt, bm
    requires Shaped(img, wt, bm)
    ensures c.WellFormed() && c.Size() == img.Length
  {
    Pixels(img[..], wt[..], bm[..])
  }

  /** Lines 195-199: `img -= nbrs_img*pixel_scale**2` and `weight *= nbrs_mask`
      when there is a neighbour image. */
  method SubtractNeighborsInPlace(r: Render, img: array<real>, wt: array<real>, bm: array<Bits>)
    requires Shaped(img, wt, bm) && r.Fits(img.Length)
    modifies img, wt
    ensures Snap(img, wt, bm) == SubtractNeighbors(old(Snap(img, wt, bm)), r)
  {
    ghost var s0 := Snap(img, wt, bm);
    ghost var t := SubtractNeighbors(s0, r);
    if r.WithNeighbors? {
      var i := 0;
      while i < img.Length
        invariant 0 <= i <= img.Length
        invariant forall j :: 0 <= j < i ==> img[j] == t.image[j] && wt[j] == t.weight[j]
        invariant forall j :: i <= j < img.Length ==> img[j] == s0.image[j] && wt[j] == s0.weight[j]
      {
        img[i] := img[i] - r.nbrsImage[i] * r.scale * r.scale;
        wt[i] := wt[i] * r.nbrsMask[i];
        i := i + 1;
      }
      assert img[..] == t.image && wt[..] == t.weight;
    }
  }

  /** Lines 206-210 and 226-227: whether some pixel is bad (`wbad[0].size > 0`) and
      whether some pixel's weight alone is at or below `min_weight`
      (`wwt[0].size > 0`); both masks are taken from the same arrays. */
  method ScanBad(img: array<real>, wt: array<real>, bm: array<Bits>, minWeight: real)
    returns (anyBad: bool, anyWeightBad: bool)
    requires Shaped(img, wt, bm)
    ensures anyBad <==> exists i :: 0 <= i < img.Length && (bm[i] != {} || wt[i] <= minWeight)
    ensures anyWeightBad <==> exists i :: 0 <= i < wt.Length && wt[i] <= minWeight
    ensures anyBad == AnyBad(Snap(img, wt, bm), minWeight)
    ensures anyWeightBad == AnyWeightBad(Snap(img, wt, bm), minWeight)
  {
    anyBad, anyWeightBad := false, false;
    var i := 0;
    while i < img.Length
      invariant 0 <= i <= img.Length
      invariant anyBad <==> exists j :: 0 <= j < i && (bm[j] != {} || wt[j] <= minWeight)
      invariant anyWeightBad <==> exists j :: 0 <= j < i && wt[j] <= minWeight
    {
      if wt[i] <= minWeight {
        anyWeightBad := true;
      }
      if bm[i] != {} || wt[i] <= minWeight {
        anyBad := true;
      }
      i := i + 1;
    }
    ghost var c := Snap(img, wt, bm);
    if anyBad {
      var j :| 0 <= j < img.Length && (bm[j] != {} || wt[j] <= minWeight);
      assert IsBad(c, minWeight, j);
    }
    if anyWeightBad {
      var j :| 0 <= j < wt.Length && wt[j] <= minWeight;
      assert WeightBad(c, minWeight, j);
    }
  }

  /** `weight.max()`. */
  method MaxOf(a: array<real>) returns (m: real)
    requires a.Length > 0
    ensures m == Max(a[..])
    ensures forall i :: 0 <= i < a.Length ==> a[i] <= m
    ensures exists i :: 0 <= i < a.Length && a[i] == m
  {
    m := a[0];
    var i := 1;
    assert a[..1] == [a[0]];
    while i < a.Length
      invariant 1 <= i <= a.Length
      invariant m == Max(a[..i])
    {
      assert a[..i + 1][..i] == a[..i];
      if a[i] > m {
        m := a[i];
      }
      i := i + 1;
    }
    assert a[..] == a[..a.Length];
  }

  /** Line 214: `bmask[wbad] |= CEN_MODEL_MISSING`. */
  method MarkMissingInPlace(img: array<real>, wt: array<real>, bm: array<Bits>, minWeight: real)
    requires Shaped(img, wt, bm)
    modifies bm
    ensures Snap(img, wt, bm) == MarkMissing(old(Snap(img, wt, bm)), minWeight)
  {
    ghost var s0 := Snap(img, wt, bm);
    ghost var t := MarkMissing(s0, minWeight);
    var i := 0;
    while i < bm.Length
      invariant 0 <= i <= bm.Length
      invariant forall j :: 0 <= j < i ==> bm[j] == t.bmask[j]
      invariant forall j :: i <= j < bm.Length ==> bm[j] == s0.bmask[j]
    {
      if bm[i] != {} || wt[i] <= minWeight {
        bm[i] := bm[i] + {CenModelMissing};
      }
      i := i + 1;
    }
    assert bm[..] == t.bmask;
  }

  /** Lines 217-221: `img[wbad] = scaled_cen[wbad]`. */
  method ReplaceFromCentralInPlace(cen: seq<real>, scale: real, img: array<real>, wt: array<real>, bm: array<Bits>, minWeight: real)
    requires Shaped(img, wt, bm) && |cen| == img.Length
    modifies img
    ensures Snap(img, wt, bm) == ReplaceFromCentral(old(Snap(img, wt, bm)), cen, scale, minWeight)
  {
    ghost var s0 := Snap(img, wt, bm);
    ghost var t := ReplaceFromCentral(s0, cen, scale, minWeight);
    var i := 0;
    while i < img.Length
      invariant 0 <= i <= img.Length
      invariant forall j :: 0 <= j < i ==> img[j] == t.image[j]
      invariant forall j :: i <= j < img.Length ==> img[j] == s0.image[j]
    {
      if bm[i] != {} || wt[i] <= minWeight {
        img[i] := cen[i] * scale * scale;
      }
      i := i + 1;
    }
    assert img[..] == t.image;
  }

  /** Line 225: `bmask[:,:] = 0`. */
  method ClearMaskInPlace(bm: array<Bits>)
    modifies bm
    ensures bm[..] == seq(bm.Length, i => {})
  {
    var i := 0;
    while i < bm.Length
      invariant 0 <= i <= bm.Length
      invariant forall j :: 0 <= j < i ==> bm[j] == {}
    {
      bm[i] := {};
      i := i + 1;
    }
  }

  /** Line 228: `weight[wwt] = m`, with `wwt` the pixels whose weight is at
      or below `min_weight`. */
  method RaiseWeightsInPlace(wt: array<real>, minWeight: real, m: real)
    modifies wt
    ensures wt[..] == RaiseWeights(old(wt[..]), minWeight, m)
  {
    ghost var w0 := wt[..];
    var i := 0;
    while i < wt.Length
      invariant 0 <= i <= wt.Length
      invariant forall j :: 0 <= j < i ==> wt[j] == (if w0[j] <= minWeight then m else w0[j])
      invariant forall j :: i <= j < wt.Length ==> wt[j] == w0[j]
    {
      if wt[i] <= minWeight {
        wt[i] := m;
      }
      i := i + 1;
    }
  }

  /** Lines 223-228: `bmask[:,:] = 0`, then every pixel whose weight is at
      or below `min_weight` gets the largest weight of the cutout.
      `anyWeightBad` is the `wwt` test, computed before the replacement. */
  method ResetInPlace(img: array<real>, wt: array<real>, bm: array<Bits>, minWeight: real, anyWeightBad: bool)
    requires Shaped(img, wt, bm)
    requires anyWeightBad <==> exists i :: 0 <= i < wt.Length && wt[i] <= minWeight
    modifies wt, bm
    ensures Snap(img, wt, bm) == ResetMaskAndWeight(old(Snap(img, wt, bm)), minWeight)
  {
    ghost var s0 := Snap(img, wt, bm);
    if anyWeightBad {
      var k :| 0 <= k < wt.Length && wt[k] <= minWeight;
      assert WeightBad(s0, minWeight, k);
    }
    assert anyWeightBad == AnyWeightBad(s0, minWeight);
    ClearMaskInPlace(bm);
    if anyWeightBad {
      var m := MaxOf(wt);
      RaiseWeightsInPlace(wt, minWeight, m);
    }
  }

  /** Lines 205-228, the `if self.replace_bad:` block. */
  method ReplaceBadInPlace(cfg: Config, r: Render, img: array<real>, wt: array<real>, bm: array<Bits>)
    requires Shaped(img, wt, bm) && r.Fits(img.Length)
    modifies img, wt, bm
    ensures Snap(img, wt, bm) == ReplaceBad(cfg, r, old(Snap(img, wt, bm)))
  {
    if cfg.replaceBad {
      var anyBad, anyWeightBad := ScanBad(img, wt, bm, cfg.minWeight);
      if anyBad {
        match r.Central()
        case None =>
          MarkMissingInPlace(img, wt, bm, cfg.minWeight);
        case Some(cen) =>
          ReplaceFromCentralInPlace(cen, r.scale, img, wt, bm, cfg.minWeight);
          if cfg.resetBmaskAndWeight {
            ResetInPlace(img, wt, bm, cfg.minWeight, anyWeightBad);
          }
      }
    }
  }

  /** Lines 231-236: outside reset mode, `bmask[w] |= NBRS_MASKED` where the
      neighbour mask is not 1. */
  method FlagContaminationInPlace(cfg: Config, r: Render, img: array<real>, wt: array<real>, bm: array<Bits>)
    requires Shaped(img, wt, bm) && r.Fits(img.Length)
    modifies bm
    ensures Snap(img, wt, bm) == FlagContamination(cfg, r, old(Snap(img, wt, bm)))
  {
    ghost var s0 := Snap(img, wt, bm);
    ghost var t := FlagContamination(cfg, r, s0);
    if !cfg.resetBmaskAndWeight && r.WithNeighbors? {
      var i := 0;
      while i < bm.Length
        invariant 0 <= i <= bm.Length
        invariant forall j :: 0 <= j < i ==> bm[j] == t.bmask[j]
        invariant forall j :: i <= j < bm.Length ==> bm[j] == s0.bmask[j]
      {
        if r.nbrsMask[i] != 1.0 {
          bm[i] := bm[i] + {NbrsMasked};
        }
        i := i + 1;
      }
      assert bm[..] == t.bmask;
    }
  }

  /** Lines 195-236: the whole correction of one cutout, in place. */
  method CorrectCutout(cfg: Config, r: Render, img: array<real>, wt: array<real>, bm: array<Bits>)
    requires Shaped(img, wt, bm) && r.Fits(img.Length)
    modifies img, wt, bm
    ensures Snap(img, wt, bm) == Correct(cfg, r, old(Snap(img, wt, bm)))
  {
    SubtractNeighborsInPlace(r, img, wt, bm);
    ReplaceBadInPlace(cfg, r, img, wt, bm);
    FlagContaminationInPlace(cfg, r, img, wt, bm);
  }
}
