/** The per-cutout pixel-correction policy of `MEDSExtractorCorrector._extract`
    (ngmixer/imageio/extractor_corrector.py, lines 191-236), as functions on
    the values of one cutout's three arrays. The imperative corrector in
    module Corrector is proved to compute `Correct`. */
module PixelPolicy {
  import opened Wrappers
  import opened MaskFlags

  /** Image, weight and bmask pixels in row-major order: one cutout, or the
      whole flat store of a MEDS file. */
  datatype Pixels = Pixels(image: seq<real>, weight: seq<real>, bmask: seq<Bits>)
  {
    predicate WellFormed()
    {
      |weight| == |image| && |bmask| == |image|
    }

    function Size(): nat
    {
      |image|
    }
  }

  /** The run options `replace_bad`, `reset_bmask_and_weight` and `min_weight`. */
  datatype Config = Config(replaceBad: bool, resetBmaskAndWeight: bool, minWeight: real)

  /** What the renderer produced for one cutout. `render_nbrs` either returns
      a bundle (whose central image is missing when the central fit failed) or
      nothing, in which case `render_central` either returns the central image
      or nothing. `scale` is the pixel scale; model fluxes are multiplied by
      its square to get pixel fluxes. */
  datatype Render =
    | NoModel
    | CentralOnly(cen: seq<real>, scale: real)
    | WithNeighbors(central: Option<seq<real>>, nbrsImage: seq<real>, nbrsMask: seq<real>, scale: real)
  {
    /** The central model image, if there is one. */
    function Central(): Option<seq<real>>
    {
      match this
      case NoModel => None
      case CentralOnly(c, _) => Some(c)
      case WithNeighbors(c, _, _, _) => c
    }

    /** Every image the renderer returned has the cutout's `n` pixels. */
    predicate Fits(n: nat)
    {
      match this
      case NoModel => true
      case CentralOnly(c, _) => |c| == n
      case WithNeighbors(c, img, mask, _) =>
        (c.Some? ==> |c.value| == n) && |img| == n && |mask| == n
    }
  }

  // ---------------------------------------------------------------------
  // Step 1: neighbour subtraction (lines 195-199)
  // ---------------------------------------------------------------------

  /** With a neighbour image, `img -= nbrs_img*pixel_scale**2` and
      `weight *= nbrs_mask`; without one, nothing changes. */
  function SubtractNeighbors(c: Pixels, r: Render): (d: Pixels)
    requires c.WellFormed() && r.Fits(c.Size())
    ensures d.WellFormed() && d.Size() == c.Size() && d.bmask == c.bmask
  {
    if r.WithNeighbors? then
      Pixels(seq(|c.image|, i requires 0 <= i < |c.image| => c.image[i] - r.nbrsImage[i] * r.scale * r.scale),
             seq(|c.weight|, i requires 0 <= i < |c.weight| => c.weight[i] * r.nbrsMask[i]),
             c.bmask)
    else
      c
  }

  // ---------------------------------------------------------------------
  // Step 2: bad-pixel detection (lines 206-210)
  // ---------------------------------------------------------------------

  /** `weight_logic`: the pixel's weight is at or below `min_weight`. */
  predicate WeightBad(c: Pixels, minWeight: real, i: int)
    requires 0 <= i < |c.weight|
  {
    c.weight[i] <= minWeight
  }

  /** `bmask_logic | weight_logic`. */
  predicate IsBad(c: Pixels, minWeight: real, i: int)
    requires c.WellFormed() && 0 <= i < c.Size()
  {
    c.bmask[i] != {} || WeightBad(c, minWeight, i)
  }

  /** `wbad[0].size > 0`. */
  predicate AnyBad(c: Pixels, minWeight: real)
    requires c.WellFormed()
  {
    exists i :: 0 <= i < c.Size() && IsBad(c, minWeight, i)
  }

  /** `wwt[0].size > 0`. */
  predicate AnyWeightBad(c: Pixels, minWeight: real)
  {
    exists i :: 0 <= i < |c.weight| && WeightBad(c, minWeight, i)
  }

  // ---------------------------------------------------------------------
  // Step 3 and 4: replacement or flagging, optional reset (lines 210-228)
  // ---------------------------------------------------------------------

  /** `numpy.max` of a non-empty array. */
  function Max(s: seq<real>): (m: real)
    requires |s| > 0
    ensures forall i :: 0 <= i < |s| ==> s[i] <= m
    ensures exists i :: 0 <= i < |s| && s[i] == m
  {
    if |s| == 1 then s[0]
    else
      var m := Max(s[..|s| - 1]);
      assert forall i :: 0 <= i < |s| - 1 ==> s[..|s| - 1][i] == s[i];
      if s[|s| - 1] > m then s[|s| - 1] else m
  }

  /** `bmask[wbad] |= CEN_MODEL_MISSING`. */
  function MarkMissing(c: Pixels, minWeight: real): (d: Pixels)
    requires c.WellFormed()
    ensures d.WellFormed() && d.Size() == c.Size()
    ensures d.image == c.image && d.weight == c.weight
  {
    c.(bmask := seq(|c.bmask|, i requires 0 <= i < |c.bmask| =>
                    if IsBad(c, minWeight, i) then c.bmask[i] + {CenModelMissing} else c.bmask[i]))
  }

  /** `img[wbad] = scaled_cen[wbad]` with `scaled_cen = cen_img*pixel_scale**2`. */
  function ReplaceFromCentral(c: Pixels, cen: seq<real>, scale: real, minWeight: real): (d: Pixels)
    requires c.WellFormed() && |cen| == c.Size()
    ensures d.WellFormed() && d.Size() == c.Size()
    ensures d.weight == c.weight && d.bmask == c.bmask
  {
    c.(image := seq(|c.image|, i requires 0 <= i < |c.image| =>
                    if IsBad(c, minWeight, i) then cen[i] * scale * scale else c.image[i]))
  }

  /** `weight[wwt] = m`: every weight at or below `min_weight` becomes `m`. */
  function RaiseWeights(w: seq<real>, minWeight: real, m: real): (v: seq<real>)
    ensures |v| == |w|
  {
    seq(|w|, i requires 0 <= i < |w| => if w[i] <= minWeight then m else w[i])
  }

  /** `bmask[:,:] = 0`, then, if some weight is at or below `min_weight`,
      `weight[wwt] = weight.max()`. */
  function ResetMaskAndWeight(c: Pixels, minWeight: real): (d: Pixels)
    requires c.WellFormed()
    ensures d.WellFormed() && d.Size() == c.Size()
    ensures d.image == c.image
  {
    var w := if AnyWeightBad(c, minWeight) then RaiseWeights(c.weight, minWeight, Max(c.weight)) else c.weight;
    Pixels(c.image, w, seq(|c.bmask|, i => {}))
  }

  /** The `if self.replace_bad:` block. */
  function ReplaceBad(cfg: Config, r: Render, c: Pixels): (d: Pixels)
    requires c.WellFormed() && r.Fits(c.Size())
    ensures d.WellFormed() && d.Size() == c.Size()
    ensures !cfg.replaceBad || !AnyBad(c, cfg.minWeight) ==> d == c
  {
    if !cfg.replaceBad || !AnyBad(c, cfg.minWeight) then c
    else
      match r.Central()
      case None => MarkMissing(c, cfg.minWeight)
      case Some(cen) =>
        var d := ReplaceFromCentral(c, cen, r.scale, cfg.minWeight);
        if cfg.resetBmaskAndWeight then ResetMaskAndWeight(d, cfg.minWeight) else d
  }

  // ---------------------------------------------------------------------
  // Step 5: neighbour-contamination flagging (lines 231-236)
  // ---------------------------------------------------------------------

  /** Outside reset mode and with a neighbour mask, `bmask[w] |= NBRS_MASKED`
      where `nbrs_mask != 1`. */
  function FlagContamination(cfg: Config, r: Render, c: Pixels): (d: Pixels)
    requires c.WellFormed() && r.Fits(c.Size())
    ensures d.WellFormed() && d.Size() == c.Size()
    ensures d.image == c.image && d.weight == c.weight
  {
    if !cfg.resetBmaskAndWeight && r.WithNeighbors? then
      c.(bmask := seq(|c.bmask|, i requires 0 <= i < |c.bmask| =>
                      if r.nbrsMask[i] != 1.0 then c.bmask[i] + {NbrsMasked} else c.bmask[i]))
    else c
  }

  /** The whole correction of one cutout, steps in the source's order. */
  function Correct(cfg: Config, r: Render, c: Pixels): (d: Pixels)
    requires c.WellFormed() && r.Fits(c.Size())
    ensures d.WellFormed() && d.Size() == c.Size()
  {
    FlagContamination(cfg, r, ReplaceBad(cfg, r, SubtractNeighbors(c, r)))
  }
}
