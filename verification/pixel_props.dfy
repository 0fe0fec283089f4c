/** What the pixel-correction policy guarantees, stated on the raw inputs of
    one cutout (ngmixer/imageio/extractor_corrector.py, lines 191-236). */
module PixelProps {
  import opened Wrappers
  import opened MaskFlags
  import opened PixelPolicy

  /** Neighbour flux removed at pixel `i`; zero when there is no neighbour image. */
  function NbrsFluxAt(r: Render, i: int): real
    requires r.WithNeighbors? ==> 0 <= i < |r.nbrsImage|
  {
    if r.WithNeighbors? then r.nbrsImage[i] * r.scale * r.scale else 0.0
  }

  /** The weight of pixel `i` once the neighbour mask has been applied. */
  function MaskedWeight(c: Pixels, r: Render, i: int): real
    requires r.WithNeighbors? ==> 0 <= i < |r.nbrsMask|
    requires 0 <= i < |c.weight|
  {
    if r.WithNeighbors? then c.weight[i] * r.nbrsMask[i] else c.weight[i]
  }

  /** Pixel `i` is bad as the replacement step sees it: a bmask bit is set, or
      its weight after neighbour masking is at or below `min_weight`. */
  predicate BadAfterNbrs(cfg: Config, r: Render, c: Pixels, i: int)
    requires c.WellFormed() && r.Fits(c.Size()) && 0 <= i < c.Size()
  {
    c.bmask[i] != {} || MaskedWeight(c, r, i) <= cfg.minWeight
  }

  predicate SomeBadAfterNbrs(cfg: Config, r: Render, c: Pixels)
    requires c.WellFormed() && r.Fits(c.Size())
  {
    exists i :: 0 <= i < c.Size() && BadAfterNbrs(cfg, r, c, i)
  }

  /** The replacement runs and there is no central image: CEN_MODEL_MISSING is flagged. */
  predicate FlagsMissing(cfg: Config, r: Render, c: Pixels)
    requires c.WellFormed() && r.Fits(c.Size())
  {
    cfg.replaceBad && r.Central().None? && SomeBadAfterNbrs(cfg, r, c)
  }

  /** The reset branch runs: replacement from a central image in reset mode. */
  predicate Resets(cfg: Config, r: Render, c: Pixels)
    requires c.WellFormed() && r.Fits(c.Size())
  {
    cfg.replaceBad && cfg.resetBmaskAndWeight && r.Central().Some? && SomeBadAfterNbrs(cfg, r, c)
  }

  /** Step 1 seen pixel by pixel. */
  lemma SubtractNeighborsAt(c: Pixels, r: Render, minWeight: real, i: int)
    requires c.WellFormed() && r.Fits(c.Size()) && 0 <= i < c.Size()
    ensures SubtractNeighbors(c, r).image[i] == c.image[i] - NbrsFluxAt(r, i)
    ensures SubtractNeighbors(c, r).weight[i] == MaskedWeight(c, r, i)
    ensures IsBad(SubtractNeighbors(c, r), minWeight, i) <==> BadAfterNbrs(Config(false, false, minWeight), r, c, i)
  {
  }

  /** The bad set seen by step 3 is the one computed from the raw inputs. */
  lemma AnyBadAfterSubtraction(cfg: Config, r: Render, c: Pixels)
    requires c.WellFormed() && r.Fits(c.Size())
    ensures AnyBad(SubtractNeighbors(c, r), cfg.minWeight) <==> SomeBadAfterNbrs(cfg, r, c)
    ensures forall i :: 0 <= i < c.Size() ==>
              (IsBad(SubtractNeighbors(c, r), cfg.minWeight, i) <==> BadAfterNbrs(cfg, r, c, i))
  {
    forall i | 0 <= i < c.Size()
      ensures IsBad(SubtractNeighbors(c, r), cfg.minWeight, i) <==> BadAfterNbrs(cfg, r, c, i)
    {
      SubtractNeighborsAt(c, r, cfg.minWeight, i);
    }
  }

  /** Final image: the scaled central model exactly at the bad pixels when
      replacement runs with a central image, the neighbour-subtracted value
      everywhere else. */
  lemma CorrectImage(cfg: Config, r: Render, c: Pixels, i: int)
    requires c.WellFormed() && r.Fits(c.Size()) && 0 <= i < c.Size()
    ensures Correct(cfg, r, c).image[i] ==
              if cfg.replaceBad && r.Central().Some? && BadAfterNbrs(cfg, r, c, i)
              then r.Central().value[i] * r.scale * r.scale
              else c.image[i] - NbrsFluxAt(r, i)
  {
    var s := SubtractNeighbors(c, r);
    SubtractNeighborsAt(c, r, cfg.minWeight, i);
    AnyBadAfterSubtraction(cfg, r, c);
    assert Correct(cfg, r, c).image == ReplaceBad(cfg, r, s).image;
  }

  /** Final weight: the masked weight, except that the reset branch raises
      every pixel whose masked weight is at or below `min_weight` to the
      cutout's largest masked weight. */
  lemma CorrectWeight(cfg: Config, r: Render, c: Pixels, i: int)
    requires c.WellFormed() && r.Fits(c.Size()) && 0 <= i < c.Size()
    ensures !(Resets(cfg, r, c) && MaskedWeight(c, r, i) <= cfg.minWeight) ==>
              Correct(cfg, r, c).weight[i] == MaskedWeight(c, r, i)
    ensures Resets(cfg, r, c) && MaskedWeight(c, r, i) <= cfg.minWeight ==>
              (forall j :: 0 <= j < c.Size() ==> MaskedWeight(c, r, j) <= Correct(cfg, r, c).weight[i]) &&
              (exists j :: 0 <= j < c.Size() && MaskedWeight(c, r, j) == Correct(cfg, r, c).weight[i])
  {
    var s := SubtractNeighbors(c, r);
    AnyBadAfterSubtraction(cfg, r, c);
    forall j | 0 <= j < c.Size() ensures s.weight[j] == MaskedWeight(c, r, j) {
      SubtractNeighborsAt(c, r, cfg.minWeight, j);
    }
    assert Correct(cfg, r, c).weight == ReplaceBad(cfg, r, s).weight;
    if Resets(cfg, r, c) {
      var cen := r.Central().value;
      var t := ReplaceFromCentral(s, cen, r.scale, cfg.minWeight);
      assert t.weight == s.weight;
      assert ReplaceBad(cfg, r, s) == ResetMaskAndWeight(t, cfg.minWeight);
      if MaskedWeight(c, r, i) <= cfg.minWeight {
        assert WeightBad(t, cfg.minWeight, i);
        assert AnyWeightBad(t, cfg.minWeight);
        var m := Max(t.weight);
        assert ResetMaskAndWeight(t, cfg.minWeight).weight[i] == m;
      }
    }
  }

  /** The bmask after step 3 and 4 (before contamination flagging). */
  lemma ReplaceBadBmask(cfg: Config, r: Render, c: Pixels, i: int)
    requires c.WellFormed() && r.Fits(c.Size()) && 0 <= i < c.Size()
    ensures ReplaceBad(cfg, r, SubtractNeighbors(c, r)).bmask[i] ==
              if Resets(cfg, r, c) then {}
              else if MissingAt(cfg, r, c, i) then c.bmask[i] + {CenModelMissing}
              else c.bmask[i]
  {
    var s := SubtractNeighbors(c, r);
    AnyBadAfterSubtraction(cfg, r, c);
    if cfg.replaceBad && AnyBad(s, cfg.minWeight) {
      match r.Central()
      case None =>
        assert ReplaceBad(cfg, r, s) == MarkMissing(s, cfg.minWeight);
      case Some(cen) =>
        var t := ReplaceFromCentral(s, cen, r.scale, cfg.minWeight);
        assert t.bmask == s.bmask;
    }
  }

  /** Step 5 seen pixel by pixel. */
  lemma FlagContaminationAt(cfg: Config, r: Render, t: Pixels, i: int)
    requires t.WellFormed() && r.Fits(t.Size()) && 0 <= i < t.Size()
    ensures FlagContamination(cfg, r, t).bmask[i] == SetIf(t.bmask[i], ContaminatedAt(cfg, r, i), NbrsMasked)
  {
  }

  /** CEN_MODEL_MISSING is OR-ed into pixel `i`. */
  predicate MissingAt(cfg: Config, r: Render, c: Pixels, i: int)
    requires c.WellFormed() && r.Fits(c.Size()) && 0 <= i < c.Size()
  {
    FlagsMissing(cfg, r, c) && BadAfterNbrs(cfg, r, c, i)
  }

  /** NBRS_MASKED is OR-ed into pixel `i`. */
  predicate ContaminatedAt(cfg: Config, r: Render, i: int)
    requires r.WithNeighbors? ==> 0 <= i < |r.nbrsMask|
  {
    !cfg.resetBmaskAndWeight && r.WithNeighbors? && r.nbrsMask[i] != 1.0
  }

  /** Final bmask: all zero after the reset branch; otherwise the input bits,
      plus CEN_MODEL_MISSING at the bad pixels when there is no central image
      to repair them, plus NBRS_MASKED wherever the neighbour mask is not 1
      outside reset mode. */
  lemma CorrectBmask(cfg: Config, r: Render, c: Pixels, i: int)
    requires c.WellFormed() && r.Fits(c.Size()) && 0 <= i < c.Size()
    ensures Resets(cfg, r, c) ==> Correct(cfg, r, c).bmask[i] == {}
    ensures !Resets(cfg, r, c) ==>
              Correct(cfg, r, c).bmask[i] ==
                SetIf(SetIf(c.bmask[i], MissingAt(cfg, r, c, i), CenModelMissing), ContaminatedAt(cfg, r, i), NbrsMasked)
  {
    var t := ReplaceBad(cfg, r, SubtractNeighbors(c, r));
    ReplaceBadBmask(cfg, r, c, i);
    FlagContaminationAt(cfg, r, t, i);
  }

  // ---------------------------------------------------------------------
  // Consequences
  // ---------------------------------------------------------------------

  /** A cutout the renderer has nothing for is left exactly as it was if and
      only if replacement is off, or every bad pixel already carries
      CEN_MODEL_MISSING: otherwise that bit is OR-ed in at the bad pixels. */
  lemma NoModelPassThrough(cfg: Config, c: Pixels)
    requires c.WellFormed()
    ensures Correct(cfg, NoModel, c) == c <==>
              (!cfg.replaceBad ||
               forall i :: 0 <= i < c.Size() && IsBad(c, cfg.minWeight, i) ==> CenModelMissing in c.bmask[i])
  {
    var d := Correct(cfg, NoModel, c);
    var ok := !cfg.replaceBad ||
              forall i :: 0 <= i < c.Size() && IsBad(c, cfg.minWeight, i) ==> CenModelMissing in c.bmask[i];
    forall i | 0 <= i < c.Size()
      ensures d.image[i] == c.image[i] && d.weight[i] == c.weight[i]
      ensures d.bmask[i] == SetIf(c.bmask[i], MissingAt(cfg, NoModel, c, i), CenModelMissing)
      ensures IsBad(c, cfg.minWeight, i) <==> BadAfterNbrs(cfg, NoModel, c, i)
    {
      CorrectImage(cfg, NoModel, c, i);
      CorrectWeight(cfg, NoModel, c, i);
      CorrectBmask(cfg, NoModel, c, i);
    }
    if ok {
      forall i | 0 <= i < c.Size() ensures d.bmask[i] == c.bmask[i] {
        if MissingAt(cfg, NoModel, c, i) {
          assert c.bmask[i] + {CenModelMissing} == c.bmask[i];
        }
      }
      assert d.image == c.image && d.weight == c.weight && d.bmask == c.bmask;
    } else {
      var i :| 0 <= i < c.Size() && IsBad(c, cfg.minWeight, i) && CenModelMissing !in c.bmask[i];
      assert MissingAt(cfg, NoModel, c, i);
      assert CenModelMissing in d.bmask[i];
    }
  }

  /** Replacement on, some bad pixel, no central image: the image only loses
      the neighbour flux, CEN_MODEL_MISSING ends up set exactly at the bad
      pixels (and where it already was), and no other bit changes except
      NBRS_MASKED. */
  lemma MissingCentralFlagsBadPixels(cfg: Config, r: Render, c: Pixels)
    requires c.WellFormed() && r.Fits(c.Size())
    requires cfg.replaceBad && r.Central().None? && SomeBadAfterNbrs(cfg, r, c)
    ensures forall i :: 0 <= i < c.Size() ==>
              Correct(cfg, r, c).image[i] == c.image[i] - NbrsFluxAt(r, i)
    ensures forall i :: 0 <= i < c.Size() ==>
              (CenModelMissing in Correct(cfg, r, c).bmask[i] <==>
                 BadAfterNbrs(cfg, r, c, i) || CenModelMissing in c.bmask[i])
    ensures forall i :: 0 <= i < c.Size() ==>
              Correct(cfg, r, c).bmask[i] - {NbrsMasked, CenModelMissing} == c.bmask[i] - {NbrsMasked, CenModelMissing}
  {
    forall i | 0 <= i < c.Size()
      ensures Correct(cfg, r, c).image[i] == c.image[i] - NbrsFluxAt(r, i)
      ensures CenModelMissing in Correct(cfg, r, c).bmask[i] <==>
                BadAfterNbrs(cfg, r, c, i) || CenModelMissing in c.bmask[i]
      ensures Correct(cfg, r, c).bmask[i] - {NbrsMasked, CenModelMissing} == c.bmask[i] - {NbrsMasked, CenModelMissing}
    {
      CorrectImage(cfg, r, c, i);
      CorrectBmask(cfg, r, c, i);
    }
  }

  /** Replacement on and a central image: the bad pixels take the scaled
      central model and every other pixel keeps its neighbour-subtracted value. */
  lemma CentralReplacesExactlyBadPixels(cfg: Config, r: Render, c: Pixels)
    requires c.WellFormed() && r.Fits(c.Size())
    requires cfg.replaceBad && r.Central().Some?
    ensures forall i :: 0 <= i < c.Size() && BadAfterNbrs(cfg, r, c, i) ==>
              Correct(cfg, r, c).image[i] == r.Central().value[i] * r.scale * r.scale
    ensures forall i :: 0 <= i < c.Size() && !BadAfterNbrs(cfg, r, c, i) ==>
              Correct(cfg, r, c).image[i] == c.image[i] - NbrsFluxAt(r, i)
  {
    forall i | 0 <= i < c.Size() {
      CorrectImage(cfg, r, c, i);
    }
  }

  /** The reset branch is reached only with replacement on, a central image
      and at least one bad pixel; when it is, the whole bmask is cleared and a
      pixel that is bad only through its bmask keeps its weight. */
  lemma ResetOnlyAfterReplacement(cfg: Config, r: Render, c: Pixels)
    requires c.WellFormed() && r.Fits(c.Size())
    ensures (exists i :: 0 <= i < c.Size() && Correct(cfg, r, c).weight[i] != MaskedWeight(c, r, i)) ==>
              cfg.replaceBad && cfg.resetBmaskAndWeight && r.Central().Some? && SomeBadAfterNbrs(cfg, r, c)
    ensures Resets(cfg, r, c) ==> forall i :: 0 <= i < c.Size() ==> Correct(cfg, r, c).bmask[i] == {}
    ensures Resets(cfg, r, c) ==>
              forall i :: 0 <= i < c.Size() && MaskedWeight(c, r, i) > cfg.minWeight ==>
                Correct(cfg, r, c).weight[i] == MaskedWeight(c, r, i)
  {
    forall i | 0 <= i < c.Size()
      ensures Correct(cfg, r, c).weight[i] != MaskedWeight(c, r, i) ==> Resets(cfg, r, c)
      ensures Resets(cfg, r, c) ==> Correct(cfg, r, c).bmask[i] == {}
      ensures Resets(cfg, r, c) && MaskedWeight(c, r, i) > cfg.minWeight ==>
                Correct(cfg, r, c).weight[i] == MaskedWeight(c, r, i)
    {
      CorrectWeight(cfg, r, c, i);
      CorrectBmask(cfg, r, c, i);
    }
  }

  /** Outside reset mode with a neighbour mask, NBRS_MASKED is set exactly
      where the mask is not 1 (or where it was already set); in reset mode,
      or without neighbours, the corrector never sets it. */
  lemma ContaminationFlag(cfg: Config, r: Render, c: Pixels, i: int)
    requires c.WellFormed() && r.Fits(c.Size()) && 0 <= i < c.Size()
    ensures !cfg.resetBmaskAndWeight && r.WithNeighbors? ==>
              (NbrsMasked in Correct(cfg, r, c).bmask[i] <==> r.nbrsMask[i] != 1.0 || NbrsMasked in c.bmask[i])
    ensures cfg.resetBmaskAndWeight || !r.WithNeighbors? ==>
              (NbrsMasked in Correct(cfg, r, c).bmask[i] ==> NbrsMasked in c.bmask[i])
  {
    CorrectBmask(cfg, r, c, i);
  }

  /** A neighbour mask that is zero everywhere zeroes the whole weight map
      (the reset cannot raise it, since its maximum is then zero), and with
      a `min_weight` of at least zero every pixel is bad; with replacement on
      and a central image the whole image becomes the scaled central model. */
  lemma FullyMaskedNeighbour(cfg: Config, r: Render, c: Pixels)
    requires c.WellFormed() && r.Fits(c.Size()) && cfg.minWeight >= 0.0
    requires r.WithNeighbors? && forall i :: 0 <= i < |r.nbrsMask| ==> r.nbrsMask[i] == 0.0
    ensures forall i :: 0 <= i < c.Size() ==> BadAfterNbrs(cfg, r, c, i)
    ensures forall i :: 0 <= i < c.Size() ==> Correct(cfg, r, c).weight[i] == 0.0
    ensures cfg.replaceBad && r.central.Some? ==>
              forall i :: 0 <= i < c.Size() ==> Correct(cfg, r, c).image[i] == r.central.value[i] * r.scale * r.scale
  {
    forall i | 0 <= i < c.Size()
      ensures BadAfterNbrs(cfg, r, c, i)
      ensures Correct(cfg, r, c).weight[i] == 0.0
      ensures cfg.replaceBad && r.central.Some? ==> Correct(cfg, r, c).image[i] == r.central.value[i] * r.scale * r.scale
    {
      assert MaskedWeight(c, r, i) == 0.0;
      CorrectWeight(cfg, r, c, i);
      CorrectImage(cfg, r, c, i);
      if Resets(cfg, r, c) {
        var j :| 0 <= j < c.Size() && MaskedWeight(c, r, j) == Correct(cfg, r, c).weight[i];
        assert MaskedWeight(c, r, j) == 0.0;
      }
    }
  }

  /** Without neighbours and outside the reset branch, a second pass sees the
      same bad pixels and repeats the same replacement or flag. */
  lemma IdempotentWithoutReset(cfg: Config, r: Render, c: Pixels)
    requires c.WellFormed() && r.Fits(c.Size()) && !r.WithNeighbors? && !Resets(cfg, r, c)
    ensures Correct(cfg, r, Correct(cfg, r, c)) == Correct(cfg, r, c)
  {
    var d := Correct(cfg, r, c);
    var e := Correct(cfg, r, d);
    forall i | 0 <= i < c.Size()
      ensures d.weight[i] == c.weight[i]
      ensures d.bmask[i] == SetIf(c.bmask[i], MissingAt(cfg, r, c, i), CenModelMissing)
      ensures BadAfterNbrs(cfg, r, d, i) <==> BadAfterNbrs(cfg, r, c, i)
    {
      CorrectWeight(cfg, r, c, i);
      CorrectBmask(cfg, r, c, i);
    }
    assert SomeBadAfterNbrs(cfg, r, d) <==> SomeBadAfterNbrs(cfg, r, c);
    assert !Resets(cfg, r, d);
    forall i | 0 <= i < c.Size()
      ensures e.image[i] == d.image[i] && e.weight[i] == d.weight[i] && e.bmask[i] == d.bmask[i]
    {
      CorrectImage(cfg, r, c, i);
      CorrectImage(cfg, r, d, i);
      CorrectWeight(cfg, r, d, i);
      CorrectBmask(cfg, r, d, i);
      assert MissingAt(cfg, r, d, i) == MissingAt(cfg, r, c, i);
    }
    assert e.image == d.image && e.weight == d.weight && e.bmask == d.bmask;
  }

  /** Without neighbours, a cutout with no bad pixel passes through unchanged. */
  lemma NoBadPixelsUnchanged(cfg: Config, r: Render, d: Pixels)
    requires d.WellFormed() && r.Fits(d.Size()) && !r.WithNeighbors? && !SomeBadAfterNbrs(cfg, r, d)
    ensures Correct(cfg, r, d) == d
  {
    var e := Correct(cfg, r, d);
    forall i | 0 <= i < d.Size()
      ensures e.image[i] == d.image[i] && e.weight[i] == d.weight[i] && e.bmask[i] == d.bmask[i]
    {
      CorrectImage(cfg, r, d, i);
      CorrectWeight(cfg, r, d, i);
      CorrectBmask(cfg, r, d, i);
    }
    assert e.image == d.image && e.weight == d.weight && e.bmask == d.bmask;
  }

  /** The weights and bmask the reset branch leaves behind, without
      neighbours: a clear bmask, and every weight-bad pixel raised to a
      weight of the cutout that bounds all of its weights. */
  lemma ResetWeights(cfg: Config, r: Render, c: Pixels)
    requires c.WellFormed() && r.Fits(c.Size()) && !r.WithNeighbors? && Resets(cfg, r, c)
    ensures forall i :: 0 <= i < c.Size() ==> Correct(cfg, r, c).bmask[i] == {}
    ensures forall i :: 0 <= i < c.Size() && c.weight[i] > cfg.minWeight ==>
              Correct(cfg, r, c).weight[i] == c.weight[i]
    ensures forall i, j :: 0 <= i < c.Size() && 0 <= j < c.Size() && c.weight[i] <= cfg.minWeight ==>
              c.weight[j] <= Correct(cfg, r, c).weight[i]
    ensures forall i :: 0 <= i < c.Size() && c.weight[i] <= cfg.minWeight ==>
              exists j :: 0 <= j < c.Size() && c.weight[j] == Correct(cfg, r, c).weight[i]
  {
    var d := Correct(cfg, r, c);
    assert forall j :: 0 <= j < c.Size() ==> MaskedWeight(c, r, j) == c.weight[j];
    forall i | 0 <= i < c.Size()
      ensures d.bmask[i] == {}
      ensures c.weight[i] > cfg.minWeight ==> d.weight[i] == c.weight[i]
      ensures c.weight[i] <= cfg.minWeight ==>
                (forall j :: 0 <= j < c.Size() ==> c.weight[j] <= d.weight[i]) &&
                (exists j :: 0 <= j < c.Size() && c.weight[j] == d.weight[i])
    {
      CorrectWeight(cfg, r, c, i);
      CorrectBmask(cfg, r, c, i);
    }
  }

  /** After the reset branch, without neighbours, a pixel that is still bad
      means every input pixel was weight-bad and every output weight is the
      same value. */
  lemma StillBadAfterReset(cfg: Config, r: Render, c: Pixels, k: int)
    requires c.WellFormed() && r.Fits(c.Size()) && !r.WithNeighbors? && Resets(cfg, r, c)
    requires 0 <= k < c.Size() && BadAfterNbrs(cfg, r, Correct(cfg, r, c), k)
    ensures Correct(cfg, r, c).weight[k] <= cfg.minWeight
    ensures forall i :: 0 <= i < c.Size() ==> BadAfterNbrs(cfg, r, c, i)
    ensures forall i :: 0 <= i < c.Size() ==>
              Correct(cfg, r, c).bmask[i] == {} && Correct(cfg, r, c).weight[i] == Correct(cfg, r, c).weight[k]
  {
    ResetWeights(cfg, r, c);
    RaisedWeightsUniform(c.weight, Correct(cfg, r, c).weight, cfg.minWeight, k);
  }

  /** If every weight at or below `t` was raised to some weight of `w` that
      bounds all of `w`, and a raised weight is still at or below `t`, then
      all of `w` was at or below `t` and all raised weights are equal. */
  lemma RaisedWeightsUniform(w: seq<real>, v: seq<real>, t: real, k: int)
    requires |v| == |w| && 0 <= k < |v| && v[k] <= t
    requires forall i :: 0 <= i < |w| && w[i] > t ==> v[i] == w[i]
    requires forall i, j :: 0 <= i < |w| && 0 <= j < |w| && w[i] <= t ==> w[j] <= v[i]
    requires forall i :: 0 <= i < |w| && w[i] <= t ==> exists j :: 0 <= j < |w| && w[j] == v[i]
    ensures forall i :: 0 <= i < |w| ==> w[i] <= t && v[i] == v[k]
  {
    assert w[k] <= t;
    forall i | 0 <= i < |w| ensures w[i] <= t && v[i] == v[k] {
      assert w[i] <= v[k];
      var a :| 0 <= a < |w| && w[a] == v[i];
      var b :| 0 <= b < |w| && w[b] == v[k];
      assert v[i] <= v[k] && v[k] <= v[i];
    }
  }

  /** Without neighbours and with replacement from a central image, every
      pixel that is bad ends up as the scaled central model. */
  lemma ReplacedPixels(cfg: Config, r: Render, c: Pixels)
    requires c.WellFormed() && r.Fits(c.Size()) && !r.WithNeighbors? && cfg.replaceBad && r.Central().Some?
    ensures forall i :: 0 <= i < c.Size() && BadAfterNbrs(cfg, r, c, i) ==>
              Correct(cfg, r, c).image[i] == r.Central().value[i] * r.scale * r.scale
  {
    forall i | 0 <= i < c.Size() {
      CorrectImage(cfg, r, c, i);
    }
  }

  /** Without neighbours, a second pass over a cutout whose bmask is clear and
      whose weights all equal one value at or below `min_weight` leaves
      weight and bmask as they are and sets the whole image to the scaled
      central model. */
  lemma AllBadUniformWeight(cfg: Config, r: Render, d: Pixels, m: real)
    requires d.WellFormed() && r.Fits(d.Size()) && !r.WithNeighbors? && d.Size() > 0
    requires cfg.replaceBad && cfg.resetBmaskAndWeight && r.Central().Some? && m <= cfg.minWeight
    requires forall i :: 0 <= i < d.Size() ==> d.bmask[i] == {} && d.weight[i] == m
    ensures Correct(cfg, r, d).weight == d.weight && Correct(cfg, r, d).bmask == d.bmask
    ensures forall i :: 0 <= i < d.Size() ==>
              Correct(cfg, r, d).image[i] == r.Central().value[i] * r.scale * r.scale
  {
    var e := Correct(cfg, r, d);
    assert BadAfterNbrs(cfg, r, d, 0);
    assert Resets(cfg, r, d);
    forall i | 0 <= i < d.Size()
      ensures e.weight[i] == d.weight[i] && e.bmask[i] == d.bmask[i]
      ensures e.image[i] == r.Central().value[i] * r.scale * r.scale
    {
      CorrectImage(cfg, r, d, i);
      CorrectWeight(cfg, r, d, i);
      CorrectBmask(cfg, r, d, i);
      var a :| 0 <= a < d.Size() && MaskedWeight(d, r, a) == e.weight[i];
    }
  }

  /** A second pass over a cutout whose bmask is clear, whose weights all
      equal one value at or below `min_weight` and whose image already is the
      scaled central model, changes nothing. */
  lemma AllBadSecondPass(cfg: Config, r: Render, d: Pixels, m: real)
    requires d.WellFormed() && r.Fits(d.Size()) && !r.WithNeighbors? && d.Size() > 0
    requires cfg.replaceBad && cfg.resetBmaskAndWeight && r.Central().Some? && m <= cfg.minWeight
    requires forall i :: 0 <= i < d.Size() ==> d.bmask[i] == {} && d.weight[i] == m
    requires forall i :: 0 <= i < d.Size() ==> d.image[i] == r.Central().value[i] * r.scale * r.scale
    ensures Correct(cfg, r, d) == d
  {
    AllBadUniformWeight(cfg, r, d, m);
    assert Correct(cfg, r, d).image == d.image;
  }

  /** Without neighbours, after the reset branch a second pass either finds no
      bad pixel, or finds every pixel bad with one common weight, and then
      rewrites the very same values. */
  lemma IdempotentAfterReset(cfg: Config, r: Render, c: Pixels)
    requires c.WellFormed() && r.Fits(c.Size()) && !r.WithNeighbors? && Resets(cfg, r, c)
    ensures Correct(cfg, r, Correct(cfg, r, c)) == Correct(cfg, r, c)
  {
    var d := Correct(cfg, r, c);
    if SomeBadAfterNbrs(cfg, r, d) {
      var k :| 0 <= k < c.Size() && BadAfterNbrs(cfg, r, d, k);
      StillBadAfterReset(cfg, r, c, k);
      ReplacedPixels(cfg, r, c);
      AllBadSecondPass(cfg, r, d, d.weight[k]);
    } else {
      NoBadPixelsUnchanged(cfg, r, d);
    }
  }

  /** With a neighbour image and replacement off, a second pass subtracts the
      neighbour flux again: correcting twice differs from correcting once at
      every pixel where that flux is not zero. */
  lemma NeighboursSubtractedTwice(cfg: Config, r: Render, c: Pixels, i: int)
    requires c.WellFormed() && r.Fits(c.Size()) && r.WithNeighbors? && !cfg.replaceBad && 0 <= i < c.Size()
    ensures Correct(cfg, r, Correct(cfg, r, c)).image[i] == Correct(cfg, r, c).image[i] - NbrsFluxAt(r, i)
    ensures NbrsFluxAt(r, i) != 0.0 ==> Correct(cfg, r, Correct(cfg, r, c)) != Correct(cfg, r, c)
  {
    CorrectImage(cfg, r, Correct(cfg, r, c), i);
  }

  /** With a neighbour image and replacement on (in reset mode or not), a
      pixel that is good and fully accounted for by the neighbour mask keeps
      a clear bmask and its weight, so a second pass subtracts the neighbour
      flux from it again. */
  lemma NeighboursSubtractedTwiceAtGoodPixel(cfg: Config, r: Render, c: Pixels, i: int)
    requires c.WellFormed() && r.Fits(c.Size()) && r.WithNeighbors? && cfg.replaceBad && 0 <= i < c.Size()
    requires r.nbrsMask[i] == 1.0 && !BadAfterNbrs(cfg, r, c, i)
    ensures Correct(cfg, r, Correct(cfg, r, c)).image[i] == Correct(cfg, r, c).image[i] - NbrsFluxAt(r, i)
    ensures NbrsFluxAt(r, i) != 0.0 ==> Correct(cfg, r, Correct(cfg, r, c)) != Correct(cfg, r, c)
  {
    var d := Correct(cfg, r, c);
    CorrectImage(cfg, r, c, i);
    CorrectWeight(cfg, r, c, i);
    CorrectBmask(cfg, r, c, i);
    assert !BadAfterNbrs(cfg, r, d, i);
    CorrectImage(cfg, r, d, i);
  }

  /** With no neighbour image (no render result, or a central image only),
      correcting an already corrected cutout with the same render result
      changes nothing, in reset mode and outside it. */
  lemma CorrectIdempotentWithoutNeighbours(cfg: Config, r: Render, c: Pixels)
    requires c.WellFormed() && r.Fits(c.Size()) && !r.WithNeighbors?
    ensures Correct(cfg, r, Correct(cfg, r, c)) == Correct(cfg, r, c)
  {
    if Resets(cfg, r, c) {
      IdempotentAfterReset(cfg, r, c);
    } else {
      IdempotentWithoutReset(cfg, r, c);
    }
  }
}
