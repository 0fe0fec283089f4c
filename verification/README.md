# MEDS extractor-corrector, modelled in Dafny

This project models the correction pass of ngmixer's `MEDSExtractorCorrector`
(`ngmixer/imageio/extractor_corrector.py`). A subset of a MEDS file has already
been extracted. The pass walks the object catalog. For every object with more
than one cutout and a positive box size, it corrects every cutout except the
coadd (cutout 0), one at a time:

1. The neighbour flux is subtracted and the weight is multiplied by the neighbour mask.
2. The bad pixels are found: a non-zero bmask, or a weight at or below `min_weight`.
3. The bad pixels are either replaced by the scaled central model, or flagged
   `CEN_MODEL_MISSING` when there is no central model.
4. Optionally, the bmask is reset and the bad weights are raised to the cutout's largest weight.
5. Outside reset mode, pixels the neighbour mask leaves unaccounted for are flagged `NBRS_MASKED`.

Each corrected cutout is written back at its start row in the flat
`image_cutouts`, `weight_cutouts` and `bmask_cutouts` columns. Separately,
`_set_band` finds the band index of a MEDS file from its name.

The modules follow the program:

- `MaskFlags` (flags.dfy): the two sentinel bits, and a bmask pixel as the set of its one bits.
- `PixelPolicy` (pixels.dfy): the five correction steps as functions on the
  values of one cutout. `Correct` is the whole correction.
- `PixelProps` (pixel_props.dfy): what the correction does, pixel by pixel and
  as a whole, stated on the raw inputs.
- `Corrector` (corrector.dfy): the same steps as methods that update the
  cutout arrays in place. Each method is proved to compute its step's function.
- `Schedule` (schedule.dfy): the order in which cutouts are visited, reading a
  cutout from the flat store and writing it back, and the outcome of the whole loop.
- `Engine` (engine.dfy): the object/cutout loop over the three flat columns,
  held as arrays. `Extract` is proved to leave them as `Schedule.RunJobs` says
  and to consult the renderer exactly for the visited cutouts.
- `BandResolver` (band.dfy): `_set_band`.

The renderer (`RenderNGmixNbrs`) is a parameter. It is a function from
(catalog row, cutout) to one of three outcomes:

- `NoModel`: no neighbour bundle and no central image.
- `CentralOnly(cen, scale)`: `render_central` succeeded.
- `WithNeighbors(central?, nbrs_img, nbrs_mask, scale)`: `render_nbrs` returned a
  bundle. The central image is absent when the central fit failed.

## Model

| member | source | states |
|---|---|---|
| MaskFlags.SentinelValues | ngmixer/imageio/extractor_corrector.py:15-16 | NBRS_MASKED is 16384 = 2**14 and CEN_MODEL_MISSING is 8192 = 2**13; they are distinct single bits inside a 32-bit mask. |
| MaskFlags.SingleBitValue | ngmixer/imageio/extractor_corrector.py:15-16 | A mask holding only bit k stores the integer 2**k. |
| PixelPolicy.Max | ngmixer/imageio/extractor_corrector.py:228 | `weight.max()` bounds every weight and is one of them. |
| PixelPolicy.SubtractNeighbors | ngmixer/imageio/extractor_corrector.py:195-199 | Step 1 on a cutout: with a neighbour image, the image loses `nbrs_img*pixel_scale**2` and the weight is multiplied by `nbrs_mask`; the bmask is never touched and the size is kept. |
| PixelPolicy.IsBad | ngmixer/imageio/extractor_corrector.py:206-209 | `bmask_logic \| weight_logic` at one pixel: a non-zero bmask or a weight at or below `min_weight`. |
| PixelPolicy.AnyBad | ngmixer/imageio/extractor_corrector.py:209-210 | `wbad[0].size > 0`: some pixel is bad. |
| PixelPolicy.AnyWeightBad | ngmixer/imageio/extractor_corrector.py:226-227 | `wwt[0].size > 0`: some weight alone is at or below `min_weight`. |
| PixelPolicy.MarkMissing | ngmixer/imageio/extractor_corrector.py:214 | `bmask[wbad] \|= CEN_MODEL_MISSING`; image and weight are left as they are. |
| PixelPolicy.ReplaceFromCentral | ngmixer/imageio/extractor_corrector.py:217-221 | `img[wbad] = scaled_cen[wbad]`; weight and bmask are left as they are. |
| PixelPolicy.RaiseWeights | ngmixer/imageio/extractor_corrector.py:226-228 | `weight[wwt] = m` on a weight array of unchanged length. |
| PixelPolicy.ResetMaskAndWeight | ngmixer/imageio/extractor_corrector.py:223-228 | The reset: bmask zeroed and, if some weight is bad, every bad weight set to the maximum weight taken before the assignment; the image is left as it is. |
| PixelPolicy.ReplaceBad | ngmixer/imageio/extractor_corrector.py:205-228 | The `if self.replace_bad:` block, gated on `wbad[0].size > 0`: flag when the central image is missing, else replace and optionally reset; with replacement off or no bad pixel it is the identity. |
| PixelPolicy.FlagContamination | ngmixer/imageio/extractor_corrector.py:231-236 | Outside reset mode with a neighbour mask, `bmask[w] \|= NBRS_MASKED` where `nbrs_mask != 1`; image and weight are left as they are. |
| PixelPolicy.Correct | ngmixer/imageio/extractor_corrector.py:195-236 | The whole correction of one cutout, `FlagContamination` after `ReplaceBad` after `SubtractNeighbors`, in the source's step order; well-formed and of the same size. |
| PixelProps.SubtractNeighborsAt | ngmixer/imageio/extractor_corrector.py:195-199 | Per-pixel unfolding of `SubtractNeighbors`: the image loses `nbrs_img*pixel_scale**2` and the weight is multiplied by `nbrs_mask` when there is a neighbour image; otherwise both are unchanged. |
| PixelProps.AnyBadAfterSubtraction | ngmixer/imageio/extractor_corrector.py:206-210 | The bad set is computed after neighbour masking: a pixel is bad iff its bmask is non-zero or its masked weight is at or below `min_weight`. |
| PixelProps.CorrectImage | ngmixer/imageio/extractor_corrector.py:195-221 | Final image pixel: the scaled central model exactly when replacement runs, there is a central image and the pixel is bad; else the neighbour-subtracted value. |
| PixelProps.CorrectWeight | ngmixer/imageio/extractor_corrector.py:195-228 | Final weight: the masked weight, except that in the reset branch a weight-bad pixel gets a value that bounds all masked weights of the cutout and is one of them. |
| PixelProps.ReplaceBadBmask | ngmixer/imageio/extractor_corrector.py:205-228 | After replacement: the bmask is empty in the reset branch, has CEN_MODEL_MISSING added at the bad pixels when the central image is missing, and is unchanged otherwise. |
| PixelProps.FlagContaminationAt | ngmixer/imageio/extractor_corrector.py:231-236 | Per-pixel unfolding of `FlagContamination`: NBRS_MASKED is added at a pixel iff reset mode is off, there is a neighbour mask and it is not 1 there. |
| PixelProps.CorrectBmask | ngmixer/imageio/extractor_corrector.py:205-236 | Final bmask pixel: empty after a reset; otherwise the input bits plus CEN_MODEL_MISSING where flagged missing, plus NBRS_MASKED where contaminated. |
| PixelProps.NoModelPassThrough | ngmixer/imageio/extractor_corrector.py:186-214 | With no render result, the cutout comes back unchanged iff replacement is off or every bad pixel already has CEN_MODEL_MISSING; so it is not a pass-through when there are bad pixels to flag. |
| PixelProps.MissingCentralFlagsBadPixels | ngmixer/imageio/extractor_corrector.py:210-214 | Replacement on, a bad pixel, no central image: the image only loses neighbour flux, CEN_MODEL_MISSING is set exactly at the bad pixels (and where it was), and no other bit except NBRS_MASKED changes. |
| PixelProps.CentralReplacesExactlyBadPixels | ngmixer/imageio/extractor_corrector.py:215-221 | Replacement on, a central image: bad pixels become `cen_img*pixel_scale**2`, all other pixels keep their neighbour-subtracted value. |
| PixelProps.ResetOnlyAfterReplacement | ngmixer/imageio/extractor_corrector.py:210-228 | A weight changes beyond the neighbour masking only when replacement and reset are on, there is a central image and some pixel is bad; the reset then clears the whole bmask, and pixels bad only through bmask keep their weight. |
| PixelProps.ContaminationFlag | ngmixer/imageio/extractor_corrector.py:231-236 | Outside reset mode with a neighbour mask, NBRS_MASKED ends up set iff the mask is not 1 or it was already set; in reset mode or without neighbours it is never newly set. |
| PixelProps.FullyMaskedNeighbour | ngmixer/imageio/extractor_corrector.py:195-228 | A neighbour mask of zeros (with `min_weight` >= 0) makes every pixel bad and every weight 0, even after a reset; with a central image the whole image becomes the scaled model. |
| PixelProps.IdempotentWithoutReset | ngmixer/imageio/extractor_corrector.py:205-236 | Without neighbours and outside the reset branch, correcting twice equals correcting once. |
| PixelProps.NoBadPixelsUnchanged | ngmixer/imageio/extractor_corrector.py:205-210 | Without neighbours, a cutout with no bad pixel is left unchanged. |
| PixelProps.ResetWeights | ngmixer/imageio/extractor_corrector.py:223-228 | Without neighbours, after the reset the bmask is clear, good weights are kept, and raised weights bound all weights and are one of them. |
| PixelProps.RaisedWeightsUniform | ngmixer/imageio/extractor_corrector.py:226-228 | If a weight raised to the maximum is still at or below `min_weight`, every weight was, and all raised weights are equal. |
| PixelProps.StillBadAfterReset | ngmixer/imageio/extractor_corrector.py:223-228 | A pixel still bad after a reset means every input pixel was bad and all output weights are the same value, with a clear bmask. |
| PixelProps.ReplacedPixels | ngmixer/imageio/extractor_corrector.py:215-221 | Without neighbours, with replacement from a central image, every bad pixel ends as the scaled central model. |
| PixelProps.AllBadUniformWeight | ngmixer/imageio/extractor_corrector.py:205-228 | A second pass over a clear-bmask cutout whose weights all equal one bad value keeps weight and bmask and rewrites the whole image from the central model. |
| PixelProps.AllBadSecondPass | ngmixer/imageio/extractor_corrector.py:205-228 | Such a cutout whose image already is the scaled model is a fixed point of the correction. |
| PixelProps.IdempotentAfterReset | ngmixer/imageio/extractor_corrector.py:223-228 | Without neighbours, re-running the correction after the reset branch changes nothing. |
| PixelProps.CorrectIdempotentWithoutNeighbours | ngmixer/imageio/extractor_corrector.py:195-236 | Without a neighbour image, the correction is idempotent, in reset mode and outside it. |
| PixelProps.NeighboursSubtractedTwiceAtGoodPixel | ngmixer/imageio/extractor_corrector.py:195-236 | With a neighbour image and replacement on, in reset mode or not, a good pixel whose neighbour mask is 1 has the neighbour flux subtracted again by a second pass, so re-running is not a no-op wherever that flux is non-zero. |
| PixelProps.NeighboursSubtractedTwice | ngmixer/imageio/extractor_corrector.py:195-199 | With a neighbour image and replacement off, a second pass subtracts the neighbour flux again, so the correction is not idempotent wherever that flux is non-zero. |
| Corrector.SubtractNeighborsInPlace | ngmixer/imageio/extractor_corrector.py:195-199 | The in-place `img -=` / `weight *=` loop leaves the arrays holding `SubtractNeighbors` of their old contents. |
| Corrector.ScanBad | ngmixer/imageio/extractor_corrector.py:206-210 | Returns whether some pixel is bad (`wbad[0].size > 0`) and whether some weight alone is bad (`wwt[0].size > 0`), both as existential statements over the arrays. |
| Corrector.MaxOf | ngmixer/imageio/extractor_corrector.py:228 | The loop computes `weight.max()`: a bound on every entry that is attained. |
| Corrector.MarkMissingInPlace | ngmixer/imageio/extractor_corrector.py:214 | `bmask[wbad] \|= CEN_MODEL_MISSING` in place equals `MarkMissing` of the old cutout. |
| Corrector.ReplaceFromCentralInPlace | ngmixer/imageio/extractor_corrector.py:217-221 | `img[wbad] = scaled_cen[wbad]` in place equals `ReplaceFromCentral` of the old cutout. |
| Corrector.ClearMaskInPlace | ngmixer/imageio/extractor_corrector.py:225 | `bmask[:,:] = 0`: every bmask pixel is empty afterwards. |
| Corrector.RaiseWeightsInPlace | ngmixer/imageio/extractor_corrector.py:226-228 | `weight[wwt] = m` in place: weights at or below `min_weight` become `m`, the rest are kept. |
| Corrector.ResetInPlace | ngmixer/imageio/extractor_corrector.py:223-228 | The reset branch in place equals `ResetMaskAndWeight`, with the maximum taken before any weight is assigned. |
| Corrector.ReplaceBadInPlace | ngmixer/imageio/extractor_corrector.py:205-228 | The `if self.replace_bad:` block in place equals `ReplaceBad`. |
| Corrector.FlagContaminationInPlace | ngmixer/imageio/extractor_corrector.py:231-236 | The NBRS_MASKED loop in place equals `FlagContamination`. |
| Corrector.CorrectCutout | ngmixer/imageio/extractor_corrector.py:195-236 | The three cutout arrays end holding `Correct` of their old contents. |
| Schedule.CutoutJobsAt | ngmixer/imageio/extractor_corrector.py:121-122 | The i-th job of an object corrects cutout i+1 at `start_row[i+1]` with `box_size**2` pixels. |
| Schedule.CutoutJobs | ngmixer/imageio/extractor_corrector.py:121-122 | The jobs `for icut in xrange(1, ncutout)` visits for one object, in order: ncutout-1 of them (none when ncutout <= 1). |
| Schedule.ObjectJobs | ngmixer/imageio/extractor_corrector.py:121-122 | An object's jobs: its cutouts 1..ncutout-1 when `ncutout > 1 and box_size > 0`, none otherwise. |
| Schedule.Jobs | ngmixer/imageio/extractor_corrector.py:113-122 | The jobs of the first n catalog rows, row by row in loop order. |
| Schedule.AllJobs | ngmixer/imageio/extractor_corrector.py:113-122 | The jobs of the whole catalog. |
| Schedule.IsJobOf | ngmixer/imageio/extractor_corrector.py:113-122 | A job is a cutout the loop visits: row of a non-skipped object, cutout in 1..ncutout-1, at `start_row[icut]`, with `box_size**2` pixels. |
| Schedule.JobsPrefix | ngmixer/imageio/extractor_corrector.py:113-122 | The jobs of the first a rows are a prefix of those of the first b >= a rows. |
| Schedule.JobsSound | ngmixer/imageio/extractor_corrector.py:113-122 | Every scheduled job is a visited cutout: a non-skipped object, cutout in 1..ncutout-1, at its start row. |
| Schedule.JobsComplete | ngmixer/imageio/extractor_corrector.py:113-122 | Every visited cutout is scheduled, right after the jobs of earlier rows. |
| Schedule.JobsMembership | ngmixer/imageio/extractor_corrector.py:113-122 | A job is scheduled iff it is a visited cutout: skipped objects and cutout 0 never appear. |
| Schedule.JobsOrdered | ngmixer/imageio/extractor_corrector.py:113-122 | Jobs come strictly in loop order (by row, then by cutout), so no cutout is visited twice. |
| Schedule.Slice | ngmixer/imageio/extractor_corrector.py:191-193 | `get_cutout` yields, pixel by pixel, the store's rows from the start row on. |
| Schedule.Splice | ngmixer/imageio/extractor_corrector.py:239-241 | Writing a cutout back puts it at its rows and keeps every other row. |
| Schedule.SpliceSlice | ngmixer/imageio/extractor_corrector.py:239-241 | Writing back an unchanged cutout leaves the store as it was. |
| Schedule.ApplyJob | ngmixer/imageio/extractor_corrector.py:191-241 | One iteration: the cutout's rows hold the correction of what they held, and no other row changes. |
| Schedule.RunJobs | ngmixer/imageio/extractor_corrector.py:113-241 | The store after running a job list in order, one `ApplyJob` per job; well-formed and of the same size. |
| Schedule.RunJobsSnoc | ngmixer/imageio/extractor_corrector.py:122-241 | Running one more job is one more iteration on the current store. |
| Schedule.RunJobsAppend | ngmixer/imageio/extractor_corrector.py:113-241 | Running a then b is running a + b. |
| Schedule.RunJobsFrame | ngmixer/imageio/extractor_corrector.py:239-241 | A row no job covers keeps its image, weight and bmask values. |
| Schedule.RunJobsKeepsSlice | ngmixer/imageio/extractor_corrector.py:239-241 | A cutout disjoint from every job reads the same before and after. |
| Schedule.ApplyJobKeepsSlice | ngmixer/imageio/extractor_corrector.py:239-241 | A job leaves any cutout disjoint from its own unchanged. |
| Schedule.DisjointLastJob | ngmixer/imageio/extractor_corrector.py:191-241 | The last of pairwise disjoint jobs corrects its cutout and keeps the earlier corrected cutouts. |
| Schedule.RunJobsDisjoint | ngmixer/imageio/extractor_corrector.py:113-241 | With pairwise disjoint jobs, every job's cutout ends as the correction of its original pixels. |
| Schedule.JobsFit | ngmixer/imageio/extractor_corrector.py:113-241 | On a catalog whose cutouts lie in the store and whose rendered images have the cutout's size, every scheduled job fits. |
| Schedule.NextRow | ngmixer/imageio/extractor_corrector.py:121-122 | One more catalog row adds its cutouts 1..ncutout-1, or nothing when the object is skipped. |
| Schedule.AllJobsDisjoint | ngmixer/imageio/extractor_corrector.py:113-122 | If different cutouts occupy different rows, no two scheduled jobs overlap. |
| Schedule.ExtractOutcome | ngmixer/imageio/extractor_corrector.py:110-254 | Whole loop, cutouts disjoint: each visited cutout holds the correction of its original pixels; every other row, including coadd cutouts and skipped objects, is unchanged. |
| Engine.ReadColumn | ngmixer/imageio/extractor_corrector.py:191-193 | A fresh array with the n entries of the column from the start row. |
| Engine.WriteColumn | ngmixer/imageio/extractor_corrector.py:239-241 | The column holds the cutout at its rows and its old values elsewhere. |
| Engine.ReadCutout | ngmixer/imageio/extractor_corrector.py:191-193 | The three fresh cutout arrays hold `Slice` of the store at the start row. |
| Engine.WriteCutout | ngmixer/imageio/extractor_corrector.py:239-241 | The three columns hold `Splice` of the old store with the cutout. |
| Engine.CorrectJob | ngmixer/imageio/extractor_corrector.py:191-241 | One cutout read, corrected with the renderer's result for it, and written back: the store becomes `ApplyJob` of the old store. |
| Engine.Requests | ngmixer/imageio/extractor_corrector.py:131-139 | The renderer consultations of a job list: one (row, cutout) pair per job, in order. |
| Engine.RunNextJob | ngmixer/imageio/extractor_corrector.py:122-241 | After one more cutout, the store holds `RunJobs` of the extended job list. |
| Engine.CorrectObject | ngmixer/imageio/extractor_corrector.py:121-241 | The cutout loop of a non-skipped object: the store ends as `RunJobs` over its cutouts 1..ncutout-1, and those are the renderer consultations. |
| Engine.Extract | ngmixer/imageio/extractor_corrector.py:110-254 | The whole loop: every scheduled job fits, the store ends as `RunJobs` of the old store over the schedule, and the renderer is consulted for exactly the scheduled cutouts, in order. |
| Engine.RenderedCutouts | ngmixer/imageio/extractor_corrector.py:121-139 | The renderer is consulted for (row, cutout) iff the row is not skipped (`ncutout > 1 and box_size > 0`) and the cutout is one of 1..ncutout-1. |
| Engine.RequestsAppend | ngmixer/imageio/extractor_corrector.py:113-139 | The consultations of a + b are those of a, then those of b. |
| BandResolver.ContainsIffOccurs | ngmixer/imageio/extractor_corrector.py:277-278 | The substring test `btest in meds_file` holds iff the token occurs at some offset. |
| BandResolver.Contains | ngmixer/imageio/extractor_corrector.py:278 | Python's `btest in meds_file` on strings, as a recursive prefix test. |
| BandResolver.Token | ngmixer/imageio/extractor_corrector.py:277 | `btest = '-%s-' % band_name`. |
| BandResolver.FindBandFrom | ngmixer/imageio/extractor_corrector.py:276-280 | The search returns the first position whose `-name-` token occurs in the file name, or nothing iff no position from there matches. |
| BandResolver.IndexOf | ngmixer/imageio/extractor_corrector.py:279 | `band_names.index(name)` is the first position holding that name. |
| BandResolver.SetBand | ngmixer/imageio/extractor_corrector.py:273-284 | The band is the first entry whose token occurs in the file name; it fails, naming the file, iff none does. |
| BandResolver.SetBandAsWritten | ngmixer/imageio/extractor_corrector.py:273-284 | As written: the same index on success; with no match it fails with an undefined-name error about `corr_file`. |
| BandResolver.SetBandVersionsAgreeOnSuccess | ngmixer/imageio/extractor_corrector.py:273-284 | Both versions succeed on the same inputs and then return the same band. |
| BandResolver.NoDashNoToken | ngmixer/imageio/extractor_corrector.py:277-278 | A file name without a dash contains no `-name-` token. |
| BandResolver.UnknownBandReportsUndefinedName | ngmixer/imageio/extractor_corrector.py:281-282 | For `tile_meds.fits` and bands g, r, i, z, the code as written fails on `corr_file`, while the intended version reports the file name. |

## Left out

- FITS and MEDS I/O are not modelled: opening the file, `super()._extract`, `RefMeds`, `get_cat` and `_load_ngmix_data`. The catalog rows and the three flat cutout columns are inputs, held as a sequence and three arrays.
- `time.sleep(2)` and `_set_renderer` are not modelled; they only set up the renderer.
- `RenderNGmixNbrs` is a parameter `render: (nat, nat) -> Render`, keyed by (catalog row, cutout) rather than by `coadd_object_id`, and taken as deterministic. For a cutout, the source calls `render_nbrs` (lines 131-139) and, when that returns nothing, also `render_central` (lines 177-185); the model folds the two calls into one `Render` outcome per (row, cutout). `Engine.Requests` and `Engine.RenderedCutouts` therefore record which cutouts the renderer is consulted for, not the individual calls or their number.
- Segmentation interpolation and its fallback (lines 124-127) are not modelled: the seg map only feeds the renderer, which is a parameter here.
- The `elif False` / `if False` diagnostic branches and every `print` are left out; they do not change state.
- Pixel values and weights are reals. Floating-point rounding, and the float32/float64 dtypes, are not modelled; `pixel_scale**2` is `scale * scale`.
- A bmask pixel is the set of positions of its one bits. `b != 0`, `b |= 2**k` and `b = 0` become `b != {}`, `b + {k}` and `{}`; `MaskFlags.SentinelValues` ties the two sentinel positions to their integer values. Bits at position 32 or above are not excluded.
- numpy's shape checks are preconditions: every rendered image must have the cutout's size (`Render.Fits`), and each cutout must lie inside the store (`Schedule.CatalogFits`). The source would raise a broadcasting or index error instead.
- Engine.Extract: the arrays and the consultation log are tied to the specification functions. Their per-pixel meaning, "visited cutouts corrected, all else unchanged", is proved in `Schedule.ExtractOutcome` under the assumption that different cutouts occupy different rows, which is how MEDS lays them out. Overlapping cutouts are covered only by the fold `Schedule.RunJobs`.
- PixelProps.CorrectIdempotentWithoutNeighbours: idempotence is proved only without a neighbour image. With one, a second pass subtracts the neighbour flux again, so the correction is not idempotent: with replacement off (`PixelProps.NeighboursSubtractedTwice`), and with replacement on, in reset mode or not, at every good pixel whose neighbour mask is 1 (`PixelProps.NeighboursSubtractedTwiceAtGoodPixel`). The documented expectation that re-running a reset-mode correction is a no-op therefore holds only without neighbours; the model follows the code.
- `_set_band` stores its result in `self.band`; here it returns the index, or a failure.

## Findings

| source | as written | input that shows it | evidently intended | confidence | as-written member | corrected member |
|---|---|---|---|---|---|---|
| ngmixer/imageio/extractor_corrector.py:282 | The error message formats `corr_file`, a name that is not defined in `_set_band`, so an unknown band raises a NameError instead of the ValueError. | band names g, r, i, z and file name `tile_meds.fits` | raise the ValueError naming `meds_file` | high; not executed | BandResolver.UnknownBandReportsUndefinedName | BandResolver.SetBand |
