/** The correction loop of `MEDSExtractorCorrector._extract`
    (ngmixer/imageio/extractor_corrector.py, lines 110-254) over the flat
    `image_cutouts`, `weight_cutouts` and `bmask_cutouts` columns of an
    opened MEDS file, held here as three arrays. */
module Engine {
  import opened MaskFlags
  import opened PixelPolicy
  import opened Schedule
  import opened Corrector

  /** `get_cutout`: a fresh array holding the `n` entries of `src` starting
      at `s`. */
  method ReadColumn<T(0)>(src: array<T>, s: nat, n: nat) returns (dst: array<T>)
    requires s + n <= src.Length
    ensures fresh(dst) && dst[..] == src[s..s + n]
  {
    dst := new T[n];
    var i := 0;
    while i < n
      invariant 0 <= i <= n
      invariant forall j :: 0 <= j < i ==> dst[j] == src[s + j]
    {
      dst[i] := src[s + i];
      i := i + 1;
    }
  }

  /** `write(cutout.ravel(), start=s)`: the entries of `src` overwrite `dst`
      from position `s` on; the rest of `dst` is kept. */
  method WriteColumn<T>(dst: array<T>, s: nat, src: array<T>)
    requires dst != src && s + src.Length <= dst.Length
    modifies dst
    ensures dst[..] == old(dst[..s]) + src[..] + old(dst[s + src.Length..])
  {
    var i := 0;
    while i < src.Length
      invariant 0 <= i <= src.Length
      invariant forall j :: 0 <= j < s ==> dst[j] == old(dst[j])
      invariant forall j :: s <= j < s + i ==> dst[j] == src[j - s]
      invariant forall j :: s + i <= j < dst.Length ==> dst[j] == old(dst[j])
    {
      dst[s + i] := src[i];
      i := i + 1;
    }
  }

  /** Lines 191-193: the image, weight and bmask cutouts of `n` pixels at
      row `start`, as fresh arrays. */
  method ReadCutout(image: array<real>, weight: array<real>, bmask: array<Bits>, start: nat, n: nat)
    returns (img: array<real>, wt: array<real>, bm: array<Bits>)
    requires Shaped(image, weight, bmask) && start + n <= image.Length
    ensures fresh(img) && fresh(wt) && fresh(bm) && Shaped(img, wt, bm)
    ensures Snap(img, wt, bm) == Slice(Snap(image, weight, bmask), start, n)
  {
    img := ReadColumn(image, start, n);
    wt := ReadColumn(weight, start, n);
    bm := ReadColumn(bmask, start, n);
  }

  /** Lines 239-241: the three cutouts written back at row `start`. */
  method WriteCutout(image: array<real>, weight: array<real>, bmask: array<Bits>, start: nat,
                     img: array<real>, wt: array<real>, bm: array<Bits>)
    requires Shaped(image, weight, bmask) && Shaped(img, wt, bm) && start + img.Length <= image.Length
    requires img != image && img != weight && wt != image && wt != weight && bm != bmask
    modifies image, weight, bmask
    ensures Snap(image, weight, bmask) == Splice(old(Snap(image, weight, bmask)), start, Snap(img, wt, bm))
  {
    ghost var d := Splice(Snap(image, weight, bmask), start, Snap(img, wt, bm));
    WriteColumn(image, start, img);
    assert image[..] == d.image;
    WriteColumn(weight, start, wt);
    assert weight[..] == d.weight;
    WriteColumn(bmask, start, bm);
    assert bmask[..] == d.bmask;
  }

  /** One iteration of the cutout loop (lines 191-241): read the three
      cutouts of job `j`, correct them with the renderer's result for the
      job's (row, cutout), write them back where they came from. */
  method CorrectJob(cfg: Config, render: (nat, nat) -> Render, image: array<real>, weight: array<real>, bmask: array<Bits>, j: Job)
    requires Shaped(image, weight, bmask) && JobFits(render, j, image.Length)
    modifies image, weight, bmask
    ensures Snap(image, weight, bmask) == ApplyJob(cfg, render, old(Snap(image, weight, bmask)), j)
  {
    var img, wt, bm := ReadCutout(image, weight, bmask, j.start, j.size);
    CorrectCutout(cfg, render(j.obj, j.cutout), img, wt, bm);
    WriteCutout(image, weight, bmask, j.start, img, wt, bm);
  }

  /** The (catalog row, cutout) pairs the renderer is asked about, in order. */
  function Requests(js: seq<Job>): (q: seq<(nat, nat)>)
    ensures |q| == |js|
    ensures forall i :: 0 <= i < |js| ==> q[i] == (js[i].obj, js[i].cutout)
  {
    if js == [] then [] else Requests(js[..|js| - 1]) + [(js[|js| - 1].obj, js[|js| - 1].cutout)]
  }

  /** A store that holds the result of running `done` holds the result of
      running `done + [j]` once job `j` is corrected in place. */
  method RunNextJob(cfg: Config, render: (nat, nat) -> Render, ghost st: Pixels, ghost done: seq<Job>, j: Job,
                    ghost next: seq<Job>, image: array<real>, weight: array<real>, bmask: array<Bits>)
    requires Shaped(image, weight, bmask) && st.WellFormed() && st.Size() == image.Length
    requires next == done + [j] && AllFit(render, next, image.Length)
    requires AllFit(render, done, image.Length) && Snap(image, weight, bmask) == RunJobs(cfg, render, st, done)
    modifies image, weight, bmask
    ensures Snap(image, weight, bmask) == RunJobs(cfg, render, st, next)
  {
    RunJobsSnoc(cfg, render, st, done, j);
    assert JobFits(render, (done + [j])[|done|], image.Length);
    CorrectJob(cfg, render, image, weight, bmask, j);
  }

  /** Lines 121-241, the cutout loop of one object that is not skipped:
      cutouts 1 .. ncutout-1, in order, each corrected in place. */
  method CorrectObject(cfg: Config, render: (nat, nat) -> Render, o: ObjectRow, m: nat,
                       image: array<real>, weight: array<real>, bmask: array<Bits>)
    returns (requests: seq<(nat, nat)>)
    requires Shaped(image, weight, bmask) && o.Processed() && o.Indexable()
    requires AllFit(render, CutoutJobs(o, m, o.ncutout), image.Length)
    modifies image, weight, bmask
    ensures Snap(image, weight, bmask) == RunJobs(cfg, render, old(Snap(image, weight, bmask)), CutoutJobs(o, m, o.ncutout))
    ensures requests == Requests(CutoutJobs(o, m, o.ncutout))
  {
    ghost var st := Snap(image, weight, bmask);
    ghost var js := CutoutJobs(o, m, o.ncutout);
    requests := [];
    var k := 1;
    while k < o.ncutout
      invariant 1 <= k <= o.ncutout
      invariant AllFit(render, js[..k - 1], image.Length)
      invariant Snap(image, weight, bmask) == RunJobs(cfg, render, st, js[..k - 1])
      invariant requests == Requests(js[..k - 1])
    {
      var j := Job(m, k, o.startRow[k], o.CutoutSize());
      CutoutJobsAt(o, m, o.ncutout, k - 1);
      assert js[..k] == js[..k - 1] + [j];
      AllFitPrefix(render, js[..k], js, image.Length);
      RequestsSnoc(js[..k - 1], j);
      requests := requests + [(m, k)];
      RunNextJob(cfg, render, st, js[..k - 1], j, js[..k], image, weight, bmask);
      k := k + 1;
    }
    assert js[..k - 1] == js;
  }

  /** Lines 110-254: for every catalog row with `ncutout > 1` and
      `box_size > 0`, and every cutout from 1 on, consult the renderer and
      correct that cutout in place. The store ends as `RunJobs` over the
      schedule says, and `requests` lists the renderer consultations. */
  method Extract(cfg: Config, render: (nat, nat) -> Render, cat: seq<ObjectRow>,
                 image: array<real>, weight: array<real>, bmask: array<Bits>)
    returns (requests: seq<(nat, nat)>)
    requires Shaped(image, weight, bmask) && CatalogFits(cat, render, image.Length)
    modifies image, weight, bmask
    ensures AllFit(render, AllJobs(cat), image.Length)
    ensures Snap(image, weight, bmask) == RunJobs(cfg, render, old(Snap(image, weight, bmask)), AllJobs(cat))
    ensures requests == Requests(AllJobs(cat))
  {
    ghost var st := Snap(image, weight, bmask);
    JobsFit(cat, render, image.Length, |cat|);
    requests := [];
    var m := 0;
    while m < |cat|
      invariant 0 <= m <= |cat|
      invariant AllFit(render, Jobs(cat, m), image.Length)
      invariant Snap(image, weight, bmask) == RunJobs(cfg, render, st, Jobs(cat, m))
      invariant requests == Requests(Jobs(cat, m))
    {
      var o := cat[m];
      NextRow(cat, m);
      JobsFit(cat, render, image.Length, m + 1);
      if o.ncutout > 1 && o.boxSize > 0 {
        RunJobsAppend(cfg, render, st, Jobs(cat, m), CutoutJobs(o, m, o.ncutout));
        RequestsAppend(Jobs(cat, m), CutoutJobs(o, m, o.ncutout));
        var more := CorrectObject(cfg, render, o, m, image, weight, bmask);
        requests := requests + more;
      }
      m := m + 1;
    }
  }

  /** The renderer is consulted for (row `m`, cutout `k`) exactly when row
      `m` is not skipped and `k` is one of its cutouts other than the coadd. */
  lemma RenderedCutouts(cat: seq<ObjectRow>, m: nat, k: nat)
    requires CatalogIndexable(cat)
    ensures (m, k) in Requests(AllJobs(cat)) <==> m < |cat| && cat[m].Processed() && 1 <= k < cat[m].ncutout
  {
    var js := AllJobs(cat);
    var q := Requests(js);
    if (m, k) in q {
      var i :| 0 <= i < |q| && q[i] == (m, k);
      JobsMembership(cat, |cat|, js[i]);
    }
    if m < |cat| && cat[m].Processed() && 1 <= k < cat[m].ncutout {
      var j := Job(m, k, cat[m].startRow[k], cat[m].CutoutSize());
      JobsMembership(cat, |cat|, j);
      var i :| 0 <= i < |js| && js[i] == j;
      assert q[i] == (m, k);
    }
  }

  lemma RequestsSnoc(js: seq<Job>, j: Job)
    ensures Requests(js + [j]) == Requests(js) + [(j.obj, j.cutout)]
  {
    assert (js + [j])[..|js|] == js;
  }

  lemma RequestsAppend(a: seq<Job>, b: seq<Job>)
    ensures Requests(a + b) == Requests(a) + Requests(b)
  {
  }
}
