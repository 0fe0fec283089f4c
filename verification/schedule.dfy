/** Which cutouts `MEDSExtractorCorrector._extract` corrects, in which order,
    and what writing each corrected cutout back does to the flat pixel store
    (ngmixer/imageio/extractor_corrector.py, lines 110-254). Everything here
    is on values; module Engine runs the same loop over arrays and is proved
    to end in the state `RunJobs` describes. */
module Schedule {
  import opened MaskFlags
  import opened PixelPolicy

  /** The fields of one row of the MEDS object catalog that the loop reads:
      `id`, `ncutout`, `box_size` and `start_row`. */
  datatype ObjectRow = ObjectRow(id: int, ncutout: int, boxSize: int, startRow: seq<int>)
  {
    /** `ncutout > 1 and box_size > 0`: otherwise the object is skipped. */
    predicate Processed()
    {
      ncutout > 1 && boxSize > 0
    }

    /** Pixels in one `box_size` by `box_size` cutout. */
    function CutoutSize(): (n: nat)
      requires Processed()
      ensures n >= boxSize
    {
      boxSize * boxSize
    }

    /** A processed object has a `start_row` entry for every cutout. */
    predicate Indexable()
    {
      Processed() ==> ncutout <= |startRow|
    }
  }

  /** Correcting cutout `cutout` of object `obj`: `size` pixels starting at
      row `start` of the flat image, weight and bmask columns. */
  datatype Job = Job(obj: nat, cutout: nat, start: int, size: nat)

  /** Pixel `p` of the flat store belongs to the job's cutout. */
  predicate Covers(j: Job, p: int)
  {
    j.start <= p < j.start + j.size
  }

  /** The cutouts of two jobs share no pixel. */
  predicate Disjoint(a: Job, b: Job)
  {
    a.start + a.size <= b.start || b.start + b.size <= a.start
  }

  // ---------------------------------------------------------------------
  // The loop order (lines 113-122)
  // ---------------------------------------------------------------------

  /** Jobs for cutouts 1 .. k-1 of catalog row `m`, in loop order. */
  function CutoutJobs(o: ObjectRow, m: nat, k: nat): (js: seq<Job>)
    requires o.Processed() && k <= o.ncutout && o.Indexable()
    ensures |js| == if k <= 1 then 0 else k - 1
  {
    if k <= 1 then []
    else CutoutJobs(o, m, k - 1) + [Job(m, k - 1, o.startRow[k - 1], o.CutoutSize())]
  }

  /** Entry `i` of the cutout jobs is the job for cutout `i + 1`. */
  lemma {:induction false} CutoutJobsAt(o: ObjectRow, m: nat, k: nat, i: nat)
    requires o.Processed() && k <= o.ncutout && o.Indexable() && i + 1 < k
    ensures CutoutJobs(o, m, k)[i] == Job(m, i + 1, o.startRow[i + 1], o.CutoutSize())
    decreases k
  {
    if i + 1 < k - 1 {
      CutoutJobsAt(o, m, k - 1, i);
    }
  }

  /** Jobs for catalog row `m`: none when the object is skipped, otherwise
      every cutout but the coadd (cutout 0). */
  function ObjectJobs(o: ObjectRow, m: nat): seq<Job>
    requires o.Indexable()
  {
    if o.Processed() then CutoutJobs(o, m, o.ncutout) else []
  }

  predicate CatalogIndexable(cat: seq<ObjectRow>)
  {
    forall m :: 0 <= m < |cat| ==> cat[m].Indexable()
  }

  /** Jobs for the first `n` catalog rows, in loop order. */
  function Jobs(cat: seq<ObjectRow>, n: nat): seq<Job>
    requires n <= |cat| && CatalogIndexable(cat)
  {
    if n == 0 then [] else Jobs(cat, n - 1) + ObjectJobs(cat[n - 1], n - 1)
  }

  /** Every job of the whole catalog. */
  function AllJobs(cat: seq<ObjectRow>): seq<Job>
    requires CatalogIndexable(cat)
  {
    Jobs(cat, |cat|)
  }

  /** `j` corrects a cutout `_extract` visits: a cutout other than the coadd,
      of an object that is not skipped, at that cutout's start row. */
  predicate IsJobOf(cat: seq<ObjectRow>, j: Job)
    requires CatalogIndexable(cat)
  {
    j.obj < |cat| && cat[j.obj].Processed() && 1 <= j.cutout < cat[j.obj].ncutout &&
    j.start == cat[j.obj].startRow[j.cutout] && j.size == cat[j.obj].CutoutSize()
  }

  /** Loop order: by catalog row, then by cutout. */
  predicate Before(a: Job, b: Job)
  {
    a.obj < b.obj || (a.obj == b.obj && a.cutout < b.cutout)
  }

  /** The jobs for fewer rows are a prefix of the jobs for more rows. */
  lemma {:induction false} JobsPrefix(cat: seq<ObjectRow>, a: nat, b: nat)
    requires a <= b <= |cat| && CatalogIndexable(cat)
    ensures Jobs(cat, a) <= Jobs(cat, b)
    decreases b
  {
    if a < b {
      JobsPrefix(cat, a, b - 1);
    }
  }

  /** Every job for the first `n` rows is a visited cutout of one of them. */
  lemma {:induction false} JobsSound(cat: seq<ObjectRow>, n: nat)
    requires n <= |cat| && CatalogIndexable(cat)
    ensures forall i :: 0 <= i < |Jobs(cat, n)| ==> IsJobOf(cat, Jobs(cat, n)[i]) && Jobs(cat, n)[i].obj < n
  {
    if n > 0 {
      JobsSound(cat, n - 1);
      var prev := Jobs(cat, n - 1);
      var os := ObjectJobs(cat[n - 1], n - 1);
      assert Jobs(cat, n) == prev + os;
      forall i | 0 <= i < |os| ensures IsJobOf(cat, os[i]) && os[i].obj < n {
        CutoutJobsAt(cat[n - 1], n - 1, cat[n - 1].ncutout, i);
      }
    }
  }

  /** Every visited cutout of the first `n` rows has its job, right after
      the jobs of the rows before it. */
  lemma JobsComplete(cat: seq<ObjectRow>, n: nat, j: Job)
    requires n <= |cat| && CatalogIndexable(cat) && IsJobOf(cat, j) && j.obj < n
    ensures |Jobs(cat, j.obj)| + j.cutout - 1 < |Jobs(cat, n)|
    ensures Jobs(cat, n)[|Jobs(cat, j.obj)| + j.cutout - 1] == j
  {
    var o := cat[j.obj];
    var before := Jobs(cat, j.obj);
    var os := ObjectJobs(o, j.obj);
    assert Jobs(cat, j.obj + 1) == before + os;
    CutoutJobsAt(o, j.obj, o.ncutout, j.cutout - 1);
    JobsPrefix(cat, j.obj + 1, n);
  }

  /** The jobs for the first `n` rows are exactly the visited cutouts of those
      rows: skipped objects and cutout 0 never appear. */
  lemma JobsMembership(cat: seq<ObjectRow>, n: nat, j: Job)
    requires n <= |cat| && CatalogIndexable(cat)
    ensures j in Jobs(cat, n) <==> IsJobOf(cat, j) && j.obj < n
  {
    var js := Jobs(cat, n);
    if j in js {
      var i :| 0 <= i < |js| && js[i] == j;
      JobsSound(cat, n);
    }
    if IsJobOf(cat, j) && j.obj < n {
      JobsComplete(cat, n, j);
    }
  }

  /** Each job comes strictly after the previous one in loop order, so no
      cutout is corrected twice. */
  lemma {:induction false} JobsOrdered(cat: seq<ObjectRow>, n: nat)
    requires n <= |cat| && CatalogIndexable(cat)
    ensures forall a, b :: 0 <= a < b < |Jobs(cat, n)| ==> Before(Jobs(cat, n)[a], Jobs(cat, n)[b])
    ensures forall a :: 0 <= a < |Jobs(cat, n)| ==> Jobs(cat, n)[a].obj < n
  {
    if n > 0 {
      JobsOrdered(cat, n - 1);
      var prev := Jobs(cat, n - 1);
      var os := ObjectJobs(cat[n - 1], n - 1);
      assert Jobs(cat, n) == prev + os;
      forall a | 0 <= a < |os| ensures os[a].obj == n - 1 && os[a].cutout == a + 1 {
        CutoutJobsAt(cat[n - 1], n - 1, cat[n - 1].ncutout, a);
      }
    }
  }

  // ---------------------------------------------------------------------
  // Reading and writing one cutout (lines 191-193 and 239-241)
  // ---------------------------------------------------------------------

  /** `get_cutout`: the `n` pixels of each column starting at row `s`. */
  function Slice(st: Pixels, s: int, n: nat): (c: Pixels)
    requires st.WellFormed() && 0 <= s && s + n <= st.Size()
    ensures c.WellFormed() && c.Size() == n
    ensures forall i :: 0 <= i < n ==>
              c.image[i] == st.image[s + i] && c.weight[i] == st.weight[s + i] && c.bmask[i] == st.bmask[s + i]
  {
    Pixels(st.image[s..s + n], st.weight[s..s + n], st.bmask[s..s + n])
  }

  /** `write(..., start=s)` on the three columns: the cutout replaces rows
      `s` .. `s + c.Size() - 1`, and every other row is kept. */
  function Splice(st: Pixels, s: int, c: Pixels): (d: Pixels)
    requires st.WellFormed() && c.WellFormed() && 0 <= s && s + c.Size() <= st.Size()
    ensures d.WellFormed() && d.Size() == st.Size()
    ensures Slice(d, s, c.Size()) == c
    ensures forall p :: 0 <= p < st.Size() && !(s <= p < s + c.Size()) ==>
              d.image[p] == st.image[p] && d.weight[p] == st.weight[p] && d.bmask[p] == st.bmask[p]
  {
    var e := s + c.Size();
    var d := Pixels(st.image[..s] + c.image + st.image[e..],
                    st.weight[..s] + c.weight + st.weight[e..],
                    st.bmask[..s] + c.bmask + st.bmask[e..]);
    assert Slice(d, s, c.Size()).image == c.image;
    assert Slice(d, s, c.Size()).weight == c.weight;
    assert Slice(d, s, c.Size()).bmask == c.bmask;
    d
  }

  /** Writing back an unchanged cutout changes nothing. */
  lemma SpliceSlice(st: Pixels, s: int, n: nat)
    requires st.WellFormed() && 0 <= s && s + n <= st.Size()
    ensures Splice(st, s, Slice(st, s, n)) == st
  {
    var d := Splice(st, s, Slice(st, s, n));
    assert d.image == st.image && d.weight == st.weight && d.bmask == st.bmask;
  }

  // ---------------------------------------------------------------------
  // Running the jobs
  // ---------------------------------------------------------------------

  /** The job's cutout lies inside a store of `n` rows and the renderer's
      images for it have the cutout's size. */
  predicate JobFits(render: (nat, nat) -> Render, j: Job, n: nat)
  {
    0 <= j.start && j.start + j.size <= n && render(j.obj, j.cutout).Fits(j.size)
  }

  predicate AllFit(render: (nat, nat) -> Render, js: seq<Job>, n: nat)
  {
    forall i :: 0 <= i < |js| ==> JobFits(render, js[i], n)
  }

  /** One iteration of the cutout loop: read the cutout, correct it with the
      renderer's result for (object, cutout), write it back at its start row. */
  function ApplyJob(cfg: Config, render: (nat, nat) -> Render, st: Pixels, j: Job): (d: Pixels)
    requires st.WellFormed() && JobFits(render, j, st.Size())
    ensures d.WellFormed() && d.Size() == st.Size()
    ensures Slice(d, j.start, j.size) == Correct(cfg, render(j.obj, j.cutout), Slice(st, j.start, j.size))
    ensures forall p :: 0 <= p < st.Size() && !Covers(j, p) ==>
              d.image[p] == st.image[p] && d.weight[p] == st.weight[p] && d.bmask[p] == st.bmask[p]
  {
    Splice(st, j.start, Correct(cfg, render(j.obj, j.cutout), Slice(st, j.start, j.size)))
  }

  /** The store after running `js` in order. */
  function RunJobs(cfg: Config, render: (nat, nat) -> Render, st: Pixels, js: seq<Job>): (d: Pixels)
    requires st.WellFormed() && AllFit(render, js, st.Size())
    ensures d.WellFormed() && d.Size() == st.Size()
    decreases |js|
  {
    if js == [] then st
    else ApplyJob(cfg, render, RunJobs(cfg, render, st, js[..|js| - 1]), js[|js| - 1])
  }

  /** Running one more job is one more iteration. */
  lemma RunJobsSnoc(cfg: Config, render: (nat, nat) -> Render, st: Pixels, js: seq<Job>, j: Job)
    requires st.WellFormed() && AllFit(render, js + [j], st.Size())
    ensures AllFit(render, js, st.Size())
    ensures RunJobs(cfg, render, st, js + [j]) == ApplyJob(cfg, render, RunJobs(cfg, render, st, js), j)
  {
    assert (js + [j])[..|js|] == js;
  }

  /** A prefix of a fitting job list fits. */
  lemma AllFitPrefix(render: (nat, nat) -> Render, a: seq<Job>, b: seq<Job>, n: nat)
    requires a <= b && AllFit(render, b, n)
    ensures AllFit(render, a, n)
  {
    forall i | 0 <= i < |a| ensures JobFits(render, a[i], n) {
      assert a[i] == b[i];
    }
  }

  /** Running `a` then `b` is running `a + b`. */
  lemma {:induction false} RunJobsAppend(cfg: Config, render: (nat, nat) -> Render, st: Pixels, a: seq<Job>, b: seq<Job>)
    requires st.WellFormed() && AllFit(render, a + b, st.Size())
    ensures AllFit(render, a, st.Size()) && AllFit(render, b, st.Size())
    ensures RunJobs(cfg, render, st, a + b) == RunJobs(cfg, render, RunJobs(cfg, render, st, a), b)
    decreases |b|
  {
    assert forall i :: 0 <= i < |a| ==> (a + b)[i] == a[i];
    assert forall i :: 0 <= i < |b| ==> (a + b)[|a| + i] == b[i];
    if b == [] {
      assert a + b == a;
    } else {
      var init := b[..|b| - 1];
      var x := b[|b| - 1];
      assert b == init + [x];
      assert a + b == (a + init) + [x];
      RunJobsSnoc(cfg, render, st, a + init, x);
      RunJobsAppend(cfg, render, st, a, init);
      RunJobsSnoc(cfg, render, RunJobs(cfg, render, st, a), init, x);
    }
  }

  /** A pixel no job covers keeps its value. */
  lemma {:induction false} RunJobsFrame(cfg: Config, render: (nat, nat) -> Render, st: Pixels, js: seq<Job>, p: int)
    requires st.WellFormed() && AllFit(render, js, st.Size()) && 0 <= p < st.Size()
    requires forall i :: 0 <= i < |js| ==> !Covers(js[i], p)
    ensures RunJobs(cfg, render, st, js).image[p] == st.image[p]
    ensures RunJobs(cfg, render, st, js).weight[p] == st.weight[p]
    ensures RunJobs(cfg, render, st, js).bmask[p] == st.bmask[p]
    decreases |js|
  {
    if js != [] {
      var init := js[..|js| - 1];
      assert forall i :: 0 <= i < |init| ==> init[i] == js[i];
      RunJobsFrame(cfg, render, st, init, p);
    }
  }

  /** A cutout disjoint from every job reads the same before and after. */
  lemma RunJobsKeepsSlice(cfg: Config, render: (nat, nat) -> Render, st: Pixels, js: seq<Job>, s: int, n: nat)
    requires st.WellFormed() && AllFit(render, js, st.Size()) && 0 <= s && s + n <= st.Size()
    requires forall i :: 0 <= i < |js| ==> Disjoint(js[i], Job(0, 0, s, n))
    ensures Slice(RunJobs(cfg, render, st, js), s, n) == Slice(st, s, n)
  {
    var d := RunJobs(cfg, render, st, js);
    forall p | s <= p < s + n
      ensures d.image[p] == st.image[p] && d.weight[p] == st.weight[p] && d.bmask[p] == st.bmask[p]
    {
      RunJobsFrame(cfg, render, st, js, p);
    }
    assert Slice(d, s, n).image == Slice(st, s, n).image;
    assert Slice(d, s, n).weight == Slice(st, s, n).weight;
    assert Slice(d, s, n).bmask == Slice(st, s, n).bmask;
  }

  predicate PairwiseDisjoint(js: seq<Job>)
  {
    forall a, b :: 0 <= a < b < |js| ==> Disjoint(js[a], js[b])
  }

  /** A job leaves every cutout disjoint from its own as it was. */
  lemma ApplyJobKeepsSlice(cfg: Config, render: (nat, nat) -> Render, st: Pixels, j: Job, s: int, n: nat)
    requires st.WellFormed() && JobFits(render, j, st.Size()) && 0 <= s && s + n <= st.Size()
    requires Disjoint(j, Job(0, 0, s, n))
    ensures Slice(ApplyJob(cfg, render, st, j), s, n) == Slice(st, s, n)
  {
    var d := ApplyJob(cfg, render, st, j);
    assert forall p :: s <= p < s + n ==> !Covers(j, p);
    assert Slice(d, s, n).image == Slice(st, s, n).image;
    assert Slice(d, s, n).weight == Slice(st, s, n).weight;
    assert Slice(d, s, n).bmask == Slice(st, s, n).bmask;
  }

  /** The last of pairwise disjoint jobs corrects its own cutout and keeps the
      cutouts the jobs before it have corrected. */
  lemma DisjointLastJob(cfg: Config, render: (nat, nat) -> Render, st: Pixels, before: Pixels, js: seq<Job>)
    requires st.WellFormed() && AllFit(render, js, st.Size()) && PairwiseDisjoint(js) && js != []
    requires before.WellFormed() && before.Size() == st.Size()
    requires forall i :: 0 <= i < |js| - 1 ==>
               Slice(before, js[i].start, js[i].size) ==
               Correct(cfg, render(js[i].obj, js[i].cutout), Slice(st, js[i].start, js[i].size))
    requires Slice(before, js[|js| - 1].start, js[|js| - 1].size) == Slice(st, js[|js| - 1].start, js[|js| - 1].size)
    ensures forall i :: 0 <= i < |js| ==>
              Slice(ApplyJob(cfg, render, before, js[|js| - 1]), js[i].start, js[i].size) ==
              Correct(cfg, render(js[i].obj, js[i].cutout), Slice(st, js[i].start, js[i].size))
  {
    var j := js[|js| - 1];
    forall i | 0 <= i < |js| - 1
      ensures Slice(ApplyJob(cfg, render, before, j), js[i].start, js[i].size) ==
              Correct(cfg, render(js[i].obj, js[i].cutout), Slice(st, js[i].start, js[i].size))
    {
      assert Disjoint(js[i], j);
      ApplyJobKeepsSlice(cfg, render, before, j, js[i].start, js[i].size);
    }
  }

  /** When no two jobs overlap, every job's cutout ends up as the correction
      of its original pixels: the order of the loop does not matter. */
  lemma {:induction false} RunJobsDisjoint(cfg: Config, render: (nat, nat) -> Render, st: Pixels, js: seq<Job>)
    requires st.WellFormed() && AllFit(render, js, st.Size()) && PairwiseDisjoint(js)
    ensures forall i :: 0 <= i < |js| ==>
              Slice(RunJobs(cfg, render, st, js), js[i].start, js[i].size) ==
              Correct(cfg, render(js[i].obj, js[i].cutout), Slice(st, js[i].start, js[i].size))
    decreases |js|
  {
    if js != [] {
      var init := js[..|js| - 1];
      var j := js[|js| - 1];
      assert forall i :: 0 <= i < |init| ==> init[i] == js[i];
      RunJobsDisjoint(cfg, render, st, init);
      RunJobsKeepsSlice(cfg, render, st, init, j.start, j.size);
      DisjointLastJob(cfg, render, st, RunJobs(cfg, render, st, init), js);
    }
  }

  // ---------------------------------------------------------------------
  // The whole catalog
  // ---------------------------------------------------------------------

  /** What the catalog and the renderer must provide for the loop not to
      fail: a start row for every visited cutout, each cutout inside the
      store, and rendered images of the cutout's size. */
  predicate CatalogFits(cat: seq<ObjectRow>, render: (nat, nat) -> Render, n: nat)
  {
    CatalogIndexable(cat) &&
    forall m, k :: 0 <= m < |cat| && cat[m].Processed() && 1 <= k < cat[m].ncutout ==>
      0 <= cat[m].startRow[k] && cat[m].startRow[k] + cat[m].CutoutSize() <= n &&
      render(m, k).Fits(cat[m].CutoutSize())
  }

  /** Every job of a fitting catalog fits the store. */
  lemma JobsFit(cat: seq<ObjectRow>, render: (nat, nat) -> Render, n: nat, rows: nat)
    requires CatalogFits(cat, render, n) && rows <= |cat|
    ensures AllFit(render, Jobs(cat, rows), n)
  {
    forall i | 0 <= i < |Jobs(cat, rows)| ensures JobFits(render, Jobs(cat, rows)[i], n) {
      JobsMembership(cat, rows, Jobs(cat, rows)[i]);
    }
  }

  /** Row `m` done: its jobs are all its cutouts, or none when it is skipped. */
  lemma NextRow(cat: seq<ObjectRow>, m: nat)
    requires CatalogIndexable(cat) && m < |cat|
    ensures cat[m].Processed() ==> Jobs(cat, m + 1) == Jobs(cat, m) + CutoutJobs(cat[m], m, cat[m].ncutout)
    ensures !cat[m].Processed() ==> Jobs(cat, m + 1) == Jobs(cat, m)
  {
  }

  /** The MEDS layout: the visited cutouts of different (object, cutout)
      pairs occupy different rows. */
  ghost predicate CutoutsDisjoint(cat: seq<ObjectRow>)
    requires CatalogIndexable(cat)
  {
    forall a, b :: IsJobOf(cat, a) && IsJobOf(cat, b) && (a.obj, a.cutout) != (b.obj, b.cutout) ==> Disjoint(a, b)
  }

  /** With disjoint cutouts, no two jobs overlap. */
  lemma AllJobsDisjoint(cat: seq<ObjectRow>)
    requires CatalogIndexable(cat) && CutoutsDisjoint(cat)
    ensures PairwiseDisjoint(AllJobs(cat))
  {
    var js := AllJobs(cat);
    JobsOrdered(cat, |cat|);
    forall a, b | 0 <= a < b < |js| ensures Disjoint(js[a], js[b]) {
      JobsMembership(cat, |cat|, js[a]);
      JobsMembership(cat, |cat|, js[b]);
      assert Before(js[a], js[b]);
    }
  }

  /** A pixel outside every visited cutout: the coadd cutouts, the cutouts of
      skipped objects, and anything between them. */
  ghost predicate Untouched(cat: seq<ObjectRow>, p: int)
    requires CatalogIndexable(cat)
  {
    forall j :: IsJobOf(cat, j) ==> !Covers(j, p)
  }

  /** The outcome of the whole loop on a MEDS file whose cutouts do not
      overlap: every visited cutout holds the correction of its original
      pixels, and every other pixel is as it was. */
  lemma ExtractOutcome(cfg: Config, render: (nat, nat) -> Render, cat: seq<ObjectRow>, st: Pixels)
    requires st.WellFormed() && CatalogFits(cat, render, st.Size()) && CutoutsDisjoint(cat)
    ensures AllFit(render, AllJobs(cat), st.Size())
    ensures forall j :: IsJobOf(cat, j) ==>
              Slice(RunJobs(cfg, render, st, AllJobs(cat)), j.start, j.size) ==
              Correct(cfg, render(j.obj, j.cutout), Slice(st, j.start, j.size))
    ensures forall p :: 0 <= p < st.Size() && Untouched(cat, p) ==>
              RunJobs(cfg, render, st, AllJobs(cat)).image[p] == st.image[p] &&
              RunJobs(cfg, render, st, AllJobs(cat)).weight[p] == st.weight[p] &&
              RunJobs(cfg, render, st, AllJobs(cat)).bmask[p] == st.bmask[p]
  {
    var js := AllJobs(cat);
    JobsFit(cat, render, st.Size(), |cat|);
    AllJobsDisjoint(cat);
    RunJobsDisjoint(cfg, render, st, js);
    forall j | IsJobOf(cat, j)
      ensures Slice(RunJobs(cfg, render, st, js), j.start, j.size) ==
              Correct(cfg, render(j.obj, j.cutout), Slice(st, j.start, j.size))
    {
      JobsMembership(cat, |cat|, j);
      var i :| 0 <= i < |js| && js[i] == j;
    }
    forall p | 0 <= p < st.Size() && Untouched(cat, p)
      ensures RunJobs(cfg, render, st, js).image[p] == st.image[p]
      ensures RunJobs(cfg, render, st, js).weight[p] == st.weight[p]
      ensures RunJobs(cfg, render, st, js).bmask[p] == st.bmask[p]
    {
      forall i | 0 <= i < |js| ensures !Covers(js[i], p) {
        JobsMembership(cat, |cat|, js[i]);
      }
      RunJobsFrame(cfg, render, st, js, p);
    }
  }
}
