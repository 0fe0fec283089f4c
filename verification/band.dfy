/** Band resolution from a MEDS file name (`_set_band`,
    ngmixer/imageio/extractor_corrector.py, lines 273-284). */
module BandResolver {
  import opened Wrappers

  /** `t` occurs in `s` at offset `k`. */
  ghost predicate OccursAt(s: string, t: string, k: int)
  {
    0 <= k && k + |t| <= |s| && s[k..k + |t|] == t
  }

  /** Python's substring test `t in s`. */
  predicate Contains(s: string, t: string)
    decreases |s|
  {
    |t| <= |s| && (s[..|t|] == t || Contains(s[1..], t))
  }

  /** The recursive test agrees with "occurs at some offset". */
  lemma {:induction false} ContainsIffOccurs(s: string, t: string)
    ensures Contains(s, t) <==> exists k :: OccursAt(s, t, k)
    decreases |s|
  {
    if |t| <= |s| {
      if s[..|t|] == t {
        assert OccursAt(s, t, 0);
      } else {
        ContainsIffOccurs(s[1..], t);
        if Contains(s[1..], t) {
          var k :| OccursAt(s[1..], t, k);
          assert s[k + 1..k + 1 + |t|] == s[1..][k..k + |t|];
          assert OccursAt(s, t, k + 1);
        }
        if exists k :: OccursAt(s, t, k) {
          var k :| OccursAt(s, t, k);
          assert k != 0;
          assert s[1..][k - 1..k - 1 + |t|] == s[k..k + |t|];
          assert OccursAt(s[1..], t, k - 1);
        }
      }
    }
  }

  /** The token a band name must appear as in the file name: `-name-`. */
  function Token(name: string): string
  {
    "-" + name + "-"
  }

  /** The file name carries the token of band `names[j]`. */
  predicate Matches(names: seq<string>, fileName: string, j: int)
    requires 0 <= j < |names|
  {
    Contains(fileName, Token(names[j]))
  }

  /** The `for band_name in self.band_names` loop from position `i` on: the
      position of the first name whose token is in the file name. */
  function FindBandFrom(names: seq<string>, fileName: string, i: nat): (r: Option<nat>)
    requires i <= |names|
    ensures r.Some? ==> i <= r.value < |names| && Matches(names, fileName, r.value)
    ensures r.Some? ==> forall j :: i <= j < r.value ==> !Matches(names, fileName, j)
    ensures r.None? <==> forall j :: i <= j < |names| ==> !Matches(names, fileName, j)
    decreases |names| - i
  {
    if i == |names| then None
    else if Matches(names, fileName, i) then Some(i)
    else FindBandFrom(names, fileName, i + 1)
  }

  /** Python's `list.index`: the first position holding `x`. */
  function IndexOf(names: seq<string>, x: string): (r: nat)
    requires x in names
    ensures r < |names| && names[r] == x
    ensures forall j :: 0 <= j < r ==> names[j] != x
  {
    if names[0] == x then 0 else 1 + IndexOf(names[1..], x)
  }

  /** How `_set_band` can fail. */
  datatype BandError =
    | BandNotFound(fileName: string)   // the intended ValueError, naming the file
    | UndefinedName(name: string)      // the NameError the error line actually raises

  /** `_set_band` as written: on a match, `band_names.index(band_name)`; with
      no match the error message refers to the undefined name `corr_file`, so
      the call fails with a NameError instead of the intended message. */
  function SetBandAsWritten(names: seq<string>, fileName: string): (r: Result<nat, BandError>)
    ensures r.Failure? <==> forall j :: 0 <= j < |names| ==> !Matches(names, fileName, j)
    ensures r.Failure? ==> r.error == UndefinedName("corr_file")
  {
    match FindBandFrom(names, fileName, 0)
    case None => Failure(UndefinedName("corr_file"))
    case Some(k) => Success(IndexOf(names, names[k]))
  }

  /** `_set_band` with the intended error: the band index is the first entry
      of `names` whose `-name-` token occurs in the file name; it fails, naming
      the file, exactly when no entry's token occurs. */
  function SetBand(names: seq<string>, fileName: string): (r: Result<nat, BandError>)
    ensures r.Failure? <==> forall j :: 0 <= j < |names| ==> !Matches(names, fileName, j)
    ensures r.Failure? ==> r.error == BandNotFound(fileName)
    ensures r.Success? ==> r.value < |names| && Matches(names, fileName, r.value)
    ensures r.Success? ==> forall j :: 0 <= j < r.value ==> !Matches(names, fileName, j)
  {
    match FindBandFrom(names, fileName, 0)
    case None => Failure(BandNotFound(fileName))
    case Some(k) =>
      Success(IndexOf(names, names[k]))
  }

  /** Both versions agree whenever a band is found; they differ only in the
      error reported when none is. */
  lemma SetBandVersionsAgreeOnSuccess(names: seq<string>, fileName: string)
    ensures SetBandAsWritten(names, fileName).Success? <==> SetBand(names, fileName).Success?
    ensures SetBand(names, fileName).Success? ==>
              SetBandAsWritten(names, fileName) == SetBand(names, fileName)
  {
  }

  /** A token starting with a dash never occurs in a name without one. */
  lemma {:induction false} NoDashNoToken(s: string, t: string)
    requires '-' !in s && |t| > 0 && t[0] == '-'
    ensures !Contains(s, t)
    decreases |s|
  {
    if |t| <= |s| {
      assert s[..|t|][0] == s[0];
      assert s[0] in s;
      assert '-' !in s[1..] by {
        forall c | c in s[1..] ensures c in s { }
      }
      NoDashNoToken(s[1..], t);
    }
  }

  /** A file name with no dash carries no band token: the code as written
      then reports a NameError about `corr_file`, not the message naming the
      file. */
  lemma UnknownBandReportsUndefinedName()
    ensures SetBandAsWritten(["g", "r", "i", "z"], "tile_meds.fits")
              == Failure(UndefinedName("corr_file"))
    ensures SetBand(["g", "r", "i", "z"], "tile_meds.fits")
              == Failure(BandNotFound("tile_meds.fits"))
  {
    var names := ["g", "r", "i", "z"];
    var f := "tile_meds.fits";
    assert '-' !in f;
    forall j | 0 <= j < |names| ensures !Matches(names, f, j) {
      NoDashNoToken(f, Token(names[j]));
    }
    assert FindBandFrom(names, f, 0).None?;
  }
}
