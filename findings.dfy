/**
 * Two places where the queries do not do what their arguments and comments
 * announce, each shown on a concrete catalog, and the evidently intended query.
 *
 * 1. The redshift test compares `z_obs` with the magnitude cutoff, so `z_cutoff`
 *    is ignored and a galaxy far beyond it is returned.
 * 2. With no RA/Dec cutoff the bounds are the catalog's own extent and the tests
 *    are strict, so the extreme galaxies are dropped, although omitting the
 *    cutoffs is meant to "use all galaxies".
 */
module Findings {
  import opened Wrappers
  import opened Tokens
  import opened Masking
  import opened Selection
  import opened Foreground

  /** A concrete conversion pair: pi as a decimal, exact real arithmetic. */
  const Pi: real := 3.141592653589793
  function DegToRad(x: real): real { x * Pi / 180.0 }
  function RadToDeg(x: real): real { x * 180.0 / Pi }
  const LinearAngles := Angles(DegToRad, RadToDeg)

  /**
   * The hypotheses of `ReturnGalaxiesMonotone` (`NonDecreasing`) and of
   * `DefaultBoundsDropExtremes` (`ExactRoundTrip`) can both be met, by this pair.
   */
  lemma LinearAnglesWellBehaved()
    ensures NonDecreasing(LinearAngles.toRad)
    ensures ExactRoundTrip(LinearAngles)
  {
  }

  /** The windows of the evidently intended query: `z_cutoff` for redshift, no bound for an omitted coordinate. */
  function IntendedCuts(magC: Cutoff, massC: Cutoff, zC: Cutoff,
                        raC: Option<Cutoff>, decC: Option<Cutoff>, ang: Angles): (r: Cuts)
  {
    Cuts(
      Between(magC.first, magC.second),
      Between(massC.first, massC.second),
      Between(zC.first, zC.second),
      match raC
      case None => Anywhere
      case Some(ra) => Between(ang.toRad(ra.second), ang.toRad(ra.first)),
      match decC
      case None => Anywhere
      case Some(dec) => Between(ang.toRad(dec.first), ang.toRad(dec.second)))
  }

  /** Corrected returnGalaxies: every returned row honours `z_cutoff` and only the cutoffs actually given. */
  function ReturnGalaxiesIntended(cat: Catalog, magC: Cutoff, massC: Cutoff, zC: Cutoff,
                                  raC: Option<Cutoff>, decC: Option<Cutoff>, ang: Angles): (r: seq<Galaxy>)
    ensures |r| <= |cat.data|
    ensures forall k :: 0 <= k < |r| ==>
      && r[k] in cat.data
      && magC.first < r[k].mag < magC.second
      && massC.first < r[k].mstarObs < massC.second
      && zC.first < r[k].zObs < zC.second
      && (raC.Some? ==> ang.toRad(raC.value.second) < -r[k].nRA < ang.toRad(raC.value.first))
      && (decC.Some? ==> ang.toRad(decC.value.first) < r[k].dec < ang.toRad(decC.value.second))
  {
    Select(cat.data, IntendedCuts(magC, massC, zC, raC, decC, ang))
  }

  /** Without RA/Dec cutoffs the corrected query keeps every row inside the magnitude, mass and redshift cutoffs. */
  lemma IntendedDefaultsKeepEveryRow(cat: Catalog, magC: Cutoff, massC: Cutoff, zC: Cutoff, ang: Angles, g: Galaxy)
    requires g in cat.data
    requires magC.first < g.mag < magC.second
    requires massC.first < g.mstarObs < massC.second
    requires zC.first < g.zObs < zC.second
    ensures g in ReturnGalaxiesIntended(cat, magC, massC, zC, None, None, ang)
  {
    SelectComplete(cat.data, IntendedCuts(magC, massC, zC, None, None, ang), g);
  }

  /** One galaxy at redshift 3, well beyond the default `z_cutoff` of 1.3857. */
  const Distant := Galaxy(20.0, 10000000000.0, 3.0, -0.1, 0.1)

  /** Finding 1: with explicit RA/Dec cutoffs around it, the distant galaxy is returned. */
  lemma ZCutoffCounterexample(cat: Catalog)
    requires cat.data == [Distant]
    ensures Distant.zObs > DefaultZ.second
    ensures ReturnGalaxies(cat, DefaultMag, DefaultMass, DefaultZ,
                           Some(Cutoff(10.0, 0.0)), Some(Cutoff(0.0, 10.0)), LinearAngles) == [Distant]
    ensures ReturnGalaxiesIntended(cat, DefaultMag, DefaultMass, DefaultZ,
                                   Some(Cutoff(10.0, 0.0)), Some(Cutoff(0.0, 10.0)), LinearAngles) == []
  {
    var c := QueryCuts(cat, DefaultMag, DefaultMass, DefaultZ, Some(Cutoff(10.0, 0.0)), Some(Cutoff(0.0, 10.0)), LinearAngles);
    CompressSelect(cat.data, c);
    assert Passes(Distant, c);
  }

  /** One ordinary galaxy inside every default cutoff. */
  const Ordinary := Galaxy(20.0, 10000000000.0, 0.5, -0.1, 0.1)

  /**
   * Finding 2: a one-galaxy catalog queried with no RA/Dec cutoff returns nothing,
   * whatever the conversions: its RA extent is a single value, so the open window
   * `toRad(ra_min) < -nRA < toRad(ra_max)` is empty. The corrected query returns the galaxy.
   */
  lemma DefaultBoundsCounterexample(ang: Angles)
    ensures var name := Join(["GGL", "los", "8", "0", "0", "0", "0"], '_');
      && Load(name, [Ordinary], ang).Success?
      && ReturnGalaxies(Load(name, [Ordinary], ang).value,
                        DefaultMag, DefaultMass, DefaultZ, None, None, ang) == []
      && ReturnGalaxiesIntended(Load(name, [Ordinary], ang).value,
                                DefaultMag, DefaultMass, DefaultZ, None, None, ang) == [Ordinary]
  {
    var pieces := ["GGL", "los", "8", "0", "0", "0", "0"];
    var name := Join(pieces, '_');
    FilenameFields(pieces, [Ordinary], ang);
    var cat := Load(name, [Ordinary], ang).value;
    var c := QueryCuts(cat, DefaultMag, DefaultMass, DefaultZ, None, None, ang);
    CompressSelect(cat.data, c);
    assert cat.data == [Ordinary];
    assert |Column(cat.data, NegRAOf)| == 1;
    assert cat.raMax == cat.raMin;
    assert !Passes(Ordinary, c);
    assert Select(cat.data, c) == [];
    IntendedDefaultsKeepEveryRow(cat, DefaultMag, DefaultMass, DefaultZ, ang, Ordinary);
    var fixed := ReturnGalaxiesIntended(cat, DefaultMag, DefaultMass, DefaultZ, None, None, ang);
    assert fixed == [Ordinary] by {
      assert Ordinary in fixed && |fixed| <= 1;
    }
  }
}
