/**
 * ForegroundCatalog: a catalog of foreground galaxies for one patch of sky,
 * its summaries computed once at construction, and the two range queries
 * `returnGalaxies` (whole rows) and `findGalaxies` (RA, Dec and mass columns).
 *
 * Catalog angles (`nRA`, `Dec`) are stored in radians; query bounds and the
 * catalog's extent are in degrees. The two conversions are supplied by the
 * caller as an `Angles` value, so that nothing depends on how floating-point
 * `deg2rad`/`rad2deg` round.
 */
module Foreground {
  import opened Wrappers
  import opened Masking
  import opened Tokens
  import opened Selection

  /** Degree-to-radian and radian-to-degree conversions. */
  datatype Angles = Angles(toRad: real -> real, toDeg: real -> real)

  /** Order-preserving: a larger argument never gives a smaller value (rounding may tie). */
  ghost predicate NonDecreasing(f: real -> real) {
    forall x, y :: x <= y ==> f(x) <= f(y)
  }

  /** Converting to degrees and back gives back exactly the radian value. */
  ghost predicate ExactRoundTrip(ang: Angles) {
    forall x :: ang.toRad(ang.toDeg(x)) == x
  }

  /** A two-element cutoff list `[first, second]` as the caller passes it. */
  datatype Cutoff = Cutoff(first: real, second: real)

  /** Default cutoff arguments of both queries. */
  const DefaultMag := Cutoff(0.0, 24.0)
  const DefaultMass := Cutoff(0.0, 100000000000000000000.0)
  const DefaultZ := Cutoff(0.0, 1.3857)

  /** The two ways construction fails before the catalog exists. */
  datatype LoadError =
    | FilenameTooShort  // fewer than 7 '_'-separated pieces: indexing piece 3..6 fails
    | EmptyCatalog      // max/min of an empty column fails

  datatype Catalog = Catalog(
    filename: string,
    data: seq<Galaxy>,
    mapX: string, mapY: string,        // position of the 4x4-degree map in the grid
    fieldI: string, fieldJ: string,    // position of the 1x1-degree field in the map
    galaxyCount: nat,
    maxZ: real, minZ: real,
    maxM: real, minM: real,
    maxMag: real, minMag: real,
    raMax: real, raMin: real,          // extent of -nRA, in degrees
    decMax: real, decMin: real)        // extent of Dec, in degrees

  /** Columns of the catalog table. */
  function MagOf(g: Galaxy): (r: real) { g.mag }
  function MassOf(g: Galaxy): (r: real) { g.mstarObs }
  function ZOf(g: Galaxy): (r: real) { g.zObs }
  function NRAOf(g: Galaxy): (r: real) { g.nRA }
  function NegRAOf(g: Galaxy): (r: real) { -g.nRA }
  function DecOf(g: Galaxy): (r: real) { g.dec }
  function Neg(x: real): (r: real) { -x }

  function MaxOf(xs: seq<real>): (m: real)
    requires |xs| > 0
    ensures m in xs
    ensures forall k :: 0 <= k < |xs| ==> xs[k] <= m
    decreases |xs|
  {
    if |xs| == 1 then xs[0]
    else
      var t := MaxOf(xs[1..]);
      if xs[0] >= t then xs[0] else t
  }

  function MinOf(xs: seq<real>): (m: real)
    requires |xs| > 0
    ensures m in xs
    ensures forall k :: 0 <= k < |xs| ==> m <= xs[k]
    decreases |xs|
  {
    if |xs| == 1 then xs[0]
    else
      var t := MinOf(xs[1..]);
      if xs[0] <= t then xs[0] else t
  }

  /** `lo` and `hi` are entries of `xs` and every entry lies between them. */
  ghost predicate Spans(lo: real, hi: real, xs: seq<real>) {
    && lo in xs && hi in xs && lo <= hi
    && forall k :: 0 <= k < |xs| ==> lo <= xs[k] <= hi
  }

  /** Construction: the file name pieces and the per-column summaries. */
  function Load(filename: string, data: seq<Galaxy>, ang: Angles): (r: Result<Catalog, LoadError>)
    ensures r.Success? <==> |Split(filename, '_')| >= 7 && |data| > 0
    ensures |Split(filename, '_')| < 7 ==> r == Failure(FilenameTooShort)
    ensures |Split(filename, '_')| >= 7 && |data| == 0 ==> r == Failure(EmptyCatalog)
    ensures r.Success? ==>
      var pieces := Split(filename, '_');
      && r.value.filename == filename && r.value.data == data
      && r.value.mapX == pieces[3] && r.value.mapY == pieces[4]
      && r.value.fieldI == pieces[5] && r.value.fieldJ == pieces[6]
      && r.value.galaxyCount == |data|
      && Spans(r.value.minZ, r.value.maxZ, Column(data, ZOf))
      && Spans(r.value.minM, r.value.maxM, Column(data, MassOf))
      && Spans(r.value.minMag, r.value.maxMag, Column(data, MagOf))
      && r.value.raMax == ang.toDeg(MaxOf(Column(data, NegRAOf)))
      && r.value.raMin == ang.toDeg(MinOf(Column(data, NegRAOf)))
      && r.value.decMax == ang.toDeg(MaxOf(Column(data, DecOf)))
      && r.value.decMin == ang.toDeg(MinOf(Column(data, DecOf)))
  {
    var pieces := Split(filename, '_');
    if |pieces| < 7 then Failure(FilenameTooShort)
    else if |data| == 0 then Failure(EmptyCatalog)
    else
      var zs, ms, mags := Column(data, ZOf), Column(data, MassOf), Column(data, MagOf);
      var negRA, decs := Column(data, NegRAOf), Column(data, DecOf);
      Success(Catalog(
        filename, data,
        pieces[3], pieces[4], pieces[5], pieces[6],
        |data|,
        MaxOf(zs), MinOf(zs), MaxOf(ms), MinOf(ms), MaxOf(mags), MinOf(mags),
        ang.toDeg(MaxOf(negRA)), ang.toDeg(MinOf(negRA)),
        ang.toDeg(MaxOf(decs)), ang.toDeg(MinOf(decs))))
  }

  /** `cat` is exactly what construction builds from its own file name and rows. */
  ghost predicate Built(cat: Catalog, ang: Angles) {
    Load(cat.filename, cat.data, ang) == Success(cat)
  }

  /** A file name made of 7 or more '_'-free pieces yields pieces 3 to 6 as grid indices. */
  lemma FilenameFields(pieces: seq<string>, data: seq<Galaxy>, ang: Angles)
    requires |pieces| >= 7 && |data| > 0
    requires forall k :: 0 <= k < |pieces| ==> '_' !in pieces[k]
    ensures Load(Join(pieces, '_'), data, ang).Success?
    ensures var cat := Load(Join(pieces, '_'), data, ang).value;
      cat.mapX == pieces[3] && cat.mapY == pieces[4] && cat.fieldI == pieces[5] && cat.fieldJ == pieces[6]
  {
    SplitJoin(pieces, '_');
  }

  /** With no RA cutoff the list `[ra_max, ra_min]` is used: upper bound first. */
  function ResolveRA(cat: Catalog, raC: Option<Cutoff>): (r: Cutoff) {
    raC.GetOr(Cutoff(cat.raMax, cat.raMin))
  }

  /** With no Dec cutoff the list `[dec_min, dec_max]` is used. */
  function ResolveDec(cat: Catalog, decC: Option<Cutoff>): (r: Cutoff) {
    decC.GetOr(Cutoff(cat.decMin, cat.decMax))
  }

  /**
   * The test each row must pass, with RA and Dec cutoffs in degrees. The redshift
   * is compared against the MAGNITUDE cutoff; the RA list is `[upper, lower]` on -nRA.
   */
  predicate InCutoffs(g: Galaxy, magC: Cutoff, massC: Cutoff, raC: Cutoff, decC: Cutoff, ang: Angles) {
    && magC.first < g.mag < magC.second
    && massC.first < g.mstarObs < massC.second
    && magC.first < g.zObs < magC.second
    && ang.toRad(raC.second) < -g.nRA < ang.toRad(raC.first)
    && ang.toRad(decC.first) < g.dec < ang.toRad(decC.second)
  }

  /** The windows both queries build from their arguments; `zC` takes no part. */
  function QueryCuts(cat: Catalog, magC: Cutoff, massC: Cutoff, zC: Cutoff,
                     raC: Option<Cutoff>, decC: Option<Cutoff>, ang: Angles): (r: Cuts)
  {
    var ra, dec := ResolveRA(cat, raC), ResolveDec(cat, decC);
    Cuts(
      Between(magC.first, magC.second),
      Between(massC.first, massC.second),
      Between(magC.first, magC.second),
      Between(ang.toRad(ra.second), ang.toRad(ra.first)),
      Between(ang.toRad(dec.first), ang.toRad(dec.second)))
  }

  lemma QueryCutsAgree(cat: Catalog, magC: Cutoff, massC: Cutoff, zC: Cutoff,
                       raC: Option<Cutoff>, decC: Option<Cutoff>, ang: Angles, g: Galaxy)
    ensures Passes(g, QueryCuts(cat, magC, massC, zC, raC, decC, ang))
        <==> InCutoffs(g, magC, massC, ResolveRA(cat, raC), ResolveDec(cat, decC), ang)
  {
  }

  /** returnGalaxies: the whole rows that pass every cutoff. */
  function ReturnGalaxies(cat: Catalog, magC: Cutoff, massC: Cutoff, zC: Cutoff,
                          raC: Option<Cutoff>, decC: Option<Cutoff>, ang: Angles): (r: seq<Galaxy>)
    ensures |r| <= |cat.data|
    ensures forall k :: 0 <= k < |r| ==>
      r[k] in cat.data && InCutoffs(r[k], magC, massC, ResolveRA(cat, raC), ResolveDec(cat, decC), ang)
  {
    var c := QueryCuts(cat, magC, massC, zC, raC, decC, ang);
    CompressSelect(cat.data, c);
    Compress(cat.data, Mask(cat.data, c))
  }

  /** findGalaxies' three result columns: RA and Dec in degrees, and stellar mass. */
  datatype Positions = Positions(ra: seq<real>, dec: seq<real>, mass: seq<real>)

  /**
   * findGalaxies: the same mask applied separately to the nRA, Dec and Mstar_obs
   * columns. Position k of each column comes from the k-th row returnGalaxies keeps.
   */
  function FindGalaxies(cat: Catalog, magC: Cutoff, massC: Cutoff, zC: Cutoff,
                        raC: Option<Cutoff>, decC: Option<Cutoff>, ang: Angles): (p: Positions)
    ensures var rows := ReturnGalaxies(cat, magC, massC, zC, raC, decC, ang);
      && |p.ra| == |rows| && |p.dec| == |rows| && |p.mass| == |rows|
      && forall k :: 0 <= k < |rows| ==>
           && p.ra[k] == -ang.toDeg(rows[k].nRA)
           && p.dec[k] == ang.toDeg(rows[k].dec)
           && p.mass[k] == rows[k].mstarObs
  {
    var mask := Mask(cat.data, QueryCuts(cat, magC, massC, zC, raC, decC, ang));
    MaskedColumnsAlign(cat.data, mask, ang);
    Positions(
      Column(Column(Compress(Column(cat.data, NRAOf), mask), ang.toDeg), Neg),
      Column(Compress(Column(cat.data, DecOf), mask), ang.toDeg),
      Compress(Column(cat.data, MassOf), mask))
  }

  lemma MaskedColumnsAlign(data: seq<Galaxy>, mask: seq<bool>, ang: Angles)
    requires |mask| == |data|
    ensures var rows := Compress(data, mask);
      var ra := Column(Column(Compress(Column(data, NRAOf), mask), ang.toDeg), Neg);
      var dec := Column(Compress(Column(data, DecOf), mask), ang.toDeg);
      var mass := Compress(Column(data, MassOf), mask);
      && |ra| == |rows| && |dec| == |rows| && |mass| == |rows|
      && forall k :: 0 <= k < |rows| ==>
           ra[k] == -ang.toDeg(rows[k].nRA) && dec[k] == ang.toDeg(rows[k].dec) && mass[k] == rows[k].mstarObs
  {
    var rows := Compress(data, mask);
    var nra := Compress(Column(data, NRAOf), mask);
    var decs := Compress(Column(data, DecOf), mask);
    var mass := Compress(Column(data, MassOf), mask);
    CompressColumn(data, mask, NRAOf);
    CompressColumn(data, mask, DecOf);
    CompressColumn(data, mask, MassOf);
    var degs := Column(nra, ang.toDeg);
    var ra := Column(degs, Neg);
    var dec := Column(decs, ang.toDeg);
    forall k | 0 <= k < |rows|
      ensures ra[k] == -ang.toDeg(rows[k].nRA) && dec[k] == ang.toDeg(rows[k].dec) && mass[k] == rows[k].mstarObs
    {
      assert nra[k] == rows[k].nRA;
      assert degs[k] == ang.toDeg(rows[k].nRA);
      assert ra[k] == Neg(degs[k]);
      assert decs[k] == rows[k].dec;
      assert dec[k] == ang.toDeg(decs[k]);
    }
  }

  /**
   * returnGalaxies keeps exactly the rows that pass, in catalog order: the k-th
   * result is row `idx[k]`, `idx` increases, and row i is kept iff it passes.
   */
  lemma ReturnGalaxiesExact(cat: Catalog, magC: Cutoff, massC: Cutoff, zC: Cutoff,
                            raC: Option<Cutoff>, decC: Option<Cutoff>, ang: Angles)
    returns (idx: seq<int>)
    ensures var rows := ReturnGalaxies(cat, magC, massC, zC, raC, decC, ang);
      && IncreasingPositions(idx, |cat.data|)
      && |idx| == |rows|
      && (forall k :: 0 <= k < |idx| ==> rows[k] == cat.data[idx[k]])
      && (forall i :: 0 <= i < |cat.data| ==>
            (InCutoffs(cat.data[i], magC, massC, ResolveRA(cat, raC), ResolveDec(cat, decC), ang)
             <==> i in idx))
      && IsSubsequence(rows, cat.data)
  {
    var c := QueryCuts(cat, magC, massC, zC, raC, decC, ang);
    var mask := Mask(cat.data, c);
    idx := CompressIndexing(cat.data, mask);
    CompressSelect(cat.data, c);
    SelectIsSubsequence(cat.data, c);
    forall i | 0 <= i < |cat.data|
      ensures mask[i] == InCutoffs(cat.data[i], magC, massC, ResolveRA(cat, raC), ResolveDec(cat, decC), ang)
    {
      QueryCutsAgree(cat, magC, massC, zC, raC, decC, ang, cat.data[i]);
    }
  }

  /** The redshift cutoff argument never changes either query's result. */
  lemma ZCutoffIgnored(cat: Catalog, magC: Cutoff, massC: Cutoff, z1: Cutoff, z2: Cutoff,
                       raC: Option<Cutoff>, decC: Option<Cutoff>, ang: Angles)
    ensures ReturnGalaxies(cat, magC, massC, z1, raC, decC, ang) == ReturnGalaxies(cat, magC, massC, z2, raC, decC, ang)
    ensures FindGalaxies(cat, magC, massC, z1, raC, decC, ang) == FindGalaxies(cat, magC, massC, z2, raC, decC, ang)
  {
  }

  /**
   * Narrowing any cutoff never adds rows. RA lists are `[upper, lower]`, so a narrower
   * RA list has a smaller first and a larger second element. Needs `toRad` non-decreasing.
   */
  lemma ReturnGalaxiesMonotone(cat: Catalog, ang: Angles, zC: Cutoff,
                               mag1: Cutoff, mass1: Cutoff, ra1: Cutoff, dec1: Cutoff,
                               mag2: Cutoff, mass2: Cutoff, ra2: Cutoff, dec2: Cutoff)
    requires NonDecreasing(ang.toRad)
    requires mag2.first <= mag1.first && mag1.second <= mag2.second
    requires mass2.first <= mass1.first && mass1.second <= mass2.second
    requires ra2.second <= ra1.second && ra1.first <= ra2.first
    requires dec2.first <= dec1.first && dec1.second <= dec2.second
    ensures IsSubsequence(ReturnGalaxies(cat, mag1, mass1, zC, Some(ra1), Some(dec1), ang),
                          ReturnGalaxies(cat, mag2, mass2, zC, Some(ra2), Some(dec2), ang))
  {
    var inner := QueryCuts(cat, mag1, mass1, zC, Some(ra1), Some(dec1), ang);
    var outer := QueryCuts(cat, mag2, mass2, zC, Some(ra2), Some(dec2), ang);
    assert ang.toRad(ra2.second) <= ang.toRad(ra1.second);
    assert ang.toRad(ra1.first) <= ang.toRad(ra2.first);
    assert ang.toRad(dec2.first) <= ang.toRad(dec1.first);
    assert ang.toRad(dec1.second) <= ang.toRad(dec2.second);
    assert inner.Within(outer);
    CompressSelect(cat.data, inner);
    CompressSelect(cat.data, outer);
    SelectMonotone(cat.data, inner, outer);
  }

  /** Omitted RA/Dec cutoffs are the catalog's own extent, `[ra_max, ra_min]` and `[dec_min, dec_max]`. */
  lemma DefaultBounds(cat: Catalog, magC: Cutoff, massC: Cutoff, zC: Cutoff, ang: Angles)
    ensures ReturnGalaxies(cat, magC, massC, zC, None, None, ang)
         == ReturnGalaxies(cat, magC, massC, zC, Some(Cutoff(cat.raMax, cat.raMin)), Some(Cutoff(cat.decMin, cat.decMax)), ang)
    ensures FindGalaxies(cat, magC, massC, zC, None, None, ang)
         == FindGalaxies(cat, magC, massC, zC, Some(Cutoff(cat.raMax, cat.raMin)), Some(Cutoff(cat.decMin, cat.decMax)), ang)
  {
  }

  /**
   * If the conversions round-trip exactly, the default bounds are the open extent
   * of the catalog's own -nRA and Dec columns, so any row lying on that extent
   * (the easternmost, westernmost, southernmost or northernmost galaxy) is dropped.
   */
  lemma DefaultBoundsDropExtremes(cat: Catalog, magC: Cutoff, massC: Cutoff, zC: Cutoff, ang: Angles)
    requires Built(cat, ang)
    requires ExactRoundTrip(ang)
    ensures |cat.data| > 0
    ensures ReturnGalaxies(cat, magC, massC, zC, None, None, ang)
         == Select(cat.data, Cuts(
              Between(magC.first, magC.second), Between(massC.first, massC.second),
              Between(magC.first, magC.second),
              Between(MinOf(Column(cat.data, NegRAOf)), MaxOf(Column(cat.data, NegRAOf))),
              Between(MinOf(Column(cat.data, DecOf)), MaxOf(Column(cat.data, DecOf)))))
    ensures forall g :: g in cat.data
              && (-g.nRA == MaxOf(Column(cat.data, NegRAOf)) || -g.nRA == MinOf(Column(cat.data, NegRAOf))
                  || g.dec == MaxOf(Column(cat.data, DecOf)) || g.dec == MinOf(Column(cat.data, DecOf)))
              ==> g !in ReturnGalaxies(cat, magC, massC, zC, None, None, ang)
  {
    var c := QueryCuts(cat, magC, massC, zC, None, None, ang);
    CompressSelect(cat.data, c);
    var negRA, decs := Column(cat.data, NegRAOf), Column(cat.data, DecOf);
    assert ang.toRad(cat.raMax) == MaxOf(negRA);
    assert ang.toRad(cat.raMin) == MinOf(negRA);
    assert ang.toRad(cat.decMax) == MaxOf(decs);
    assert ang.toRad(cat.decMin) == MinOf(decs);
  }
}
