/**
 * The range test that the foreground catalog applies to every galaxy row:
 * a conjunction of strict open-interval tests on magnitude, stellar mass,
 * redshift, negated right ascension and declination (angles in radians).
 */
module Selection {
  import opened Masking

  /** One catalog row, restricted to the columns the selection reads. */
  datatype Galaxy = Galaxy(mag: real, mstarObs: real, zObs: real, nRA: real, dec: real)

  /** An open interval `lo < x < hi`, or no bound at all. */
  datatype Window = Between(lo: real, hi: real) | Anywhere {
    predicate Contains(x: real) {
      Anywhere? || (lo < x && x < hi)
    }

    /** Every value this window admits, `outer` admits too. */
    predicate Within(outer: Window) {
      outer.Anywhere? || (Between? && outer.lo <= lo && hi <= outer.hi)
    }
  }

  /** The five windows of one selection, already in the catalog's units. */
  datatype Cuts = Cuts(mag: Window, mass: Window, z: Window, negRA: Window, dec: Window) {
    predicate Within(outer: Cuts) {
      && mag.Within(outer.mag) && mass.Within(outer.mass) && z.Within(outer.z)
      && negRA.Within(outer.negRA) && dec.Within(outer.dec)
    }
  }

  /** The right ascension test is made on `-nRA`, the column holding negated RA. */
  predicate Passes(g: Galaxy, c: Cuts) {
    && c.mag.Contains(g.mag)
    && c.mass.Contains(g.mstarObs)
    && c.z.Contains(g.zObs)
    && c.negRA.Contains(-g.nRA)
    && c.dec.Contains(g.dec)
  }

  /** The per-row boolean mask the selection expression builds. */
  function Mask(rows: seq<Galaxy>, c: Cuts): (r: seq<bool>) {
    seq(|rows|, i requires 0 <= i < |rows| => Passes(rows[i], c))
  }

  /** Reference definition: the rows that pass, in catalog order. */
  function Select(rows: seq<Galaxy>, c: Cuts): (r: seq<Galaxy>)
    ensures |r| <= |rows|
    ensures forall k :: 0 <= k < |r| ==> Passes(r[k], c) && r[k] in rows
    decreases |rows|
  {
    if rows == [] then []
    else (if Passes(rows[0], c) then [rows[0]] else []) + Select(rows[1..], c)
  }

  /** Masking the rows with their own pass/fail mask is the reference filter. */
  lemma {:induction false} CompressSelect(rows: seq<Galaxy>, c: Cuts)
    ensures Compress(rows, Mask(rows, c)) == Select(rows, c)
    decreases |rows|
  {
    if rows != [] {
      assert Mask(rows, c)[1..] == Mask(rows[1..], c);
      CompressSelect(rows[1..], c);
    }
  }

  /** Every row that passes is selected. */
  lemma {:induction false} SelectComplete(rows: seq<Galaxy>, c: Cuts, g: Galaxy)
    requires g in rows && Passes(g, c)
    ensures g in Select(rows, c)
    decreases |rows|
  {
    if rows[0] != g {
      SelectComplete(rows[1..], c, g);
    }
  }

  /** Selection keeps the catalog order: its result is a subsequence of the rows. */
  lemma {:induction false} SelectIsSubsequence(rows: seq<Galaxy>, c: Cuts)
    ensures IsSubsequence(Select(rows, c), rows)
    decreases |rows|
  {
    if rows != [] {
      SelectIsSubsequence(rows[1..], c);
      var tail := Select(rows[1..], c);
      if Passes(rows[0], c) {
        assert Select(rows, c)[1..] == tail;
      } else {
        assert Select(rows, c) == tail;
      }
    }
  }

  /** Selecting with narrower cuts is the same as narrowing the wider selection. */
  lemma {:induction false} SelectNested(rows: seq<Galaxy>, inner: Cuts, outer: Cuts)
    requires inner.Within(outer)
    ensures Select(rows, inner) == Select(Select(rows, outer), inner)
    decreases |rows|
  {
    if rows != [] {
      SelectNested(rows[1..], inner, outer);
      var g := rows[0];
      var wide := Select(rows[1..], outer);
      if Passes(g, outer) {
        assert Select(rows, outer) == [g] + wide;
        assert ([g] + wide)[1..] == wide;
      } else {
        assert !Passes(g, inner);
        assert Select(rows, outer) == wide;
        assert Select(rows, inner) == Select(rows[1..], inner);
      }
    }
  }

  /** Narrowing any window never adds a row: the result shrinks to a subsequence. */
  lemma SelectMonotone(rows: seq<Galaxy>, inner: Cuts, outer: Cuts)
    requires inner.Within(outer)
    ensures IsSubsequence(Select(rows, inner), Select(rows, outer))
    ensures |Select(rows, inner)| <= |Select(rows, outer)|
  {
    SelectNested(rows, inner, outer);
    SelectIsSubsequence(Select(rows, outer), inner);
  }
}
