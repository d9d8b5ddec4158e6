# Pangloss foreground catalog selection, in Dafny

This project models the part of Pangloss that selects foreground galaxies from a
catalog: the `ForegroundCatalog` class of `pangloss/foreground.py`. It covers
three things:

- **construction**: the grid position read from the file name, the galaxy count, and the min/max of
  each column;
- **`returnGalaxies`**: the catalog rows that pass every magnitude, stellar-mass, redshift, RA and Dec
  cutoff;
- **`findGalaxies`**: the RA, Dec and mass columns of those same rows.

The selection is written twice. `Selection.Select` is the reference definition: an order-preserving
filter. `Masking.Compress` is the mechanism the source uses: a numpy boolean mask applied to the
table or to one column. Lemmas connect the two. Every RA/Dec test is made in radians, and the
degree/radian conversions are an `Angles` value supplied by the caller. Monotonicity needs `toRad`
to be non-decreasing, which a rounded `deg2rad` still is, and is proved under that hypothesis. An exact round trip of the
conversions is likewise only ever a hypothesis.

The line-of-sight reconstruction and calibration engine that the project describes as its main
purpose is not part of this model. In the repository it exists only as pseudocode calling functions
that are defined nowhere (`Reconstruct.py`, lines 128-221).

## Model

| member | source | states |
|---|---|---|
| `Foreground.Load` | pangloss/foreground.py:51-78 | Construction fails with an index error exactly when the file name has fewer than 7 `_`-separated pieces, and otherwise with the error of `max` on an empty column exactly when the catalog is empty (the `eval` failure is not modelled, see "Left out"). On success: `map_x`, `map_y`, `field_i`, `field_j` are pieces 3-6; `galaxyCount` is the number of rows; each min/max pair for `z_obs`, `Mstar_obs` and `mag` consists of entries of its column, bounds every entry and has min <= max; the RA/Dec extent is the converted max/min of `-nRA` and `Dec` |
| `Foreground.FilenameFields` | pangloss/foreground.py:57-63 | For a file name made of 7 or more `_`-free pieces, construction of a non-empty catalog succeeds and takes exactly pieces 3, 4, 5 and 6 as the map and field indices |
| `Tokens.Split` | pangloss/foreground.py:57 | `str.split('_')` gives at least one piece, and no piece contains the separator |
| `Tokens.JoinSplit` | pangloss/foreground.py:57 | Splitting loses nothing: joining the pieces with `_` gives back the file name |
| `Tokens.SplitJoin` | pangloss/foreground.py:57 | Separator-free pieces are recovered exactly by splitting their join, so piece k of the file name is the k-th field written into it |
| `Foreground.MaxOf` | pangloss/foreground.py:67-77 | The column maximum is an entry of the column and no entry exceeds it |
| `Foreground.MinOf` | pangloss/foreground.py:68-78 | The column minimum is an entry of the column and no entry is below it |
| `Foreground.ReturnGalaxies` | pangloss/foreground.py:124-143 | Soundness. Every returned row is a catalog row with mag_cutoff[0] < mag < mag_cutoff[1] and mass_cutoff[0] < Mstar_obs < mass_cutoff[1]. Its z_obs lies strictly inside the magnitude cutoff. Its `-nRA` lies strictly between the converted ra_cutoff[1] and ra_cutoff[0]. Its Dec lies strictly inside the converted dec_cutoff. Omitted RA/Dec cutoffs are replaced by the catalog's extent |
| `Foreground.ReturnGalaxiesExact` | pangloss/foreground.py:137-143 | Completeness and order: the k-th returned row is catalog row `idx[k]` with `idx` strictly increasing, row i is returned iff it passes every test, and the result is a subsequence of the catalog |
| `Foreground.FindGalaxies` | pangloss/foreground.py:89-121 | The three masked columns have the length of the `returnGalaxies` result, and position k of `ra`, `dec` and `mass` is the negated RA in degrees, the Dec in degrees and the stellar mass of the k-th row `returnGalaxies` returns for the same arguments |
| `Foreground.ZCutoffIgnored` | pangloss/foreground.py:103-141 | Changing `z_cutoff` never changes the result of either query |
| `Foreground.DefaultBounds` | pangloss/foreground.py:129-134 | An omitted RA cutoff is the list `[ra_max, ra_min]` (upper bound first on `-nRA`), an omitted Dec cutoff `[dec_min, dec_max]`, for both queries |
| `Foreground.DefaultBoundsDropExtremes` | pangloss/foreground.py:129-141 | On a constructed catalog whose conversions round-trip exactly, the default query is the selection on the open extent of the catalog's own `-nRA` and Dec columns, so a row lying on that extent is never returned |
| `Foreground.ReturnGalaxiesMonotone` | pangloss/foreground.py:137-141 | With `deg2rad` non-decreasing, narrowing the magnitude, mass, RA or Dec cutoff never adds rows: the narrower result is a subsequence of the wider one, whatever `z_cutoff` is |
| `Selection.Select` | pangloss/foreground.py:137-141 | Reference filter: every kept row passes all five open-interval tests, is a row of the input, and the result is no longer than the input |
| `Selection.CompressSelect` | pangloss/foreground.py:137-141 | Indexing the rows with their own pass/fail mask equals the reference filter |
| `Selection.SelectComplete` | pangloss/foreground.py:137-141 | Every input row that passes all tests is kept |
| `Selection.SelectIsSubsequence` | pangloss/foreground.py:137-143 | The selection keeps the catalog's row order |
| `Selection.SelectNested` | pangloss/foreground.py:137-141 | Selecting with narrower windows equals narrowing the wider selection |
| `Selection.SelectMonotone` | pangloss/foreground.py:137-141 | Narrower windows give a subsequence of, and no more rows than, wider ones |
| `Masking.Compress` | pangloss/foreground.py:137-141 | Boolean-mask indexing returns at most as many entries as the column, each one an entry of the column |
| `Masking.CompressIndexing` | pangloss/foreground.py:137-141 | Boolean-mask indexing keeps position i iff the mask is true there, in increasing position order |
| `Masking.CompressColumn` | pangloss/foreground.py:103-119 | Masking a derived column equals deriving the column from the masked rows. This is why the three separately masked columns of `findGalaxies` line up |
| `Findings.ReturnGalaxiesIntended` | pangloss/foreground.py:124-141 | Corrected query: every returned row lies strictly inside `z_cutoff` as well as the magnitude and mass cutoffs, and inside only the RA/Dec cutoffs actually given |
| `Findings.IntendedDefaultsKeepEveryRow` | pangloss/foreground.py:129-131 | Corrected query with no RA/Dec cutoff: every row inside the magnitude, mass and redshift cutoffs is returned |
| `Findings.ZCutoffCounterexample` | pangloss/foreground.py:139 | A galaxy at redshift 3 is returned under the default `z_cutoff` of [0, 1.3857]. The corrected query does not return it |
| `Findings.DefaultBoundsCounterexample` | pangloss/foreground.py:129-141 | For every degree/radian conversion, a one-galaxy catalog queried with no RA/Dec cutoff returns nothing, because its RA extent is a single value and the open window is empty. The corrected query returns the galaxy |

## Findings

| source | as written | input that shows it | evidently intended | confidence | as-written member | corrected member |
|---|---|---|---|---|---|---|
| pangloss/foreground.py:139 | `z_obs` is compared with `mag_cutoff`, so `z_cutoff` (default [0, 1.3857]) has no effect (the same at lines 105, 111 and 117) | one galaxy with mag 20, Mstar_obs 1e10, z_obs 3.0, nRA -0.1, Dec 0.1; default magnitude, mass and redshift cutoffs; RA cutoff [10, 0] and Dec cutoff [0, 10] degrees: the galaxy is returned | `z_cutoff[0] < z_obs < z_cutoff[1]` | high; not executed | `Findings.ZCutoffCounterexample` | `Findings.ReturnGalaxiesIntended` |
| pangloss/foreground.py:129-141 | With no RA/Dec cutoff the bounds are the catalog's own extent and the tests are strict. Under exact conversions the galaxies on the edge of the extent are dropped, contrary to the comment "use all galaxies" (lines 94 and 129) | a catalog holding one galaxy (mag 20, Mstar_obs 1e10, z_obs 0.5, nRA -0.1, Dec 0.1), default cutoffs, no RA/Dec cutoff: nothing is returned | no RA/Dec bound when none is given | high for the one-galaxy input, which fails for every conversion; for a larger catalog the edge rows are dropped only when `deg2rad(rad2deg(x))` gives back `x` exactly, which floating point may or may not do; not executed | `Findings.DefaultBoundsCounterexample` | `Findings.IntendedDefaultsKeepEveryRow` |

The general selection lemmas of `Selection` and `Masking` hold for any windows. They therefore
apply to the corrected query as well as to the query as written. `Foreground.ReturnGalaxies` and
`Foreground.FindGalaxies` model the code as written.

## Left out

- Loading the catalog table (`pangloss.Catalog.__init__`, astropy `Table`): the rows are given as a sequence of `Galaxy` records. Only the five columns the selection reads are modelled.
- Foreground.Load: each grid index is kept as its raw file-name piece. The `eval` applied to it (arbitrary Python evaluation) is not modelled. An exception raised by `eval` on pieces 3-6 (for example `GGL_los_8_x_0_0_0`, where `x` is an undefined name) is a further construction failure that the model treats as success.
- Floating point: values are exact reals. NaN entries, which fail every comparison and upset `max`/`min`, are not modelled. Neither is the rounding of `np.deg2rad`/`np.rad2deg`, which are caller-supplied functions here.
- `ForegroundCatalog.plot`: matplotlib axes and scatter plots with log-scaled marker sizes, presentation only. So is `__str`, which only formats a string.
- `Reconstruct.py`: command-line parsing, pickled input and output, glob enumeration, and the reconstruction and calibration steps. Those steps are only pseudocode calls to functions that exist nowhere in the repository, so there is no behaviour to model.
- `pangloss/shearmap.py` and `pangloss/kappamap.py`: plotting code. Their coordinate transforms live in a map base class that is not part of this model.
- Foreground.ReturnGalaxiesMonotone: stated for explicitly given RA/Dec cutoffs. An omitted cutoff is an explicit one by `Foreground.DefaultBounds`.
