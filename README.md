# geodisk: loading and ranking geographic records

geodisk reads a CSV table of locations (`id`, `lat`, `lng`, in degrees). It
computes each location's great-circle distance to a fixed target point and
reports the five closest and the five farthest locations. This project models
the core of that pipeline in `main.go`:

- **The record loader** (`distanceWithCSVReader`), in `loader.dfy`. The header
  must have exactly three fields (otherwise `ErrInvalidCSVFormat`). Those fields
  must be exactly `id`, `lat`, `lng` (otherwise `ErrInvalidGeoHeader`). Every
  following row becomes a `GeoRecord`. The first bad row stops the loop, and the
  records gathered so far are returned with the error.
  - A row with the wrong field count is a bad row.
  - So is a latitude or longitude that does not parse, or a read error.
  - The end of input stops the loop without an error.
- **The ranker**, in `ranker.dfy`. It covers `GeoRecords.Less` and `GeoRecords.Swap`,
  `sort.Sort` over the record array, and the selection of `top5`/`bottom5`.
- **The step from loading to selection** in `geoDistanceWithCSV`, in `pipeline.dfy`.

Modelling choices:

- `float64` values are `real`. Rounding, NaN and ±Inf are therefore outside the
  model (see "Left out").
- The CSV reader is the sequence of results its successive `Read` calls return.
  Each result is a row of fields, EOF or a read error. Reading past the end of
  that sequence yields EOF.
- `strconv.ParseFloat`, `toRadians` and `greatCircleDistance` stay abstract. They
  are the fields of a `Numerics` value passed to the loader (`geo.dfy`), so the
  model never depends on how they are computed.
- The target point is a parameter. `main.go` uses the global values at lines 25-28.
- An empty input returns `io.EOF` from the header read. The model reports this
  as `ReadEOF`, which is different from the normal end of the data rows.

The doc comment of `distanceWithCSVReader` speaks of "a maximum of 3" fields per
line. The code requires exactly 3 (`main.go:127`), and the model follows the
code.

With its default settings, Go's `csv.Reader` rejects a row whose width differs
from the first row, and reports that as a read error. The reader is abstract
here, so the model keeps the `len(line) != 3` branch as written.

## Model

| member | source | states |
|---|---|---|
| `Loader.CheckHeader` | main.go:106-114 | the field count is checked before the names; no error exactly when the header is `id`,`lat`,`lng` in that order (case-sensitive), `InvalidCSVFormat` exactly when it does not have 3 fields, `InvalidGeoHeader` otherwise |
| `Loader.ParseRow` | main.go:127-149 | a row yields a record exactly when it has 3 fields and both coordinates parse; a wrong field count gives `InvalidCSVFormat`; the latitude's parse error wins over the longitude's; the record keeps field 0 as its id, stores both coordinates converted to radians, and its distance agrees with its stored position and the target |
| `Loader.RowsFrom` | main.go:116-154 | every record the data loop emits has a distance that agrees with its own position and the target; the data loop never reports an end-of-input error nor a header error |
| `Loader.Load` | main.go:96-114 | an empty or unreadable header returns that error and no records; a header without 3 fields returns `InvalidCSVFormat` and no records, whatever its names; a 3-field header other than `id`,`lat`,`lng` returns `InvalidGeoHeader` and no records; every returned record is consistent with the target |
| `Loader.DistanceWithCSVReader` | main.go:96-155 | the loop's records and error are exactly those of `Load` on the same input |
| `Loader.RowsFromSplit` | main.go:118-152 | over a run of n valid rows the loop emits their n records in input order and then carries on exactly as from the row after the run |
| `Loader.StopsAtFirstBadRow` | main.go:119-143 | after a valid header and n valid rows, a read error, wrong field count or parse failure on the next row returns exactly the n earlier records, in order, with that row's error |
| `Loader.AllRowsLoaded` | main.go:118-154 | after a valid header, n valid rows and the end of input: no error, exactly n records, record i built from row i with row i's field 0 as its id |
| `Loader.HeaderRejectionReadsNoRow` | main.go:101-114 | when the header fails a check, the rows after it do not affect the result and no record is returned |
| `Ranker.LessIsStrictWeakOrder` | main.go:57-59 | `Less` is irreflexive and transitive, and incomparability under it is transitive: the ordering `sort.Sort` needs |
| `Ranker.SortedIffNoAdjacentInversion` | main.go:57-59 | the records are in ascending distance order exactly when no record is `Less` than its left neighbour; `Sort` keeps its loop invariant in that form and uses this lemma to conclude |
| `Ranker.Swap` | main.go:45-47 | the records at i and j are exchanged, every other position is unchanged, and the array is a permutation of its previous contents |
| `Ranker.Sort` | main.go:208 | afterwards the array is ascending by distance and a permutation of its previous contents (ties in no particular order) |
| `Ranker.SelectExtremes` | main.go:210-221 | with at most 5 records both reports are the whole sorted list; with more, each holds exactly 5; `top5` is a prefix and `bottom5` a suffix of the sorted list |
| `Ranker.ExtremesOfSorted` | main.go:212-221 | on a sorted list both reports are ascending, nothing outside `top5` is closer than a record in it, and nothing outside `bottom5` is farther than a record in it |
| `Ranker.ClosestOfInput` | main.go:208-219 | if the sorted list is an ascending permutation of the loaded records, `top5` is drawn from them and each of its records is at least as close as every loaded record left out of it |
| `Ranker.FarthestOfInput` | main.go:208-220 | likewise `bottom5` is drawn from the loaded records and each of its records is at least as far as every loaded record left out of it |
| `Pipeline.GeoDistanceWithCSV` | main.go:203-221 | a load error is returned alone, with the partial records dropped; otherwise the result is the loaded records in ascending distance order, as a permutation, together with the selection made from them |

## Left out

- `main` and the `flags.Run` command wiring, and the file-path and flag handling in `geoDistanceWithCSV` (main.go:189-202, 238-267): these are command-line plumbing over an external library.
- `geoDistanceWithDB` (main.go:184-187): it only prints a message.
- `distanceWithCSVFile` (main.go:75-84): opening the file, closing it and buffering it are I/O. The model starts from the sequence of reads.
- The `encoding/csv` tokeniser (quoting, its own field-count check, empty-line skipping): it is a library. Its output is the model's input.
- The bodies of `strconv.ParseFloat`, `toRadians` and `greatCircleDistance` (main.go:159-178), with `earthRadius` and the target constants (main.go:19-28): they are floating-point arithmetic and trigonometry. The haversine symmetry, the zero distance for equal points and the π·R bound are not proved, since they cannot be stated faithfully over float64.
- The kind of `strconv.NumError` (syntax or range): `Numerics.parseFloat` only says whether parsing succeeded. The model's `NumError` carries the rejected field text.
- `Ranker.LessIsStrictWeakOrder`: holds only because distances are `real`. In Go, `strconv.ParseFloat` accepts "NaN", "Inf" and "Infinity" without error, and a huge value such as `1e308` overflows to +Inf in `toRadians` (main.go:147, 177). Either way `greatCircleDistance` yields a NaN `Dist` (main.go:149). NaN is incomparable to every value, so `Less` (main.go:58) is then not a strict weak order. NaN and ±Inf are not modelled.
- `Ranker.Sort`: its ascending-order promise assumes `Less` is a strict weak order. With a NaN `Dist` in the slice, Go's `sort.Sort` (main.go:208) promises no order: distances 3, NaN, 1 may stay as they are. The model cannot produce NaN, so it does not capture that case.
- `Pipeline.GeoDistanceWithCSV`: for the same reason, when a row yields a NaN `Dist` the Go program's `top5` and `bottom5` need not be ascending or the closest and farthest records. The model promises them only for the NaN-free values it can represent.
- `GeoRecords.Len` (main.go:50-52): it is the array's `Length`, used directly.
- `Ranker.Sort`: the model states only what `sort.Sort` promises, not Go's pattern-defeating quicksort. The body is an insertion sort through `Less` and `Swap`.
- `Ranker.SelectExtremes`: in Go, `top5` and `bottom5` are slices sharing the sorted array. Here they are sequence values, so aliasing is not modelled.
- The `%.6f` report printing (main.go:223-234): it is output formatting.
