# covidpanic core, modelled in Dafny

This project models the logic of the covidpanic scripts. They take the
global time-series CSV files of confirmed cases and deaths, index each row
by country and locale, and resolve display labels such as `australia` or
`victoria, australia` into count series. Before plotting or fitting, they
trim a series to the points that reach a cutoff.

- `wrappers.dfy` (module `Wrappers`): `Option` (Python's `None`) and `Result`
  (a value or the exception raised).
- `covidlib.dfy` (module `Covidlib`):
  - the row loop of `pull_data`, as the method `PullData`. It is proved
    equal to the reference function `Pull`, whose label index `IndexRows` is
    described row by row by the predicate `Indexed`;
  - `colour_from_str`, as the method `ColourFromStr`, with the hex
    formatting and its inverse.
- `covid.dfy` (module `Covid`):
  - `parse_label`, as the method `ParseLabel`. It is proved equal to the
    reference function `Resolve`. Lemmas relate `Resolve` on a pulled table
    back to the CSV rows;
  - the class `CovidData` with its `loaded` dict and `Load`;
  - the cutoff trim of `plot` and `analysis`, written once as `Trim`.

Modelling choices:

- A CSV row is the sequence of cells the reader yields.
- Two library conversions are function parameters: parsing a date cell into
  a day number (`day`) and converting a count cell into an integer (`count`).
- An index entry is either `Single(row)` (the Python int) or
  `Multi(map locale -> row)` (the Python dict).
- `pull_data` can raise three exceptions, modelled as `PullError` values:
  - `ShortRow`: `row[1]` on a data row with fewer than two cells;
  - `RepeatedSingleCountry`: item assignment on an int entry;
  - `RaggedRows`: `np.array(..., dtype='int')` on rows of different lengths.
- `parse_label` has four outcomes, modelled as `Lookup` values:
  - `Found`: the series;
  - `UnknownLocale` and `UnknownCountry`: the printed list of keys, with
    `None` returned;
  - `NotSubscriptable`: the uncaught `TypeError` raised when a locale is
    given for a country stored as an int.
- `Load` reports that `TypeError` as `raised = true`. The record it leaves
  behind is the one Python leaves: whatever was filled before the exception.
- How the code treats repeated, unknown and mixed-case names:
  - a later row for a country stored as an int raises at covidlib.py:33;
    the entry is never turned into a dict;
  - a repeated locale keeps the last row; no error is raised;
  - an unknown country or locale is printed and `None` is returned;
  - `parse_label` and `load` do not lower-case the names they are given.
- The trim of `plot` and `analysis` receives whatever `load` stored, which
  is `None` for an unknown name. Comparing `None` with the cutoff raises a
  `TypeError`, modelled as `NoSeries`.

## Model

| member | source | states |
|---|---|---|
| `Covidlib.PullData` | covidlib.py:16-45 | The row loop returns exactly `Pull(rows)`. The header row's columns from index 4 give the date axis. Each later row appends `row[4:]` to the matrix and is registered under the running index. The loop raises on the first row that has fewer than two cells or that repeats a country stored as an int. It raises at the end if the count rows differ in length. |
| `Covidlib.LowerChars` | covidlib.py:28-29 | `.lower()` keeps the length and leaves no upper-case ASCII letter. Each character is either kept or is an upper-case letter moved to its lower case. Lower-casing a lower-cased string changes nothing. |
| `Covidlib.RegisterEffect` | covidlib.py:31-40 | Registering a row fails exactly when its country is already stored as an int, and the error names that country. Otherwise the index gains the country (if new), every other country keeps its entry, and the country's entry records the row. An int entry is made exactly for a new country with an empty locale. A new country with a locale gets a dict holding only that locale. A dict entry maps the row's locale to the row, and every other locale of the country keeps its row. |
| `Covidlib.IndexRowsShort` | covidlib.py:20-43 | If the loop finishes, every data row had the two cells it reads. Its only errors are a short row and item assignment on an int entry. A short-row error names a row with fewer than two cells, and every earlier row had two. |
| `Covidlib.IndexRowsIndexed` | covidlib.py:28-43 | The index's keys are exactly the rows' lower-cased countries. An int entry is the index of the country's only row, and that row has an empty locale. A dict entry's keys are exactly the country's locales. Each locale maps to the last row with that country and locale, so a repeated locale keeps the last row. A country whose first row has a locale is always stored as a dict. |
| `Covidlib.IndexRowsOk` | covidlib.py:31-33 | The loop finishes if and only if every row has two cells and no country first seen with an empty locale has a second row. When every row is wide enough, the only exception is the item assignment on an int entry. |
| `Covidlib.IndexRowsErrSticks` | covidlib.py:20-43 | An exception on a prefix of the rows is the exception for the whole file. The loop does not continue past it. |
| `Covidlib.RegisterIndexed` | covidlib.py:31-40 | One registration step keeps the index a description of the rows seen so far. The step covers a new country with an empty locale (int), a new country with a locale (`{locale: idx}`), and a later row of a dict country (`locale -> idx`). |
| `Covidlib.PullTable` | covidlib.py:19-45 | On success, the date axis has `len(header) - 4` days, or none for a short header. The matrix has one row per data row, equal to that row's columns 4 onward, in file order. The label index describes the rows. Every stored index, int or in a dict, is a valid matrix row, and no dict is empty. When every row is as long as the header, every matrix row is as long as the date axis. |
| `Covidlib.PullFails` | covidlib.py:28-45 | `pull_data` raises if and only if there is a data row, and some data row has fewer than two cells, or a country first seen with an empty locale has a later row, or the count rows differ in length. |
| `Covidlib.HexRoundTrip` | covidlib.py:55 | Zero-padded upper-case hex of a number below `16**width` has exactly `width` hex digits and reads back as that number. |
| `Covidlib.HexOfValue` | covidlib.py:55 | A string of hex digits is the only string of its length with its value, so the printed colour is determined by its number. |
| `Covidlib.PrintedColour` | covidlib.py:55 | A number of the colour space prints as 7 characters: `#` followed by six hex digits that read back as the number. Zero prints as `#000000`. |
| `Covidlib.ColourFromStr` | covidlib.py:47-55 | The colour has 7 characters: `#` followed by six upper-case hex digits. Their value is `(Σ (ord(s[i]) - 97) * 26**i) * 15485863 mod 16**6`. This holds even when characters below `a` make the sum negative. The empty string gives `#000000`. |
| `Covid.ParseLabel` | covid.py:34-57 | Returns exactly `Resolve`. With no locale, an int entry gives its row. With no locale, a dict entry gives its rows summed column by column, locale by locale. A given locale gives that locale's row. An unknown country gives all country keys. An unknown locale gives that country's locale keys. A locale given for an int entry raises. A returned series is as wide as the matrix. |
| `Covid.TotalPick` | covid.py:39-42 | The column sum over a dict's locales can take any locale first. The aggregate does not depend on the dict's iteration order. |
| `Covid.TotalSameRows` | covid.py:39-42 | The column sum over some locales depends only on the rows those locales name. |
| `Covid.AggregateOne` | covid.py:39-42 | The aggregate of a dict with one locale is that locale's row. |
| `Covid.AggregateSplit` | covid.py:39-42 | Removing a locale from a dict removes exactly its row from the aggregate, column by column. |
| `Covid.ResolveSingleRow` | covid.py:36-38 | On a pulled table, suppose a country's first row has an empty locale. Then resolving the country returns that row's counts, and naming any locale raises. |
| `Covid.ResolveLocaleRow` | covid.py:45-46 | On a pulled table, suppose a country has a row with a locale. Then each of its locales resolves to the counts of the last row with that locale. |
| `Covid.ResolveAggregate` | covid.py:39-42 | On a pulled table, suppose a country has a row with a locale. Then it is stored as a dict whose keys are its locales. Resolving it without a locale returns the column sums of the rows the dict names, as wide as the matrix. |
| `Covid.ResolveUnknown` | covid.py:47-57 | On a pulled table, a country no row has resolves to the list of all countries. For a country stored as a dict, a locale none of its rows has resolves to the list of its locales. |
| `Covid.KeyFor` | covid.py:60 | The display label ends with the country. Without a locale it is the country itself. With a locale it starts with the locale followed by `, `, and its length is the sum of the parts. |
| `Covid.KeyForDistinct` | covid.py:60-61 | Two countries loaded without a locale get different labels, and so do two locales of one country or one locale of two countries. Loading one of them never replaces the other's entry. |
| `Covid.FillTwo` | covid.py:60-64 | The record holds `confirmed` and `deaths`, each being what the lookup returned (the series or `None`). It also holds `confirmedTime` and `deathsTime`, each equal to its table's date axis. A lookup that raises leaves only the metrics before it. |
| `Covid.FillStopsRaised` | covid.py:62-64 | After a lookup raises, no later metric is added to the record. |
| `Covid.CovidData.constructor` | covid.py:19-27 | Starts with an empty `loaded` dict over the two pulled tables. |
| `Covid.CovidData.Load` | covid.py:59-64 | The key is `country` when no locale is given and `locale + ', ' + country` otherwise. The entry under that key is replaced by the freshly filled record, and no other key changes. The key set gains exactly that key, so loading the same label again replaces the entry rather than adding one. The tables are unchanged. |
| `Covid.Select` | covid.py:76-78 | Boolean-mask indexing `xs[mask]` yields one element per true position of the mask, so never more than `xs` has. |
| `Covid.Rebase` | covid.py:77 | Subtracting a time from a series of times keeps the length and the gap between any two times. A time equal to the origin becomes 0. |
| `Covid.Trim` | covid.py:75-78 | Without a cutoff, the times and series pass through unchanged. Only a given cutoff can raise. It raises `NoSeries` exactly when the series is `None`. A trimmed series has as many times as values, at least one of each, and its first time is 0. |
| `Covid.NoneReaches` | covid.py:76-77 | The mask keeps no position exactly when no value reaches the cutoff, which is when `T[0]` raises. |
| `Covid.KeptExactly` | covid.py:76 | The mask `Y >= cutoff` selects exactly its true positions, each once, in increasing order. |
| `Covid.SelectAt` | covid.py:78 | `xs[mask]` holds the elements of `xs` at the kept positions, in order. |
| `Covid.TrimKeeps` | covid.py:75-78 | After a successful cutoff trim, the series was not `None`, and the kept points are exactly those with value at least the cutoff, in their original order. The time and value outputs have the same length. The first time is 0, and every other time is its original minus the first kept original time. |
| `Covid.TrimFails` | covid.py:92-96 | With a cutoff, the trim raises a `TypeError` on a `None` series. Otherwise it raises exactly when the two series differ in length (boolean mask mismatch) or no value reaches the cutoff (`T[0]` of an empty array), and succeeds in every other case. Without a cutoff, the series is kept unchanged. |

## Left out

- HTTP retrieval and the status check in `pull_data` (covidlib.py:9-12): network I/O, and a non-200 response is only printed. `pull()` (covid.py:29-31) is network wiring; the constructor receives the two pulled tables.
- CSV tokenisation, `strptime` date parsing and the string-to-int conversion of counts: library calls, given as the pre-split rows and the `day` and `count` parameters. A malformed date or count cell, which raises in those libraries, is not modelled.
- `str.lower()` is modelled on ASCII letters only; Unicode case mapping is not.
- numpy's 64-bit integers: counts and the aggregate sum are unbounded integers, so overflow of `X +=` is not modelled.
- Plotting (covid.py:80-85), the `D` title table, the colour passed to the plot, and the loops of `plot` and `analysis` over `loaded`: presentation. Only the trim they apply is modelled.
- The doubling time (`np.log`, `stats.linregress`, covid.py:98-100): floating point and a foreign statistics call.
- The module-level script (covid.py:104-112).
- The "Unexpected type found in case_labels" branch (covid.py:43-44): an entry is always an int or a dict, so the branch cannot run.
- Printing in `parse_label`: the printed keys are carried as the payload of `UnknownLocale` or `UnknownCountry`, not as text.
- Reading a record's series and times in `plot` and `analysis` (covid.py:72-73, 90-91) is not modelled. A record left partial by a raised `load` has no such key, and that read raises `KeyError`; the trim starts from the two values read.
