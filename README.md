# ERA-Interim period generator and IstaBreeze specifications scraper, in Dafny

This project models the two pieces of sequential logic in the repository's
data-collection scripts and proves properties of them.

* **Monthly period generator** (`retrieve_interim` in
  `ERAInterim_uvwindcomponets_1979_2018.py`). For every (year, month) of an
  inclusive year range, year first, the function computes the following:
  * `startDate` (`%04d%02d%02d` of the first day);
  * the month length from `calendar.monthrange`;
  * `lastDate`;
  * the range `startDate/TO/lastDate`;
  * the output name `interim_daily_YYYYMM.grb`.

  It then calls the ECMWF request once per period. In the model, the request
  client becomes a log of `(dates, target)` pairs. The method returns that log
  (`EraInterim.RetrieveYears`; `EraInterim.RetrieveInterim` is the run over
  1993 to 2018).
* **Specifications-table flattener and record appender** (the per-product loop
  of `IstaBreezeScrapper.py`).
  * The loop walks the children of the specifications table in document order
    and keeps the current section name (`tempkey`).
  * It splits each `tbody` into label/value pairs, with a loop that steps by
    two, into a scratch dictionary. It copies that dictionary under the current
    name and then clears it.
  * It joins the sections with the fixed manufacturer, model and price into a
    record.
  * It appends the serialised record and `",\n"` to the output file.

  The table's children are the datatype `Child` (`Head`, `Body` or `Other`).
  The output file is the class `OutputFile`. The JSON serialiser is a function
  parameter `ser`.

Modules:
* `Wrappers`: the `Option` and `Result` types.
* `StringOrder`: Python's `<` on `str`.
* `Format`: the `%d` and `%0<w>d` conversions of nonnegative integers, and
  reading a digit string back.
* `EraInterim`: the period generator.
* `IstaBreeze`: the scraper.

## Model

| member | source | states |
|---|---|---|
| `EraInterim.DaysInMonth` | ERAInterim_uvwindcomponets_1979_2018.py:24 | 31 days for months 1, 3, 5, 7, 8, 10 and 12; 30 for months 4, 6, 9 and 11; 29 for February exactly in a Gregorian leap year (divisible by 4, and not a century unless divisible by 400), 28 otherwise |
| `EraInterim.YearLength` | ERAInterim_uvwindcomponets_1979_2018.py:24 | the twelve month lengths add up to 366 in a leap year and 365 otherwise |
| `EraInterim.FormatDateRoundTrip` | ERAInterim_uvwindcomponets_1979_2018.py:23-25 | `%04d%02d%02d` of a year up to 9999 with month and day below 100 is 8 characters and reads back as the same year, month and day |
| `EraInterim.StartDateFormat` | ERAInterim_uvwindcomponets_1979_2018.py:23 | `startDate` is 8 digits that read back as the year, the month and day 1 |
| `EraInterim.LastDateFormat` | ERAInterim_uvwindcomponets_1979_2018.py:23-25 | `lastDate` is 8 characters that read back as the year, the month and the month length; it shares its first 6 characters with `startDate`; it is strictly greater as a string; the day it names is after day 1 |
| `EraInterim.RequestDatesFormat` | ERAInterim_uvwindcomponets_1979_2018.py:27 | `requestDates` is 20 characters and parses as the two dates (year, month, 1) and (year, month, month length) around `/TO/` |
| `EraInterim.TargetFormat` | ERAInterim_uvwindcomponets_1979_2018.py:26 | the output name is 24 characters (`interim_daily_`, four year digits, two month digits, `.grb`) and parses back to (year, month) |
| `EraInterim.TargetInjective` | ERAInterim_uvwindcomponets_1979_2018.py:26 | for years up to 9999, two periods have the same output name if and only if they are the same period |
| `EraInterim.TargetOrder` | ERAInterim_uvwindcomponets_1979_2018.py:26 | for years up to 9999, one output name is smaller than another as a string if and only if its period is earlier (year first, then month) |
| `EraInterim.DocstringTarget` | ERAInterim_uvwindcomponets_1979_2018.py:15 | January 1979 is named `interim_daily_197901.grb`, as the docstring says |
| `EraInterim.CommonFebruaryRange` | ERAInterim_uvwindcomponets_1979_2018.py:23-27 | February 2018 gives `20180201/TO/20180228` |
| `EraInterim.LeapFebruaryRange` | ERAInterim_uvwindcomponets_1979_2018.py:23-27 | February 2000 gives `20000201/TO/20000229` |
| `EraInterim.February2018Dates` | ERAInterim_uvwindcomponets_1979_2018.py:23-25 | February 2018 starts at `20180201` and ends at `20180228` |
| `EraInterim.February2000Dates` | ERAInterim_uvwindcomponets_1979_2018.py:23-25 | February 2000 starts at `20000201` and ends at `20000229` |
| `EraInterim.January1993Dates` | ERAInterim_uvwindcomponets_1979_2018.py:17-25 | the first period of the run, January 1993, starts at `19930101` and ends at `19930131` |
| `EraInterim.January1993Target` | ERAInterim_uvwindcomponets_1979_2018.py:17-26 | January 1993 is written to `interim_daily_199301.grb` |
| `EraInterim.December2018Dates` | ERAInterim_uvwindcomponets_1979_2018.py:18-25 | the last period of the run, December 2018, starts at `20181201` and ends at `20181231` |
| `EraInterim.December2018Target` | ERAInterim_uvwindcomponets_1979_2018.py:18-26 | December 2018 is written to `interim_daily_201812.grb` |
| `EraInterim.PeriodDigitsOrder` | ERAInterim_uvwindcomponets_1979_2018.py:26 | for years up to 9999, the six digits `YYYYMM` are 6 characters and sort as strings exactly as the periods do, year first |
| `EraInterim.PeriodOfIndex` | ERAInterim_uvwindcomponets_1979_2018.py:21-22 | iteration (year, month) of the nested loop is iteration (year - yearStart) * 12 + month - 1, year major |
| `EraInterim.LogTargetsIncreasing` | ERAInterim_uvwindcomponets_1979_2018.py:21-28 | in a complete year-major log over years up to 9999, the output names strictly increase as strings |
| `EraInterim.PeriodAtIncreasing` | ERAInterim_uvwindcomponets_1979_2018.py:21-22 | a later iteration of the nested loop visits a later (year, month) |
| `EraInterim.RetrieveYears` | ERAInterim_uvwindcomponets_1979_2018.py:21-28 | one request per iteration: exactly (yearEnd - yearStart + 1) * 12 requests, none for an empty range; request k carries the range and the name of year yearStart + k / 12 and month k % 12 + 1; for years up to 9999 the names strictly increase |
| `EraInterim.RetrieveInterim` | ERAInterim_uvwindcomponets_1979_2018.py:17-28 | the 1993 to 2018 run issues 312 requests; request k carries the range and the name of year 1993 + k / 12 and month k % 12 + 1; the names strictly increase as strings, so they are pairwise distinct; the first is the range and the name of January 1993, the last those of December 2018 (their texts are given by `January1993Dates`, `January1993Target`, `December2018Dates` and `December2018Target`) |
| `Format.ZeroPadValue` | ERAInterim_uvwindcomponets_1979_2018.py:23 | reading back a `%0<w>d` numeral gives the number that was written |
| `Format.ZeroPadLength` | ERAInterim_uvwindcomponets_1979_2018.py:23 | a number below 10^w is written with `%0<w>d` in exactly w characters |
| `Format.DecimalLength` | ERAInterim_uvwindcomponets_1979_2018.py:23 | the numeral of n fits in w characters if and only if n < 10^w, so a wider numeral is kept whole, never cut |
| `Format.ZeroPadOrder` | ERAInterim_uvwindcomponets_1979_2018.py:26 | numerals of one width sort as strings exactly as their numbers do |
| `IstaBreeze.CatalogueAligned` | IstaBreezeScrapper.py:10-19 | `models` and `prices` have one entry per URL of `url_list` |
| `IstaBreeze.PairMapKeys` | IstaBreezeScrapper.py:54-59 | the labels of a section are exactly the cells at even positions of its `tbody` |
| `IstaBreeze.PairMapLastWins` | IstaBreezeScrapper.py:54-59 | each label maps to the cell after it; when a label repeats, the value after its last occurrence wins |
| `IstaBreeze.WalkSucceeds` | IstaBreezeScrapper.py:48-62 | the walk fails if and only if some `tbody` has an odd number of cells |
| `IstaBreeze.WalkKey` | IstaBreezeScrapper.py:48-53 | after a successful walk `tempkey` is the text of the last `thead`, `""` if there is none |
| `IstaBreeze.WalkSections` | IstaBreezeScrapper.py:48-62 | the section names of a successful walk are exactly the names in force at its `tbody`s |
| `IstaBreeze.WalkLastBody` | IstaBreezeScrapper.py:48-62 | on a table whose bodies all have an even number of cells, the walk succeeds and each name holds exactly the pairs of the last `tbody` filed under it: replaced, not merged, and no pairs from other bodies |
| `IstaBreeze.WalkSpec` | IstaBreezeScrapper.py:48-62 | all four facts together: the walk fails if and only if some `tbody` has an odd number of cells; otherwise: `tempkey` ends as the last `thead` text (`""` if none); the section names are exactly the names in force at the `tbody`s; each name holds exactly the pairs of the last `tbody` under it (replaced, not merged, no pairs from other bodies) |
| `IstaBreeze.RotorExample` | IstaBreezeScrapper.py:48-62 | a `Rotor` head, a body `[l1, v1, l2, v2]` and a `Generator` head yield `Rotor: {l1: v1, l2: v2}`; a body before any head is filed under `""` |
| `IstaBreeze.WalkFailurePersists` | IstaBreezeScrapper.py:56-58 | once an odd `tbody` has been met, the walk of the whole table fails |
| `IstaBreeze.WalkSkipsOther` | IstaBreezeScrapper.py:48-53 | a child that is neither `thead` nor `tbody` can be removed without changing the result |
| `IstaBreeze.RecordOf` | IstaBreezeScrapper.py:38-45 | a record exists if and only if every `tbody` has an even number of cells; it has manufacturer `IstaBreeze`, `models[index]`, `prices[index]` and the walked sections |
| `IstaBreeze.BuildRecord` | IstaBreezeScrapper.py:38-62 | the loop over the children, with the inner step-by-two loop and the cleared scratch section, computes `RecordOf`, including the failure at an odd `tbody` |
| `IstaBreeze.OutputFile.Write` | IstaBreezeScrapper.py:67 | a write appends to the file and leaves its old content in front |
| `IstaBreeze.AppendRecord` | IstaBreezeScrapper.py:65-67 | one item appends its serialised record followed by `,\n` |
| `IstaBreeze.AppendedSnoc` | IstaBreezeScrapper.py:65-67 | appending one more record extends the written text by that record and its separator and changes nothing before it |
| `IstaBreeze.AppendedTwo` | IstaBreezeScrapper.py:65-67 | two records written into an empty file give `record1 + ",\n" + record2 + ",\n"` |
| `IstaBreeze.RunSpec` | IstaBreezeScrapper.py:22-67 | the run writes the records of the products before the first malformed table (all of them if none), in `url_list` order, each with the metadata of its position; a stop names a malformed product |
| `IstaBreeze.RunStops` | IstaBreezeScrapper.py:22-67 | once the run has stopped, later products add nothing |
| `IstaBreeze.ScrapeAll` | IstaBreezeScrapper.py:22-67 | the file ends as its old content followed by `ser(record) + ",\n"` for each record of `RunSpec`; it is never read or rewritten; the product that stopped the run is reported |

## Left out

- The ECMWF client, its credentials and the fixed request fields (ERAInterim_uvwindcomponets_1979_2018.py:9, 30-53) are a remote call. Each call becomes one `Request(dates, target)` entry in the returned log. Whether the provider produces the file is not modelled.
- Years are nonnegative integers. `%04d` of a negative year is not modelled, since the script's range is 1993 to 2018. The format lemmas assume years up to 9999, the width of `%04d`. Above that, `ZeroPad` writes the numeral whole, as Python does.
- `calendar.monthrange` also computes the weekday of the first day. The script does not use it, so it is not modelled. An illegal month cannot reach it, because `Month` is the type of 1..12.
- Browser automation (`webdriver.PhantomJS`, page fetch, language form; IstaBreezeScrapper.py:25-31) is not modelled. Each page's table arrives as the parameter `pages`, one entry per URL.
- HTML parsing is not modelled (IstaBreezeScrapper.py:34-35, 48, 51, 57-58). This covers the `div#tab-attribute` lookup failing and `.string` returning `None`. A `thead` is given by the text of its first cell, and a `tbody` by the texts of all its cells.
- JSON serialisation (`json.dump` with sorted keys, indentation and `ensure_ascii=False`) is the opaque parameter `ser`. The record's fields stand for the keys `MANUFACTURER`, `MODEL`, `PRICE` and `SPECIFICATIONS`.
- The file path is not modelled, and neither is reopening the file for every product (IstaBreezeScrapper.py:65). `OutputFile` stands for the file's content across the whole run.
- `IstaBreeze.ScrapeAll`: in the script, the IndexError from an odd `tbody` ends the process. The model instead returns the index of the product that stopped the run. Records appended before it stay in the file, as in the script.
- The file is a comma-joined, unterminated sequence of records, not one well-formed document. The model keeps that format as the code writes it.
- `ScriptConvStringFloat.js` is not part of this model. It is database I/O and floating-point parsing.
