# ETL2 order-cleaning transform, modelled in Dafny

The repository holds six versions of one batch script. Each loads a table of
order records and cleans two columns. The `city` column gets a canonical
spelling: known typos and abbreviations are replaced and the value is
title-cased. The `cost` column is coerced to a number, and text that does not
parse becomes a missing value. Incomplete rows are dropped. The versions
differ in the city rule and in when the drop happens:

- `clean_data.py`, `clean_data_v2.py` … `clean_data_v5.py` drop incomplete rows
  first. They then title-case the city and look the result up in
  `{"Denvre": "Denver", "nyc": "new york", "la": "los angeles"}`, and then
  coerce the cost.
- `clean_data_v6.py` lower-cases the city, looks it up in
  `{"denvre": "denver", "nyc": "new york", "la": "los angeles"}` and title-cases
  the result. It then coerces the cost and drops incomplete rows last.

The model, module by module:

- `Cells`: a cell is `Null`, `Text(string)` or `Number(real)`. It also holds
  Python's `str.lower()` and `str.title()` on ASCII letters. `title()`
  upper-cases a letter at the start of the string or after a non-letter, and
  lower-cases every other letter.
- `CityNames`: the whole-value lookup (`Series.replace` with a dict), the
  earlier rule `LegacyCity` and the latest rule `City`.
- `CostCoercion`: the character filter `[^\d.,-]`, the comma-to-period
  replacement, and a decimal parser standing in for
  `pd.to_numeric(errors="coerce")`. The parser accepts an optional leading
  minus sign, then digits with at most one period, and needs at least one
  digit. Values are exact rationals.
- `Tables`: rows, `dropna()`, and the overwrite of one column with a cell-wise
  function of itself.
- `Frames`: the DataFrame as a mutable object (`class Frame`). Columns are
  assigned in place. `copy()` and `dropna()` return new objects.
- `Pipelines`: the two compositions. `DropFirst` is used by the five earlier
  scripts and `DropLast` by the latest one. This module holds the lemmas about
  each composition and the lemmas comparing them.
- `CleanData`, `CleanDataV2` … `CleanDataV6`: one module per script. Each has
  `CleanFrame`, which makes that script's statements in order on `Frame`
  objects. Each is proved equal to its pipeline function and proved to leave
  the raw frame unchanged. Versions 2 to 5 make the same transform statements,
  so their `CleanFrame` methods have the same body.

Where the system's specification and the code disagree, the model follows the
code:

- The specification gives one lower-case table for every version. In the earlier
  scripts the typo key is written `"Denvre"`. That key is title-cased, so it
  does fire there, and `denvre` becomes `Denver` in every version.
- The specification calls the transform idempotent. This holds for the latest
  script (`Pipelines.DropLastIdempotent`). It fails for the drop-first order,
  because a cost written as missing is dropped by a second run
  (`Pipelines.DropFirstNotIdempotent`).

## Model

| member | source | states |
|---|---|---|
| `Cells.TitleOfLower` | src/clean_data_v6.py:50-52 | title-casing the lower-cased cell gives the same text as title-casing the cell itself |
| `Cells.LowerOfTitle` | src/clean_data_v6.py:50-52 | lower-casing undoes title-casing: `lower(title(s)) == lower(s)` |
| `Cells.TitleIdempotent` | src/clean_data_v2.py:22 | `str.title()` is idempotent: its result is a fixed point of title-casing |
| `Cells.LowerIdempotent` | src/clean_data_v6.py:50 | `str.lower()` is idempotent |
| `Cells.TitleStartsUnlowered` | src/clean_data_v3.py:34 | a non-empty title-cased string never starts with a lower-case letter |
| `Cells.TitleIgnoresCase` | src/clean_data_v4.py:47 | two strings equal up to case title-case to the same text |
| `CityNames.LegacyCityIsTitleExceptDenvre` | src/clean_data_v5.py:51-55 | the earlier rule is plain title-casing except that `Denvre` becomes `Denver`: the `nyc` and `la` keys never match a title-cased value |
| `CityNames.LegacyCityNeverExpands` | src/clean_data_v5.py:54 | the earlier rule never produces `new york` or `los angeles` |
| `CityNames.LegacyCityIsTitleCase` | src/clean_data_v3.py:32-36 | every city the earlier rule produces is a fixed point of title-casing |
| `CityNames.LegacyCityKeepsPresence` | src/clean_data_v2.py:20-24 | the earlier rule maps a text cell to text and any other cell to a missing value |
| `CityNames.LegacyCityExamples` | src/clean_data_v4.py:45-49 | `denvre` and `DENVRE` give `Denver`; `NYC` and `nyc` give `Nyc`; `la` gives `La`; a missing city stays missing |
| `CityNames.CityIgnoresCase` | src/clean_data_v6.py:50-51 | the latest rule gives the same city for inputs equal up to case |
| `CityNames.TyposClosed` | src/clean_data_v6.py:51 | the lookup keeps lower-case text lower-case, and no value it produces is itself a key |
| `CityNames.CityLookupIsWholeValue` | src/clean_data_v6.py:51 | a cell whose lower-case form is a key gives the title-cased replacement; any other cell is only title-cased |
| `CityNames.CityIsTitleCase` | src/clean_data_v6.py:52 | every city the latest rule produces is title-cased |
| `CityNames.CityIdempotent` | src/clean_data_v6.py:48-53 | applying the latest rule twice is applying it once |
| `CityNames.CityIsNewYorkIff` | src/clean_data_v6.py:48-53 | a cell becomes `New York` exactly when it reads `nyc` or `new york` in some mixture of cases |
| `CityNames.CityAfterLegacyCity` | src/clean_data_v6.py:48-53 | re-canonicalising an earlier rule's output with the latest rule gives the latest rule's result on the raw cell |
| `CityNames.CityExpandsNyc` | src/clean_data_v6.py:50-52 | `NYC`, `nyc` and `Nyc` all give `New York` |
| `CityNames.CityFixesTypos` | src/clean_data_v6.py:51 | `DENVRE` gives `Denver`, `LA` gives `Los Angeles`, a missing city stays missing |
| `CityNames.CityMatchesWholeValues` | src/clean_data_v6.py:51 | `la paz` gives `La Paz`, not a substring replacement; `Los Angeles` stays `Los Angeles` |
| `CostCoercion.CleanCostTextConcat` | src/clean_data_v6.py:60-61 | cost cleaning works character by character: cleaning a concatenation concatenates the cleaned parts |
| `CostCoercion.CleanCostTextOfChar` | src/clean_data_v6.py:60-61 | on one character: a comma becomes a period, a digit, period or minus is kept, anything else is dropped |
| `CostCoercion.CleanCostTextAlphabet` | src/clean_data_v5.py:62-63 | the cleaned text holds only digits, periods and minus signs, and no comma |
| `CostCoercion.CleanCostTextKeepsDigits` | src/clean_data_v4.py:56 | text made only of digits is left exactly as it is |
| `CostCoercion.CleanCostTextDigitsFromInput` | src/clean_data_v3.py:43 | cleaning introduces no digit: input without digits gives cleaned text without digits |
| `CostCoercion.CleanCostTextIdempotent` | src/clean_data_v2.py:31-32 | cleaning already-cleaned text changes nothing |
| `CostCoercion.DigitRun` | src/clean_data_v6.py:63 | the length of the longest all-digit prefix: the prefix is all digits and the next character is not a digit |
| `CostCoercion.Parse` | src/clean_data_v6.py:63 | a successful parse yields a well-formed numeral whose text is exactly the parsed text |
| `CostCoercion.ParseUnsignedSound` | src/clean_data_v5.py:65 | whatever the unsigned parser accepts is digits and at most one period, with a digit |
| `CostCoercion.ParseUnsignedComplete` | src/clean_data_v4.py:59 | every unsigned numeral is accepted by the unsigned parser |
| `CostCoercion.ParseIff` | src/clean_data_v6.py:63 | the parser accepts exactly the numerals: an optional leading minus, at most one period, at least one digit |
| `CostCoercion.ParseFormat` | src/clean_data_v3.py:46 | formatting a numeral and parsing the text gives the numeral back |
| `CostCoercion.Pow10` | src/clean_data_v6.py:63 | a power of ten is at least one, so the fraction's denominator is never zero |
| `CostCoercion.DigitsBelowPow10` | src/clean_data.py:44 | n digits denote less than 10^n |
| `CostCoercion.WholeIsIntegerPart` | src/clean_data_v2.py:34 | the digits before the point give the integer part of the parsed magnitude |
| `CostCoercion.TrailingZeroKeepsValue` | src/clean_data_v6.py:63 | a trailing zero after the point does not change the value |
| `CostCoercion.CoerceCostIff` | src/clean_data_v6.py:57-63 | coercion never fails: each cell becomes a number or missing, and a text cell becomes a number exactly when its cleaned text is a numeral |
| `CostCoercion.NoDigitsCoercesToNull` | src/clean_data_v5.py:59-65 | text without a digit, such as `n/a`, becomes a missing value |
| `CostCoercion.CoerceNullIsNull` | src/clean_data_v6.py:59-63 | a missing cost renders as `nan`, which is stripped to nothing and stays missing |
| `CostCoercion.CoerceCostIdempotent` | src/clean_data_v4.py:53-59 | coercing a coerced cost changes nothing |
| `CostCoercion.DecimalCommaCleaned` | src/clean_data_v6.py:60-61 | `12,50` is cleaned to `12.50`, which parses with whole part `12` and fraction `50` |
| `CostCoercion.DecimalCommaExample` | src/clean_data_v6.py:57-63 | `12,50` is coerced to 12.5 |
| `CostCoercion.TwelveFiftyValue` | src/clean_data_v2.py:34 | the numeral `12.50` has the value 12.5 |
| `CostCoercion.ThousandsSeparatorCleaned` | src/clean_data.py:41-42 | `$1,234.56` is cleaned to `1.234.56` |
| `CostCoercion.ThousandsSeparatorExample` | src/clean_data.py:38-44 | `$1,234.56` does not parse and becomes a missing value |
| `CostCoercion.UnknownExample` | src/clean_data_v3.py:40-46 | `unknown` is cleaned to the empty text and becomes a missing value |
| `Tables.DropNa` | src/clean_data_v6.py:67 | `dropna()` never adds rows, and no row it keeps has a missing value |
| `Tables.DropNaConcat` | src/clean_data_v5.py:47 | `dropna()` decides row by row: on a concatenation it concatenates its results |
| `Tables.DropNaOfRow` | src/clean_data_v4.py:41 | a single row is kept exactly when it has no missing value |
| `Tables.DropNaMembers` | src/clean_data_v3.py:28 | a row is in the result exactly when it is in the input and has no missing value |
| `Tables.DropNaIsSubsequence` | src/clean_data_v2.py:16 | the result is a subsequence of the input, so input order is kept |
| `Tables.DropNaOfComplete` | src/clean_data.py:15 | a table without missing values is left as it is |
| `Tables.DropNaIdempotent` | src/clean_data_v6.py:67 | `dropna()` twice is `dropna()` once |
| `Tables.ColumnUpdatesKeepOthers` | src/clean_data_v4.py:45-59 | overwriting the city or the cost column leaves every other column unchanged |
| `Tables.OtherColumnsOfSubsequence` | src/clean_data_v6.py:67 | dropping rows keeps the other columns of the kept rows in their input order |
| `Frames.Frame.constructor` | src/clean_data_v6.py:40 | a frame holds the rows it is built from |
| `Frames.Frame.Copy` | src/clean_data_v6.py:47 | `copy()` returns a new frame with the same rows |
| `Frames.Frame.DropNa` | src/clean_data_v6.py:67 | `dropna()` returns a new frame with the complete rows |
| `Frames.Frame.AssignCity` | src/clean_data_v6.py:48-53 | assigning the city column replaces each row's city by its image and changes nothing else |
| `Frames.Frame.AssignCost` | src/clean_data_v6.py:57-63 | assigning the cost column replaces each row's cost by its image and changes nothing else |
| `Pipelines.DropLastConcat` | src/clean_data_v6.py:47-67 | the latest script decides row by row |
| `Pipelines.DropLastOfRow` | src/clean_data_v6.py:47-67 | a row is kept exactly when its city is text, its cleaned cost is a numeral and no other column is missing; it is then written cleaned |
| `Pipelines.DropFirstConcat` | src/clean_data.py:15-44 | the earlier scripts decide row by row |
| `Pipelines.DropFirstOfRow` | src/clean_data_v2.py:16-34 | a row is kept exactly when it has no missing input value; it is then written cleaned, whatever its cost becomes |
| `Pipelines.DropLastRowsComplete` | src/clean_data_v6.py:67 | every written row has title-cased text as city, a number as cost and no missing value, including nulls made by coercion and cities missing on input |
| `Pipelines.DropLastKeepsOrder` | src/clean_data_v6.py:47-69 | the latest script writes at most as many rows as it reads, and the other columns of written rows are those of input rows, in order |
| `Pipelines.DropLastIdempotent` | src/clean_data_v6.py:47-67 | running the latest script on its own output changes nothing |
| `Pipelines.DropLastOfFixedRows` | src/clean_data_v6.py:67 | a table of surviving rows that cleaning leaves alone passes through unchanged |
| `Pipelines.DropFirstShape` | src/clean_data_v4.py:41-59 | the earlier scripts write as many rows as survive the drop, with other columns unchanged and text cities title-cased |
| `Pipelines.DropFirstWritesNullCosts` | src/clean_data_v3.py:40-46 | in the earlier scripts a text cost is written as missing exactly when its cleaned text is not a numeral, and the row is still written |
| `Pipelines.DropLastIsDropFirstThenDrop` | src/clean_data_v6.py:46-67 | the latest script equals the earlier pipeline followed by a second `dropna()` and the latest city rule |
| `Pipelines.DropLastWritesNoMoreRows` | src/clean_data_v6.py:66-67 | the latest script never writes more rows than the earlier ones |
| `Pipelines.UnparseableCostKeptThenDropped` | src/clean_data_v5.py:59-65 | a complete row whose cleaned cost is not a numeral is written with a missing cost by the earlier scripts and dropped by the latest (src/clean_data_v6.py:63-67) |
| `Pipelines.MissingCityDropped` | src/clean_data_v6.py:67 | a row without a city is written by neither order |
| `Pipelines.AbbreviatedCityExample` | src/clean_data_v6.py:48-53 | the row (`NYC`, 12.5) is written as (`Nyc`, 12.5) by the earlier scripts and (`New York`, 12.5) by the latest |
| `Pipelines.DropFirstNotIdempotent` | src/clean_data_v5.py:47-65 | a second run of the earlier pipeline drops a row the first run wrote with a missing cost |
| `CleanData.CleanFrame` | src/clean_data.py:15-50 | `df_clean_nulls`, `df_clean_names`, `df_clean_dtype` and `df_clean` are one fresh frame holding the drop-first result; its row count equals the count after the drop; `df_raw` is unchanged |
| `CleanDataV2.CleanFrame` | src/clean_data_v2.py:16-34 | a fresh frame holding the drop-first result, as many rows as survive the drop; `df_raw` is unchanged |
| `CleanDataV3.CleanFrame` | src/clean_data_v3.py:28-46 | a fresh frame holding the drop-first result, as many rows as survive the drop; `df_raw` is unchanged |
| `CleanDataV4.CleanFrame` | src/clean_data_v4.py:41-59 | a fresh frame holding the drop-first result, as many rows as survive the drop; the loaded frame is unchanged |
| `CleanDataV5.CleanFrame` | src/clean_data_v5.py:47-65 | a fresh frame holding the drop-first result, as many rows as survive the drop; the loaded frame is unchanged |
| `CleanDataV6.CleanFrame` | src/clean_data_v6.py:47-67 | a fresh frame holding the drop-last result, with no missing value in any row; the loaded frame is unchanged |

## Left out

- Loading the spreadsheet (`pd.read_excel`), writing the CSV (`to_csv`) and
  creating directories are file I/O. The loaded table is the `dfRaw` parameter
  of each `CleanFrame`, and the written table is its result.
- Argument parsing, logging set-up, the date-stamped log file name, timing,
  and `print` or log output are left out. They do not change the data. The row
  counts the scripts log are `|rows|` of the frames.
- `SystemExit` on a missing input file and the translation of unexpected
  exceptions are process control, not part of the transform.
- IEEE floats and pandas dtype inference (int64 versus float64) are left out.
  A parsed cost is an exact rational.
- `CostCoercion.Parse`: `pd.to_numeric` is stated as a decimal grammar. The
  grammar is an optional leading minus, digits with at most one period, and at
  least one digit. After the character filter no other numeric syntax can
  remain, such as exponents, `inf`, `+` or spaces.
- `CostCoercion.CleanCostCell`: a cost cell that is already a number is kept
  as that number. How `astype(str)` renders a float is not modelled. For
  example, `1e+20` renders to text that the filter would break.
- `CityNames.LegacyCity`, `CityNames.City`: a number in the city column
  becomes a missing value, as the `.str` accessor gives NaN for non-strings.
  The `AttributeError` that pandas raises on a wholly non-text column is not
  modelled.
- Case mapping covers ASCII letters only. Python's full Unicode `lower()` and
  `title()` are not modelled: other characters are left unchanged and count as
  non-letters.
- The row index that pandas carries through `dropna()` is not modelled, since
  the scripts write with `index=False`.
- The specification's CSV round-trip property is left out, as writing and
  reading files is outside the model.

## Findings

| source | as written | input that shows it | evidently intended | confidence | as-written member | corrected member |
|---|---|---|---|---|---|---|
| src/clean_data_v5.py:53-54 | the city is title-cased before it is looked up, but the keys `nyc` and `la` are lower-case, so they never match; the same table sits in `clean_data.py:32`, `clean_data_v2.py:23`, `clean_data_v3.py:35` and `clean_data_v4.py:48` | `NYC` gives `Nyc` and `la` gives `La` | `NYC` gives `New York` and `la` gives `Los Angeles`, as `clean_data_v6.py:50-52` does by lower-casing before the lookup | high; not executed | `CityNames.LegacyCityIsTitleExceptDenvre` | `CityNames.CityIsNewYorkIff` |
