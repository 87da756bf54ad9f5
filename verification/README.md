# SEDclient reduction pipeline in Dafny

A model of the data-reduction core of SEDclient, a Python tool that
assembles spectral energy distributions of astronomical objects. The model
follows one catalogue query from the raw `;`-separated rows to the reduced
points:

- `reduction` picks the first row that is not excluded.
- `checkTypes` coerces each field to `int`, `float` or `str`.
- `checkUnits` attaches the configured astropy units to the numeric
  columns, pairs values with uncertainties and hands the result to
  `qualCheck`.
- `unitConversion` turns a flux density in any unit astropy can decompose
  into cgs (`g`, `cm`, `s`) into erg/s/cm^2.
- `savePh` writes the points to the photometry files.
- `loadPh` and `loadSp` read them back.

Modules, one per source file plus three shared ones:

| module | file | models |
|---|---|---|
| `Basics` | basics.dfy | `Option`/`Result`, list repetition (`list * n`), `zip`, filtered comprehensions (`FilterMap`, `Positions`) |
| `Text` | text.dfy | `str.split()`, `str.split(';')`, `strip`, `in` on strings |
| `Measures` | measures.dfy | floats with `nan`, `ufloat` values, units and quantities |
| `UnitTokens` | unit_tokens.dfy | `hasDigits`, `splitUnit`, `reqUnits` and the token loops of `toJansky` |
| `UnitConversion` | unit_conversion.dfy | `convertTop`, `convertBottom`, `toJansky`, `JyConversion`, `convert` |
| `Download` | download.dfy | `reduction`, `checkTypes`, `checkUnits`, `qualCheck` |
| `DataSave` | data_save.dfy | `str.format` on the save templates, `savePh` |
| `Load` | load.dfy | `loadPh`, `loadSp` and the round trip with `savePh` |

The model leaves out astropy, `eval`, `int()`/`float()`, `magConversion`,
the `{:.3E}` rendering, and configuration and file reading and writing.
These are parameters instead:

- `UnitAlgebra` carries `eval` of a unit string, the percent test with its
  factor, and `is_equivalent`.
- `Parsers` carries `int()` and `float()`; `Load` takes `float()` as a
  function.
- `Unit` records astropy's cgs decomposition (scale, printed text) and
  whether the unit is a magnitude or already a flux density per unit
  frequency.
- `LoadPh` receives the text of the `wave` and `red` entries; `LoadSp`
  receives the CSV rows.
- `SavePh` returns the writes it would append, as (path, text) pairs.

Every Python exception the modelled code can raise on these inputs is a
`Failure` of a `Result`:

- `ReduceError` covers `KeyError`, `ValueError`, `IndexError`,
  `AttributeError` and `TypeError`.
- `ConvertError` covers `toJansky`'s `AttributeError`.
- `FormatError` covers `str.format`.
- `LoadError` covers `float()` and `row[k]`.

Where the project's own description and its code differ, the model follows
the code, with one exception: the quality filter of `checkUnits` with two
or more allowed flags. The code's loop removes the wrong points, as shown
under "## Findings". `CheckUnits`, and through it `Reduction`, uses the
corrected filter, which removes the points the description says it
removes. The loop as written is modelled beside it, in `QualCheckAsWritten`.
The code is followed in these cases:

- **Exclusion token.** The built-in token is `'----'`, four dashes
  (`ExcludedIff`).
- **Single quality field.** When there is exactly one string field,
  `qua = [q for q in qua]` copies the one-element list, so the flags are
  not split per character (`CheckUnits` keeps `Strings(data)` as it is).
- **Uncertainty.** A pair's uncertainty is the raw value of its own column.
  It is not converted into the unit of the value (`PairAt`).
- **Quality requirement of one entry or none.** `float(qua) < qual`
  compares a float with a list and raises, so this case is an error, not a
  threshold or an accept-all (`QualCheck`).

## Model

| member | source | states |
|---|---|---|
| UnitTokens.HasDigitsIff | sedclient/unitConversion.py:78-93 | `hasDigits(s)` holds exactly when some character of `s` is an ASCII digit `0`..`9` |
| UnitTokens.SplitUnitSpec | sedclient/unitConversion.py:54-76 | the power is the value of the LAST digit in the token (no digit after it); the returned name no longer contains that digit anywhere; every other character keeps its number of occurrences; the name is a subsequence of the token |
| UnitTokens.SplitUnitOfPowered | sedclient/unitConversion.py:72-76 | for a digit-free name followed by one digit, `splitUnit` gives back exactly the name and the digit's value |
| UnitTokens.ReqUnits | sedclient/unitConversion.py:95-120 | the result is `act` minus one occurrence per element of `req` (multiset difference) and keeps the order of `act` (a subsequence) |
| UnitTokens.RemoveFirst | sedclient/unitConversion.py:117-118 | `act.pop(act.index(ele))` removes the FIRST occurrence of `ele` when there is one, and nothing otherwise; the rest keep their order |
| UnitTokens.ReqUnitsDisjoint | sedclient/unitConversion.py:115-120 | when no required unit occurs in `act`, `reqUnits` returns `act` unchanged |
| UnitTokens.ExpandPowersIntended | sedclient/unitConversion.py:156-159 | on tokens of a digit-free name and a power 1..9, the in-place loop (which mutates the list it iterates and finds tokens by first occurrence) equals replacing every `xN` by `N` copies of `x` and keeping every other token |
| UnitTokens.ExpandPowersZeroPowerSkips | sedclient/unitConversion.py:156-159 | a zero power deletes its token, and the loop then skips the next token (`["s0","cm2"]` gives `["cm2"]`, not `["cm","cm"]`): the well-formedness hypothesis above is needed |
| UnitTokens.SplitAtSlash | sedclient/unitConversion.py:161-168 | `unit.index('/')` fails exactly when there is no `/`; otherwise the list is top, `/`, bottom, with the first `/` |
| UnitTokens.Leftover | sedclient/unitConversion.py:156-171 | after expansion, the leftover numerator is the top minus one `g` and the leftover denominator the bottom minus two `s`, each as a multiset and in order; `None` exactly when there is no `/` |
| UnitConversion.PerWave | sedclient/unitConversion.py:9 | `c / w` is the frequency: times `w` it gives the speed of light `2.9979246e10` cm/s |
| UnitConversion.ConvertTop | sedclient/unitConversion.py:178-211 | popping the atoms in any order multiplies value and uncertainty by `(c/w)^#s * (1/w)^#cm`, other atoms having no effect |
| UnitConversion.ConvertBottom | sedclient/unitConversion.py:213-246 | multiplies value and uncertainty by `(w/c)^#s * w^#cm` |
| UnitConversion.FactorsCancel | sedclient/unitConversion.py:178-246 | the two factors for the same atom list multiply to 1 |
| UnitConversion.ConvertBottomUndoesTop | sedclient/unitConversion.py:178-246 | `convertBottom` with the same atoms undoes `convertTop` exactly |
| UnitConversion.ConvertDependsOnlyOnCounts | sedclient/unitConversion.py:202-246 | both conversions depend only on how many `cm` and `s` atoms the list has, not their order |
| UnitConversion.Centimetres | sedclient/unitConversion.py:144 | the wavelength in cm is the one in microns divided by 10^4 |
| UnitConversion.ConvertBoth | sedclient/unitConversion.py:173-174 | top then bottom conversion scales by the product of the two factors |
| UnitConversion.ToJansky | sedclient/unitConversion.py:122-176 | no `/` leaves the value unchanged (the warning branch); no `cm` or `s` left over raises `AttributeError`; otherwise the value is `scale * factor(top, bottom) * 1e23` Jy |
| UnitConversion.Frequency | sedclient/unitConversion.py:267 | the frequency times the wavelength in microns is `c * 10^4` |
| UnitConversion.JyConversion | sedclient/unitConversion.py:248-271 | the result is in erg/s/cm^2 and equals the value times the unit's cgs scale times the frequency |
| UnitConversion.Convert | sedclient/unitConversion.py:12-52 | a value that is not a `ufloat` quantity is returned with a warning; a magnitude without a zero point likewise; a magnitude with one goes through the zero-point conversion then Jy to erg; a flux density goes straight to erg; otherwise `toJansky` first, failing exactly when it fails and warning when it finds no `/`; every unwarned result is in erg/s/cm^2 |
| Download.ExcludedIff | sedclient/download.py:97-106 | a row is skipped exactly when it is empty or its first `;` field contains `#`, `----` or one of the configured exclusion words |
| Download.ScanTokens | sedclient/download.py:101-104 | a row's first column is excluded exactly when it contains some token of the list |
| Download.Scan | sedclient/download.py:99-114 | `None` exactly when every row is empty or excluded; otherwise the outcome of processing the first row that is not |
| Download.Lift | sedclient/download.py:108-112 | a processed row's outcome is never `None`; success and error are carried over |
| Download.Reduction | sedclient/download.py:97-114 | `reduction` returns `None` exactly when all rows are empty or excluded, and otherwise the reduced first data row (or the error it raises) |
| Download.ScanIgnoresLaterRows | sedclient/download.py:99-112 | rows after the first data row never affect the outcome |
| Download.ReductionIgnoresLaterRows | sedclient/download.py:99-112 | appending rows after a data row does not change `reduction`'s result |
| Download.Coerce | sedclient/download.py:137-141 | a blank field becomes `nan` whatever its type (blankness takes precedence over the type); otherwise a missing type raises `IndexError`, an unknown type `KeyError`; `string` keeps the text; `int` and `float` give the parsed number or raise `ValueError` |
| Download.CheckTypes | sedclient/download.py:137-143 | succeeds exactly when every field coerces; then field `i` is coerced with type `i`; a failure is the error of the first failing field |
| Download.CoerceFrom | sedclient/download.py:137-141 | the loop from field `i` on, with the same first-failure characterisation |
| Download.BlankIsNaN | sedclient/download.py:138-139 | a blank field comes out as `nan` |
| Download.Partition | sedclient/download.py:169-170 | `dat` holds exactly the float fields and `qua` exactly the string fields, each in field order; integer fields are in neither |
| Basics.RepeatSpec | sedclient/download.py:175 | `units *= n` has `n * len(units)` entries, entry `k` being `units[k % len(units)]` |
| Download.Attach | sedclient/download.py:178-180 | a non-percent unit is attached as it is; a percent unit turns the column into its fraction times the previous column, in the previous column's unit (dimensionless if that has none) |
| Download.AttachFrom | sedclient/download.py:177-180 | the loop fails exactly when there are more units than numeric columns or a unit does not `eval`; otherwise columns before and after the loop are unchanged |
| Download.AttachUnits | sedclient/download.py:175-180 | columns with a unit are attached in order, with column 0's predecessor being the last column as `dat[-1]` reads it; columns past the units stay bare |
| Download.AttachFromSpec | sedclient/download.py:177-180 | the loop from any prefix already attached completes the attachment |
| Download.PairAt | sedclient/download.py:185-189 | a pair is kept exactly as `ufloat(value, error) * value.unit` when the units are equivalent, skipped when they are not, and raises only when a column is missing or has no unit (a negative uncertainty, which `ufloat` rejects, is not modelled) |
| Download.PairUp | sedclient/download.py:182-189 | the loop succeeds exactly when no pair raises; it keeps, in order, exactly the pairs whose units agree |
| Download.PairUpBound | sedclient/download.py:184-189 | there are never more points than quality flags |
| Download.QualFilterSpec | sedclient/download.py:223-227 | the corrected filter keeps, in order, exactly the points whose flag is allowed |
| Download.QualCheck | sedclient/download.py:221-234 | with two or more allowed flags, exactly the points whose flag is allowed, in order; with fewer, the comparison `float(qua) < qual` raises for any flag, and an empty flag list returns the data |
| Download.QualCheckAsWritten | sedclient/download.py:223-227 | the loop as written raises `IndexError` exactly when some disallowed flag's first position in the unchanged flag list is past the end of the points left at that moment (one fewer per earlier disallowed flag); otherwise it removes exactly one point per disallowed flag, and the survivors keep their order |
| Download.QualPopFrom | sedclient/download.py:224-227 | the same, for the loop from flag `j` on |
| Download.QualCheckPopsWrongPoint | sedclient/download.py:223-227 | points `[1,2,3]`, flags `[C,D,A]`, allowed `[A,B]`: as written the result is `[2]`, not the intended `[3]` |
| Download.QualCheckPopsPastEnd | sedclient/download.py:223-227 | points `[1,2]`, flags `[C,D]`, allowed `[A,B]`: as written the second pop raises `IndexError`, where the intended result is `[]` |
| Download.CheckUnits | sedclient/download.py:169-194 | never more points than quality flags; raises the attaching loop's error (too many units, or a unit `eval` rejects) when that loop raises, and otherwise the pairing loop's error (a missing or unitless column) when that one raises |
| Download.CheckUnitsGate | sedclient/download.py:182-194 | after attaching and pairing: if some pair was dropped for disagreeing units, every surviving point is returned unfiltered; if none was and two or more flags are allowed, exactly the points whose flag is allowed are returned, in order; with fewer allowed flags the result is an error unless there are no flags |
| DataSave.FormatLiteral | sedclient/dataSave.py:38-39 | `str.format` copies text without a brace unchanged |
| DataSave.FormatSlot | sedclient/dataSave.py:38-39 | a `{…}` slot takes the next argument, and raises when none is left |
| DataSave.FormatRun | sedclient/dataSave.py:38-47 | `n` slots each followed by a space consume `n` arguments and write them space-terminated; with fewer arguments formatting raises |
| DataSave.FormatLine | sedclient/dataSave.py:38-47 | a `key=` line with `n` slots formatted with `n` arguments is the key and the arguments, space-terminated, then a newline; with fewer it raises |
| DataSave.RedTemplateIsLine | sedclient/dataSave.py:45 | `"{:.3E} " * len(red) * 2` has exactly `2 * len(red)` slots |
| DataSave.Interleave | sedclient/dataSave.py:46 | `redEx` has two entries per point |
| DataSave.InterleaveSpec | sedclient/dataSave.py:46 | entry `2i` is point `i`'s value and `2i+1` its uncertainty |
| DataSave.FileText | sedclient/dataSave.py:34-47 | the text appended to file `f`: the `[source]` header, the `raw=` line when `raw` is non-empty and `f` contains `raw`, and the `wave=` and `red=` lines when `red` is non-empty and `f` contains `red`; no formatting can fail |
| DataSave.DistinctSuffixes | sedclient/dataSave.py:37-41 | neither file suffix contains the other, so each file gets only its own lines |
| DataSave.SavePh | sedclient/dataSave.py:28-47 | exactly two appends: `data/photometry/<name>_raw` gets the header and the raw line (if any); `..._red` gets the header, the wavelengths and the interleaved values and uncertainties (if any) |
| Load.Evens | sedclient/load.py:35 | `xs[0::2]`: entry `i` is `xs[2i]`, with `ceil(n/2)` entries |
| Load.Odds | sedclient/load.py:36 | `xs[1::2]`: entry `i` is `xs[2i+1]`, with `floor(n/2)` entries |
| Load.ZipPoints | sedclient/load.py:40-42 | `zip` stops at the shorter list; point `i` is `ufloat(f_i, e_i)` in erg/s/cm^2 |
| Load.ParseAll | sedclient/load.py:32-33 | succeeds exactly when every token parses, with the numbers in token order; a failure names a token that does not parse |
| Load.LoadPh | sedclient/load.py:29-44 | the wavelengths are the numbers of `wave`; point `i` pairs numbers `2i` and `2i+1` of `red` (an odd last number is dropped); fails exactly when either entry has a token that is not a number |
| Load.SpRow | sedclient/load.py:70-73 | a row yields (wavelength, point) exactly when it has three columns that parse; the columns are read in the order 0, 1, 2, so a failing row gives the error of its first column that is missing (`IndexError`) or does not parse (`ValueError`), all earlier columns parsing |
| Load.LoadSpFrom | sedclient/load.py:66-77 | the loop from row `i` on: one wavelength and one point per row, in order, or the error of the first row that fails, all earlier rows succeeding |
| Load.LoadSp | sedclient/load.py:66-77 | one wavelength and one point per CSV row, both lists of the same length; fails exactly when some row is short or has a non-number |
| Load.EvensOddsOfInterleave | sedclient/load.py:35-36 | `[0::2]` and `[1::2]` of `savePh`'s `redEx` are the values and the uncertainties |
| Load.PairsOfInterleave | sedclient/load.py:35-42 | the points rebuilt from `redEx` are the saved points, in erg/s/cm^2 |
| Load.ParseRendered | sedclient/load.py:33 | a list of numbers, each rendered so that `float` reads it back exactly, parses back to the same list |
| Load.SaveLoadRoundTrip | sedclient/load.py:32-44 | `loadPh` on the `red=` entry written by `savePh` returns the saved points in erg/s/cm^2, given that each saved number is rendered as one token that reads back exactly |

## Left out

- astropy's unit algebra: `eval` of a unit string, `decompose`, `is_equivalent` and the printed cgs decomposition are parameters. The model does not check that a given `Unit` is what astropy would print.
- Uncertainty propagation of `uncertainties`: a `ufloat` is a value and a standard deviation, and a product with a positive constant scales both. Products of two uncertain numbers do not occur in the modelled code. The check `ufloat` makes against a negative standard deviation is not modelled.
- `magConversion` (`zero * 10**(-0.4 m)`) is a parameter of `Convert`, because it needs real powers.
- Floating point: reals stand in for Python floats. Infinities and rounding are not modelled; `nan` is modelled where it is created (a blank field) and propagated (`Mul`).
- `int()`, `float()` and the `{:.3E}` rendering are parameters. `SaveLoadRoundTrip` assumes that the saved numbers read back exactly. With `{:.3E}` that holds only for numbers with at most four significant digits, because it rounds to four.
- UnitTokens.HasDigitsIff: digits are the ASCII `0`..`9`. Python's `isdigit` also accepts other Unicode digits such as superscripts, on which `int` in `splitUnit` would raise `ValueError`. The units astropy prints contain no such characters.
- File and configuration I/O: `configparser`, `open`, the `csv` reader, logging and `file.close()` are not modelled. The loaders receive the entry texts or rows, and the savers return the writes.
- `name` in `savePh`, `loadPh` and `loadSp` is a global that the module never defines, so it raises `NameError` as written. It is a parameter of `SavePh`, and unused by `LoadPh`/`LoadSp`, which receive the file contents.
- `saveSp` and `saveSed` are not part of this model. Neither are `sedPlot`, `makeSED`, `dataStruct` or the command line.
- Convert: wavelengths are positive reals (`Positive`). A zero wavelength, where Python divides by zero, is not modelled.
- UnitConversion.ToJansky: `oriUnit.scale` is taken from the parameter `Unit`, so the relation between the printed text and the scale is assumed, not derived.
- Download.CheckUnits: with two or more allowed flags and no pair dropped, it applies the corrected quality filter (`QualCheck`), not the loop as written (`QualCheckAsWritten`). On such rows its result differs from the program's (see "## Findings"). Its own contract states the bound and the two error paths; what a successful attach and pairing lead to is stated by `CheckUnitsGate`, together with `AttachUnits`, `PairUp` and `QualCheck`.
- Download.Reduction: through `CheckUnits`, it uses the corrected quality filter. A row whose disallowed flags the code's loop mishandles gets the intended points here, where the program returns other points or raises `IndexError`.
- Download.QualCheck: the one-entry-or-empty requirement branch gives one error, `ThresholdComparison`. It does not distinguish the `ValueError` that `float(qua)` raises on a non-numeric flag from the `TypeError` of the comparison.
- Download.Reduction: `checkUnits` receives the `source` only to read the configuration again. The model passes the already-read `Config`.
- Download.Coerce: `int`/`float` failures are one `BadValue` error, whatever Python's message.
- Load.LoadPh: a missing `[source]` section or a missing `wave`/`red` key (`KeyError`) is not modelled, because the entry texts are inputs.

## Findings

| source | as written | input that shows it | evidently intended | confidence | as-written member | corrected member |
|---|---|---|---|---|---|---|
| sedclient/download.py:223-227 | for each flag not allowed, `data.pop(qual.index(qua))` pops at the flag's position in the unchanged flag list, while earlier pops have already shifted `data` (and `index` finds the first equal flag) | points `[1,2,3]`, flags `[C,D,A]`, allowed `[A,B]`: `C` pops index 0 giving `[2,3]`, then `D` pops index 1 giving `[2]`; and points `[1,2]`, flags `[C,D]`: the second pop, at index 1 of `[2]`, raises `IndexError` | keep exactly the points whose flag is allowed: `[3]` and `[]` | not executed | Download.QualCheckAsWritten, Download.QualCheckPopsWrongPoint, Download.QualCheckPopsPastEnd | Download.QualCheck, Download.QualFilterSpec |
