# Fiducial-fit data munging, modelled in Dafny

This project models `python/munge.py` of the fiducial-fit check. That script
merges three sources into per-exposure tables:

- the `qcinv` inventory of exposures;
- the FVC image headers (pointing, weather and `FOCUS` cards);
- the `xzth`/`yzth` polynomial-coefficient files of each exposure.

It marks an exposure `successful` when it has enough fiducials and small
enough position residuals. For text output it flattens the column labels
into comma-joined names.

The model replaces files and libraries with plain values:

- a text file is read through `readFile: string -> Option<string>`, where `None` is the exception;
- a FITS header is opened through `openFits: string -> Option<map<string, string>>`;
- `float(v)` becomes `isFloat: string -> bool`;
- the number a coefficient value reads as becomes `num: string -> Option<Float>`, where `Float` is a real or NaN, `Some(NaN)` marks a missing-value text such as `NaN`, and `None` marks a text that is not a number;
- a row count of an `fvcMerge` file becomes `rows: string -> Option<nat>`.

A pandas frame indexed by exposure id is a `Table<R> = seq<(int, R)>`:

- rows are in frame order;
- the index may contain repeated ids: a join then pairs every left row with every right row of that id, and `.loc` returns every row of a selected id;
- `Tables.Join` is the inner `merge` on the index;
- `Tables.Select` is `.loc[ids]`;
- `Tables.Find` is the lookup by id behind assigning a column aligned on the index;
- assigning a column from a frame whose index repeats an id fails unless the two indexes are equal, so `munge` fails on an exposure with more than one exposure-parameter row and a coefficient row (`Munge.CombineOk`).

Modules, in dependency order:

- `Wrappers`: `Option` and `Result`.
- `Strings`: `str.split()`, `str.split(c)` and `join`.
- `Decimal`: `str(n)`, `f'{n:08d}'`, integer parsing and the `int` cast of a decimal numeral.
- `Substitution`: `str.replace`.
- `Paths`: the f-string file names.
- `Zth`: `read_zth`.
- `Tables`: indexed frames, inner joins and selection.
- `Inventory`: `load_qcinv`.
- `FitsHeader`: `read_one_fits_header_params`.
- `Quality`: the gate and `read_fvcMerge`.
- `Collect`: `read_fits_header_params` and `read_zths`.
- `Columns`: column normalisation and `colstr`.
- `Munge`: `munge`.

The loops of the source are methods with loops, proved against specification functions:

- `Zth.BucketLines` and `Zth.ReadZth`;
- `FitsHeader.ReadCards`, `FitsHeader.ParseFloats` and `FitsHeader.AddFocus`;
- `Collect.ReadFitsHeaderParams` and `Collect.ReadZths`;
- `Columns.ColStr`.

Three methods have no loop of their own. They call the loop methods in the source's order and are proved against specification functions too: `Zth.ReadPolyTables`, `FitsHeader.ReadOneFitsHeaderParams` and `Munge.Munge`.

The expressions of the source are functions with lemmas about them.

## Model

| member | source | states |
|---|---|---|
| Strings.Tokens | python/munge.py:140 | `line.split()`: every token is non-empty and free of Python whitespace |
| Strings.SplitOn | python/munge.py:105 | `s.split(c)`: at least one part, no part contains `c`, and joining the parts with `c` gives `s` back |
| Strings.SplitOnJoin | python/munge.py:145-148 | splitting on `c` what was joined with `c` gives back the parts, provided none contains `c` |
| Strings.TokensOfJoin | python/munge.py:142-144 | whitespace-splitting a single-space join of tokens gives back the tokens |
| Decimal.ParseIntText | python/munge.py:149 | reading back the text `str(n)` gives `n` |
| Decimal.IntTextInjective | python/munge.py:131 | different integers have different texts |
| Decimal.Pad08Value | python/munge.py:97 | `{expid:08d}` is at least 8 characters; it is `str(n)` when that is already that long; it reads back as `n`, keeping the sign in front |
| Decimal.Pad08Injective | python/munge.py:97 | different exposures get different zero-padded numbers |
| Decimal.ParseNumeral | python/munge.py:146-149 | a numeral that is read has one or more digits, and only decimal digits |
| Decimal.ParseNumeralInt | python/munge.py:146-149 | `str(n)` reads as the numeral of its digits with the point after the last one, whose value is `n` |
| Decimal.ParseNumeralExponent | python/munge.py:146-149 | appending `e` and an integer text `x` to a numeral without an exponent keeps its sign and digits and moves its point by the integer `x` denotes |
| Decimal.MovedPointValue | python/munge.py:146-149 | moving a numeral's point by `k` places multiplies its value by `10^k` |
| Decimal.ParseTruncatedExponent | python/munge.py:146-149 | the order text `{n}e{k}` reads as `n * 10^k` cut toward zero; for `k >= 0` that is `n` followed by `k` zeros, keeping the sign; `{n}e-1` reads as `n / 10` cut toward zero |
| Decimal.IntegerPartValue | python/munge.py:149 | the integer part of a numeral is the largest integer not above its exact size |
| Decimal.ParseTruncatedValue | python/munge.py:146-149 | an order text has a value iff it is a finite decimal numeral; the value is the numeral's exact value cut toward zero |
| Decimal.ParseTruncatedInt | python/munge.py:146-149 | an integer text reads as that integer |
| Decimal.ParseTruncatedCuts | python/munge.py:146-149 | `n.frac` reads as `n` for every integer `n` and every run of digits `frac` |
| Paths.ExposureDirDetermines | python/munge.py:131 | two names built under `{dir}/{expid}/` are equal only for the same exposure and the same file name |
| Paths.FitsPathInjective | python/munge.py:97 | two exposures never read the same image file |
| Paths.ZthPathInjective | python/munge.py:131 | different (exposure, polynomial) pairs read different coefficient files when the polynomial names hold no `-` |
| Paths.FvcMergePathsDiffer | python/munge.py:184-191 | the fallback `fvcMerge-{expid}.0.dat` is a different file from `fvcMerge-{expid}.dat` |
| Substitution.ReplaceConcat | python/munge.py:134-135 | replacement distributes over a concatenation whose seam no occurrence of the pattern straddles |
| Substitution.ReplaceAbsent | python/munge.py:134-135 | a text without the pattern is left unchanged |
| Substitution.ReplaceEliminates | python/munge.py:134-135 | when the replacement can neither contain nor overlap into the pattern, no occurrence of the pattern survives |
| Substitution.EliminatesByFronts | python/munge.py:134 | a character-level test that is sufficient for that no-survivor condition |
| Substitution.ReplaceCharEliminates | python/munge.py:135 | replacing a character by text without it removes every occurrence of the character |
| Zth.Poly.Name | python/munge.py:130 | the polynomial names `xzth`/`yzth` are single words without `,` or `-` |
| Zth.RewriteNoComma | python/munge.py:134-135 | after the rewrite the coefficient text holds no `,` |
| Zth.RewriteDropsNone | python/munge.py:134 | after the first replacement no `None` remains |
| Zth.RewriteDropsSig | python/munge.py:134-135 | after the second replacement no `,sig` remains |
| Zth.RewriteNone | python/munge.py:134-135 | each `None` becomes the polynomial name, and the text on either side is rewritten independently |
| Zth.RewriteSig | python/munge.py:134-135 | each `,sig` becomes `_sig` before the remaining commas become tabs, and the text on either side is rewritten independently |
| Zth.BucketLines | python/munge.py:137-144 | the bucketing loop computes exactly `ShortLines`/`LongLines` of the lines of the text |
| Zth.ShortLinesMember | python/munge.py:139-142 | a text is in `shortlines` iff some line has exactly two tokens and the text is them joined by one space |
| Zth.LongLinesMember | python/munge.py:139-144 | a text is in `longlines` iff some line has exactly three tokens and the text is the polynomial name and them joined by spaces |
| Zth.ShortLinesAppend | python/munge.py:139-142 | bucketing two runs of lines gives the two buckets one after the other, so input order is kept |
| Zth.LongLinesAppend | python/munge.py:139-144 | the same order preservation for `longlines` |
| Zth.ShortLinesShape | python/munge.py:142-157 | every entry of `shortlines` is two tokens with one space between, and splitting it on `' '` gives those tokens |
| Zth.LongLinesShape | python/munge.py:144-148 | every entry of `longlines` is four tokens with single spaces between, the first the polynomial name |
| Zth.Typed | python/munge.py:146-157 | a table's value column holds numbers when every value reads as a number; otherwise every value stays its own text, except a missing-value text, which reads as NaN; keys and order are kept |
| Zth.ShortEntriesOfLines | python/munge.py:154-158 | the short table read from `shortlines` has, in order, one (term, value) entry per two-token line |
| Zth.LongEntriesOfLine | python/munge.py:144-150 | one line adds nothing unless it has three tokens; it then adds a (poly, order, term) entry with its value, the order being its numeral cut toward zero, or fails when the order is not a numeral |
| Zth.LongEntriesOfLines | python/munge.py:144-150 | the long table read from `longlines` is the per-line long entries in order, failing when any order is not a numeral |
| Zth.ReadPolyTables | python/munge.py:131-160 | one pass of the polynomial loop computes `PolyTables`: both tables with their value columns typed; a missing file or an order that is not a numeral fails |
| Zth.PolyTablesKeys | python/munge.py:144-150 | every long-table key is a (polynomial, order, term) triple, never a bare term |
| Zth.PolyTablesDirect | python/munge.py:131-160 | one polynomial's tables, stated directly on the lines of the rewritten file |
| Zth.GatheredFailurePersists | python/munge.py:130-160 | once a polynomial fails, the whole read fails |
| Zth.ReadZth | python/munge.py:127-167 | `read_zth` returns `ZthRowOf`: `None` when a file fails or an order is not a numeral, else the gathered cells and the exposure id |
| Zth.ZthRowLayout | python/munge.py:162-167 | the row exists iff both polynomials read; its cells are the short tables (`xzth`, then `yzth`) followed by the long tables (`xzth`, then `yzth`) |
| Tables.KeepIn | python/munge.py:50-52 | the filtered ids are exactly those of the input that are in the kept set |
| Tables.SuccessesMember | python/munge.py:113-124 | a row is collected iff its id is one of the ids and the read of that id returned that row |
| Tables.SuccessesIds | python/munge.py:113-124 | the collected index is the ids whose read succeeds, in inventory order |
| Tables.SuccessesAppend | python/munge.py:115-120 | collecting over two runs of ids gives the two collections one after the other |
| Tables.SuccessesUnique | python/munge.py:115-120 | collecting over distinct ids never introduces a repeated id |
| Tables.JoinMember | python/munge.py:50-52 | a joined row exists iff both tables have a row with that id, and it pairs those rows |
| Tables.JoinIds | python/munge.py:50-52 | with a right table of distinct ids, the join's index is the left index restricted to the right's ids, in left order |
| Tables.JoinKeys | python/munge.py:50-52 | the key set of the join is the intersection of the two key sets, repeated ids or not |
| Tables.JoinKeyAt | python/munge.py:50-52 | an id is in the join iff it is in both tables |
| Tables.JoinCount | python/munge.py:50-52 | an id occurs in the join as often as the product of its occurrences in the two tables |
| Tables.JoinUnique | python/munge.py:50-52 | joining tables of distinct ids gives distinct ids |
| Tables.Find | python/munge.py:62 | a value is found for an id iff the table has that id |
| Tables.FindUnique | python/munge.py:62 | in a table of distinct ids, the value found for an id is that id's only row |
| Tables.SelectIds | python/munge.py:61 | `.loc[ids]` on a table of distinct ids has exactly the ids asked for, in that order, each with the table's row |
| Tables.SelectCount | python/munge.py:61 | in `.loc[ids]` an id occurs as often as in `ids` times its occurrences in the table |
| Tables.SelectSingletons | python/munge.py:61 | when each selected id has a single row, `.loc[ids]` is that row for each id, in the order asked for |
| Tables.SuccessesCount | python/munge.py:113-124 | a collected table repeats an id as often as the ids do when its read succeeds, and lacks it otherwise |
| Inventory.InventoryTextJoined | python/munge.py:79-81 | after the rewrite, `everywhere script` no longer occurs |
| Inventory.InventoryRows | python/munge.py:82-86 | every loaded row passes the `ut` filter (its fifth field has length 5), has at most the ten named fields, and is indexed by its parsed `expid`; a line the filter drops still needs an integer `expid`, since the column is typed from every line |
| Inventory.LoadInventory | python/munge.py:75-91 | an unreadable file fails; a loaded table is indexed by each row's own `expid` and keeps only rows passing the `ut` filter |
| Inventory.InventoryRowsOk | python/munge.py:82-86 | loading succeeds iff no line has more than ten fields and every non-blank line, kept or not, has an integer `expid` |
| Inventory.InventoryRowsMember | python/munge.py:82-86 | a row is loaded iff some line passes the `ut` filter, has those fields, and its `expid` field reads as the row's id |
| Inventory.InventoryRowsAppend | python/munge.py:82-86 | rows keep the order of their lines |
| FitsHeader.Zip | python/munge.py:106 | `zip` stops at the shorter sequence and pairs elements position by position |
| FitsHeader.Lookups | python/munge.py:100-101 | the card lookups succeed iff every card is in the header, and give each parameter's value under its name |
| FitsHeader.ReadCards | python/munge.py:100-101 | the card loop computes `Lookups`, failing on the first missing card |
| FitsHeader.ParseFloats | python/munge.py:104-105 | the conversion succeeds iff every comma part of `FOCUS` is a float |
| FitsHeader.AddFocus | python/munge.py:106-107 | the focus loop appends one `focus_` entry per (element, value) pair of the zip |
| FitsHeader.ReadOneFitsHeaderParams | python/munge.py:94-110 | `read_one_fits_header_params` returns `FitsRowOf`, failing when the file, a card or a float conversion fails |
| FitsHeader.FitsRowShape | python/munge.py:94-110 | the header row exists iff the file opens, every card is present and every `FOCUS` part is a float; it then holds the seven values and min(6, parts) focus entries |
| FitsHeader.ParamNamesDistinct | python/munge.py:96-107 | no two header parameters share a name, so the ordered dictionary keeps every assignment |
| Quality.NumFiducials | python/munge.py:183-198 | the count is the `.dat` file's rows if that reads, else the `.0.dat` file's, else 0 |
| Quality.SuccessfulIff | python/munge.py:60 | successful iff at least 100 fiducials and both residuals are numbers no larger than 0.05 |
| Quality.NaNNeverSuccessful | python/munge.py:60 | a missing (NaN) residual never passes the gate |
| Quality.NeverSuccessfulWithoutFvcMerge | python/munge.py:183-198 | with neither fvcMerge file readable the count is 0 and the exposure is never successful |
| Quality.SuccessfulMonotone | python/munge.py:60 | more fiducials and smaller residuals keep an exposure successful |
| Collect.Collected | python/munge.py:121-123 | building the frame fails iff no row was collected |
| Collect.ReadFitsHeaderParams | python/munge.py:113-124 | the skip-on-error loop computes `FitsTable` |
| Collect.ReadZths | python/munge.py:170-180 | the skip-on-error loop computes `ZthTable` |
| Collect.CollectedRows | python/munge.py:113-124 | a collected table holds a row for exactly the inventory ids whose read succeeds, with the row read, in inventory order, without a new repeated id |
| Collect.CollectedFails | python/munge.py:121-123 | collection fails exactly when no read succeeds |
| Columns.Normalise | python/munge.py:64-65 | a label becomes a 3-tuple iff it is a tuple of length 3, with its elements unchanged; any other label `x` becomes `(x,)` |
| Columns.NormaliseAll | python/munge.py:64-65 | every column is normalised, in order |
| Columns.ColStr | python/munge.py:224-235 | the `colstr` loop computes `ColName(head, rest)` |
| Columns.ColNameStep | python/munge.py:226-234 | each further element extends the name by its own segment |
| Columns.ColNameHead | python/munge.py:225 | the name begins with `col[0]` |
| Columns.MissingAddsNothing | python/munge.py:227-234 | `None` and NaN elements add nothing, wherever they stand |
| Columns.ColNameCommas | python/munge.py:226-234 | with comma-free elements, the comma count is the head's plus one per element that is not `None` or NaN |
| Columns.CoefName | python/munge.py:229-232 | a coefficient column `(poly, order, term)` flattens to `poly,order,term` with the integer order written without fraction |
| Columns.CoefNameInjective | python/munge.py:229-232 | comma-free coefficient columns flatten to distinct names |
| Columns.JoinedCoef | python/munge.py:229-232 | splitting a flattened coefficient name on `,` gives back its three parts |
| Columns.FlatNames | python/munge.py:237 | each column is flattened after normalisation, padded or not depending on whether any 3-tuple exists |
| Columns.FlatPlainName | python/munge.py:225-237 | a plain column name flattens to itself |
| Columns.FlatNameComma | python/munge.py:224-237 | a plain label flattens to a name, which holds a `,` iff the label was a tuple |
| Columns.FlatNameInjective | python/munge.py:224-237 | distinct plain labels flatten to distinct names |
| Munge.TermValue | python/munge.py:60 | a row's value in the `xrms`/`yrms` column is the first value stored under that term, or NaN when the row has none |
| Munge.TermValueAppend | python/munge.py:162-166 | in a row made of two pieces, a term's value comes from the first piece when it holds the term, else from the second |
| Munge.ResidualOf | python/munge.py:162-166 | a residual comes from the `xzth` short table when it holds the term, else from the `yzth` short table (NaN when neither does); the long tables never supply it |
| Munge.Annotate | python/munge.py:54-60 | `fids` keeps the joined ids; each row gets the fiducial count of its inventory `expid` and the gate applied to that count and its numeric residuals |
| Munge.MarkSuccessful | python/munge.py:62 | with equal indexes each selected row gets the flag of the `fids` row at its position; otherwise it gets the flag of the `fids` row with its id, false where there is none, and the assignment fails when `fids` repeats an id. Inside `munge` the indexes are equal whenever it succeeds (`Munge.CombineGoodRows`), so the false-where-none case does not arise there |
| Munge.MarkSuccessfulAligned | python/munge.py:62 | with distinct `fids` ids, every selected row gets the flag of the `fids` row with its id, whichever way the flags are assigned |
| Munge.Munge | python/munge.py:46-68 | `munge` computes `MungeOf`: the three reads, the joins, the gate, the selection and the flag assignment, with the error of each read, of the gate or of the assignment |
| Munge.JoinedNumeric | python/munge.py:50-60 | every row reaching the comparison has numeric residuals iff every coefficient row of an exposure with an inventory row and a header row does |
| Munge.SelectionOfJoined | python/munge.py:61 | when no joined id has more than one exposure-parameter row, `.loc` gives, for each `fids` row in turn, the exposure parameters it was joined from |
| Munge.CombineOk | python/munge.py:50-62 | after the reads, `munge` succeeds iff the frame has both an `xrms` and a `yrms` column, every coefficient row of an exposure with an inventory row and a header row has numeric residuals (a text residual makes `<=` raise), and no exposure with a coefficient row has more than one exposure-parameter row |
| Munge.CombineOkDistinct | python/munge.py:50-62 | with inventory and header tables of distinct ids, `munge` fails after the reads iff the frame lacks an `xrms` or `yrms` column or a row reaching the comparison has a text residual |
| Munge.CombineIds | python/munge.py:50-61 | `fids` has the inventory ids with a header row and a coefficient row, in inventory order; `good_exp_params` has exactly the ids of `fids` |
| Munge.CombineGoodRows | python/munge.py:61-62 | whenever `munge` succeeds, each `good_exp_params` row is the exposure parameters of the `fids` row in the same position, with its `successful` flag |
| Munge.CombineRow | python/munge.py:50-60 | every `fids` row pairs an inventory row, a header row and a coefficient row with its id, has the fiducial count of its `expid` and numeric residuals, and is successful iff the gate passes on them |
| Munge.MungeKeys | python/munge.py:46-52 | whenever `munge` succeeds, `fids` has a row for exactly the inventory exposures whose header and coefficient files both read |
| Munge.MungeRepeatedExposure | python/munge.py:46-62 | an inventory that lists an exposure twice makes `munge` fail once both reads of that exposure succeed |
| Munge.CombineTextResidual | python/munge.py:52-60 | a text residual in the coefficient row of an exposure with an inventory row and a header row makes the comparison fail |
| Munge.MungeTextResidual | python/munge.py:46-60 | an inventory exposure whose header reads and whose coefficient row has a text residual makes `munge` fail |
| Munge.MungeRow | python/munge.py:46-62 | each `fids` row holds its exposure's inventory row, header row and coefficient row, the fiducial count of its fvcMerge file and numeric residuals; the `good_exp_params` row in the same position has its id and is successful iff the count is at least 100 and both residuals are at most 0.05 |

## Left out

- Plotting (`python/plot_distortions.py`, `python/plot_petals.py`) is not part of this model.
- Command-line parsing, logging, `to_hdf` and `to_csv` are I/O and are left out (python/munge.py:17-18, 201-222, 238, 242-245). Of `main` only `colstr` and the flattening of column names are modelled.
- The MJD column is left out (python/munge.py:87-90). It needs pandas date parsing and floating-point Julian dates. `parse_dates` on `night` is left out for the same reason.
- File reading, FITS decoding, `float(v)`, the number a coefficient text reads as and the row count of an `fvcMerge` table are oracle parameters. So the model does not decide which texts are floats or how many rows a file has. `read_csv` reads a column of only `True`/`False` as booleans, which compare with 0.05 as 1 and 0. The model covers that case only through an oracle that gives those texts the numbers 1 and 0.
- Quality.Successful: 0.05 is compared as an exact real, not as the binary double nearest to 0.05.
- Inventory.InventoryRows: a line with more than ten fields is modelled as a failed load; `read_csv` would instead shift columns into the index.
- Inventory.InventoryRows: a non-blank line, kept or not, whose `expid` is missing or not an integer is modelled as a failed load. In the source the load succeeds with a float or object `expid` column. `munge` then fails later: every `f'{expid:08d}'` raises (python/munge.py:97), so no header row is read, and indexing the empty frame raises (python/munge.py:122). So `munge` has the same outcome, but the model reports the failure earlier.
- Inventory.InventoryRows: column dtype inference is left out. Every field stays text, and the `ut` filter tests text length. The source's `.str.len()` would raise if pandas inferred a numeric `ut` column.
- Strings.Tokens: `read_csv(sep='\s+')` is modelled as Python's `str.split()` on each line. Quoting, comments and `pandas`-specific whitespace handling are left out.
- Zth.LongEntriesOfLine: `read_csv(sep=' ')` on the single-space-joined lines is modelled as `split(' ')`. The order column is converted, and the value column is typed by `Zth.Typed`.
- Zth.Typed: pandas keeps an all-integer column as integers; here every number is a real, which compares the same way.
- Decimal.ParseTruncated: an order is cut toward zero from the exact value of its numeral, not from the nearest double. Orders outside the 64-bit range are not modelled, nor are texts that Python's `int()` accepts but the CSV parser does not (such as `1_0`). `inf` and `nan` are not numerals here, and the cast fails on them as it does in pandas.
- Munge.TermValue: a row holding the same key twice is read as its first value. pandas would fail to build the frame from a series with a repeated index.
- Munge.Munge: the column union and column order of the merged frames are not modelled. A row that lacks a term has NaN there, which `TermValue` returns. The gate fails when no coefficient row has an `xrms` or `yrms` term, and when a row reaching the comparison holds a residual that is text. A residual is text when its file's short table has a value that is not a number (`Zth.Typed`).
- Munge.Combine: a missing `xrms` or `yrms` column and a text residual raise different exceptions in the source. Both are an `Err` here, and the missing column is checked first.
- Munge.CombineIds: the in-order index results require distinct ids in all three tables. `Munge.MungeKeys`, `Munge.CombineGoodRows` and `Munge.CombineOk` hold without that condition.
- Munge.MarkSuccessful: when the indexes differ and `fids` has distinct ids, a selected row without a `fids` row would get NaN; the model gives it `false`. Inside `munge` this case does not arise.
- Columns.FlatName: a column whose first element is not a string flattens to `None`. `colstr` returns that element unchanged when no later element is shown, and raises a `TypeError` on `col[0] + ","` otherwise. The model represents neither outcome.
- Infinite and non-integral numbers in a column tuple are the `Other` part with their `str` text; `Columns.Part` takes the finiteness and integrality test as given.
- An empty `shortlines` or `longlines` text gives an empty table. Reading an empty text with given names yields an empty frame.
