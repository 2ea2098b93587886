# Blue Brain Project cell-name decorator, modelled in Dafny

`pvt/stuff/fnames_curation.py` reads a list of Blue Brain Project neuron-model
names such as `L5_TTPC1_cADpyr232_2`, one per line. For each line it strips
surrounding whitespace, cuts the name at `_` into layer, morphological type
(m-type), electrical-type token and instance, and explains each code through
three fixed tables. It then writes

    L5_TTPC1_cADpyr232_2 ::: Layer 5 -- [e] Thick-tufted Pyramidal c. (late bifurcating apical tuft) -- Continuous Adapting

to its output file. Names with more than four parts take parts 1 and 2
together as the m-type (`TPC_L4`). The e-type is the first code of the
e-type table, in table order, that occurs anywhere in the token.

The model has four modules:

- `PyText` (`py_text.dfy`) gives the three Python `str` operations the script
  relies on, with Python's semantics. `strip()` uses the whitespace set of
  `str.isspace`. `split('_')` keeps empty pieces, so `""` splits into `[""]`.
  `key in text` is the substring test.
- `CellTables` (`cell_tables.dfy`) holds the layer and m-type tables as maps.
  The e-type table is an ordered list of pairs, because Python's dict
  insertion order decides which code the search finds first.
- `Curation` (`curation.dfy`) models one pass of the loop and the whole run.
  `SplitName` splits a name. `SearchEType` is the early-`break` e-type search.
  `DecodeName` is one pass as a function and `DecodeOne` is the same pass as a
  method. `Decorate` is the whole run as a function and `DecorateAll` is the
  loop itself. The run carries `e_type1` as a mutable `Option` and appends
  the output lines to a sequence. The tables are a parameter of type
  `Tables`, and `CellTables.Bbp` holds the script's own tables.
- `CurationCases` (`cases.dfy`) works out whole runs on small lists with the
  script's tables.

An uncaught Python exception ends the script, so a run yields the lines
written before the first failing name, plus that failure (`Outcome`). On one
name the failures come in the script's own order:

- an `IndexError` when the name has fewer than four parts (a blank line too);
- a `KeyError` for an unknown layer;
- a `KeyError` for an unknown m-type;
- a `NameError` when no e-type code has matched in this name or any earlier one.

`e_type1` is never reset between names. A name whose token holds no code is
therefore written with the label of the code the last matching name left
behind, or raises `NameError` when no earlier name matched.

`EveryCodeReachable`, `ETypeLabelAt`, `UnderscoreMTypes` and `MTypeParts`
are properties of the tables themselves, and nothing outside this group
relies on them. They say which codes the search can find and which names have
more than four parts.

## Model

| member | source | states |
|---|---|---|
| PyText.Strip | pvt/stuff/fnames_curation.py:82 | the result is the slice of the line that keeps every non-whitespace character and neither starts nor ends with whitespace |
| PyText.StripIdempotent | pvt/stuff/fnames_curation.py:82 | stripping an already stripped name changes nothing |
| PyText.StripNewline | pvt/stuff/fnames_curation.py:82 | a line read with its trailing newline strips to the bare name |
| PyText.Split | pvt/stuff/fnames_curation.py:84 | `split('_')` gives at least one piece, no piece holds `_`, and joining the pieces with `_` gives the name back |
| PyText.SplitJoin | pvt/stuff/fnames_curation.py:84 | splitting a `_`-join of `_`-free pieces gives exactly those pieces |
| PyText.SplitOfFree | pvt/stuff/fnames_curation.py:90 | a string without the separator splits into itself alone |
| PyText.MatchesFrom | pvt/stuff/fnames_curation.py:100 | the character-by-character comparison holds exactly when the key's tail equals the text at that offset |
| PyText.ContainsFrom | pvt/stuff/fnames_curation.py:100 | the scan is true exactly when the key occurs in the text at some index from the start point on |
| PyText.Contains | pvt/stuff/fnames_curation.py:100 | `key in text` holds exactly when `key` occurs in `text` at some index |
| CellTables.BbpTables | pvt/stuff/fnames_curation.py:21-73 | the script's tables are `Layers`, `MTypes` and `ETypes`; the layer codes are exactly `L1`, `L23`, `L4`, `L5`, `L6`, and the e-type table has eleven entries |
| CellTables.LabelMap | pvt/stuff/fnames_curation.py:61-73 | the e-type dictionary's keys are exactly the codes of the ordered table |
| CellTables.LabelMapAt | pvt/stuff/fnames_curation.py:61-73 | with distinct codes, the dictionary maps each entry's code to that entry's label |
| CellTables.ETypeKeysDistinct | pvt/stuff/fnames_curation.py:61-73 | the eleven e-type codes are distinct and non-empty |
| CellTables.ETypeLabelAt | pvt/stuff/fnames_curation.py:61-73 | every e-type code of the table looks up its own label |
| CellTables.UnderscoreMTypes | pvt/stuff/fnames_curation.py:29-59 | the only m-type codes that contain `_` are `TPC_L4` and `TPC_L1` |
| Curation.SplitName | pvt/stuff/fnames_curation.py:84-95 | fails with `TooFewParts` exactly when there are fewer than four parts; otherwise the layer, token and instance hold no `_`, the instance holds no `.`, the m-type holds `_` exactly when there are more than four parts, and the four fields joined with `_` start the name |
| Curation.FourPartName | pvt/stuff/fnames_curation.py:86-90 | a four-part name decodes to layer = part 0, m-type = part 1, token = part 2, instance = part 3 up to its first `.` |
| Curation.ManyPartName | pvt/stuff/fnames_curation.py:91-95 | every name with more than four parts decodes with m-type = part 1 + `_` + part 2, token = part 3, instance = part 4 up to its first `.`; parts 5 onward are ignored |
| Curation.ManyParts | pvt/stuff/fnames_curation.py:84 | a name with more than four parts splits into its first four pieces followed by the pieces of the rest |
| Curation.DecoratedLine | pvt/stuff/fnames_curation.py:105-106 | an output line starts with the stripped name followed by ` ::: ` and ends with a newline |
| Curation.Parse | pvt/stuff/fnames_curation.py:82-84 | the parsed name has no whitespace at either end, and its split fails exactly when it has fewer than four parts |
| Curation.ParseAll | pvt/stuff/fnames_curation.py:80-84 | every line is parsed, in order, one parsed name per line |
| Curation.FirstMatchFrom | pvt/stuff/fnames_curation.py:99-102 | the result is the first position from the start point whose code occurs in the token, with no earlier one occurring; None means no code from there on occurs |
| Curation.FirstMatch | pvt/stuff/fnames_curation.py:99-102 | the search result is the first code, in table order, that occurs in the token, or None when no code occurs |
| Curation.SearchEType | pvt/stuff/fnames_curation.py:99-102 | the early-`break` loop stops at the first code in table order that occurs in the token, and finds nothing only when no code occurs |
| Curation.SearchResultUnique | pvt/stuff/fnames_curation.py:99-102 | any result meeting the search's specification is the function's result |
| Curation.EveryCodeReachable | pvt/stuff/fnames_curation.py:99-102 | each e-type code, given alone as the token, is found at its own position: no earlier code shadows it |
| Curation.NotShadowed | pvt/stuff/fnames_curation.py:61-73 | no e-type code occurs inside a code that comes later in the table |
| Curation.MissingChar | pvt/stuff/fnames_curation.py:100 | a code with a character the token lacks does not occur in it |
| Curation.NotInsideShorter | pvt/stuff/fnames_curation.py:100 | a code at least as long as the token occurs in it only when it is the whole token |
| Curation.CodeOf | pvt/stuff/fnames_curation.py:99-102 | a name yields a code exactly when it splits and some code occurs in its token; that code is the first in table order that occurs in the token, and it is a key of the e-type dictionary |
| Curation.NextCode | pvt/stuff/fnames_curation.py:99-102 | `e_type1` after a name is the code found in its token, else the old value; it stays a dictionary key and, once bound, stays bound |
| Curation.DecodeName | pvt/stuff/fnames_curation.py:84-106 | a split failure is passed on unchanged; a name that decodes leaves `e_type1` bound to a dictionary key, updated as `NextCode` says; `NameError` comes only when neither this token nor any earlier name gave a code |
| Curation.DecodeNameErrors | pvt/stuff/fnames_curation.py:84-105 | each failure happens exactly under its condition, in the script's order: too few parts, then unknown layer, then unknown m-type, then no code in this token with `e_type1` never bound |
| Curation.DecodeNameWrites | pvt/stuff/fnames_curation.py:99-106 | a name that decodes writes the stripped name, ` ::: `, the layer, m-type and e-type labels and a newline; the new `e_type1` is the code found in its token, or else the old one |
| Curation.InstanceIgnored | pvt/stuff/fnames_curation.py:104-106 | the instance plays no part in the line written or in `e_type1` |
| Curation.DecodeFound | pvt/stuff/fnames_curation.py:99-106 | a name with a known layer and m-type whose token matches code `i` is written with code `i`'s label, and code `i` becomes `e_type1`, whatever it held before |
| Curation.DecodeReused | pvt/stuff/fnames_curation.py:99-106 | a name whose token matches no code is written with the label of the code still in `e_type1`, and leaves it in place |
| Curation.Decorate | pvt/stuff/fnames_curation.py:80-106 | a run writes at most one line per name, and exactly one per name when no exception ends it |
| Curation.DecodeOne | pvt/stuff/fnames_curation.py:97-106 | the loop body, once the name is split, computes exactly `DecodeName`: the search, then the layer, m-type and e-type lookups |
| Curation.DecorateFirst | pvt/stuff/fnames_curation.py:80-106 | when the first name decodes, the run is its line followed by the run over the other names from the updated `e_type1` |
| Curation.DecorateFirstFails | pvt/stuff/fnames_curation.py:80-106 | when the first name fails, the run writes nothing and ends with that failure |
| Curation.DecorateAll | pvt/stuff/fnames_curation.py:80-106 | the loop over the lines, with `e_type1` starting unbound, writes exactly the lines of `Decorate` and stops with its failure |
| Curation.DecorateAdvances | pvt/stuff/fnames_curation.py:80-106 | after a name decodes, the loop state is still the lines written so far followed by the run over the remaining names |
| Curation.DecorateDone | pvt/stuff/fnames_curation.py:80-106 | when the loop has gone through every name, the run's output is exactly the lines written, with no failure |
| Curation.DecorateHalts | pvt/stuff/fnames_curation.py:80-106 | when name `i` fails, the run's output is the lines written before it, and its failure |
| Curation.CarriedCode | pvt/stuff/fnames_curation.py:99-102 | `e_type1` carried over a list of names stays a dictionary key, and once bound stays bound |
| Curation.CarriedCodeSnoc | pvt/stuff/fnames_curation.py:99-102 | carrying `e_type1` over one more name applies that name's update to the carried value |
| Curation.CarriedIsLatest | pvt/stuff/fnames_curation.py:99-102 | after a list of names, `e_type1` holds the code of the last name whose token matched, untouched by the later names without a match |
| Curation.CarriedWithoutMatches | pvt/stuff/fnames_curation.py:99-102 | when no token matches, `e_type1` keeps its starting value |
| Curation.CarriedAfterFirst | pvt/stuff/fnames_curation.py:99-102 | the code carried over a prefix equals the code carried over that prefix without its first name, starting from the first name's update |
| Curation.DecorateWrites | pvt/stuff/fnames_curation.py:80-106 | output line `k` is the decoration of name `k`, decoded with the `e_type1` carried over names `0..k`; lines come in input order |
| Curation.DecorateStops | pvt/stuff/fnames_curation.py:80-106 | a run that fails stops at name `k` = the number of lines written, and that name's decoding raises the failure reported |
| CurationCases.BbpCovers | pvt/stuff/fnames_curation.py:21-59 | the script's tables hold `L5`, `L23`, `TTPC1` and `PC` with their labels |
| CurationCases.MTypeParts | pvt/stuff/fnames_curation.py:86-95 | with the script's m-types, a name with a known m-type has more than four parts exactly when the m-type is `TPC_L4` or `TPC_L1` |
| CurationCases.ParseTtpc | pvt/stuff/fnames_curation.py:82-90 | the line `L5_TTPC1_cADpyr232_2` plus newline splits into `L5`, `TTPC1`, `cADpyr232`, `2` |
| CurationCases.ParsePc | pvt/stuff/fnames_curation.py:82-90 | the line `L23_PC_pyr232_1` plus newline splits into `L23`, `PC`, `pyr232`, `1` |
| CurationCases.ParseBlank | pvt/stuff/fnames_curation.py:82-95 | a blank line strips to the empty name, which fails with one part |
| CurationCases.SearchTtpcToken | pvt/stuff/fnames_curation.py:61-73 | `cADpyr232` finds `cAD`, the sixth code, because none of the five codes before it occurs |
| CurationCases.SearchPcToken | pvt/stuff/fnames_curation.py:99-102 | `pyr232` matches no e-type code |
| CurationCases.CadEntry | pvt/stuff/fnames_curation.py:67 | the sixth entry of the e-type table is `cAD`, Continuous Adapting |
| CurationCases.DecodeTtpc | pvt/stuff/fnames_curation.py:105-106 | `L5_TTPC1_cADpyr232_2` is written as `Layer 5 -- [e] Thick-tufted Pyramidal c. (late bifurcating apical tuft) -- Continuous Adapting` |
| CurationCases.DecodePcAfterTtpc | pvt/stuff/fnames_curation.py:99-105 | after that name, `L23_PC_pyr232_1` is written with the stale label Continuous Adapting |
| CurationCases.DecodePcFirst | pvt/stuff/fnames_curation.py:99-105 | `L23_PC_pyr232_1` as the first name raises the unbound-variable error |
| CurationCases.RunTtpc | pvt/stuff/fnames_curation.py:80-106 | a one-name list gives its one decorated line |
| CurationCases.DecorateTwo | pvt/stuff/fnames_curation.py:80-106 | two names that both decode, the second from the first's `e_type1`, give both lines in order and no failure |
| CurationCases.DecorateStale | pvt/stuff/fnames_curation.py:80-106 | the two parsed names in that order give both lines, the second with the first name's e-type label |
| CurationCases.RunStaleCode | pvt/stuff/fnames_curation.py:80-106 | the two lines in that order give both decorated lines, the second with the stale e-type label |
| CurationCases.RunUnboundCode | pvt/stuff/fnames_curation.py:80-106 | in the other order the run writes nothing and ends with the unbound-variable error |
| CurationCases.RunBlankLine | pvt/stuff/fnames_curation.py:80-106 | a blank first line ends the run with an index error before the good name after it |
| CurationCases.BbpRuns | pvt/stuff/fnames_curation.py:80-106 | the four runs above, with the script's own tables |

## Left out

- The argument-count check, usage message and exit (`pvt/stuff/fnames_curation.py:10-12`) are left out: they are command-line handling.
- Reading the list with `readlines` (`pvt/stuff/fnames_curation.py:14-15`) is left out: the model takes the lines as a `seq<string>`, each still ending in its newline. Python's universal-newline translation is not modelled.
- Opening, writing and closing `./decorated_BBP_cells.txt` (`pvt/stuff/fnames_curation.py:78, 106, 111`) are modelled as appending to an output sequence. Buffering and flushing are not modelled: a run that ends in an exception is taken to leave every line written before it.
- The exception's traceback and the process exit status are not modelled; the run's `Outcome` records which exception ended it.
- The loop body is split in two: `DecorateAll` strips and splits the line (`Parse`), and `DecodeOne` does the rest of the pass on the split name.
- The NEURON simulation drivers (`pvt/custom_scripts/cc.py`, `expe.py`, `arbitraryCC.py`), the cosine stimulus generator (`pvt/custom_scripts/create_stimuli.py`) and the unused JSON me-type read are not part of this model: they are calls into the NEURON engine, floating-point numerics and file I/O.
