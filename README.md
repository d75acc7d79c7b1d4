# Landsat file names: decoding, per-year summary, derived names

A model of the file-name layer of a small Landsat processing pipeline
(`pale-blue-dot-challenge`).

It covers the two decoders of Landsat Collection 2 Level-2 product file names.
These names follow the `landsat_product_id_l2` layout of the USGS Landsat
Collection 2 Data Dictionary, with a band suffix:
`LXSS_LLLL_PPPRRR_YYYYMMDD_yyyymmdd_CC_TX_SX_BX.TIF`.

It also covers the summary `organize_satellite_data` builds from a list of
such names, with one entry per acquisition year, and the three helpers that
build, group and rename the derived image names
(`<date>_<wrs>_<surface>_<band>_<suffix>.<extension>`).

Files:

- `wrappers.dfy`: `Option`.
- `text.dfy`: Python string semantics the code relies on:
  - the order of `str` (used by `sorted`);
  - clamped slices;
  - `rfind` of one character;
  - `count`.
- `sequences.dfy`: Python collection behaviour:
  - `FirstSeen`: the key order of a dict filled in a loop;
  - `SortBy`: a stable sort by a string key, as `sorted(..., key=...)` does;
  - `ListOf`: `list(a_set)`, each element once, in an order left open;
  - `SortedOf`: `sorted(a_set)`.
- `product_id.dfy`: the product-name grammar shared by both decoders:
  - the nine fields (`Details`) and their character classes (`WellFormed`);
  - `Render`, which joins the fields with `_` and appends `.TIF`;
  - `Decode`, parameterised by the one rule where the decoders differ, the surface field.
- `landsat_data_processor.dfy`:
  - the decoder with surface `[A-Z]{2}`;
  - `organize_satellite_data` as three methods, one per loop of the source, and their composition;
  - a declarative description of the result (`Summarises`), proved of every year the method emits, and properties of that description.
- `utils.dfy`:
  - the decoder with surface `ST|SR`;
  - `create_custom_filename`;
  - `group_images_by_date`, as a method with the source's loop;
  - `replace_suffix_and_extension`, with `os.path.splitext` and `str.rsplit`;
  - lemmas about how the three compose in the image pipeline.

Decoding is specified by rendering. `Decode(name)` returns `Some(d)` exactly
when `d` is well formed and `Render(d) == name`. Every field before the band
has a fixed width, so the anchored regular expression checks character
classes at fixed offsets. A dict of sets filled in a loop is modelled as a
sequence of keys in insertion order plus a `map`. The returned
`OrderedDict` is a sequence of `(year, summary)` pairs.

## Model

| member | source | states |
|---|---|---|
| ProductId.Decode | src/landsat_data_processor.py:37-61 | a name decodes to `Some(d)` only when `d` is well formed and renders back to the name (the round trip); `None` only when no well-formed record renders to it |
| ProductId.RenderInjective | src/landsat_data_processor.py:38-56 | two well-formed records with the same rendering are equal, so a match's fields are determined by the name |
| ProductId.DecodeRender | src/landsat_data_processor.py:38-60 | decoding the rendering of a well-formed record gives that record back |
| ProductId.WellFormedWidths | src/landsat_data_processor.py:40-52 | every field before the band has its fixed width and the band is non-empty |
| ProductId.RenderLayout | src/landsat_data_processor.py:40-53 | a rendering puts each field at its fixed offset, with `_` between fields and `.TIF` at the end |
| ProductId.FieldsRender | src/landsat_data_processor.py:40-53 | a punctuated name is the rendering of the fields at its offsets |
| LandsatDataProcessor.DecodeSatelliteFilename | src/landsat_data_processor.py:10-61 | the result is the nine fields, each in its class with surface `[A-Z]{2}`, and they render to the input; `None` when no record of the grammar renders to it |
| LandsatDataProcessor.DecodeExample | src/landsat_data_processor.py:38-60 | the name `LC08_L2SP_123045_20200115_20200120_02_T1_SR_B4.TIF` decodes to its nine fields |
| LandsatDataProcessor.DecodeRejectsOtherNames | src/landsat_data_processor.py:58-61 | a name outside the grammar gives `None` |
| LandsatDataProcessor.DecodeRejectsMonthThirteen | src/landsat_data_processor.py:37 | month `13` in the acquisition date gives `None` |
| LandsatDataProcessor.DecodeRejectsDayZero | src/landsat_data_processor.py:37 | day `00` gives `None` |
| LandsatDataProcessor.DecodeAcceptsFebruaryThirtieth | src/landsat_data_processor.py:37 | `20200230` is accepted: days are checked against `01`-`31` only |
| LandsatDataProcessor.Decoded | src/landsat_data_processor.py:106-108 | the records of the decodable files are exactly the well-formed records whose rendering is among the files |
| LandsatDataProcessor.YearKeys | src/landsat_data_processor.py:110-115 | the keys met in a year are exactly the (satellite, wrs, acquisition date, processing date) of that year's records |
| LandsatDataProcessor.KeysInYear | src/landsat_data_processor.py:109-115 | a key filed under a year carries that year in its acquisition date |
| LandsatDataProcessor.AddRecord | src/landsat_data_processor.py:107-124 | after one more decoded record, the per-year sets, key order and band sets describe exactly the records seen so far |
| LandsatDataProcessor.YearStep | src/landsat_data_processor.py:116-124 | adding a record to its existing year keeps that year's accumulator exact |
| LandsatDataProcessor.NewYearStep | src/landsat_data_processor.py:116-124 | the first record of a year gives that year an exact accumulator |
| LandsatDataProcessor.OtherYearStep | src/landsat_data_processor.py:109-124 | a record of another year leaves a year's accumulator exact |
| LandsatDataProcessor.Accumulate | src/landsat_data_processor.py:106-126 | the first loop: years are those of the decodable files; each year's sets, key order (first seen) and band sets are those of its records; undecodable files contribute nothing |
| LandsatDataProcessor.FinishYear | src/landsat_data_processor.py:128-146 | a year's keys are stably sorted by acquisition date, each entry's bands are its band set sorted, and the missing months are the sorted complement of the months present |
| LandsatDataProcessor.BuildGroups | src/landsat_data_processor.py:132-141 | one entry per key, in the keys' order, each with its bands sorted strictly increasing |
| LandsatDataProcessor.MissingMonths | src/landsat_data_processor.py:142-146 | strictly increasing listing of `01`..`12` minus the months of the entries |
| LandsatDataProcessor.FinishYears | src/landsat_data_processor.py:128-146 | the second loop finishes every year and only those |
| LandsatDataProcessor.EmitYears | src/landsat_data_processor.py:148-155 | years are emitted in strictly increasing order, each once, with each set turned into a list of its elements |
| LandsatDataProcessor.SummarisesFromLoops | src/landsat_data_processor.py:106-155 | the three loops' results for a year are the year's summary of the records |
| LandsatDataProcessor.OrganizeSatelliteData | src/landsat_data_processor.py:64-157 | the years are exactly the acquisition years of the decodable files, strictly increasing, and each summary is that year's summary of the records |
| LandsatDataProcessor.ValuesOnePerAcquisition | src/landsat_data_processor.py:110-122 | `values` has exactly one entry per distinct (satellite, wrs, acquisition date, processing date) of the year |
| LandsatDataProcessor.ValuesInDateOrder | src/landsat_data_processor.py:129-141 | entries are in non-decreasing acquisition-date order; entries with equal dates keep first-seen order |
| LandsatDataProcessor.DateMonth | src/landsat_data_processor.py:143-145 | the month slice of a valid date is one of `01`..`12` |
| LandsatDataProcessor.MissingMonthsComplement | src/landsat_data_processor.py:142-146 | missing months and present months are disjoint and together make `01`..`12`; an emitted year has an entry, so at most 11 months miss |
| LandsatDataProcessor.PresentMonthsValid | src/landsat_data_processor.py:143-145 | every entry's month is one of the twelve |
| LandsatDataProcessor.SomeMonthPresent | src/landsat_data_processor.py:106-124 | a year with records has at least one entry and so one present month |
| LandsatDataProcessor.RepeatedRecordOrder | src/landsat_data_processor.py:110-122 | a repeated record leaves the first-seen key order unchanged |
| LandsatDataProcessor.RepeatedRecordViews | src/landsat_data_processor.py:116-124 | a repeated record leaves every per-year set, the group order and every band set unchanged |
| LandsatDataProcessor.DuplicateFileChangesNothing | src/landsat_data_processor.py:106-124 | appending a file name that is already listed changes neither the years nor any year's summary |
| LandsatDataProcessor.SummaryDetermined | src/landsat_data_processor.py:129-146 | `values` and `missing_months` of a year are determined by the records; only the four set-derived lists may vary in order |
| Sequences.FirstSeen | src/landsat_data_processor.py:122 | the key order of a dict is duplicate-free and holds exactly the keys inserted |
| Sequences.FirstSeenOrder | src/utils.py:96 | a key listed before another in the dict key order was first inserted before it |
| Sequences.SortBy | src/landsat_data_processor.py:129-131 | `sorted` by a key is a permutation, ordered by key, and stable |
| Sequences.SortedEnumerationUnique | src/landsat_data_processor.py:138 | `sorted` of a set is determined: two strictly increasing listings of one set are equal |
| Sequences.ListOf | src/landsat_data_processor.py:151 | `list` of a set holds each element once |
| Sequences.SortedOf | src/landsat_data_processor.py:146 | `sorted` of a set of strings is its strictly increasing listing |
| Text.RFind | src/utils.py:92 | the last index of a character, or -1 when absent |
| Text.RFindConcat | src/utils.py:114 | the last occurrence in a concatenation is in the second part when it has one |
| Utils.DecodeSatelliteFilename | src/utils.py:8-59 | the nine fields, each in its class with surface `ST` or `SR`, rendering to the input; `None` when no such record renders to it |
| Utils.SurfaceRulesNested | src/utils.py:49 | a record is well formed for this decoder exactly when it is for the other one and its surface is `ST` or `SR` |
| Utils.DecodersAgree | src/utils.py:36-59 | this decoder's result is the other decoder's result, kept when the surface is `ST` or `SR` and `None` otherwise |
| Utils.OtherSurfaceRejected | src/utils.py:49 | a name with any other surface (such as `XX` or `QA`) is decoded by the other decoder and rejected by this one |
| Utils.CreateCustomFilename | src/utils.py:62-77 | for decoded fields the name starts with a match of the grouping pattern whose eight digits are the acquisition date |
| Utils.CustomFilenameLayout | src/utils.py:74-77 | the date, WRS, surface and band sit at the offsets the grouping pattern expects |
| Utils.Basename | src/utils.py:92 | the base name is the suffix of the path after its last `/` and holds no `/` |
| Utils.SearchFrom | src/utils.py:93 | a found position leaves room for the pattern |
| Utils.SearchFromLeftmost | src/utils.py:93 | `re.search` finds the leftmost position where the pattern matches, and nothing only when it matches nowhere |
| Utils.DateKeyNone | src/utils.py:92-94 | a path is skipped exactly when its base name matches nowhere |
| Utils.DateKeyLeftmost | src/utils.py:92-95 | a kept path is filed under the eight characters at the leftmost match in its base name |
| Utils.DateKeyDigits | src/utils.py:93-95 | the date a path is filed under is eight digits |
| Utils.KeptPathsContents | src/utils.py:91-96 | every occurrence of a path with a key is kept and no other path is |
| Utils.KeptDatesContents | src/utils.py:91-96 | one date per kept path; the dates are exactly the keys of the paths |
| Utils.PathsOnContents | src/utils.py:91-96 | every occurrence of a path of date `t` is filed under `t`, and nothing else is |
| Utils.GroupImagesByDate | src/utils.py:80-97 | the dict's keys are the dates in first-seen order, each once, and each maps to the paths filed under it, in input order |
| Utils.FileImage | src/utils.py:92-96 | one pass of the loop: after a path, the dict is the grouping of the paths seen so far including it |
| Utils.GroupedAll | src/utils.py:90-97 | after the last path the dict is the grouping of all the paths, its keys are those of the key order |
| Utils.FiledStep | src/utils.py:94-96 | one loop step for a matching path keeps the dict equal to the grouping of the paths seen so far |
| Utils.SkippedStep | src/utils.py:93-94 | one loop step for a non-matching path leaves the dict as it was, and that is still the grouping of the paths seen so far |
| Utils.FiledUnderOneDate | src/utils.py:93-96 | a path is in a date's list exactly when that is its date, so every kept path is under exactly one date, and its date is a key |
| Utils.NoPathsOnUnkeptDate | src/utils.py:94-96 | a date that is no path's key has no paths |
| Utils.GroupSizesStep | src/utils.py:96 | one more path adds one to the size of the listed group of its date |
| Utils.GroupsPartitionKeptPaths | src/utils.py:90-97 | the group sizes add up to the number of kept paths: nothing is lost or filed twice |
| Utils.SinglePathGrouped | src/utils.py:90-97 | a single matching path is grouped alone under its date |
| Utils.Splitext | src/utils.py:114 | stem and extension join to the name; the extension is empty or one dot followed by neither a dot nor a `/`; it is empty exactly when only dots lie between the last `/` and the last `.` (so `a.b` splits at the dot and `.b` does not) |
| Utils.SplitextJoin | src/utils.py:114 | `stem.ext` with a plain stem and extension splits into `stem` and `.ext` |
| Utils.KeptBaseUnique | src/utils.py:115 | at most one prefix of the stem is what `rsplit("_", n)[0]` keeps |
| Utils.RsplitHead | src/utils.py:115 | `rsplit("_", n)[0]` keeps a prefix of the stem ending before an `_`, leaving min(n, count of `_`) underscores after it |
| Utils.RsplitHeadSkip | src/utils.py:115 | splitting off one more token without `_` removes exactly that token |
| Utils.ReplaceSuffixAndExtension | src/utils.py:100-118 | the result is the base kept by `rsplit("_", 3)[0]` from the stem, then `_<suffix>` or `UNDEFINED`, then `.` and the new extension or the old one |
| Utils.FalsyExtensionDoubleDot | src/utils.py:117-118 | without an extension argument the old extension keeps its dot, so the result holds `..` before it |
| Utils.FalsySuffixUndefined | src/utils.py:116 | without a suffix argument `UNDEFINED.` follows the kept base, with no underscore |
| Utils.NoSlashInCustomFilename | src/utils.py:74-77 | a custom name built from decoded fields and a suffix and extension without `/` has no `/` |
| Utils.BasenameAfterSlash | src/utils.py:92 | the base name of `directory/name` is `name` when `name` has no `/` |
| Utils.CustomFilenameGroupedByDate | src/utils.py:74-95 | a path `directory/` + a custom name built from decoded fields is filed under the record's acquisition date |
| Utils.OtherSurfaceNotGrouped | src/utils.py:93-96 | a record with surface `QA` decodes under the `[A-Z]{2}` grammar, but a custom name built from it has no date key, so the grouping skips it |
| Utils.CustomFilenameSplit | src/utils.py:74-77 | a custom name splits at the dot that was put before the extension |
| Utils.CustomStemBase | src/utils.py:115 | removing three tokens without `_` leaves what came before them |
| Utils.CustomFilenameRenamed | src/utils.py:74-118 | renaming a custom name whose band and suffix have no `_` keeps only `<date>_<wrs>` and appends `_<suffix>.<extension>` |

## Left out

- `src/image_processor.py`, `src/frame_image_processor.py` and `src/frame_video_processor.py` are not part of this model. They hold raster and video I/O, geometry, floating-point image arithmetic and plotting.
- `src/handlers.py`, `src/commands.py`, `src/main.py` and `src/settings.py` are not part of this model. They do directory listing, file writes, CLI wiring and configuration.
- `organize_satellite_data_json`, `organize_satellite_data_txt` and `create_satellite_images_paths` are imported in `src/handlers.py`. They are not defined in `src/landsat_data_processor.py` and are not modelled.
- `main` of `src/landsat_data_processor.py` is left out: it lists a directory, exits and writes JSON.
- The `print` of an undecodable file name is modelled as a silent skip.
- Python's `\d` also matches non-ASCII decimal digits. The model accepts ASCII digits only.
- Python's `$` also matches just before a final newline. The model anchors `.TIF` at the exact end of the name.
- `os.path.basename` is modelled as the text after the last `/`.
- `os.path.splitext` is modelled as a split at the last `.` after the last `/`, unless only dots precede that `.` in the base name. Other separators and drive letters are not modelled.
- `os.path.join(directory, name)` is modelled as `directory + "/" + name`.
- The order of the lists made from sets is left open: `satellites`, `correction_level`, `collection_number` and `collection_category`. The model states only that each lists its set once. Python's set iteration order depends on hashing, so these lists are not determined by the input.
- The other lists are determined: the years, `values`, each `bands` and `missing_months`. Ties between entries with the same acquisition date keep the order in which their keys were first met, so `values` depends on the order of the files and not only on their set.
- `values` keeps its dict form after the first loop. The model holds it as a key order plus a map until the second loop replaces it with the sorted list, as the source does.
- `group_images_by_date` returns a `defaultdict(list)`. It is modelled as its key order (`dates`) plus the map (`grouped`).
- The grouping lemmas are proved for any key function. `GroupImagesByDate` states its result with `DateKey`.
- DuplicateFileChangesNothing: states only the case of a repeat appended after the files already listed. A repeat earlier in the list is not stated.
- CustomFilenameGroupedByDate: assumes a record of the `ST|SR` grammar. The image pipeline decodes with the `[A-Z]{2}` decoder of `src/landsat_data_processor.py` before building the name (`src/image_processor.py:15`, `src/image_processor.py:56-64`). A custom name with another surface is written but never grouped; `OtherSurfaceNotGrouped` shows one such name.
- `re.search` matches `[A-Z0-9_]+` greedily, but the match's date group does not depend on how far the band extends. The model checks one band character.
