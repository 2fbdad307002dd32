# Family photo viewer: a verified model of its core

`visor_web.py` is a Streamlit viewer for a family photo archive. The archive is catalogued in three spreadsheets. Each spreadsheet lists the photos of one family folder in a Google Cloud Storage bucket. A user picks one of two kinds of query:

- an *individual query* covers one spreadsheet;
- a *global query* merges all three spreadsheets in a fixed order.

The user then filters by description or by character, optionally from a year onward, and steps through the results one photo at a time.

This project models the core of that program in Dafny and proves its properties:

- **Table loading** (`Tables`, `tables.dfy`). `load_excel_from_gcs` is a function over a model of the bucket (`Storage`, a map from object path to a parsed sheet or an unreadable object). It normalises the column names to stripped upper case. It checks for the required `DESCRIPCION`, `AÑO` and `NOMBRE` columns. Every failure becomes the empty table, and `Load` says which failure it was.
- **Unification** (`Unifier`, `unifier.dfy`, with `Sorting`, `sorting.dfy`). This is `cargar_y_unificar_por_orden`. It keeps the table cache `df_cache` as a class whose map only ever gains entries. It loads each source of the order once and tags each row with:
  - its folder path, `_FOLDER_PATH`;
  - its rank, `_ORDER_INDEX`;
  - its numeric year, `AÑO_NUM`;
  - its trimmed file name, `NOMBRE_FOTO`.

  The rows are then concatenated and sorted by (year with missing last, rank, file name). The sort is specified as "sorted by a total preorder and a permutation of its input". The individual-query branch (lines 373-378), which tags a single table without sorting it, is modelled too.
- **Filtering** (`Filtering`, `filter.dfy`). This is `filter_data`, in three steps:
  1. The description or character match. In character mode the mask is built by a loop over the character columns.
  2. The year threshold, which moves to the nearest year that exists.
  3. The re-sort by year, applied to individual queries only.

  `Filter` is the reference function. `FilterData` is the method, proved equal to it.
- **Navigation** (`Navigation`, `navigator.dfy`). The session's `filtered_results` and `photo_index` form a class with the invariant "the cursor names a photo whenever there is one". Its methods are:
  - `update_index`: circular stepping;
  - the search button;
  - `go_to_filter` and `go_home`;
  - reading the current photo and the counter.
- **Photo screen** (`PhotoView`, `photo_view.dfy`). This covers:
  - how a row turns into a public address (folder, trimmed file name);
  - the list of characters shown under the photo;
  - the classification of a file as image, video or unsupported by the extension `os.path.splitext` gives, compared without case.

`Strings` (`strings.dfy`) holds the text operations the program gets from Python and pandas: `strip`, `upper`/`lower`, substring search, and `int()` of a decimal text. `Wrappers` (`wrappers.dfy`) holds `Option` and `Result`.

Cells are `Blank` (a missing value, NaN) or `Text`. `astype(str)` turns a blank cell into the text `"nan"`, and the model keeps that quirk. A row is a map from column name to cell, and a column a row lacks reads as blank, as it does after `pd.concat`.

Points where the program's behaviour is easy to misread:

- **The rank of a source** is the *last* position of its key in the load order, because the dictionary comprehension at line 215 keeps the last index. It matches "its index in the order" whenever the keys are distinct (`OrderIndexOfDistinct`).
- **The folder.** The unifier stores the whole `gs://` folder path in `_FOLDER_PATH`, not the configured folder. The photo screen recovers the folder with `split('/')[-1]`. `FolderPathRoundTrip` proves this gives back the configured folder.
- **Character columns** are recognised by the literal substring `PERSONAJE` in the column name.
- **A failed load is cached.** A spreadsheet that is missing, unreadable or incomplete is cached as the empty table (lines 223-224), so it is not tried again in the same session (`TableCache.EnsureLoaded`, `CacheAfterKeeps`).
- **Character mode.** Every mode other than `"D"` is character mode. An empty criterion in character mode gives the empty table at once.
- **A search whose result is empty** leaves the cursor where it was (line 444 runs only for a non-empty result). This is harmless because an empty result has nothing to show.
- **A year text of only white space** is not empty, so it counts as "a year filter was given". It fails `int()`, which yields the not-a-number notice, and for an individual query it still triggers the re-sort by year (`BlankYearTextStillResorts`).
- **Stability.** The model states only sorted plus permutation (see Left out).

## Model

| member | source | states |
|---|---|---|
| Strings.TrimStartChar | visor_web.py:230 | `lstrip('/')`: the result is a suffix of the input that does not begin with the character, and every character dropped is that character |
| Strings.TrimEndChar | visor_web.py:230 | `rstrip('/')`: the result is a prefix of the input that does not end with the character, and every character dropped is that character |
| Strings.StripShape | visor_web.py:194 | `strip()` removes white space from both ends and nothing else: the result is the slice between a leading and a trailing run of white space, and neither of its ends is white space |
| Strings.StripIdempotent | visor_web.py:474 | stripping the already-stripped `NOMBRE_FOTO` again changes nothing |
| Strings.StripEmptyIff | visor_web.py:489 | a text strips to "" exactly when every character of it is white space |
| Strings.UpperSameIff | visor_web.py:194 | two names upper-case alike exactly when they are equal up to case |
| Strings.FoldUpperChar | visor_web.py:281 | upper-casing before a case-insensitive comparison changes nothing |
| Strings.UpperFoldChar | visor_web.py:194 | folding a character before upper-casing it changes nothing |
| Strings.ContainsIgnoreCaseIff | visor_web.py:281 | the case-insensitive search finds the criterion exactly when it lines up with a stretch of the text, character by character up to case |
| Strings.ParseInt | visor_web.py:298 | `int(s)` succeeds exactly on an optional sign followed by decimal digits; the sign gives the sign of the value |
| Strings.NatToDecimal | visor_web.py:298 | the decimal writing of a number is a run of digits whose value is that number |
| Strings.ParseIntToDecimal | visor_web.py:298 | `int(str(n)) == n` for every integer n, negative ones included |
| Strings.StripKeepsDecimal | visor_web.py:298 | digits have nothing for `strip()` to remove |
| Strings.StripUnpadded | visor_web.py:298 | a text that starts and ends with non-space characters is its own strip |
| Strings.StrLeTotal | visor_web.py:242-246 | any two file names are ordered one way or the other |
| Strings.StrLeTransitive | visor_web.py:242-246 | the file-name order is transitive |
| Strings.StrLeAntisymmetric | visor_web.py:242-246 | two names ordered both ways are equal |
| Tables.NumericYearOfDecimal | visor_web.py:232 | a year cell written in decimal digits reads back as that year |
| Tables.AppendNew | visor_web.py:229-233 | adding the tag columns keeps the old columns in front and holds exactly the old and the new names |
| Tables.DropColumns | visor_web.py:248 | `drop(columns=...)` keeps exactly the columns not dropped |
| Tables.NormalizeColumnSameIff | visor_web.py:194 | two header names normalise to the same column exactly when, once stripped, they are equal up to case |
| Tables.NormalizeYearHeader | visor_web.py:194-197 | a header typed " Año " names the required column `AÑO` |
| Tables.FirstIndex | visor_web.py:192-194 | the first position of a column name in the header |
| Tables.RowOf | visor_web.py:192-194 | a sheet row becomes a row holding every column of the header, with the cell under the first column of each name (short rows are padded with blanks) |
| Tables.MissingOf | visor_web.py:196-197 | the missing columns are exactly the required ones that the header lacks |
| Tables.Load | visor_web.py:185-209 | the load succeeds exactly when the object exists, parses, and has all three required columns after normalisation; then the columns are the normalised header and there is one row per data row; every failure names the file, and it is NotFound exactly when the object is missing, ReadFailed exactly when it cannot be parsed, MissingColumns exactly when a required column is absent; a missing-columns error lists exactly the required columns that are missing, and carries the normalised header it found |
| Tables.LoadExcel | visor_web.py:185-209 | a missing, unreadable or incomplete spreadsheet gives the empty table; a successful load gives the loaded table, with all the required columns |
| Tables.LoadKeepsRows | visor_web.py:192-204 | a successful load keeps every data row, and every row has the three required columns |
| Sorting.Insert | visor_web.py:242-246 | inserting into a sorted sequence keeps it sorted and adds exactly that element |
| Sorting.BoundedByHead | visor_web.py:242-246 | a lower bound of every element is a lower bound of any rearrangement of them |
| Sorting.SortBy | visor_web.py:242-246 | `sort_values`: the result is sorted by the key order and is a permutation of the input |
| Unifier.CacheKeySameIff | visor_web.py:221 | two sources share a cache entry exactly when their spreadsheet names are equal up to case |
| Unifier.FolderPath | visor_web.py:230 | the folder path is the bucket's `gs://` address, one '/', and the configured folder without its leading '/' |
| Unifier.PhotoNameIsTrimmed | visor_web.py:233 | the file name `NOMBRE_FOTO` has no white space at either end, so stripping it again changes nothing |
| Unifier.BaseRow | visor_web.py:375-376 | the row gets the source's folder path and the stripped `NOMBRE` as `NOMBRE_FOTO` |
| Unifier.BaseRowKeeps | visor_web.py:375-376 | the two new cells are the only keys added, and every other cell of the source row is kept |
| Unifier.TagRowColumns | visor_web.py:230-233 | a tagged row carries its folder path and its trimmed file name |
| Unifier.TagRowKeeps | visor_web.py:229-248 | after the helper columns are dropped, a tagged row has no helper column, and every other column keeps its cell |
| Unifier.KeyLeIsTotalPreorder | visor_web.py:242-246 | the order by (year with missing last, rank, file name) is a total preorder |
| Unifier.OrderIndex | visor_web.py:215 | the rank of a key is a position of that key in the order, and the last one |
| Unifier.OrderIndexOfDistinct | visor_web.py:215 | in an order without repeated keys, the rank of the key at position i is i |
| Unifier.FramesSnoc | visor_web.py:217-234 | visiting one more key appends that source's frame when it contributes, and nothing otherwise |
| Unifier.FramesEmptyIff | visor_web.py:217-238 | no frame is collected exactly when no visited key names a source with a non-empty cached table |
| Unifier.ConcatColumnsMembers | visor_web.py:240 | the columns of the concatenation are exactly the columns of some frame |
| Unifier.Assemble | visor_web.py:236-248 | no frames give `None`; otherwise the result has one row per concatenated row, and its columns are those of some frame except the two helper columns |
| Unifier.Unify | visor_web.py:212-249 | the unifier gives `None` exactly when no key of the order contributes a non-empty table |
| Unifier.ConcatRowsCount | visor_web.py:240 | the concatenation holds as many rows as the contributing sources have together |
| Unifier.UnifyNoneIff | visor_web.py:236-238 | the unifier gives `None` exactly when every key of the order is unknown or its table is empty |
| Unifier.UnifyRowsAndOrder | visor_web.py:240-248 | the unified rows number the contributed rows; they are the concatenation sorted by (year, rank, name) and a permutation of it |
| Unifier.SourceFrameTagged | visor_web.py:229-233 | every row of a source's frame is a row of that source's table, tagged with its folder, its rank and its year |
| Unifier.ConcatRowsTagged | visor_web.py:240 | every concatenated row comes from one of the visited sources |
| Unifier.UnifiedRowsTagged | visor_web.py:229-248 | every unified row is a row of one of the order's sources, tagged with that source's folder and rank |
| Unifier.FramesStable | visor_web.py:223-226 | entries added to the cache after a source has been loaded do not change that source's frame |
| Unifier.IndividualBase | visor_web.py:373-378 | an individual query opens exactly when its table is not empty, and has one row per source row |
| Unifier.IndividualBaseKeeps | visor_web.py:373-376 | the individual query keeps the source's columns in front, and each row is its source row with the two new cells added and every other cell kept |
| Unifier.IndividualBaseTags | visor_web.py:374-376 | the individual query's table has the folder and file-name columns, holding the source's folder path and each row's stripped name |
| Unifier.CacheAfterSnoc | visor_web.py:223-224 | visiting one more key loads its spreadsheet exactly when its cache key is absent |
| Unifier.CacheAfterHasKeys | visor_web.py:223-224 | after the loop, every known key of the order has its table in the cache |
| Unifier.CacheAfterKeeps | visor_web.py:223-224 | the loop never replaces an entry that was already cached |
| Unifier.CacheAfterNewEntries | visor_web.py:223-224 | every entry the loop adds is the loaded spreadsheet of some key of the order |
| Unifier.CollectStep | visor_web.py:217-234 | one loop iteration either loads and caches or reuses, then appends the key's frame when it contributes |
| Unifier.TableCache.constructor | visor_web.py:173 | the session starts with an empty cache |
| Unifier.TableCache.EnsureLoaded | visor_web.py:221-224 | the cache gains the source's table when absent and is otherwise unchanged |
| Unifier.TableCache.CollectFrames | visor_web.py:214-234 | the loop leaves the cache as `CacheAfter` and returns the frames of the contributing keys in order |
| Unifier.TableCache.LoadAndUnify | visor_web.py:212-249 | `cargar_y_unificar_por_orden`: the new cache, and the unified table or `None` |
| Filtering.Select | visor_web.py:281 | boolean indexing never adds rows |
| Filtering.SelectSubMultiset | visor_web.py:281 | boolean indexing keeps a sub-multiset of the rows |
| Filtering.SelectKeeps | visor_web.py:281 | every row whose mask is true is kept |
| Filtering.SelectOnlyMasked | visor_web.py:281 | every kept row has a true mask |
| Filtering.SelectMembers | visor_web.py:281 | a row is kept exactly when some occurrence of it has a true mask |
| Filtering.SelectWhere | visor_web.py:281 | with a mask computed by a predicate, a row is kept exactly when it is in the table and satisfies the predicate |
| Filtering.SelectIsKeep | visor_web.py:281 | boolean indexing with a mask computed by a predicate is filtering by that predicate |
| Filtering.KeepCount | visor_web.py:281 | filtering keeps every copy of a satisfying element and no copy of any other |
| Filtering.KeepSubsequence | visor_web.py:281 | filtering keeps the order of the rows: the result is a subsequence of the input |
| Filtering.SelectAll | visor_web.py:279 | an all-true mask keeps the table as it is |
| Filtering.CharacterColumns | visor_web.py:286 | the character columns are exactly the columns whose name contains `PERSONAJE` |
| Filtering.AnyCellMatchesSnoc | visor_web.py:288-289 | or-ing one more column into the mask adds that column's match |
| Filtering.CharacterColumnsMatch | visor_web.py:286-290 | or-ing over the character columns is "some character column matches" |
| Filtering.CharacterMask | visor_web.py:286-290 | the loop over the character columns builds exactly the character mask |
| Filtering.DescriptionStage | visor_web.py:279-281 | description mode keeps the columns, keeps a row exactly when it is in the table and its description matches, and never adds a row |
| Filtering.DescriptionStageInOrder | visor_web.py:279-281 | description mode is the filter by the description match: order and copies kept |
| Filtering.CharacterStage | visor_web.py:283-290 | character mode keeps the columns, keeps a row exactly when it is in the table and some character column matches, and never adds a row |
| Filtering.CharacterStageInOrder | visor_web.py:286-290 | character mode is the filter by the character match: order and copies kept |
| Filtering.TextStage | visor_web.py:274-290 | step 1: an empty criterion keeps everything in mode D and gives the empty table otherwise; a criterion keeps the columns and a row exactly when it is in the table and matches; never adds rows |
| Filtering.TextStageInOrder | visor_web.py:274-290 | with a criterion, step 1 is the filter by the match of its mode, keeping order and copies |
| Filtering.LeastIsLeast | visor_web.py:303 | the minimum is missing exactly when no year reaches the threshold; otherwise it is one of the years, reaches the threshold, and is at most every year that does |
| Filtering.NearestYearIsLeast | visor_web.py:300-303 | the nearest year is missing exactly when no row reaches the requested year; otherwise some row has it, it reaches the requested year, and no row that does has an earlier year |
| Filtering.LeastMask | visor_web.py:303-307 | keeping years at least the nearest year keeps the same rows as keeping years at least the requested year |
| Filtering.LeastAfter | visor_web.py:309 | the nearest year is after the requested one exactly when no row has the requested year |
| Filtering.ThresholdRows | visor_web.py:303-312 | with no year at or after T the result is empty with no notice; otherwise the rows kept are exactly those with year at least T |
| Filtering.ThresholdNotice | visor_web.py:303-310 | the adjusted notice fires exactly when no row has year T; it carries T and the least year after T that some row has |
| Filtering.ThresholdAtLeast | visor_web.py:307 | every row the threshold keeps has a year at least T |
| Filtering.RowYearLeIsTotalPreorder | visor_web.py:323 | the order by numeric year, missing last, is a total preorder |
| Filtering.Resort | visor_web.py:320-324 | step 3: the same rows in any case; sorted by year when the query is individual, a year text was given and there are rows; unchanged otherwise |
| Filtering.TextFilter | visor_web.py:274-290 | the method computes step 1 |
| Filtering.FilterData | visor_web.py:271-326 | the method computes the whole filter |
| Filtering.DescriptionEmptyCriterion | visor_web.py:278-279 | mode D with no criterion and no year keeps a non-empty table whole |
| Filtering.CharacterEmptyCriterion | visor_web.py:283-284 | character mode with no criterion gives the empty table, whatever the year |
| Filtering.OtherModesAreCharacter | visor_web.py:282 | every mode other than D behaves as P |
| Filtering.EmptyTextSkipsYear | visor_web.py:292-293 | when step 1 keeps nothing, the result is empty and the year text is ignored |
| Filtering.YearTextNotANumber | visor_web.py:317-318 | a year text that is not an integer leaves the rows of step 1 and gives the not-a-number notice |
| Filtering.BlankYearTextStillResorts | visor_web.py:296-323 | a blank year text is refused as a number but still re-sorts an individual query by year |
| Filtering.YearStageSubMultiset | visor_web.py:296-316 | step 2 never adds rows |
| Filtering.ResortOnlyForIndividual | visor_web.py:320-324 | individual and global queries keep the same rows and notice; only the individual one is re-sorted by year, and the global one keeps step 2's order |
| Filtering.YearStageRows | visor_web.py:296-324 | steps 2 and 3 keep only rows of their input, never more copies, and only rows that reach the year threshold when one was given |
| Filtering.FilterKeepsMatchingRows | visor_web.py:271-326 | the result is a sub-multiset of the input; every row matches the criterion in its mode and reaches the year threshold when one was given |
| Filtering.ExampleLeast | visor_web.py:303 | years 2001, 2003, 2003, 2005 and threshold 2002: the nearest year is 2003 |
| Filtering.ExampleMask | visor_web.py:307 | the same years kept from 2003: all but the first |
| Filtering.ThresholdMovesToNearestYear | visor_web.py:303-310 | years 2001, 2003, 2003, 2005 and T = 2002 keep the last three rows and report an adjustment from 2002 to 2003 |
| Filtering.ThresholdAboveEveryYear | visor_web.py:311-312 | years 2001 and 2005 with T = 2010 give the empty table with no notice |
| Navigation.StepIndex | visor_web.py:333-344 | with results, the new cursor lies in range; without results it does not move |
| Navigation.StepIsCircular | visor_web.py:337-344 | one step forward or back from a valid cursor is addition modulo the number of results |
| Navigation.StepBackUndoesStep | visor_web.py:337-344 | a step back undoes a step forward and the other way round |
| Navigation.ThreeResultsWrap | visor_web.py:339-342 | with 3 results: forward from 2 goes to 0, back from 0 goes to 2; with none the cursor stays |
| Navigation.FilterEmptyHasNoRows | visor_web.py:292-293 | an empty filter result has no rows |
| Navigation.Navigator.constructor | visor_web.py:174-175 | the session starts with no results and cursor 0 |
| Navigation.Navigator.Step | visor_web.py:329-346 | `update_index` moves the cursor circularly, keeps the results, and leaves a valid cursor |
| Navigation.Navigator.Search | visor_web.py:430-446 | P without a criterion changes nothing; otherwise the filter's result is installed and the cursor goes to 0 when it is not empty; the cursor stays valid |
| Navigation.Navigator.BackToFilter | visor_web.py:265-269 | `go_to_filter` keeps the results and puts the cursor at 0 |
| Navigation.Navigator.GoHome | visor_web.py:254-263 | `go_home` clears the results and puts the cursor at 0 |
| Navigation.Navigator.Current | visor_web.py:459-470 | there is a current row exactly when there are results, and it is the row under the cursor |
| Navigation.Navigator.Counter | visor_web.py:615 | the counter shows a position from 1 to the total whenever there is a photo |
| PhotoView.LastSegment | visor_web.py:480 | `split('/')[-1]` is the suffix after the last '/', with no '/' in it |
| PhotoView.LastSegmentOfJoin | visor_web.py:480 | the last segment of a path ending in "/" plus a folder without '/' is that folder |
| PhotoView.FolderPathRoundTrip | visor_web.py:480 | the last segment of the folder path built at line 230 is the configured folder |
| PhotoView.ConfiguredFoldersAreSegments | visor_web.py:144-160 | no configured photo folder contains '/' |
| PhotoView.PublicUrl | visor_web.py:482 | every photo address starts with the public bucket's address and a '/'; its last segment is the file name and the segment before it is the folder, whenever neither contains '/' |
| PhotoView.TaggedRowFolder | visor_web.py:477-480 | in a global query, the folder of a unified row is its source's folder |
| PhotoView.TaggedRowFileName | visor_web.py:474 | the file name shown is the name the unifier trimmed |
| PhotoView.TaggedRowUrl | visor_web.py:474-482 | a unified row is fetched from its source's folder under its trimmed name |
| PhotoView.GlobalPhotoUrl | visor_web.py:474-482 | every row a global query shows is fetched from the folder of the source it came from |
| PhotoView.IndividualPhotoUrl | visor_web.py:474-482 | every row an individual query shows is fetched from the query's folder under the row's trimmed name |
| PhotoView.CharacterNames | visor_web.py:485-490 | at most one name per column |
| PhotoView.CollectCharacters | visor_web.py:485-490 | the loop collects exactly the character names, in column order |
| PhotoView.CharacterNamesMembers | visor_web.py:485-490 | a name is listed exactly when some character column of the row holds it, stripped and not blank |
| PhotoView.CharacterNamesAreClean | visor_web.py:489-490 | every listed name is non-empty and already stripped |
| PhotoView.LastIndex | visor_web.py:517 | the position of the last occurrence of a character, or -1 |
| PhotoView.Extension | visor_web.py:517 | `splitext(name)[1]` is empty or a suffix of the name that starts with its only '.' and holds no '/' |
| PhotoView.ExtensionOfStem | visor_web.py:517 | a stem that is not only dots, a dot, then an extension without '.' or '/': the extension is ".ext" |
| PhotoView.NoDotNoExtension | visor_web.py:517 | a name without '.' has no extension |
| PhotoView.HiddenFileNoExtension | visor_web.py:517 | a name that is a leading dot and one segment has no extension |
| PhotoView.Classify | visor_web.py:517-593 | an unsupported file is reported with its lower-cased extension |
| PhotoView.FoldCharKeepsPunctuation | visor_web.py:517 | lower-casing maps to '.' or '/' only from that same character |
| PhotoView.FoldKeepsLastIndex | visor_web.py:517 | lower-casing keeps the positions of '.' and '/' |
| PhotoView.ExtensionOfFold | visor_web.py:517 | the extension of the lower-cased name is the lower-cased extension |
| PhotoView.FoldIdempotent | visor_web.py:517 | lower-casing twice is lower-casing once |
| PhotoView.ClassifyIgnoresCase | visor_web.py:517-593 | a name and its lower-cased form are classified alike |
| PhotoView.CameraPhotoIsImage | visor_web.py:517-518 | "IMG_0001.JPG" is shown as an image |
| PhotoView.PhoneVideoIsVideo | visor_web.py:517-590 | "boda.MOV" is reported as a video |
| PhotoView.HiddenFileIsUnsupported | visor_web.py:517-593 | ".jpg" has no extension and is unsupported |
| PhotoView.DocumentIsUnsupported | visor_web.py:517-593 | "acta.pdf" is unsupported, reported as ".pdf" |

## Left out

- The Streamlit interface is not modelled: `menu_state`, the buttons, the sticky header, the HTML and CSS around the image, and the messages themselves. The model keeps what a message decides (the `Notice` and `Outcome` values, and `LoadError`) and drops the wording.
- Google Cloud Storage is a map from object path to a parsed spreadsheet or an unreadable object (`Storage`):
  - opening the file system, credentials and the network are not modelled;
  - parsing Excel is not modelled: a sheet is given as its header and its rows of cells.
- Time-to-live caching (`st.cache_data(ttl=...)`) is left out. The model's `df_cache` only ever gains entries within a session, and nothing ever expires.
- Python's `re`: pandas `str.contains` takes the criterion as a regular expression. The model matches it as a literal substring, which agrees only for criteria without regular-expression operators.
- Strings.Upper: covers ASCII and the Latin-1 supplement only (so "año" becomes "AÑO"). 'ß', 'µ' and the rest of Unicode are not upper-cased as Python would; in particular Python turns 'ß' into "SS", which changes the length, and the model keeps 'ß'.
- Strings.Fold: `lower()` and `case=False` are modelled for ASCII and Latin-1 only, for the same reason.
- Numbers in cells: a cell is either missing or text.
  - A numeric spreadsheet cell is modelled by its decimal text.
  - `pd.to_numeric` is modelled as reading a whole number.
  - Fractional years ("2003.5", "2003.0") and floats in general are not modelled.
  - Python `int()` extras are not modelled either: underscores between digits, and non-ASCII digits.
- The year shown in the header (`int(float(...))`, lines 492-498) is not modelled.
- The description shown on screen (line 475) is not modelled.
- Tables.NumericYear: strips the cell text before reading the year everywhere, also at lines 232 and 322, where the source strips nothing. Any text that `pd.to_numeric` would refuse only because of surrounding white space reads as a year in the model.
- Sorting.SortBy: the sort is stated as sorted by the key order and a permutation of the input. Stability, meaning ties keep their input order, is not stated or proved.
- Duplicate column names after normalisation are not modelled: a row keeps the cell of the first column of each name, and a column selection in pandas would return several.
- A source that already has a column named `AÑO_NUM`, `_ORDER_INDEX`, `AÑO_FILTRO_NUM` or `AÑO_ORDEN` is not modelled. The program would overwrite or drop that column; the model assumes the names are free.
- The `try`/`except` around the photo screen (lines 516 and 595) is not modelled. No modelled operation raises there.
- `os.path.splitext` is modelled with POSIX separators only ('/').
- DescriptionStage: its own contract states membership and a sub-multiset; order and the count of each row are stated by `DescriptionStageInOrder` with `KeepCount` and `KeepSubsequence`, kept apart so that the stage's unfolding stays cheap for the proofs that use it.
- CharacterStage: likewise, order and counts are stated by `CharacterStageInOrder`.
- TextStage: likewise, order and counts are stated by `TextStageInOrder`.
- `PhotoView.Classify`: states only what an unsupported file reports. The image and video lists are constants, and the partners of the function are `ClassifyIgnoresCase` and the example lemmas.
