# batteryAnalysis in Dafny

A verified model of the core of `batteryAnalysis.py`, the Samsung battery-stats report analyser. The file is read as one sequence of lines, which both passes consume:

- **Pass 1, the identifier resolver** (lines 40-52):
  - it builds `uid_map`, which maps numeric uids to package names, through a one-slot "pending package" state;
  - it records the three header values: the stats window, the start clock time, and the since-charge time.
- **Pass 2, the section classifier and record extractors** (lines 55-89):
  - each line first moves `mode` through a fixed-priority `if/elif` chain of marker texts;
  - the line is then offered to the row pattern of the new mode;
  - key=value rows go into two per-uid dictionaries, where a later row for the same uid replaces the earlier one;
  - collector and foreground rows are appended to three lists.
- **The ordering rules of the render helpers** (lines 119-151, without the printing):
  - `render_kv` sorts by descending `float(mah)`, and its `ValueError` is one possible outcome;
  - `render_coll` keeps the list order;
  - `render_table_5` sorts by descending `int(raw_uah)` and derives mAh, intensity (guarded against zero seconds) and the hourly projection.

Modules, leaf first:

| file | module | contents |
|---|---|---|
| `wrappers.dfy` | `Wrappers` | `Option` |
| `text.dfy` | `Text` | Python's `str.strip`, `in`, `replace`, `split(..)[1]`, `int()` on digit strings and `float()` on plain decimals, together with Python's `\s` whitespace set |
| `sorting.dfy` | `Sorting` | `sorted(.., key, reverse=True)` as a stable descending insertion sort |
| `patterns.dfy` | `Patterns` | the six regular expressions of lines 31-37 as hand-written parsers, each with round-trip lemmas |
| `resolver.dfy` | `Resolver` | pass 1 |
| `classifier.dfy` | `Classifier` | the mode transition of lines 58-69 |
| `extractor.dfy` | `Extractor` | pass 2 |
| `render.dfy` | `Render` | the render helpers |
| `analysis.dfy` | `Analysis` | the whole run |

How the passes are modelled:

- Both passes are imperative loops, `ResolveIdentifiers` and `ExtractSections`.
- Each loop is proved equal to a fold of a step function over per-line facts:
  - the facts are what the patterns find in the line (`LineFacts` and `LineRows`);
  - the fold is `Scan` in pass 1 and `Extract` in pass 2.
- The properties are proved about the folds. They are also restated without the fold:
  - "the map holds, for each uid, the name bound by the last line binding it";
  - "the section holds the row of the last line with that uid".

## Model

| member | source | states |
|---|---|---|
| Patterns.SearchPackage | batteryAnalysis.py:31 | a package found by `Package \[([^\]]+)\]` is non-empty, has no `]`, and occurs bracketed in the line |
| Patterns.SearchPackageFinds | batteryAnalysis.py:31 | when no match starts earlier in the line (empty brackets do not match), the first `Package [name]` is the one found |
| Patterns.SearchPackageSkipsEmpty | batteryAnalysis.py:31 | `Package [] Package [x]` yields `x`, since `[^\]]+` needs at least one character |
| Patterns.SearchId | batteryAnalysis.py:32 | an id found after `appId=` or `userId=` is a non-empty digit run that follows one of the two tags in the line |
| Patterns.SearchIdFinds | batteryAnalysis.py:32 | when no match starts earlier in the line (a tag without digits does not match), the first tagged digit run is found whole |
| Patterns.SearchIdSkipsBareTag | batteryAnalysis.py:32 | `appId=x userId=5` yields `5`: the search moves past a tag with no digits |
| Patterns.ParseKvRow | batteryAnalysis.py:33 | a matched `uid: mah (details)` row has a digit uid, a digits-and-dots mah, and details without `)` or a newline |
| Patterns.KvRowRoundTrip | batteryAnalysis.py:33 | any line laid out as `uid: mah (details)`, with any spacing and any tail, parses back to its three groups |
| Patterns.KvRowSound | batteryAnalysis.py:33 | every line the parser accepts has that layout |
| Patterns.FindPairs | batteryAnalysis.py:34 | every pair found has a word-character key and a non-empty value in the pattern's class |
| Patterns.FindPairsRoundTrip | batteryAnalysis.py:34 | pairs joined as `k=v k=v …` are found again, in order, by the `findall` with its look-ahead |
| Patterns.ParseForegroundRow | batteryAnalysis.py:35-36 | a matched foreground row has digit uid, raw charge and seconds, and a last field without a newline |
| Patterns.ForegroundRowRoundTrip | batteryAnalysis.py:35-36 | a line of eight bar-separated cells returns cells 1, 2 and 7 and the rest of the line |
| Patterns.ParseCollectorRow | batteryAnalysis.py:37 | a matched collector row has a digit uid and a numeric mah, and its lazy fg and bg fields have no surrounding space and no bar |
| Patterns.CollectorRowRoundTrip | batteryAnalysis.py:37 | a line of five bar-separated fields returns them, the lazy groups stopping before the padding |
| Patterns.ForegroundName | batteryAnalysis.py:88 | the name has no `<` and no surrounding space |
| Patterns.ForegroundNameBeforeLt | batteryAnalysis.py:88 | the name is the stripped text before the first `<` |
| Text.Strip | batteryAnalysis.py:43 | `strip()` removes exactly the surrounding Python whitespace |
| Text.RemoveAll | batteryAnalysis.py:43 | `replace(p, "")` never lengthens the text, and leaves a text without `p` unchanged |
| Text.RemoveAllFind | batteryAnalysis.py:43-46 | when `p` occurs, `replace(p, "")` keeps the text before its first occurrence, drops that occurrence and goes on with the rest; with the unchanged case this fixes the result on every input, so a marker in the middle of the line is removed too |
| Text.RemoveAllExample | batteryAnalysis.py:43 | `"aXb".replace("X", "")` is `"ab"`: a marker inside the text is removed |
| Text.RemoveAllLeading | batteryAnalysis.py:43 | `replace(p, "")` on `p + x` gives `x` when `x` does not hold `p` |
| Text.SecondPiece | batteryAnalysis.py:44 | `split(sep)[1]` exists exactly when the line holds `sep`; it is the text after the first `sep`, up to the next `sep` or the end of the line |
| Text.SecondPieceOf | batteryAnalysis.py:44 | for a separator whose first character does not recur in it, such as `time:`: on `a + sep + x + z`, where `a` and `x` hold no `sep` and `z` is empty or starts with `sep`, the piece is `x` |
| Text.SecondPieceExample | batteryAnalysis.py:44 | `"a time: b time: c".split("time:")[1]` is `" b "` |
| Text.ParseDecimalAccepts | batteryAnalysis.py:125 | `float()` of a digits-and-dots string succeeds exactly on plain decimals |
| Text.ParseDecimal | batteryAnalysis.py:125 | a value read by `float()` is never negative |
| Text.DecimalValue | batteryAnalysis.py:125 | `float(a + "." + c)` is the integer of the digits `a + c` divided by ten to the power of the number of fraction digits |
| Text.DecimalExample | batteryAnalysis.py:125 | `float("12.5")` is 12.5 |
| Text.ParseNat | batteryAnalysis.py:145-148 | on the ASCII digit texts that the patterns capture, `int()` succeeds exactly when the text is non-empty |
| Sorting.SortDesc | batteryAnalysis.py:125 | `sorted(.., reverse=True)` returns a permutation of its input that is ordered by descending key |
| Sorting.SortStable | batteryAnalysis.py:125 | elements with equal keys keep their input order |
| Resolver.StartValue | batteryAnalysis.py:44 | the start time read from a `Start clock time:` line holds no `time:` and has no surrounding space |
| Resolver.StartValuePiece | batteryAnalysis.py:44 | the start time is the stripped text between the first `time:` of the line and the next one, or the end of the line |
| Resolver.StartValueOf | batteryAnalysis.py:44 | for `a + "Start clock time:" + x + z`, where `a` and `x` hold no `time:` and `z` is empty or starts with `time:`, the start time is `x` stripped |
| Resolver.WindowValue | batteryAnalysis.py:43 | the window value is no longer than the line, and is the stripped line when that holds no `Stats from ` |
| Resolver.WindowValueOf | batteryAnalysis.py:43 | a padded `Stats from X` line yields `X` |
| Resolver.SinceChargeValue | batteryAnalysis.py:45-46 | the since-charge value is no longer than the line, and is the stripped line when that holds no `Stats since last charge from ` |
| Resolver.SinceChargeValueOf | batteryAnalysis.py:45-46 | a padded `Stats since last charge from X` line yields `X` |
| Resolver.Step | batteryAnalysis.py:47-52 | a line never removes a uid from the map; a line without an id leaves the map alone; an id line empties the slot; a package line without an id fills it |
| Resolver.ScanLine | batteryAnalysis.py:43-52 | one loop iteration performs exactly the step of the fold |
| Resolver.ResolveIdentifiers | batteryAnalysis.py:40-52 | the loop returns the map and header values of the fold over all lines |
| Resolver.PendingAfter | batteryAnalysis.py:47-52 | the pending slot holds the last package seen exactly when no id line has come since |
| Resolver.MapSoundness | batteryAnalysis.py:47-52 | a uid is in the map exactly when some line binds it, with the name of the last line binding it; a line binds when it has an id and a package is pending or on the same line |
| Resolver.LatestPackageBinds | batteryAnalysis.py:47-52 | of several package lines before an id line, the latest one is bound, and the slot is cleared |
| Resolver.SameLinePackageAndId | batteryAnalysis.py:47-52 | a line with both a package and an id binds them in one step |
| Resolver.OrphanIdIgnored | batteryAnalysis.py:49-52 | an id line with no pending package changes nothing |
| Resolver.NoPackageNoBinding | batteryAnalysis.py:47-52 | without package lines the map stays empty |
| Resolver.StartLastMatchWins | batteryAnalysis.py:44 | the start time is that of the last start line, else `Unknown` |
| Resolver.WindowLastMatchWins | batteryAnalysis.py:43 | the window is that of the last window line, else `Unknown Window` |
| Resolver.SinceChargeLastMatchWins | batteryAnalysis.py:45-46 | the since-charge time is that of the last such line, else `Unknown Start` |
| Classifier.NextMode | batteryAnalysis.py:58-69 | the new mode is the old one or the mode of some marker the line holds |
| Classifier.TransitionPriority | batteryAnalysis.py:58-69 | the new mode is that of the first marker, in chain order, that the line holds |
| Classifier.NoMarkerKeepsMode | batteryAnalysis.py:58-69 | a line without a marker keeps the mode |
| Classifier.MarkerDecides | batteryAnalysis.py:58-69 | on a marker line, the new mode does not depend on the old one |
| Classifier.NextModeIdempotent | batteryAnalysis.py:58-69 | classifying a line twice is classifying it once |
| Classifier.DumpResets | batteryAnalysis.py:68-69 | `DUMP OF SERVICE` without a section marker resets the mode to none |
| Classifier.NextModeByTarget | batteryAnalysis.py:58-69 | the transition is determined by the line's own target mode |
| Extractor.KvSection.Put | batteryAnalysis.py:77 | `d[uid] = row` keeps the dictionary well formed, stores the row, and leaves every other uid's row alone; a new uid goes to the end of the insertion order and an existing one keeps its place |
| Extractor.SectionOrder | batteryAnalysis.py:77 | a dictionary lists its uids in the order of their first row in the section's mode |
| Extractor.KvSection.Values | batteryAnalysis.py:125 | `values()` lists the rows in first-insertion order of their uids |
| Extractor.SectionSize | batteryAnalysis.py:77 | a dictionary lists each uid once |
| Extractor.NameOf | batteryAnalysis.py:75 | the package is the resolved name, else `System:` followed by the uid |
| Extractor.ApplyPairs | batteryAnalysis.py:76 | the pairs add keys to the row and remove none |
| Extractor.ApplyPairsLastWins | batteryAnalysis.py:76 | each key holds the stripped value of its last pair |
| Extractor.KvRow | batteryAnalysis.py:74-76 | a row always has the `uid`, `pkg` and `mah` columns |
| Extractor.KvRowContents | batteryAnalysis.py:74-76 | a row holds `uid`, `pkg`, `mah` and the pairs' keys; each pair's stripped value wins over the base column of the same name |
| Extractor.CollectorRecordOf | batteryAnalysis.py:81-83 | a collector record keeps the uid and power of the match, and holds the fg, bg and package fields as the match's fields with their surrounding whitespace removed: padded by whitespace only, and without whitespace at either end |
| Extractor.ForegroundRecordOf | batteryAnalysis.py:87-89 | a foreground record keeps the uid, raw charge and seconds of the match; its name is the matched name text cut at the first `<` and stripped (`ForegroundName`), so it has no `<` and no surrounding space |
| Extractor.CollectorFieldsTrimmed | batteryAnalysis.py:81-83 | stripping fg and bg changes nothing |
| Extractor.OneSectionPerLine | batteryAnalysis.py:71-89 | a line changes at most one collection, that of the mode after its own transition, and only if that mode's pattern matched; the lists grow by one |
| Extractor.Step2 | batteryAnalysis.py:58-89 | after a line the mode is the line's target, else the old mode; no list shrinks and no dictionary loses a uid |
| Extractor.ExtractLine | batteryAnalysis.py:58-89 | one loop iteration performs exactly the step of the fold |
| Extractor.ExtractSections | batteryAnalysis.py:55-89 | the loop returns the sections of the fold over all lines |
| Extractor.ModeAfter | batteryAnalysis.py:56-69 | the mode after a line is the target of the last marker line up to it, else none |
| Extractor.LastWriteWins | batteryAnalysis.py:71-77 | a key=value section holds exactly the uids met in its mode, each with the row of the last line carrying that uid |
| Extractor.DistinctUids | batteryAnalysis.py:77 | a key=value section's size is the number of distinct uids met in its mode |
| Extractor.CollectorRowsInOrder | batteryAnalysis.py:78-83 | a collector list is the sequence of rows matched in its mode, in input order, duplicates kept |
| Extractor.ForegroundRowsInOrder | batteryAnalysis.py:84-89 | the foreground list is the sequence of rows matched in that mode, in input order |
| Extractor.ListsOnlyGrow | batteryAnalysis.py:78-89 | the lists after a prefix of the lines are prefixes of the final lists |
| Render.FirstMalformed | batteryAnalysis.py:125 | the first row whose `float(mah)` raises is found, and all rows before it parse |
| Render.RenderKvOutcome | batteryAnalysis.py:119-125 | an empty dictionary prints nothing; the sort raises exactly when some row's mah is not a plain decimal |
| Render.RenderKv | batteryAnalysis.py:119-125 | a dictionary is skipped exactly when it is empty; a listing has one row per uid; a malformed mah is the mah of some row |
| Render.RenderKvListed | batteryAnalysis.py:125 | the listed rows are the dictionary's rows, each once, by descending mah, with ties in dictionary order |
| Render.Intensity | batteryAnalysis.py:147-149 | zero when the seconds are zero; otherwise intensity times seconds is the charge in mAh |
| Render.Table5RowOf | batteryAnalysis.py:146-151 | a row copies the record's uid and name and holds `int(raw_uah)` and `int(dur)`; mAh times 1000 is the raw charge, and the projection is intensity times 3600 |
| Render.Table5 | batteryAnalysis.py:145-151 | table 5 has one row per record, and each row's mAh, intensity and projection follow from its raw charge and seconds |
| Render.Table5Order | batteryAnalysis.py:145 | the rows are the records, each once, by descending raw charge, with ties in collection order |
| Render.Table5Intensity | batteryAnalysis.py:149 | rows of table 5 with zero seconds have zero intensity and projection; otherwise intensity times seconds gives back the mAh |
| Render.ProjectionExample | batteryAnalysis.py:146-151 | 3600000 µAh over one second gives 3600 mAh, an intensity of 3600 and a projection of 12960000 |
| Render.ForegroundRecordsWellFormed | batteryAnalysis.py:145-148 | every collected record's raw charge and seconds read as integers, so table 5 never raises |
| Analysis.SectionsValid | batteryAnalysis.py:71-77 | pass 2 keeps both dictionaries well formed |
| Analysis.Analyze | batteryAnalysis.py:40-113 | the report shows the header values of pass 1 and between one and five tables |
| Analysis.Printed | batteryAnalysis.py:109-113 | table 1 alone when its sort raises; tables 1 and 2 when table 2's sort raises; otherwise all five, with tables 3 to 5 as built |
| Analysis.Tables | batteryAnalysis.py:109-113 | one, two or five tables; the first is `render_kv` of the aggregated dictionary and the second, when present, `render_kv` of the background dictionary; fewer than five means the last one shown stopped on a malformed mah, and the ones before it did not |
| Analysis.AnalyzeReport | batteryAnalysis.py:40-113 | the two loops and the table selection produce the report `Analyze` describes |
| Analysis.TablesOutcome | batteryAnalysis.py:109-113 | the tables stop after the first dictionary with a malformed mah; otherwise all five are produced |
| Analysis.ReportComplete | batteryAnalysis.py:109-113 | a log yields all five tables exactly when both dictionaries have numeric mahs, and table 5 then always has its rows |
| Analysis.ReportTables | batteryAnalysis.py:111-113 | tables 3 and 4 list the collector rows of their sections in log order, titled with the window and the since-charge time; table 5 is built from the foreground rows in log order |
| Analysis.EmptyLog | batteryAnalysis.py:28-29 | an empty log shows the default header values, skips tables 1 and 2, and prints the other three empty |

## Left out

- File access is not modelled: the existence check, `getsize`, the two `open` calls and the decoding with `errors='ignore'`. The log is given as a sequence of lines, and both passes read the same sequence.
- Printing is not modelled: `status`, the legend, banners and column padding, the `[:59]` truncation of names, number formatting, and the `time.perf_counter` timing.
- `float` and the divisions of table 5 are exact reals, not binary floating point, so rounding is not modelled.
- Render.RenderKvOutcome: `float()` is modelled on plain decimals only. A key=value pair named `mah` can put a value such as `1e3`, `inf`, `nan` or `1_000` in that column, which Python reads and the model reports as a ValueError.
- `NaN` ordering is not modelled, for the same reason.
- Text.ParseNat: `int()` is modelled on ASCII digit strings. Python's `int()` also accepts texts such as `" 7"`, `"+7"` and `"1_0"`, which the model rejects. The patterns never capture such texts.
- Render.Table5Order: `int()` is modelled on ASCII digit strings. Those are the only strings the foreground pattern captures, as `ForegroundRecordsWellFormed` shows.
- Patterns.FindPairs: `\w` and `\d` match ASCII letters, digits and `_` only. Python's `re` on `str` also matches other Unicode letters and digits, and those lines are not modelled. `\s` and `strip()` use Python's full whitespace set.
- Patterns.CollectorRowRoundTrip: the round trip covers fields with no surrounding space and no bar. Other accepted lines are described by `ParseCollectorRow`'s contract rather than by a round trip.
- Patterns.ForegroundRowRoundTrip: the round trip covers lines whose name text does not start with whitespace. Cells may have any spacing around them.
- Not modelled, because batteryAnalysis.py does none of them: sorting table 3 by window and power, per-record windows and durations, a duration calculator, and a peak projected-drain summary. Table 3 is printed in insertion order.
- A key=value pair named `uid`, `pkg` or `mah` overwrites the base column, as the code does (`KvRowContents`). This changes what table 1 prints and how it sorts.
