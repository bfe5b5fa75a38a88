# Survey-monitoring dashboard: indicator aggregation, formatting and map joins

This project models the computational core of a Streamlit dashboard. The dashboard monitors a household survey campaign ("enquêtes ménage") and a census ("recensements") across Morocco. Each submission record carries four things:
- a region, province and circle ("cercle") label;
- a cluster ("grappe") identifier;
- a submission date;
- an `expra` flag: 1 for a household survey, 0 for a census form.

The model covers:

- **Records** (`records.dfy`): records, the three geographic levels, the `(expra == 1).sum()` / `(expra == 0).sum()` counts and the distinct cluster count. It also has the in-place `str.strip()` of the circle labels.
- **Aggregation** (`aggregate.dfy`): `groupby(label).agg(...)`, modelled as sorted distinct keys with one summary per key. It also covers:
  - the inner merge with the reference table of targets;
  - the left merge with the distinct (child, parent) label pairs, used for the province and circle views;
  - the ratio rule: `x / y * 100`, with the infinities and NaN that a zero denominator yields replaced by 0;
  - the region, province and circle indicator tables;
  - the choice of the circle's province when the reference table has its own province column.
- **National block** (`national.dfy`):
  - the operation length in days;
  - the survey and census totals;
  - the progress towards the fixed targets of 35000 surveys and 10225 clusters;
  - the daily mean and the rendered key-figure texts;
  - the two progress bars;
  - the per-day table.
- **Number texts** (`numfmt.dfy`, `text.dfy`):
  - Python's `f"{x:,}"` with the comma replaced by a space;
  - `f"{x:.2f}%"`, `f"{x:.0f}"` and `int(x)`;
  - `str.strip`, `str.replace` and the decimal parser behind `astype(float)` and `pd.to_numeric`.

  Each has a round-trip theorem connecting the printed text back to the number.
- **Frames** (`frames.dfy`): cells, tables of named columns, the per-column conversions and a `Frame` object whose columns the dashboard overwrites in place. The conversions are:
  - the number formatting of lines 308-313;
  - `clean_and_convert`;
  - `pd.to_numeric(..., errors='coerce').fillna(0)`.
- **Map helpers** (`geomap.dfy`): `generate_province_map` and `generate_fixed_map`. Each left-joins the full list of boundary names with the data, coerces the selected column and captions every boundary. A boundary without data, or with value 0, gets the caption "Hors enquête".
- **Dashboard** (`dashboard.dfy`):
  - the three display blocks, modelled as methods that mutate a frame column by column and are proved to produce the displayed table;
  - the re-parsing done by the chart branch;
  - the regional Géo view, which returns the `KeyError` it raises for the ratio indicator;
  - the provincial Géo view, with its region filter.
- **The circle script** (`circle_script.dfy`): `test_cercles.py`, a standalone version of the circle pipeline. Its result is proved to agree with the dashboard's circle table.

Inputs the program reads from files or from the user become parameters:
- the parquet tables, as `seq<Record>`, `seq<TargetRow>` and a `CircleTable`;
- the boundary names, as `names`, `all` and `maroc`;
- the selected indicator `k` and the selected region `selected`.

Floating-point numbers are exact reals.

A reference unit without submissions is absent from the tables: the code merges the aggregates with the reference tables by an inner merge (main.py:298, 504, 726), which drops it. It reappears only on the maps, where the left join of lines 73-74 and 131-132 captions it "Hors enquête".

An indicator table with no rows (no label of the records has a reference row) cannot be charted or mapped. The formatting `.apply` of lines 308-313 returns an empty column of the original numeric dtype, so the first `.str` accessor, in `clean_and_convert` (line 351) or in the map coercions (lines 476 and 694), raises AttributeError. The model signals this as `NotText`.

## Model

| member | source | states |
|---|---|---|
| Records.CountFlag | main.py:294-295 | the number of records with a given flag never exceeds the number of records |
| Records.FlagCountsBound | main.py:294-295 | surveys plus census forms are at most the number of records |
| Records.SumIsSurveyCount | main.py:209-210 | with 0/1 flags, `expra.sum()` equals the survey count and surveys plus census forms are all records |
| Records.Members | main.py:293 | a group holds exactly the records whose label at that level is the key |
| Records.GroupKeysSpec | main.py:293-297 | group keys are strictly sorted and distinct, every record's label is a key, and every key has members |
| Records.CountSnoc | main.py:294-295 | appending a record raises its own group's count by one if its flag matches, and leaves the count otherwise |
| Records.PartitionCount | main.py:293-297 | summing a flag count over keys that cover every label gives the national count |
| Records.RecordTable.StripCircleLabels | main.py:715 | every record keeps all fields except the circle label, which is stripped; the row count is unchanged |
| Records.StripCircles | main.py:715 | the same strip as a value: same length, only the circle label changes |
| Records.StripCirclesIdempotent | main.py:715 | stripping twice is stripping once |
| Aggregate.GroupByRows | main.py:293-297 | the grouped rows follow the sorted distinct keys, each the summary of its group |
| Aggregate.GroupKeysCover | main.py:293-297 | a label is a group key exactly when some record carries it |
| Aggregate.GroupBounds | main.py:294-296 | a present group covers at least one cluster, and its surveys plus census forms are at most its size |
| Aggregate.GroupBySpec | main.py:293-297 | the groupby output is sorted, covers exactly the present labels, and each row is its group's summary within those bounds |
| Aggregate.GroupByTotals | main.py:293-297 | the survey and census columns of any grouping sum to the national counts |
| Aggregate.GroupByMatchesNational | main.py:209-210 | with 0/1 flags the grouped surveys sum to `expra.sum()`, and surveys plus census forms are all records |
| Aggregate.DrillDown | main.py:719-723 | grouping one province's records by circle sums back to that province's counts |
| Aggregate.MatchesOf | main.py:298 | one group row's merge partners are exactly the reference rows with its name |
| Aggregate.InnerMerge | main.py:298 | a merged pair exists exactly when the group row is present and the reference row with the same name exists |
| Aggregate.MatchesOfUnique | main.py:298 | with distinct reference names a group row is kept once or dropped |
| Aggregate.InnerMergeUnique | main.py:298 | with distinct reference names the merge is no longer than the grouping and stays strictly sorted |
| Aggregate.MergedRow | main.py:293-298 | every merged row is the summary of a label some record carries, next to its reference row |
| Aggregate.MergeComplete | main.py:293-298 | every record whose label has a reference row yields that label's merged row |
| Aggregate.MergeSorted | main.py:293-298 | with distinct reference names the merged rows are strictly sorted by key |
| Aggregate.Percent | main.py:299-301 | the ratio times the denominator is 100 times the numerator; a zero denominator gives 0 |
| Aggregate.PercentMeaning | main.py:299-300 | a ratio is 100 exactly when the parts are equal, below 100 exactly when the numerator is smaller, and 0 exactly when the numerator is 0 |
| Aggregate.Indicator | main.py:299-301 | an indicator row keeps the counts and the target, and both ratios obey the zero-denominator rule; a blank target gives coverage 0, as `fillna(0)` turns the NaN into 0 |
| Aggregate.RegionIndicatorsSpec | main.py:293-301 | every region row is the indicator of a present region with its target; every present region with a target has its row; rows are sorted when reference names are distinct |
| Aggregate.ParentsOf | main.py:505 | the parents attached to a key are exactly those paired with it |
| Aggregate.ParentsOfNoDuplicates | main.py:505 | distinct pairs give each key distinct parents |
| Aggregate.ParentsOfRecords | main.py:505 | after `drop_duplicates` a key's parents are exactly the parent labels its records carry, listed once each; a nested level gives exactly one parent |
| Aggregate.AttachSpec | main.py:505 | a merged row is repeated once per parent, and kept with a missing parent when it has none |
| Aggregate.LeftAttachSpec | main.py:505 | every row of the left merge comes from a merged row and one of its parents, and every such combination appears |
| Aggregate.LeftAttachOneParent | main.py:505 | when every key has exactly one parent the left merge keeps the rows one for one |
| Aggregate.AttachedRow | main.py:504-505 | every row after both merges is a present unit's summary, its reference row, and a parent one of its records carries |
| Aggregate.AttachComplete | main.py:504-505 | every record whose unit has a reference row yields a row with that record's parent |
| Aggregate.AttachSorted | main.py:504-505 | for nested levels with distinct reference names the final rows are strictly sorted by key |
| Aggregate.ProvinceIndicatorsSpec | main.py:499-508 | every province row is the indicator of a present province with its target and a region its records carry; every (record, target) match appears; rows are sorted for nested data |
| Aggregate.CircleIndicatorsSpec | main.py:715-739 | every circle row is the indicator of a present circle; its province is the reference table's when it has one and a province its records carry otherwise; every match appears; rows are sorted for nested data |
| Aggregate.StripNames | main.py:716 | the reference rows keep their fields except the stripped circle name |
| Aggregate.CircleTable.StripLabels | main.py:716 | the circle reference table is stripped in place, its province flag and row count unchanged |
| National.DailyDatesSpec | main.py:211 | the per-day groups are on strictly increasing, distinct dates, exactly the dates some record has |
| National.LastDate | main.py:208 | the latest submission date bounds all dates and is attained |
| National.FirstDate | main.py:208 | the earliest submission date bounds all dates and is attained |
| National.OperationDays | main.py:208 | the operation length is absent exactly for no records; otherwise it is the latest date minus the earliest plus one, so it exceeds every difference of two dates and counts gap days |
| National.SpanCoversActiveDays | main.py:208-211 | the number of active days is at least 1 and at most the operation length |
| National.OnDate | main.py:211 | a day's group holds exactly the records of that date |
| National.DailyPartition | main.py:211 | the per-day sums of surveys and census forms add up to the national totals |
| National.DailyMeanIsAverage | main.py:224 | the daily mean is absent exactly for no records, and otherwise is total surveys over active days |
| National.ProgressMeaning | main.py:212-214 | survey and cluster progress are the percentages of 35000 and 10225; progress is 100 exactly at the target and below 100 exactly below it |
| National.ProgressBars | main.py:243-247 | two bars, survey then cluster progress, each with achieved plus remaining equal to 100 |
| National.BarsOvershoot | main.py:246 | the remaining part is negative exactly when the target is exceeded, and 0 exactly when it is met |
| National.CountTextMeaning | main.py:218 | a count text followed by its unit reads back as the count |
| National.IntTextMeaning | main.py:222-223 | an integer text followed by its unit reads back as the integer |
| National.Fixed0TextMeaning | main.py:224 | a `.0f` text followed by its unit reads back as the value rounded to the unit |
| National.FigureTextsMeaning | main.py:217-224 | every rendered key figure reads back as the figure it shows; the rates are rounded to hundredths and the daily mean to units |
| National.DailyTableSpec | main.py:266-271 | the daily table has strictly increasing dates, one per active day, each row being that day's counts with at least one cluster; its survey and census columns sum to the totals |
| NumFormat.Digits | main.py:218 | `str(n)` is a nonempty digit string without a leading zero |
| NumFormat.DigitsRoundTrip | main.py:218 | the digits of a number read back as the number |
| NumFormat.DigitsSplit | main.py:308 | the digits of a number of at least 1000 are those of its thousands followed by the last three digits |
| NumFormat.ThousandsText | main.py:308 | the grouped text of a count starts with a digit |
| NumFormat.SignedThousandsText | main.py:308 | the grouped text of an integer starts with a digit or a minus sign |
| NumFormat.ThousandsWithoutSpaces | main.py:308 | removing the separators from a grouped count leaves its plain digits |
| NumFormat.ThousandsRoundTrip | main.py:351 | a grouped count, stripped of spaces, parses back to the count |
| NumFormat.RoundHalfEven | main.py:224 | the result is within one half of the value, and even on a tie |
| NumFormat.Truncate | main.py:140 | `int(x)` moves toward zero by less than one |
| NumFormat.Hundredths | main.py:312 | the hundredths printed by `.2f` are within one half of 100 times the magnitude |
| NumFormat.IndexOf | main.py:351 | the position found is the first occurrence of the character, or the end |
| NumFormat.Fixed2RoundTrip | main.py:312 | a `.2f` text parses back to the value rounded to hundredths |
| NumFormat.PercentRoundTrip | main.py:312-313 | a `.2f%` text with spaces and `%` removed parses back to the value rounded to hundredths |
| NumFormat.PercentStripped | main.py:351 | removing spaces and `%` from a percent text leaves its `.2f` text |
| NumFormat.Rounded2 | main.py:312 | the hundredth-rounded value is within 0.005 of the value |
| NumFormat.IntRoundTrip | main.py:222-223 | an integer's text parses back to the integer |
| NumFormat.Rounded0 | main.py:224 | the unit-rounded value is within 0.5 of the value |
| NumFormat.Fixed0RoundTrip | main.py:224 | a `.0f` text parses back to the value rounded to the unit |
| Text.StripLeft | main.py:715 | the result is a suffix of the input after only whitespace, and starts with a non-space |
| Text.StripRight | main.py:715 | the result is a prefix of the input followed only by whitespace, and ends with a non-space |
| Text.Strip | main.py:715 | the result is empty or starts and ends with a non-space |
| Text.StripIgnoresPadding | main.py:715 | surrounding whitespace does not change the stripped label |
| Text.StripIdempotent | main.py:715 | stripping twice is stripping once |
| Text.AllSpaceStripsToEmpty | main.py:715 | an all-whitespace label strips to the empty string |
| Text.RemoveChar | main.py:351 | the removed character no longer occurs, every other character is kept, and a text without it is unchanged |
| Text.RemoveCharAppend | main.py:351 | removing a character distributes over concatenation |
| Text.NoFirstCharNoSubstring | main.py:79 | a text lacking the first letter of a word does not contain that word |
| Text.LexIsStrictTotalOrder | main.py:293 | the order groupby sorts labels by is a strict total order |
| Order.InsertSorted | main.py:293 | inserting a key into a sorted distinct list keeps it sorted, and adds that key only |
| Order.SortedKeysSpec | main.py:293 | the sorted keys are strictly sorted, distinct, and exactly the input's values |
| Order.SortedIsDistinct | main.py:293 | a strictly sorted list has no duplicates |
| Order.DistinctSpec | main.py:505 | `drop_duplicates` keeps each value exactly once |
| Order.DistinctOrder | main.py:505 | `drop_duplicates` lists the values in the order of their first occurrence in the input |
| Order.DistinctCardinality | main.py:505 | a list without duplicates has as many elements as its set |
| Frames.ThousandsColumn | main.py:308-311 | formatting an integer column gives a column of the same length made only of texts |
| Frames.PercentColumn | main.py:312-313 | formatting a numeric column as percentages gives a column of the same length made only of texts |
| Frames.CleanAndConvertColumn | main.py:350-351 | the conversion succeeds exactly when every cell parses after removing spaces and `%`, giving those numbers; otherwise it fails naming a cell that does not parse |
| Frames.CoerceCell | main.py:476-480 | a missing cell becomes 0 |
| Frames.CoerceColumn | main.py:476-480 | coercion keeps the length and yields only numbers |
| Frames.CleanThousands | main.py:350-351 | a grouped count, cleaned, reads back as the count |
| Frames.ThousandsColumnRoundTrip | main.py:354-357 | `clean_and_convert` of a formatted count column succeeds and gives the counts back |
| Frames.PercentColumnRoundTrip | main.py:358-359 | `clean_and_convert` of a formatted rate column succeeds and gives every rate rounded to hundredths |
| Frames.CoerceThousands | main.py:476-478 | the map branch's coercion of a grouped count gives the count |
| Frames.CoercePercent | main.py:479-480 | the map branch's coercion of a percent text gives the value rounded to hundredths |
| Frames.Frame.FormatThousands | main.py:308 | the named column is replaced by its grouped texts and nothing else changes |
| Frames.Frame.FormatPercent | main.py:312 | the named column is replaced by its percent texts and nothing else changes |
| Frames.Frame.CleanAndConvert | main.py:350-354 | a column whose dtype is not text fails with `NotText` (the `.str` AttributeError); a text column succeeds exactly when every cell parses, and is then replaced by its numbers; on failure the frame is unchanged and the error names the bad text |
| Frames.Frame.CoerceInto | main.py:476 | reading a missing column fails with `UnknownMetric`, a non-text column with `NotText`, and both change nothing; otherwise only the destination column is written, with the coerced source |
| GeoMap.NameCell | main.py:73 | a boundary name becomes a key cell that matches the name |
| GeoMap.MatchRows | main.py:74 | the matching data rows are exactly those whose key equals the boundary name, in increasing order |
| GeoMap.Entries | main.py:74 | a boundary yields one entry per matching row, in row order, and a single row-less entry exactly when no row matches |
| GeoMap.LeftJoin | main.py:74 | every joined entry points to a data row with a matching key, or to none |
| GeoMap.LeftJoinSpec | main.py:73-74 | every entry belongs to a boundary; every (boundary, matching row) pair is an entry; a row-less entry appears exactly for a boundary no row matches |
| GeoMap.LeftJoinAppend | main.py:74 | the join keeps the boundary order: appending a boundary appends its entries |
| GeoMap.AtMostOneMatch | main.py:74 | with distinct data keys a boundary matches at most one row |
| GeoMap.LookupSpec | main.py:74 | with distinct keys the lookup finds the matching row, and finds none exactly when no row matches |
| GeoMap.JoinOnePerUnit | main.py:73-74 | with distinct keys the join has one entry per boundary, in boundary order |
| GeoMap.JoinKeepsUnits | main.py:73-74 | the join names only boundaries, and names every boundary |
| GeoMap.JoinTable | main.py:473 | the joined frame is rectangular, one row per joined entry, with the data's columns plus the boundary column |
| GeoMap.JoinTableSpec | main.py:473 | with distinct keys each boundary's row carries its name and the matched data row's cells, or missing cells when nothing matches |
| GeoMap.JoinedAt | main.py:473 | one cell of the joined frame is the matched data cell, or missing |
| GeoMap.JoinHeight | main.py:473 | with distinct keys the joined frame has one row per boundary |
| GeoMap.JoinedTexts | main.py:473 | a text column stays text or missing after the join |
| GeoMap.FilterTable | main.py:689 | the filtered frame is rectangular with the same columns |
| GeoMap.FilterTableSpec | main.py:689 | the filtered frame keeps, in order, exactly the rows whose column equals the value |
| GeoMap.CaptionRule | main.py:79-82 | both helpers caption "Hors enquête" exactly when the value is missing or 0 |
| GeoMap.Captioned | main.py:76-82 | each boundary's coerced value comes from its matched cell, and its caption follows the helper's rule |
| GeoMap.ProvinceMapLabels | main.py:71-82 | the provincial map fails exactly when the data lacks `Province` or the selected column, and otherwise labels every joined entry |
| GeoMap.FixedMapLabels | main.py:129-140 | the regional map fails exactly when the data lacks `region` or the selected column, and otherwise labels every joined entry |
| GeoMap.CaptionedSpec | main.py:73-82 | with distinct keys there is one label per boundary, valued from its matching row or missing, captioned "Hors enquête" exactly when missing or 0 |
| GeoMap.CaptionedAt | main.py:131-140 | one boundary's label, as in CaptionedSpec |
| Dashboard.CountColumn | main.py:308-311 | a count column holds each row's count at the given stage |
| Dashboard.RateColumn | main.py:312-313 | a rate column holds each row's rate at the given stage |
| Dashboard.UnitColumn | main.py:304 | the unit column holds each row's key |
| Dashboard.ParentColumn | main.py:511 | the parent column holds each row's parent, or 0 for a missing one |
| Dashboard.MetricOf | main.py:305 | a header names a metric only if it is that metric's header |
| Dashboard.Set | main.py:308 | changing one column's stage leaves the other columns' stages alone |
| Dashboard.Step | main.py:308-313 | overwriting one column with its next stage gives the table at the next stage vector |
| Dashboard.CountColumnStages | main.py:308-311 | a computed count column is integer; formatting it gives the shown column, and `clean_and_convert` reads that back as the counts |
| Dashboard.RateColumnStages | main.py:312-313 | a computed rate column is numeric; formatting gives the shown column, and `clean_and_convert` reads it back as the rates rounded to hundredths |
| Dashboard.FormatIndicators | main.py:308-313 | the six assignments turn the raw indicator table into the displayed table |
| Dashboard.FormatColumn | main.py:308-313 | the i-th assignment formats the i-th metric column and advances the stage vector |
| Dashboard.Reparse | main.py:354-359 | on a table with rows the six `clean_and_convert` assignments turn the displayed table into the numeric one; on an empty table, whose formatted columns are still numeric, the first one fails with `NotText` and nothing changes |
| Dashboard.ParseColumn | main.py:354-359 | the i-th `clean_and_convert` assignment parses the i-th column, and fails with `NotText` exactly when the table is empty |
| Dashboard.RegionBlock | main.py:293-313 | the region block yields the displayed table of the region indicators |
| Dashboard.ProvinceBlock | main.py:499-520 | the province block yields the displayed table of the province indicators |
| Dashboard.CircleBlock | main.py:715-751 | the circle block strips both label columns in place and yields the displayed table of the circle indicators |
| Dashboard.CallersNeverPercent | main.py:483-489 | no indicator name and no regional title contains "Proportion", so both helpers always take their count branch |
| Dashboard.CoerceShown | main.py:476-480 | coercing a shown cell gives the count, or the rate rounded to hundredths |
| Dashboard.RowIndex | main.py:473 | the row found carries the name, or no row does |
| Dashboard.ShownTexts | main.py:308-313 | every metric column of the displayed table is text |
| Dashboard.UnitKeysOf | main.py:473 | distinct indicator keys make the displayed table's unit column a valid join key |
| Dashboard.DisplayTableDisplayed | main.py:305-313 | the displayed table has the shape the views read |
| Dashboard.RegionUnitValue | main.py:473-480 | after the join and the coercion, a boundary's cell is its region's value, or 0 if the region is absent |
| Dashboard.MapOverUnits | main.py:131-134 | a unit-keyed frame gives every boundary the value of its unit, or missing |
| Dashboard.RegionMapOutcome | main.py:479-491 | the regional map fails with `KeyError` exactly for the ratio indicator; otherwise it captions on the count branch |
| Dashboard.RegionMapValues | main.py:473-491 | the regional map gives every boundary of the regional layer its region's coerced value, 0 for a region the table lacks, and no value to other boundaries |
| Dashboard.OldRatioNotShown | main.py:479 | the column the ratio indicator names is never written |
| Dashboard.MapFrame | main.py:476-480 | the five coerced columns are added, keeping the height and the other columns |
| Dashboard.MapFrameShape | main.py:476-480 | columns other than the destinations are unchanged |
| Dashboard.MapFrameColumn | main.py:694-698 | each destination column is the coerced source column |
| Dashboard.CoerceForMap | main.py:476-480 | on text columns the five assignments produce the map frame; on numeric ones the first fails with `NotText` and nothing changes |
| Dashboard.ShownSources | main.py:308-313 | the displayed table has the five source columns as text |
| Dashboard.JoinedSources | main.py:473 | the join keeps the source columns as text or missing |
| Dashboard.RegionFrameShape | main.py:473-480 | the regional map frame is rectangular and keeps the boundary column, and lacks the ratio indicator's column |
| Dashboard.RegionFrameColumn | main.py:476-480 | each regional destination column is its coerced source |
| Dashboard.RegionGeoSpec | main.py:466-491 | on the coerced frame the regional map helper fails exactly for the ratio; otherwise every boundary is labelled with its region's value on the count branch |
| Dashboard.RegionGeo | main.py:466-491 | the regional Géo view fails with `NotText` on an empty regional table and with the missing ratio column for the ratio indicator, and otherwise gives the labels of RegionGeoSpec |
| Dashboard.Filtered | main.py:688-691 | the filter keeps the frame's columns and rectangularity |
| Dashboard.KeptRowsSpec | main.py:688-691 | under "Toutes les Régions" every row is kept; otherwise exactly the rows of the selected region, in order |
| Dashboard.FilteredRows | main.py:688-691 | the kept rows are exactly the indicator rows the selection keeps |
| Dashboard.FilteredCells | main.py:688-691 | each kept row copies its source row |
| Dashboard.FilteredTexts | main.py:688-691 | the filtered metric columns stay text |
| Dashboard.FilteredStrings | main.py:688-691 | filtering keeps a text column text |
| Dashboard.FilteredSources | main.py:688-691 | the filtered table still has the five source columns |
| Dashboard.ProvinceFrameFacts | main.py:694-698 | the provincial map frame is rectangular, keeps `Province`, and holds each indicator's coerced source |
| Dashboard.ProvinceNotIndicator | main.py:694-698 | no indicator overwrites `Province` |
| Dashboard.KeptNames | main.py:688-691 | one kept name per kept row |
| Dashboard.KeptNamesSpec | main.py:688-691 | the kept names are distinct, and are exactly the provinces the selection keeps |
| Dashboard.NamesOfKeptRows | main.py:688-691 | the names of the kept rows are distinct and are exactly the kept units |
| Dashboard.ProvinceUnits | main.py:688-698 | each row of the provincial map frame is a kept province with its value |
| Dashboard.UnitCells | main.py:694-698 | one kept row's province and coerced value |
| Dashboard.ProvinceMapValues | main.py:688-709 | every boundary is labelled with its kept province's value, or missing |
| Dashboard.ProvinceValueAt | main.py:688-709 | a boundary's value is its unit's value if that unit is kept, and missing otherwise |
| Dashboard.ProvinceGeoSpec | main.py:670-709 | on the coerced frame the provincial map helper never fails, captions on the count branch, and gives each boundary its kept province's value |
| Dashboard.ProvinceGeo | main.py:670-709 | the provincial Géo view fails with `NotText` exactly on an empty provincial table, and otherwise gives the labels of ProvinceGeoSpec |
| CircleScript.RunScript | test_cercles.py:23-37 | both tables are stripped in place; the result is the two-merge table and agrees row for row with the dashboard's circle indicators |
| CircleScript.ScriptRows | test_cercles.py:27-37 | every row is a present circle's summary, its reference row, and a province its records carry |
| CircleScript.ScriptComplete | test_cercles.py:34-37 | every record whose circle has a reference row yields a row with its province |
| CircleScript.ProvincesOfCircle | test_cercles.py:37 | a referenced circle is shown with exactly the provinces its records carry |
| CircleScript.ScriptNested | test_cercles.py:37 | when circles are nested in provinces, the final table keeps one row per merged circle, in sorted order |
| CircleScript.PaddedLabelsShareGroup | test_cercles.py:23-24 | labels differing only by surrounding whitespace fall in the same circle group |

## Left out

- The Streamlit page is left out: the sidebar, the selectboxes, the page layout and every `st.*` call. The choices users make become the parameters `k` (the indicator) and `selected` (the region).
- Plotly and Folium figures are left out: choropleths, colour scales, titles, bar charts, annotations and their loops (main.py:84-125, 142-192). Only the labels per boundary are modelled.
- The Datavisualisation branches' charts and axis limits (main.py:361-445) are left out, because they draw figures. Their re-parse of the displayed table is modelled as `Dashboard.Reparse`.
- File loading, `@st.cache_data` (main.py:57-68) and `gpd.read_file` (main.py:466-467) are left out, because they are I/O. The tables and boundary name lists are parameters.
- The table loading in `test_cercles.py:14-19` and the script's `print` calls are left out, because they are I/O.
- Floating-point numbers are modelled as exact reals. The `.2f` and `.0f` formats are modelled as round-half-even on the exact value. This differs from CPython only where a binary float lands on a decimal tie.
- The standard deviation of the daily cadence (main.py:225) is left out, because a square root of a real is not available.
- The `pd.to_datetime` conversion (main.py:266) is left out, because dates are modelled as day numbers.
- NumFormat.ParseNumber does not accept exponents, `inf`/`nan` literals, underscores or surrounding whitespace: the texts the dashboard produces never contain them.
- `astype(str)` on the circle labels (main.py:715-716) is left out: labels are strings already, so a null label, which Python would turn into `"nan"`, is not modelled.
- The renamed copies `region_data1`, `province_data1` and `circle_data1` (main.py:315-340, 523-550, 755-782) are left out, because only `st.dataframe` uses them.
  - `province_data1` and `circle_data1` hold the same cells as `DisplayTable` under other headers.
  - `region_data1` also keeps only six columns (main.py:340). It drops `Nb grappes total`, so the regional table view never shows the target.
- In the script, the `_x`/`_y` suffixes pandas adds when both tables carry `province_label` are not modelled. The reference row's province and the attached province are kept as separate tuple fields.
- Dashboard.CountColumn: a reference table with a blank target is read by pandas as a float column. Its displayed targets then read `1 234.0`, and the blank one `0.0`; the model shows `1 234` and `0`. `clean_and_convert` reads both forms back as the same numbers.
- GeoMap.JoinTable: when the data frame already has a column named like the boundary column, pandas would suffix both; the model lets the boundary column win.
- RegionGeo: the labels are stated per boundary only when both the boundary names and the region keys are distinct. With duplicates, pandas repeats a boundary once per matching row, and the contract then states only the outcome and the caption rule.
- ProvinceGeo: the labels are stated per boundary only when the province keys are distinct, for the same reason as RegionGeo.
- utils/auth.py, data/data_excel_to_parquet/toparquet.py and the commented-out login code are not part of this model: they handle authentication and data preparation, not the dashboard's indicators.
