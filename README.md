# Kystverket maritime tracker — a Dafny model

This project models the data path of a small maritime-traffic dashboard that is built on
Kystverket's voyage export:

- **Cleaning** (`cleaning_data.py`). Raw voyage columns are read as Latin-1 bytes, then:
  - the two timestamp columns and seven vessel-dimension columns are converted, with values that do not parse becoming missing;
  - the port-name columns pass through a repair of `�` (U+FFFD) characters, a character Latin-1 decoding never produces;
  - a `travel_duration_hours` column is added.

  The frame is a `class` whose `columns` map is reassigned step by step, as the pandas script does.
- **Coordinate join** (`map_port_coordinates.py`). `get_lat` and `get_lon` are exact lookups in a port-coordinate table, and every route row gets departure and arrival coordinates.
- **Dashboard** (`dashboard.py`). It covers:
  - dropping rows without all four coordinates;
  - the port and ship searches, which are case-insensitive substring searches on the stripped search text;
  - the `route_counts` table, which groups by ordered (departure, arrival) pair and then left-merges the first coordinates seen for each port;
  - the `all_ports` table, which holds the distinct ports with their departure and arrival tallies;
  - the summary metrics: total rows, distinct ships and the modal departure and arrival port;
  - the sortable display table;
  - the Route Stats listing;
  - the pagination cursor, a class whose page number survives reruns and is moved by Previous and Next.

Modules:

| module | contents |
|---|---|
| `Options` | the `Option` type, standing for pandas' missing values (NaN/NaT/None) |
| `Seqs` | sequence tools shared by the pandas operations: filters, `drop_duplicates`, `groupby().size()`, left lookups with `fillna(0)`, sorts, counts |
| `Strings` | Python's string order, case folding on Latin-1, substring search, `strip()`, `str.replace` |
| `Cleaning` | the cleaning script |
| `PortCoordinates` | the coordinate join |
| `Dashboard` | loading and searching the joined rows |
| `Aggregation` | `route_counts` and `all_ports` |
| `SummaryView` | the metrics, the display sort and Route Stats |
| `Pagination` | the page cursor and the page slice |

Parsing of dates and numbers and the `strftime` formatting are parameters of the model (`parseDate`, `parseNumber`, `format`).

## Model

| member | source | states |
|---|---|---|
| Cleaning.DecodeLatin1 | cleaning_data.py:11 | every byte becomes the character with the same code, so decoded text lies in U+0000–U+00FF |
| Cleaning.LatinOneRoundTrip | cleaning_data.py:11 | Latin-1 decoding is one to one: encoding a decoded field gives its bytes back, and decoding an encoded Latin-1 text gives the text back |
| Cleaning.ReadField | cleaning_data.py:7-14 | a raw field is missing exactly when its text is `""` or `" "`; anything else, `"NA"` included, stays text |
| Cleaning.ParseDate | cleaning_data.py:21-23 | a text value that does not parse becomes missing rather than failing; a parsed one becomes a timestamp; missing stays missing |
| Cleaning.ParseNumber | cleaning_data.py:35-37 | the same coercing conversion for the numeric columns |
| Cleaning.ParseDateIdempotent | cleaning_data.py:21-23 | a converted date cell is never text, and converting it again changes nothing |
| Cleaning.ParseNumberIdempotent | cleaning_data.py:35-37 | a converted numeric cell is never text, and converting it again changes nothing |
| Cleaning.RepairDeparture | cleaning_data.py:40-45 | departure names keep their length; every `�` becomes `ø`, every other character stays, and no `�` remains |
| Cleaning.RepairArrival | cleaning_data.py:47-52 | the same for arrival names |
| Cleaning.DepartureRuleInert | cleaning_data.py:43-44 | after the `�`→`ø` replacement the `B�tsfjord` rule cannot match, so it is the identity |
| Cleaning.ArrivalRuleInert | cleaning_data.py:50-51 | likewise the `Mj�lstadneset` rule is the identity after the first replacement |
| Cleaning.RepairOneMangled | cleaning_data.py:41-51 | a name with a single `�` between clean parts comes out of either chain with exactly that character turned into `ø` |
| Cleaning.BatsfjordBecomesBotsfjord | cleaning_data.py:43-44 | `B�tsfjord` is repaired to `Bøtsfjord`, not to `Båtsfjord` |
| Cleaning.MjolstadnesetRepaired | cleaning_data.py:50-51 | `Mj�lstadneset` is repaired to `Mjølstadneset` |
| Cleaning.RepairDepartureIdempotent | cleaning_data.py:41-45 | repairing a departure name twice equals repairing it once |
| Cleaning.RepairArrivalIdempotent | cleaning_data.py:48-52 | repairing an arrival name twice equals repairing it once |
| Cleaning.RepairCell | cleaning_data.py:40-52 | a name cell gets only its own column's repair chain; missing names stay missing |
| Cleaning.RepairInertOnLatinOne | cleaning_data.py:11-51 | on text decoded as Latin-1 neither repair chain changes anything, since no such text holds `�` |
| Cleaning.ExportedBatsfjordKept | cleaning_data.py:11-45 | the Latin-1 bytes of `Båtsfjord` are read as `Båtsfjord` and come out of the departure repair unchanged |
| Cleaning.Duration | cleaning_data.py:55-58 | the duration is present iff both timestamps are, and then equals (arrival − departure) seconds / 3600 |
| Cleaning.DurationExample | cleaning_data.py:56-58 | a departure at 10:00 and an arrival at 13:30 give 3.5 hours |
| Cleaning.NegativeDurationKept | cleaning_data.py:56-58 | an arrival before the departure gives a negative duration, which is not clamped |
| Cleaning.WithConverted | cleaning_data.py:21-23 | conversion touches only the listed columns that exist, cell by cell; the other columns and the set of columns are unchanged |
| Cleaning.WithRepairedNames | cleaning_data.py:40-52 | only the two name columns, when present, are repaired, cell by cell |
| Cleaning.WithDuration | cleaning_data.py:55-58 | the duration column is added, row by row, iff both timestamp columns exist; every other column is unchanged |
| Cleaning.ColumnRoles | cleaning_data.py:17-34 | the date, numeric, name and duration columns are pairwise distinct, so the steps do not interfere |
| Cleaning.CleanColumns | cleaning_data.py:16-58 | cleaning adds exactly the duration column when both timestamps exist, and no other |
| Cleaning.CleanColumnsIntended | cleaning_data.py:16-58 | the pass without the name repair adds the same columns and leaves both name columns exactly as read |
| Cleaning.RepairStageDead | cleaning_data.py:11-52 | on every table of Latin-1 text the script's pass equals the pass without the name repair |
| Cleaning.CleanConvertsCells | cleaning_data.py:17-37 | every cell of a present date or numeric column in the cleaned frame is the conversion of the raw cell |
| Cleaning.CleanRepairsNames | cleaning_data.py:40-52 | every cell of a present name column in the cleaned frame is the repair of the raw cell |
| Cleaning.CleanDurationCells | cleaning_data.py:55-58 | each cleaned duration cell is the duration of the converted timestamps of that row |
| Cleaning.ConvertedFixed | cleaning_data.py:21-23 | a conversion that fixes every cell of its columns leaves the frame unchanged |
| Cleaning.CleanedDatesFixed | cleaning_data.py:21-23 | the cleaned date columns are fixed points of date conversion |
| Cleaning.CleanedNumbersFixed | cleaning_data.py:35-37 | the cleaned numeric columns are fixed points of numeric conversion |
| Cleaning.CleanedNamesFixed | cleaning_data.py:40-52 | the cleaned name columns are fixed points of their repair chains |
| Cleaning.CleanedDurationFixed | cleaning_data.py:55-58 | recomputing the duration from the cleaned timestamps gives the cleaned duration column |
| Cleaning.CleanIdempotent | cleaning_data.py:16-58 | cleaning an already cleaned frame changes nothing |
| Cleaning.Frame.Read | cleaning_data.py:7-14 | the frame holds every raw column, each field decoded as Latin-1 and then read as `ReadField` says, so all its text is Latin-1 |
| Cleaning.Frame.ConvertColumns | cleaning_data.py:21-23 | the loop over the column list leaves the frame equal to `WithConverted` of the old one, keeping its shape |
| Cleaning.Frame.RepairNames | cleaning_data.py:40-52 | the frame becomes `WithRepairedNames` of the old one |
| Cleaning.Frame.AddDuration | cleaning_data.py:55-58 | the frame becomes `WithDuration` of the old one |
| Cleaning.Frame.Clean | cleaning_data.py:16-58 | the whole script leaves the frame equal to `CleanColumns` of the frame it read, which for a frame of Latin-1 text is `CleanColumnsIntended` of it |
| PortCoordinates.GetLat | map_port_coordinates.py:8-9 | the table's latitude for a name iff the name is a key, verbatim; missing otherwise |
| PortCoordinates.GetLon | map_port_coordinates.py:11-12 | the same for the longitude |
| PortCoordinates.AddCoordinates | map_port_coordinates.py:14-18 | the same rows in the same order, each with the lookups of its own departure and arrival names |
| PortCoordinates.SameNameSameCoordinates | map_port_coordinates.py:14-18 | two rows naming the same port get the same coordinates for it |
| PortCoordinates.CoordinatesOnlyFromTable | map_port_coordinates.py:8-18 | every latitude and longitude attached to a row, on either end, is the one in the table entry of that row's port |
| PortCoordinates.UnknownPortIsMissing | map_port_coordinates.py:8-12 | a name that is not in the table gets no coordinates rather than a default |
| Dashboard.DropMissingCoordinates | dashboard.py:68 | the rows kept are exactly those with all four coordinates, each as often as in the input, in their original order |
| Dashboard.Rename | dashboard.py:70-80 | renaming keeps every row, one to one |
| Dashboard.JoinedCoordinatesImplyNames | dashboard.py:68 | a joined row with all four coordinates has both port names |
| Dashboard.LoadVoyages | dashboard.py:67-80 | every loaded row carries exactly the table's coordinates for its two ports |
| Dashboard.DropKeepsLocatable | dashboard.py:68 | the rows that survive the drop are exactly the route rows whose two ports both have full coordinates in the table, in order |
| Dashboard.LoadVoyagesKeepsLocatable | dashboard.py:67-80 | the loaded table is, row for row, the locatable route rows |
| Dashboard.PortFilter | dashboard.py:95-102 | with a blank search, every row; otherwise exactly the rows whose departure or arrival port contains the stripped text, ignoring case, each as often as in the input, in order |
| Dashboard.ShipFilter | dashboard.py:96-104 | with a blank search, every row; otherwise exactly the rows with a ship name containing the stripped text, ignoring case, with their multiplicities, in order; rows without a name are dropped |
| Dashboard.Search | dashboard.py:98-104 | a row survives iff it passes each non-blank search, as often as it occurs in the table, in table order |
| Dashboard.SearchKeepsAgreement | dashboard.py:98-104 | searching adds no rows, so rows still agree with the coordinate table |
| Strings.Lower | dashboard.py:100 | lower-casing changes exactly the ASCII and Latin-1 capitals, each to the letter 32 code points above |
| Strings.ContainsAt | dashboard.py:100 | substring search holds iff the text occurs at some position |
| Strings.TrimStart | dashboard.py:95-96 | drops exactly the leading whitespace |
| Strings.TrimEnd | dashboard.py:95-96 | drops exactly the trailing whitespace |
| Strings.Strip | dashboard.py:95-96 | the result is a middle part of the input, obtained by removing only whitespace from the ends; it neither starts nor ends with whitespace |
| Strings.StripEmpty | dashboard.py:95-98 | a search is blank, and so skipped, iff it is entirely whitespace |
| Strings.ReplaceAll | cleaning_data.py:43-51 | `str.replace` with a literal pattern keeps the length when pattern and replacement are equally long, and brings in no character beyond the text's and the replacement's |
| Strings.MapChar | cleaning_data.py:43 | a character-for-character replacement keeps length and position, and removes the replaced character |
| Strings.ReplaceCharIsMapChar | cleaning_data.py:43 | replacing a one-character string maps that character everywhere |
| Strings.ReplaceAbsent | cleaning_data.py:44 | a pattern with a character missing from the text replaces nothing |
| Strings.LexLeTotal | dashboard.py:116 | Python's string order compares every two strings |
| Strings.LexLeTransitive | dashboard.py:116 | Python's string order is transitive |
| Strings.LexLeAntisymmetric | dashboard.py:255 | two strings each at most the other are equal |
| Seqs.Filter | dashboard.py:99-104 | a boolean mask keeps exactly the matching rows, with their multiplicities, in order |
| Seqs.Dedup | dashboard.py:157 | `drop_duplicates` leaves each value once and loses none |
| Seqs.DistinctCardinality | dashboard.py:252 | a list without repeats has as many entries as distinct values |
| Seqs.GroupSizes | dashboard.py:142-143 | one group per distinct value, each sized by that value's count (at least 1), the sizes summing to the row count |
| Seqs.SizeOf | dashboard.py:160-163 | a left lookup with `fillna(0)` gives 0 or the size of a group with that key |
| Seqs.SizeOfGroupSizes | dashboard.py:160-163 | a left lookup into the group sizes with `fillna(0)` gives the value's count, 0 when absent |
| Seqs.SumCountsCover | dashboard.py:142-163 | counts over distinct keys covering all rows add up to the row count |
| Seqs.SortBy | dashboard.py:278 | sorting keeps exactly the rows it was given |
| Seqs.SortBySorted | dashboard.py:278 | under a total preorder, the sorted rows are ordered |
| Seqs.PermutationDistinct | dashboard.py:116-119 | reordering keeps a list free of repeats |
| Aggregation.DepEnds | dashboard.py:124 | the (departure port, Dep Lat, Dep Lon) column of each row |
| Aggregation.ArrEnds | dashboard.py:132 | the (arrival port, Arr Lat, Arr Lon) column of each row |
| Aggregation.FirstWith | dashboard.py:124 | the entry at the first index carrying a given port |
| Aggregation.FirstPerPort | dashboard.py:145-154 | `drop_duplicates` by port keeps one entry per port, loses no port, and keeps each port's first entry |
| Aggregation.FirstPerPortKeepsFirst | dashboard.py:122-135 | the first entry of a port survives the de-duplication unchanged |
| Aggregation.PairLeTotalPreorder | dashboard.py:116 | the (departure, arrival) tuple order is total and transitive |
| Aggregation.SortedKeys | dashboard.py:116 | the groupby keys are the distinct pairs, each once, in sorted order |
| Aggregation.RouteCounts | dashboard.py:115-119 | one row per distinct ordered pair, sorted by pair. Each count is the number of rows with that pair (at least 1), the counts sum to the row count, and there are no routes iff there are no rows |
| Aggregation.Matches | dashboard.py:122-126 | a left merge's matches for a key are exactly the right-hand entries with that port |
| Aggregation.MatchesUnique | dashboard.py:122-135 | with one entry per port, a present key matches exactly one entry |
| Aggregation.MatchesEmpty | dashboard.py:122-135 | a key has no match iff the right-hand table lacks its port |
| Aggregation.WithSource | dashboard.py:122-127 | a left join of one counted route: one row per matching entry carrying that entry's coordinates, or one row with none; the route's columns are kept |
| Aggregation.MergeSource | dashboard.py:122-127 | the departure merge yields no fewer rows than there are counted routes, and a row has source coordinates iff its departure port is in the right-hand table (that every route is kept and none invented is MergeSourceFaithful) |
| Aggregation.MergeSourceFaithful | dashboard.py:122-127 | the departure merge keeps every counted route and invents none (same set of departure, arrival, count triples), and present source coordinates form an entry of the right-hand table for that port |
| Aggregation.WithTarget | dashboard.py:130-135 | a left join of one route: one row per matching entry carrying that entry's coordinates, or one row with none; the other columns are kept |
| Aggregation.MergeTarget | dashboard.py:130-135 | the arrival merge yields no fewer rows than it is given, and a row has target coordinates iff its arrival port is in the right-hand table (that every route is kept and none invented is MergeTargetFaithful) |
| Aggregation.MergeTargetFaithful | dashboard.py:130-135 | the arrival merge changes no column but the target ones and adds no other route, and present target coordinates form an entry of the right-hand table for that port |
| Aggregation.MergeSourceOneToOne | dashboard.py:122-127 | the departure merge keeps one row per route and attaches the port's coordinates |
| Aggregation.MergeTargetOneToOne | dashboard.py:130-135 | the arrival merge keeps one row per route and attaches the port's coordinates |
| Aggregation.RouteTable | dashboard.py:115-135 | the merged table has no fewer rows than there are counted routes (that it holds exactly the counted routes is RouteTableFaithful; one row each, with which coordinates, is RouteTableEndpoints) |
| Aggregation.RouteTableFaithful | dashboard.py:115-135 | the route table holds exactly the counted routes, and every coordinate pair in it was recorded for that port by some voyage |
| Aggregation.RouteKeysSeen | dashboard.py:115-119 | every counted route's ports are a departure and an arrival of some rows |
| Aggregation.RouteTableSourced | dashboard.py:115-127 | after the first merge, each counted route carries the coordinates of the first row departing from its port |
| Aggregation.RouteTableEndpoints | dashboard.py:122-135 | the merges neither add nor remove routes. A route's source (target) coordinates are those of the first row departing from (arriving at) its port |
| Aggregation.RouteTableEmpty | dashboard.py:115-135 | no rows give no routes |
| Aggregation.AllPorts | dashboard.py:145-157 | `all_ports` has no repeated entry, and every entry is the endpoint of some row |
| Aggregation.NodeOf | dashboard.py:142-163 | a node keeps its entry's port and coordinates, and its two tallies are the number of rows departing from and arriving at that port, 0 if none |
| Aggregation.PortNodes | dashboard.py:142-163 | node k carries the port and coordinates of `all_ports` entry k; a port's `dep_count` and `arr_count` are the number of rows departing from and arriving at it, 0 if none |
| Aggregation.PortNodesCover | dashboard.py:145-157 | a name is a port node iff it appears as a departure or an arrival port |
| Aggregation.PortNodesCoordinates | dashboard.py:145-157 | each port node's coordinates are those some row gives that port |
| Aggregation.PortNodesTotals | dashboard.py:142-163 | when all rows agree with one coordinate table, each port appears once, and both the departure and the arrival tallies sum to the row count |
| Aggregation.PortNodesEmpty | dashboard.py:142-163 | no rows give no port nodes |
| SummaryView.PresentShips | dashboard.py:252 | the non-missing ship names, exactly those of the rows |
| SummaryView.UniqueShips | dashboard.py:252 | "Unique Ships" is 0 on an empty table and never above the row count |
| SummaryView.UniqueShipsCountsNames | dashboard.py:252 | "Unique Ships" is the number of distinct non-missing ship names |
| SummaryView.ModeAmong | dashboard.py:255-256 | the candidate of maximal count, the smallest among equally frequent ones |
| SummaryView.Mode | dashboard.py:255-256 | `mode()[0]` is a value of maximal frequency and the smallest such |
| SummaryView.ModeUnique | dashboard.py:255-256 | exactly one value meets that description |
| SummaryView.Summarize | dashboard.py:250-260 | total rows is the row count and unique ships counts the distinct names. The two most-frequent ports exist iff the table is non-empty, and then are the modes |
| SummaryView.FormatTime | dashboard.py:88-89 | a missing time formats to a missing cell |
| SummaryView.DisplayRows | dashboard.py:266-272 | the five displayed columns of every row, in order |
| SummaryView.RowOrderTotalPreorder | dashboard.py:275-278 | the column order, with missing cells last, is total and transitive in either direction |
| SummaryView.SortDisplay | dashboard.py:278 | the same rows, ordered by the chosen column in the chosen direction, with missing cells at the end |
| SummaryView.RouteStatsRows | dashboard.py:313-314 | the departure, arrival and count of each route |
| SummaryView.RouteStats | dashboard.py:311-316 | shown iff there are routes: the same routes, largest count first |
| Pagination.TotalPages | dashboard.py:286 | `ceil(total_rows / page_size)`: enough pages for the rows, and no page wholly past them |
| Pagination.TotalPagesUnique | dashboard.py:286 | that description fixes the page count |
| Pagination.PageSlice | dashboard.py:304-306 | the rows from `page_number * page_size` on, at most `page_size` of them, none past the end |
| Pagination.PageInRangeNonEmpty | dashboard.py:285-306 | every page below the page count shows at least one row |
| Pagination.AfterPrevious | dashboard.py:291-293 | Previous moves to the page before, and stays on page 0 |
| Pagination.AfterNext | dashboard.py:300-302 | Next moves to the page after while a later page exists, and otherwise stays put |
| Pagination.StepsStayInRange | dashboard.py:291-302 | a page number in range stays in range after either button |
| Pagination.Step | dashboard.py:289-302 | no click keeps the page, Previous applies `AfterPrevious` and Next applies `AfterNext`; an in-range page stays in range |
| Pagination.Pager.constructor | dashboard.py:282-283 | a new session starts on page 0 |
| Pagination.Pager.Previous | dashboard.py:291-293 | the page number becomes `AfterPrevious` of the old one |
| Pagination.Pager.Next | dashboard.py:300-302 | the page number becomes `AfterNext` of the old one |
| Pagination.Pager.Show | dashboard.py:281-308 | nothing is paged and the cursor stays when there are no rows. Otherwise the click is applied and the page at the cursor is shown |
| Pagination.Clamp | dashboard.py:282-286 | a cursor past the last page moves onto the last page; an in-range cursor is kept |
| Pagination.Pager.ShowClamped | dashboard.py:281-308 | the pagination block with the cursor clamped first: every non-empty table shows a non-empty page |
| Pagination.StaleCursorShowsEmptyPage | dashboard.py:282-306 | a cursor left on page 4 over a 5-row table cannot move forward and shows an empty page |

## Left out

- File reading and writing, the `print` diagnostics and the CSV round trips between the scripts (cleaning_data.py:5-14, 60-71; map_port_coordinates.py:3-6, 20-22; dashboard.py:67) are left out. Each stage's input is a value.
- The semicolon separator and the comma decimal mark are not modelled. Raw fields are given already split into columns of bytes, which are decoded as Latin-1.
- Cleaning.ParseNumber: `read_csv` infers each column's type as a whole. A numeric column with one non-numeric field stays text, and `pd.to_numeric` then turns every decimal-comma value in it into NaN (cleaning_data.py:10, 37). The model converts each cell on its own, so that whole-column effect is not captured.
- Cleaning.ParseDate: `pd.to_datetime` and `pd.to_numeric` are parameters returning an optional value. Their grammars are not modelled, and a timestamp is an integer number of seconds.
- The `utc=True` re-parse of ETD/ETA in the dashboard (dashboard.py:85-86) is not modelled. Rows carry the cleaned timestamps directly.
- SummaryView.FormatTime: `strftime` (dashboard.py:88-89) is the parameter `format`. The display sort on the formatted columns is by that text, as in the source, and not by time.
- Strings.Lower: `str.contains(..., case=False)` matches with the `re.IGNORECASE` flag, which folds case across all of Unicode. The model compares lower-cased texts and folds only ASCII and Latin-1 capitals, which covers Norwegian port names.
- Strings.Strip: Python's `strip()` removes every Unicode whitespace character. The model removes only space, tab, newline, carriage return, vertical tab and form feed.
- Dashboard.PortFilter: `str.contains` defaults to regular-expression matching. The model matches the search text literally, so searches containing regex metacharacters are not modelled.
- SummaryView.SortDisplay: pandas' default sort is not stable. The model promises only a permutation ordered by the column, and any tie order is allowed.
- SummaryView.RouteStats: likewise, routes with equal counts may come in any order.
- Coordinates and travel durations are exact reals rather than 64-bit floats, and NaN is `None`.
- Duration: the hours are the exact quotient of the seconds by 3600, not the rounded float64 that `total_seconds() / 3600` produces, so `value * 3600` equals the difference exactly only in the model.
- `drop_duplicates(["Port", "Lat", "Lon"])` compares coordinates by equality of the reals.
- The placeholder tooltip columns (dashboard.py:137-139, 169-171), the dropping of merge helper columns (dashboard.py:166) and the `astype(int)` cast are not modelled; the tallies are naturals.
- Map centring (dashboard.py:199-212) is a float mean and is not modelled.
- Page configuration, HTML/CSS, widgets, tabs, the pydeck layers and the tooltip (dashboard.py:7-63, 93-109, 175-245, 247-264) are not modelled. The search texts, sort choice, page size and button clicks are inputs.
- The slider bounds on page size (5 to 50) are not modelled. The model only needs a positive page size.
- A Streamlit rerun is one call of `Pager.Show`, with at most one button click. Session state is the `Pager` object living across calls.
- finding_port_coordinates.py, which builds the coordinate table with rate-limited geocoding requests, is not part of this model. The table is an input map from name to optional latitude and longitude.
- finding_ship_routes.py, a five-column projection between CSV files, is not part of this model. Route rows are built directly as five-field records.
- Aggregating over all rows and filtering only the map's points was considered and rejected. The code aggregates after dropping rows without coordinates and after the searches, and the model follows the code.
- The `Båtsfjord` rule is modelled as written: the `�`→`ø` step runs first, so on a text holding `B�tsfjord` the rule never fires and the name becomes `Bøtsfjord`. Text read as Latin-1 never holds `�`, so this cannot happen on a file the script reads (see Findings).
- Cleaning.RepairCell: `.str.replace` raises an AttributeError when a name column holds no text at all, for example when every field is blank and `read_csv` makes it a float column (cleaning_data.py:43, 50). The model maps missing to missing and does not model that failure of the script.
- Dashboard.ShipFilter: `df["Ship Name"].str.contains` (dashboard.py:104) raises the same error when the loaded table has no ship name at all and a ship search is active. In that case the model yields no rows, where the script would fail.

## Findings

| source | as written | input that shows it | evidently intended | confidence | as-written member | corrected member |
|---|---|---|---|---|---|---|
| cleaning_data.py:11-52 | the two repair chains replace `�` (U+FFFD), but the file is decoded as Latin-1, which maps each byte to a character in U+0000–U+00FF, so no field ever holds `�` and the repair (with its `Båtsfjord` and `Mjølstadneset` rules) never changes a name | any field; e.g. the Latin-1 bytes 42 E5 74 73 66 6A 6F 72 64 are read as `Båtsfjord` and pass the repair untouched | port names come out as the export spells them, with `ø` and `å`; for a Latin-1 export the decoding alone achieves that, and the repair stage can be dropped | high, not executed | Cleaning.RepairInertOnLatinOne | Cleaning.CleanColumnsIntended |
| dashboard.py:282-306 | the page number is kept across reruns and never brought back into range when the filtered table shrinks | page number 3 left over from a larger table, then a search leaving 5 rows with 20 rows per page: "Page 4 of 1" and an empty page, and Next cannot move | the cursor stays on an existing page, so a non-empty table always shows rows | medium, not executed | Pagination.StaleCursorShowsEmptyPage | Pagination.Pager.ShowClamped |
