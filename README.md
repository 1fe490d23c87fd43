# Weather statistics: a Dafny model of the data core

The modelled program is a C++ console tool. It reads weather-station CSV files
and indexes the readings by year and month. It then reports monthly wind,
temperature and solar-radiation statistics. This project models the program's
data core and proves properties about it:

- `Vectors` (`vector.dfy`): the growable `Vector<T>` container. It is a class over
  an `array` with `size` and `capacity` fields. The model covers its doubling
  growth rule, bounds-checked indexing, and copy and assignment.
- `SearchTrees` (`bst.dfy`): the unbalanced binary search tree `BST<T>` of
  year-month keys. The tree is an immutable value (`Tree`) held in the `root`
  field of a `BST` class. The model covers insertion that ignores duplicates,
  search, and the three traversals.
- `StringOrder` (`string_order.dfy`): the lexicographic `<` on `std::string` that
  orders the tree and the `std::map`.
- `Calendar` (`calendar.dfy`): the `Date` and `MyTime` classes with their
  range-checking setters.
- `StdText` and `StreamScan` (`std_text.dfy`, `stream_scan.dfy`): the pieces of
  the C++ standard library the core relies on:
  - `std::to_string` and the zero padding the program prints;
  - `std::stoi` and `substr`;
  - splitting with `std::getline`;
  - the formatted extraction `stream >> int` and `stream >> char`. It skips
    blanks, reads an optional sign and digits, stores 0 and fails on no digits,
    clamps out-of-range values, and leaves the target untouched once the stream
    has failed.
- `Weather` (`weather.dfy`): the `WeatherEntry` record. A `float` that may be
  NaN is a `Reading = Option<real>`, with `None` for NaN. The module also has
  `Select`/`Picked`, the reference definitions of "keep the records that pass a
  filter".
- `LogMaps` (`log_map.dfy`): `std::map<std::string, WeatherLog>` as a sequence
  of bindings in ascending key order, with `find` and `dataMap[key].pushBack(w)`.
- `DataUtils` (`data_utils.dfy`): building the `"YYYY-MM"` key, the two lookups
  `getRecordsByYearMonth` and `getRecordsByMonth`, and the three `extract*`
  loops.
- `FileHandler` (`file_handler.dfy`):
  - `buildColumnMap` and `processCSVLine`;
  - `parseDate` and `parseTime` on top of the stream extraction;
  - `printDate` and `printTime`, as the strings they print.
- `Menu` (`menu.dfy`): `monthName`, the result of `hasData`, the pairwise-deletion
  loop that collects paired readings for the correlation report, and the month
  loop of `writeAllStats`.

Every modelled loop is a `method` with a `while` loop and invariants,
except the `for` loop of `getRecordsByMonth`: it returns from inside the loop
and is modelled as the recursive function `FirstOfMonth`. Each method is proved
against a specification function, and the properties of those functions are
proved as lemmas.

## Model

| member | source | states |
|---|---|---|
| Vectors.Vector.constructor | Assignment2_code/include/Vector.h:115-118 | a new vector is empty, and its capacity is n when n > 0 and 1 otherwise |
| Vectors.Vector.Filled | Assignment2_code/include/Vector.h:120-124 | the fill constructor holds n copies of the default value, with capacity max(n, 1) |
| Vectors.Vector.Copy | Assignment2_code/include/Vector.h:126-130 | the copy constructor gives a fresh buffer with the same size, capacity and elements |
| Vectors.Vector.Assign | Assignment2_code/include/Vector.h:132-142 | assignment takes the other vector's size, capacity and elements into a fresh buffer; self-assignment changes nothing |
| Vectors.Vector.Resize | Assignment2_code/include/Vector.h:152-160 | resize doubles the capacity into a fresh buffer and keeps the size and elements |
| Vectors.Vector.PushBack | Assignment2_code/include/Vector.h:162-166 | pushBack appends the element and grows the size by one; the capacity doubles exactly when the vector was full |
| Vectors.Vector.PopBack | Assignment2_code/include/Vector.h:168-171 | popBack drops the last element and does nothing on an empty vector; the capacity is kept |
| Vectors.Vector.Clear | Assignment2_code/include/Vector.h:173-176 | Clear empties the vector and keeps its buffer and capacity |
| Vectors.Vector.GetSize | Assignment2_code/include/Vector.h:178-181 | GetSize is the number of stored elements |
| Vectors.Vector.Get | Assignment2_code/include/Vector.h:189-193 | the const operator[] fails with out_of_range exactly when the index is negative or not below the size, and otherwise yields that element |
| Vectors.Vector.Set | Assignment2_code/include/Vector.h:183-187 | writing through operator[] fails with out_of_range exactly when the index is out of range, and otherwise replaces that one element only |
| Vectors.PushesReachLeastDoubling | Assignment2_code/include/Vector.h:153-166 | after k pushes from any valid state, the capacity is the least doubling of the old capacity that holds size + k |
| Vectors.LeastDoublingIsLeast | Assignment2_code/include/Vector.h:153-166 | that capacity holds all elements, and one halving fewer would not |
| Vectors.GrowthFromEmpty | Assignment2_code/include/Vector.h:115-166 | from an empty vector, k pushes give capacity c0 * 2^d, with d the fewest doublings that fit k elements |
| SearchTrees.InsertNode | Assignment2_code/include/BST.h:219-233 | inserting adds exactly the value to the tree's key set |
| SearchTrees.CopyNode | Assignment2_code/include/BST.h:204-212 | the deep copy is equal to the copied tree |
| SearchTrees.InsertPreservesOrder | Assignment2_code/include/BST.h:228-231 | insertion keeps the search-tree ordering |
| SearchTrees.InsertFoundUnchanged | Assignment2_code/include/BST.h:228-232 | inserting a value that is already present leaves the tree unchanged |
| SearchTrees.InsertAbsentAddsLeaf | Assignment2_code/include/BST.h:220-227 | inserting an absent value adds exactly one node, and it is a leaf holding the value |
| SearchTrees.SearchFindsKeys | Assignment2_code/include/BST.h:240-247 | on a search tree, search succeeds if and only if the value is a key |
| SearchTrees.InOrderAscending | Assignment2_code/include/BST.h:254-260 | the in-order walk visits every key exactly once, in strictly ascending order |
| SearchTrees.TraversalsAgree | Assignment2_code/include/BST.h:267-286 | pre-order and post-order visit the same keys as in-order; the root comes first in pre-order and last in post-order |
| SearchTrees.InOrderKeys | Assignment2_code/include/BST.h:254-260 | the in-order walk holds exactly the keys of the tree, one entry per node |
| SearchTrees.TraversalSameKeys | Assignment2_code/include/BST.h:267-286 | pre-order, in-order and post-order walks list the same multiset of keys |
| SearchTrees.TraversalLengths | Assignment2_code/include/BST.h:267-286 | the three walks have the same length, one entry per node |
| SearchTrees.PreOrderKeys | Assignment2_code/include/BST.h:267-273 | the pre-order walk holds exactly the keys of the tree |
| SearchTrees.PostOrderKeys | Assignment2_code/include/BST.h:280-286 | the post-order walk holds exactly the keys of the tree |
| SearchTrees.SidesOfRoot | Assignment2_code/include/BST.h:214-233 | in an ordered tree the left subtree holds exactly the keys below the root and the right subtree exactly the keys above it |
| SearchTrees.PreOrderSplitsAtRoot | Assignment2_code/include/BST.h:267-273 | on an ordered tree, pre-order is the root, then the pre-order of the left subtree (exactly the keys below the root), then that of the right subtree (exactly the keys above it) |
| SearchTrees.PostOrderSplitsAtRoot | Assignment2_code/include/BST.h:280-286 | on an ordered tree, post-order is the post-order of the left subtree (exactly the keys below the root), then that of the right subtree (exactly the keys above it), then the root |
| SearchTrees.TraversalExample | Assignment2_code/include/BST.h:267-286 | the tree b with children a and c is walked b, a, c in pre-order and a, c, b in post-order |
| SearchTrees.BST.constructor | Assignment2_code/include/BST.h:181-182 | a new tree is empty |
| SearchTrees.BST.Copy | Assignment2_code/include/BST.h:190-193 | the copy constructor holds the same tree |
| SearchTrees.BST.Assign | Assignment2_code/include/BST.h:195-202 | assignment takes the other tree, and is an ordered tree when the other was; self-assignment changes nothing |
| SearchTrees.BST.Insert | Assignment2_code/include/BST.h:214-233 | the new tree is exactly the recursive insert of the value into the old one; the key set grows by the value and the tree stays ordered; a present value leaves the tree as it was, an absent one adds one leaf |
| SearchTrees.BST.Search | Assignment2_code/include/BST.h:235-247 | search answers true exactly for the tree's keys |
| SearchTrees.BST.InOrder | Assignment2_code/include/BST.h:249-260 | the in-order visit sequence is strictly ascending and holds exactly the keys |
| SearchTrees.BST.PreOrder | Assignment2_code/include/BST.h:262-273 | the keys are visited node, left subtree, right subtree (PreOrderOf), the same keys as in-order, root first |
| SearchTrees.BST.PostOrder | Assignment2_code/include/BST.h:275-286 | the keys are visited left subtree, right subtree, node (PostOrderOf), the same keys as in-order, root last |
| StringOrder.LessTotal | Assignment2_code/include/BST.h:228-232 | for two different strings exactly one is below the other, so the fall-through of insert means equality |
| StringOrder.LessTransitive | Assignment2_code/include/BST.h:228-231 | string < is transitive, which the search-tree ordering relies on |
| Calendar.Date.constructor | Assignment2_code/src/Date.cpp:6 | a default Date is day -1, month -1, year -2000 |
| Calendar.Date.SetDay | Assignment2_code/src/Date.cpp:18-21 | SetDay accepts exactly 1..31 and otherwise raises invalid_argument without changing the date |
| Calendar.Date.SetMonth | Assignment2_code/src/Date.cpp:23-26 | SetMonth accepts exactly 1..12 and otherwise raises invalid_argument without changing the date |
| Calendar.Date.SetYear | Assignment2_code/src/Date.cpp:28-30 | SetYear stores any year and touches nothing else |
| Calendar.ThirtyFirstOfFebruary | Assignment2_code/src/Date.cpp:18-26 | day and month are checked separately, so 31/2 is accepted |
| Calendar.MyTime.constructor | Assignment2_code/src/MyTime.cpp:5 | a default time is 0:00 |
| Calendar.MyTime.SetHour | Assignment2_code/src/MyTime.cpp:15-18 | SetHour accepts exactly 0..23 and otherwise raises invalid_argument without changing the time |
| Calendar.MyTime.SetMinute | Assignment2_code/src/MyTime.cpp:20-23 | SetMinute accepts exactly 0..59 and otherwise raises invalid_argument without changing the time |
| StdText.IntToStringInjective | Assignment2_code/src/FileHandler.cpp:169 | distinct integers print as distinct decimal strings |
| StdText.ZeroPaddedTwoDigits | Assignment2_code/src/FileHandler.cpp:29-30 | a number in 0..99 printed with the leading-zero rule is two digits with that value |
| StdText.StoiTwoDigits | Assignment2_code/src/DataUtils.cpp:27 | stoi of two digits gives their value |
| StdText.StoiWithoutDigits | Assignment2_code/src/DataUtils.cpp:27 | stoi of a text with no digit throws invalid_argument |
| StdText.StoiAboveMax | Assignment2_code/src/DataUtils.cpp:27 | stoi of digits above INT_MAX throws out_of_range |
| StdText.StoiBelowMin | Assignment2_code/src/DataUtils.cpp:27 | stoi of a minus sign and digits above -INT_MIN throws out_of_range |
| StdText.Substr | Assignment2_code/src/DataUtils.cpp:27 | substr fails with out_of_range exactly when the start is past the end, and otherwise returns at most len characters from that position |
| StdText.SplitPiecesHaveNoDelimiter | Assignment2_code/src/FileHandler.cpp:146-148 | no piece that getline splits off contains the delimiter |
| StdText.SplitJoin | Assignment2_code/src/FileHandler.cpp:146-148 | splitting cells joined by the delimiter gives back the cells when none contains it and the last is non-empty |
| StreamScan.ExtractDigits | Assignment2_code/src/FileHandler.cpp:185 | extracting an int from a run of digits reads their value and stops at the first non-digit |
| StreamScan.ExtractPrinted | Assignment2_code/src/FileHandler.cpp:185 | extracting an int reads back any printed int |
| StreamScan.ExtractCharAt | Assignment2_code/src/FileHandler.cpp:185 | extracting a char takes the next non-blank character |
| Weather.PickedIsAscendingAndExact | Assignment2_code/src/Menu.cpp:99-103 | the kept positions ascend and are exactly the records that pass the filter |
| Weather.PickedInRange | Assignment2_code/src/Menu.cpp:99-103 | every kept position is a position of the record vector |
| Weather.PickedAscending | Assignment2_code/src/Menu.cpp:99-103 | the kept positions are strictly ascending, so records keep their order |
| Weather.PickedExact | Assignment2_code/src/Menu.cpp:99-103 | a position is kept exactly when its record passes the filter |
| Weather.SelectFollowsPicked | Assignment2_code/src/Menu.cpp:99-103 | the j-th selected reading is the field of the j-th kept record |
| Weather.SelectionsPair | Assignment2_code/src/Menu.cpp:101-103 | two selections under the same filter have equal lengths, no more than the records, and their j-th entries come from the same record |
| Weather.SolarSelectionCounts | Assignment2_code/src/DataUtils.cpp:46-47 | every selected solar reading is a number of at least 100 |
| LogMaps.Find | Assignment2_code/src/DataUtils.cpp:17-19 | find misses exactly when the key is absent, and otherwise yields a stored log |
| LogMaps.FindBound | Assignment2_code/src/DataUtils.cpp:17-18 | in the ordered map, find of a stored key yields that key's log |
| LogMaps.AppendKeepsOrder | Assignment2_code/src/FileHandler.cpp:171 | dataMap[key].pushBack(w) keeps the keys ordered and adds exactly key to them |
| LogMaps.AppendKeepsLogsNonEmpty | Assignment2_code/src/FileHandler.cpp:171 | appending a record never leaves a bound log empty, so every key in the map has at least one record |
| LogMaps.AppendFind | Assignment2_code/src/FileHandler.cpp:171 | after dataMap[key].pushBack(w), that key's log is the old one, or empty, plus w; every other key is unchanged |
| DataUtils.KeyLayout | Assignment2_code/src/DataUtils.cpp:11-15 | for a four-digit year the key is seven characters: year, '-', two month digits |
| DataUtils.KeyInjective | Assignment2_code/src/DataUtils.cpp:11-15 | distinct year-month pairs, months 0..99, give distinct keys |
| DataUtils.MonthOfTwoDigitKey | Assignment2_code/src/DataUtils.cpp:27 | the month read back from a key is the value of its characters 5 and 6 |
| DataUtils.KeyMonthRoundTrip | Assignment2_code/src/DataUtils.cpp:27 | reading the month back from a key built for a four-digit year gives the month |
| DataUtils.RecordsByYearMonth | Assignment2_code/src/DataUtils.cpp:6-20 | the lookup gives the stored log for the year-month key, or an empty log when the key is absent |
| DataUtils.RecordsByMonthStops | Assignment2_code/src/DataUtils.cpp:22-31 | the scan returns the first log in key order whose month matches, an empty log when none does, or the stoi/substr error of the first bad key before a match |
| DataUtils.FirstOfMonthStops | Assignment2_code/src/DataUtils.cpp:25-30 | for any way of reading a key's month, the walk stops at the first key whose month matches or cannot be read, and returns an empty log when there is none |
| DataUtils.RecordsByMonthSucceeds | Assignment2_code/src/DataUtils.cpp:25-29 | with well-formed keys the scan never raises |
| DataUtils.RecordsByMonthFirstYearOnly | Assignment2_code/src/DataUtils.cpp:25-30 | with two years holding the month, only the first year's log is returned |
| DataUtils.ExtractWindSpeeds | Assignment2_code/src/DataUtils.cpp:33-37 | the result holds every record's wind speed, in order, NaN included |
| DataUtils.ExtractTemperatures | Assignment2_code/src/DataUtils.cpp:38-42 | the result holds every record's temperature, in order, NaN included |
| DataUtils.ExtractSolarRadiation | Assignment2_code/src/DataUtils.cpp:43-50 | the result is the in-order selection of solar readings that are not NaN and at least 100 |
| DataUtils.SolarSelectionExample | Assignment2_code/src/DataUtils.cpp:43-50 | readings 50, 150, NaN, 100 give 150, 100 |
| FileHandler.DateOf | Assignment2_code/src/FileHandler.cpp:186-191 | an accepted date has a valid day and month |
| FileHandler.TimeOf | Assignment2_code/src/FileHandler.cpp:200-204 | an accepted time has a valid hour and minute |
| FileHandler.ParseDate | Assignment2_code/src/FileHandler.cpp:181-192 | parseDate raises runtime_error when the last extracted separator is not '/', invalid_argument when day or month is out of range, and otherwise yields the extracted date |
| FileHandler.ParseTime | Assignment2_code/src/FileHandler.cpp:195-205 | parseTime raises runtime_error when the separator is not ':', invalid_argument when hour or minute is out of range, and otherwise yields the extracted time |
| FileHandler.PrintedDateParses | Assignment2_code/src/FileHandler.cpp:28-33 | parseDate reads back every date printDate prints |
| FileHandler.PrintedTimeParses | Assignment2_code/src/FileHandler.cpp:54-58 | parseTime reads back every time printTime prints |
| FileHandler.FirstSeparatorUnchecked | Assignment2_code/src/FileHandler.cpp:185-186 | the first separator is overwritten by the second, so any non-blank, non-digit character is accepted in its place |
| FileHandler.ScanDateFields | Assignment2_code/src/FileHandler.cpp:185-186 | two-digit day and month fields around any blank-free, non-digit first separator, then '/' and a year field, read as that day, month and year with '/' kept as the separator |
| FileHandler.MissingYearKeepsItsValue | Assignment2_code/src/FileHandler.cpp:185-190 | "dd/mm" with no year is accepted, and the year is whatever the uninitialised variable held |
| FileHandler.BuildColumnMap | Assignment2_code/src/FileHandler.cpp:129-138 | every header name is mapped and nothing else; each maps to the index of its last occurrence |
| FileHandler.NextCell | Assignment2_code/src/FileHandler.cpp:134 | while header text remains, the next getline reads the header cell at the current index |
| FileHandler.CellAt | Assignment2_code/src/FileHandler.cpp:153 | a named cell is read exactly when the name is a column and its index is in range, and otherwise raises out_of_range |
| FileHandler.ParseRecord | Assignment2_code/src/FileHandler.cpp:152-177 | an accepted row has a valid date and time, and all four columns are present and in range |
| FileHandler.EmptyCellIsMissing | Assignment2_code/src/FileHandler.cpp:163-165 | an empty reading cell becomes NaN without calling stof |
| FileHandler.WellFormedRowAccepted | Assignment2_code/src/FileHandler.cpp:152-167 | a row whose WAST cell is a printed date, a space and a printed time, and whose readings convert, is accepted as that record |
| FileHandler.PrintedDateHasNoSpace | Assignment2_code/src/FileHandler.cpp:28-33 | a printed date contains no space, so getline up to ' ' ends exactly at its end |
| FileHandler.PrintedTimeHasNoNewline | Assignment2_code/src/FileHandler.cpp:54-58 | a printed time contains no line break, so the second getline takes all of it |
| FileHandler.DateTimeParts | Assignment2_code/src/FileHandler.cpp:157-160 | the date and time parts of "date time" are the date and the time, given no space in the date and no line break in the time |
| FileHandler.ReadCell | Assignment2_code/src/FileHandler.cpp:153 | reading a cell through the vector agrees with CellAt |
| FileHandler.ReadReading | Assignment2_code/src/FileHandler.cpp:163-165 | reading a measurement through the vector agrees with the cell-level rule |
| FileHandler.SplitCells | Assignment2_code/src/FileHandler.cpp:143-148 | the fields vector holds the getline pieces of the line |
| FileHandler.BuildRecord | Assignment2_code/src/FileHandler.cpp:152-167 | the record built from the fields vector agrees with ParseRecord |
| FileHandler.ProcessCsvLine | Assignment2_code/src/FileHandler.cpp:141-178 | a rejected line changes nothing; an accepted one appends the record under its year-month key and the tree becomes exactly the insert of that key into the old tree; the tree stays ordered, the map stays ordered, tree keys equal map keys is preserved, and no bound log is ever empty |
| FileHandler.FileKey | Assignment2_code/src/FileHandler.cpp:172-174 | searching first and inserting only when absent gives exactly the tree that inserting the key outright gives |
| Menu.MonthName | Assignment2_code/src/Menu.cpp:41-47 | "Invalid" exactly outside 1..12, and otherwise that month's English name |
| Menu.MonthNamesDistinct | Assignment2_code/src/Menu.cpp:42-45 | different months have different names |
| Menu.HasData | Assignment2_code/src/Menu.cpp:32-39 | hasData is true exactly when the log is non-empty; its partner is HasDataExactlyForFiledKeys |
| Menu.HasDataExactlyForFiledKeys | Assignment2_code/src/Menu.cpp:32-39 | on an ordered map with no empty log, hasData on the log of a year and month is true exactly when that year-month key is bound |
| Menu.PairwiseDeletion | Assignment2_code/src/Menu.cpp:97-104 | each of the six vectors is the selection of its field under its pair's filter, so the two vectors of a pair have equal length and line up record by record |
| Menu.PairStep | Assignment2_code/src/Menu.cpp:100-103 | one record extends each pair by its two fields exactly when both are present, with solar at least 100 |
| Menu.PushPairIf | Assignment2_code/src/Menu.cpp:101-103 | a pair of vectors grows together or not at all |
| Menu.SolarPairsStep | Assignment2_code/src/Menu.cpp:102-103 | one record extends the wind/solar and temperature/solar pairs exactly when both fields are present and solar is at least 100 |
| Menu.NewColumns | Assignment2_code/src/Menu.cpp:98 | six fresh, empty and pairwise distinct vectors |
| Menu.PairSelectionsStep | Assignment2_code/src/Menu.cpp:99-103 | one more record extends each pairwise selection by that record's pair exactly when it passes that pair's filter |
| Menu.PairSelectionsMatch | Assignment2_code/src/Menu.cpp:99-103 | the two columns of each pair are equally long |
| Menu.MonthsWithData | Assignment2_code/src/Menu.cpp:162-169 | the months written are exactly those of the year with records, in ascending order, and "No Data" is written exactly when there are none; on a map built by appending, those are exactly the months whose year-month key is bound |

## Left out

- Statistics.h (mean, sample standard deviation, MAD, Pearson correlation) and `calculateTotalSolar`: floating-point arithmetic is not modelled.
- The text `writeMonthStats` writes is not modelled; the model keeps only which months `writeAllStats` writes.
- Console and file I/O is not modelled. This covers `readDate`/`readTime`, the prompts, `loadDataFiles`/`parseCSV`, the menu loop, the `show*` reports, the messages `hasData` prints, and `main.cpp`.
- Memory management is not modelled: destructors, `delete`, and the tree's `destroy`.
- The tree's nodes are modelled as an immutable value, not as pointers rewired in place; aliasing between nodes is not captured.
- `WeatherLog` values inside the map are held by value, not as `Vector` objects.
- `std::stof` is a parameter (`Externals.stof`), because its float parsing and rounding are not modelled. Its outcome may be a number, NaN or an exception.
- Variables the source leaves uninitialised before `>>` are parameters (`junk`). Their values are whatever the stack held.
- Vectors.Vector.PushBack: the 32-bit `int` overflow of `capacity * 2` is not modelled; capacities are unbounded.
- Vectors.Vector.Filled: requires n >= 0, because a negative n gives a negative size in the source, which is undefined behaviour later.
- DataUtils.RecordsByYearMonth: takes no tree; the source only walks the tree with an empty callback, which has no effect.
- DataUtils.RecordsByMonthStops: takes no tree, for the same reason.
- FileHandler.ProcessCsvLine: returns the new map instead of updating it through a reference.
- FileHandler.ProcessCsvLine: every exception from the `try` block is one rejection, `None`; which exception was raised is not kept.
- Menu.MonthsWithData: returns the months instead of calling `writeMonthStats` for each.
