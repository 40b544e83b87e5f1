# Sea table — a verified model

The program keeps a table of seas (name, depth in metres, salinity in parts per
thousand) in a fixed array of capacity 10 with a separate count of entries in use. The
table is filled from the keyboard or from a `name;depth;salinity` text file. The program
then sorts it by depth, deepest first, and prints a report. The report lists the seas
whose salinity is close to a target, the deepest sea, the least salty sea, the average
depth, and the seas deeper than that average.

This project models the table routines of `Seas_table_KarakulovKI24-06B.cpp` in Dafny
and proves what each one promises:

- `sea.dfy` (module `Seas`): the record, the limits (capacity 10, depth in [0, 12000],
  salinity in [0, 45], default tolerance 0.1) and the validity invariant of a record.
- `input.dfy` (module `SeaInput`): the prompt loops of `SafeInputDouble` and
  `InputSeaData`. Each prompt reads from the sequence of values the console would
  deliver.
- `queries.dfy` (module `SeaQueries`): the deepest and least salty lookups, the average,
  the salinity search and the deeper-than-average listing. These are methods over
  `array<Sea>` and a count, with loops and invariants as in the source. They are proved
  against specification predicates and functions (`IsFirstDeepest`, `MeanDepth`,
  `Select`), and the lemmas there are about those functions.
- `sort.dfy` (module `SeaSort`): the in-place sort by depth, descending.
- `file.dfy` (module `SeaFile`): the file reader. It works over the file's lines, with
  the numeric conversion passed in as a function `stod`.
- `program.dfy` (module `SeaProgram`): the report sequence of `main` after the table is
  filled.

Depth and salinity are exact `real`s. File rows are not range-checked: `ReadSeasFromFile`
stores whatever `stod` returns, so only keyboard input is (`SeaInput.InputSeaData`
ensures `ValidSea`; `SeaFile.ReadSeasFromFile` does not). The header line is always
discarded, even though the comment beside it says "if present". `SeaFile.FirstLineDiscarded`
states this.

## Model

| member | source | states |
|---|---|---|
| `SeaInput.FirstAccepted` | Seas_table_KarakulovKI24-06B.cpp:28-44 | the value the prompt loop settles on is in [lo, hi], is the first reading that is a number in range, and every earlier reading was rejected; none exists iff every reading is rejected |
| `SeaInput.SafeInputDouble` | Seas_table_KarakulovKI24-06B.cpp:26-47 | the loop returns exactly the first accepted reading, so any value it returns lies in [min_value, max_value] |
| `SeaInput.FirstNonEmpty` | Seas_table_KarakulovKI24-06B.cpp:54-57 | the name is the first non-empty line of the input (every earlier line is empty); there is none iff every line is empty |
| `SeaInput.InputSeaData` | Seas_table_KarakulovKI24-06B.cpp:50-61 | a record is produced iff a non-empty name line, an accepted depth and an accepted salinity arrive; it is made of exactly those values and satisfies the record invariant (name non-empty, depth in [0, 12000], salinity in [0, 45]) |
| `SeaQueries.FindDeepestSeaIndex` | Seas_table_KarakulovKI24-06B.cpp:71-81 | -1 for a count <= 0; otherwise an index below the count whose depth is >= every depth, with every earlier depth strictly smaller (the first maximum, from the strict `>`) |
| `SeaQueries.FindLeastSaltySeaIndex` | Seas_table_KarakulovKI24-06B.cpp:84-94 | -1 for a count <= 0; otherwise the first index whose salinity is <= every salinity (from the strict `<`) |
| `SeaQueries.FirstDeepestUnique` | Seas_table_KarakulovKI24-06B.cpp:71-81 | at most one index is "first deepest", so the deepest-sea result is fully determined by the table |
| `SeaQueries.FirstLeastSaltyUnique` | Seas_table_KarakulovKI24-06B.cpp:84-94 | at most one index is "first least salty" |
| `SeaQueries.DeepestExists` | Seas_table_KarakulovKI24-06B.cpp:72-80 | every non-empty table has a first deepest index, so the -1 sentinel is returned only for an empty table |
| `SeaQueries.CalculateAverageDepth` | Seas_table_KarakulovKI24-06B.cpp:97-105 | 0 for a count <= 0; otherwise average * count equals the sum of the depths, i.e. the arithmetic mean |
| `SeaQueries.SumDepthsBelow` | Seas_table_KarakulovKI24-06B.cpp:100-103 | if every depth is at most m, the accumulated sum is at most count * m |
| `SeaQueries.SumDepthsStrictlyBelow` | Seas_table_KarakulovKI24-06B.cpp:100-103 | if every depth is at most m and one is below m, the sum is strictly below count * m |
| `SeaQueries.SumDepthsAbove` | Seas_table_KarakulovKI24-06B.cpp:100-103 | if every depth is at least m, the sum is at least count * m |
| `SeaQueries.MeanWithinRange` | Seas_table_KarakulovKI24-06B.cpp:97-105 | the mean of a non-empty table lies within any range holding every depth (so it is in [0, 12000] for valid records) |
| `SeaQueries.SelectMultiplicity` | Seas_table_KarakulovKI24-06B.cpp:120-125 | a record occurs in the selection as often as in the table if it qualifies, and not at all otherwise |
| `SeaQueries.SelectMembership` | Seas_table_KarakulovKI24-06B.cpp:120-125 | a record is selected iff it is in the table and qualifies |
| `SeaQueries.SelectAppend` | Seas_table_KarakulovKI24-06B.cpp:120-125 | the selection keeps table order: selecting from a + b gives the selection from a followed by that from b |
| `SeaQueries.SelectEmptyIff` | Seas_table_KarakulovKI24-06B.cpp:119-129 | nothing is selected iff no record qualifies |
| `SeaQueries.CollectMatching` | Seas_table_KarakulovKI24-06B.cpp:283-288 | the printing loop outputs exactly the qualifying records of the first count entries in table order (nothing for a count <= 0), and its flag is set iff some record qualifies |
| `SeaQueries.FindSeasBySalinity` | Seas_table_KarakulovKI24-06B.cpp:115-131 | the listed records are exactly those of the table with abs(salinity - target) <= tolerance, in table order; the "not found" message is printed iff none qualifies |
| `SeaQueries.SeasDeeperThanAverage` | Seas_table_KarakulovKI24-06B.cpp:275-292 | the average is the mean depth (0 for an empty table); the listed records are exactly those strictly deeper, in table order; some record is listed iff the depths are not all equal |
| `SeaQueries.MeanOfEqualDepths` | Seas_table_KarakulovKI24-06B.cpp:97-105 | when all depths are equal, the mean is that depth |
| `SeaQueries.SomeDeeperThanMean` | Seas_table_KarakulovKI24-06B.cpp:283-288 | when the depths are not all equal, some record is strictly deeper than the mean |
| `SeaQueries.AboveAverageEmptyIff` | Seas_table_KarakulovKI24-06B.cpp:283-291 | the "none deeper than average" message is printed iff all depths are equal, so always for a single record |
| `SeaSort.SortSeasByDepth` | Seas_table_KarakulovKI24-06B.cpp:108-112 | afterwards depth never increases between adjacent entries of seas[0..count), those entries are a permutation of the original ones, and entries from count on are unchanged |
| `SeaSort.SortedByDepthPairwise` | Seas_table_KarakulovKI24-06B.cpp:109-111 | the adjacent-pairs order implies depth[i] >= depth[j] for all i <= j |
| `SeaSort.DeepestFirstAfterSort` | Seas_table_KarakulovKI24-06B.cpp:242-260 | on the sorted table, index 0 is the first deepest, so the deepest-sea lookup in the report returns 0 |
| `SeaSort.SumDepthsPermutation` | Seas_table_KarakulovKI24-06B.cpp:242-275 | tables with the same records have the same depth sum, so sorting before the statistics does not change the average |
| `SeaSort.SumDepthsRemove` | Seas_table_KarakulovKI24-06B.cpp:100-103 | removing one record takes exactly its depth off the sum |
| `SeaFile.FindFrom` | Seas_table_KarakulovKI24-06B.cpp:151-152 | `find(';', from)`: the result is the first position at or after `from` holding the character; none iff no such position exists |
| `SeaFile.SplitLine` | Seas_table_KarakulovKI24-06B.cpp:151-157 | a line is split iff it has two `;`; then it is exactly name + ";" + depth text + ";" + salinity text with the name and depth text free of `;` (they are line[0..pos1) and line(pos1..pos2), and the salinity text is line(pos2+1..)) |
| `SeaFile.SplitJoin` | Seas_table_KarakulovKI24-06B.cpp:151-157 | a line laid out as name;depth;salinity, with no `;` in the first two fields, is split back into exactly those fields |
| `SeaFile.ReadRecords` | Seas_table_KarakulovKI24-06B.cpp:147 | the reading loop never takes more records than it has room for |
| `SeaFile.ReadRecordsIsPrefix` | Seas_table_KarakulovKI24-06B.cpp:147-162 | the reader keeps the first `room` records of the file in file order and skips only lines that do not split (empty lines included) |
| `SeaFile.AllRecordsFromLines` | Seas_table_KarakulovKI24-06B.cpp:148-160 | every loaded record is the split of some line of the file |
| `SeaFile.AllRecordsOfJoined` | Seas_table_KarakulovKI24-06B.cpp:147-162 | lines written as name;depth;salinity are read back as exactly those records |
| `SeaFile.FirstLineDiscarded` | Seas_table_KarakulovKI24-06B.cpp:144-145 | what is loaded does not depend on the first line, whatever it holds |
| `SeaFile.ReadFromIsReadRecords` | Seas_table_KarakulovKI24-06B.cpp:147-162 | the loop, read from line i on with room for `room` more records, loads exactly the records the reading of lines[i..] yields |
| `SeaFile.ReadLine` | Seas_table_KarakulovKI24-06B.cpp:148-161 | one pass of the loop body: a line that splits is stored at seas[count] as the next expected record and the count goes up by one; any other line leaves the array and the count unchanged |
| `SeaFile.ReadSeasFromFile` | Seas_table_KarakulovKI24-06B.cpp:134-166 | returns at most 10; seas[0..count) holds the converted records of the lines after the first, in file order; the rest of the array is unchanged |
| `SeaFile.RoundTripWithinCapacity` | Seas_table_KarakulovKI24-06B.cpp:141-165 | a header line followed by at most 10 record lines in the file layout is loaded as exactly those records |
| `SeaProgram.Report` | Seas_table_KarakulovKI24-06B.cpp:238-292 | after the report the table is sorted and a permutation of the original, with the rest of the array unchanged; the salinity search lists exactly the records of the sorted table within the default tolerance, in table order, and these are the qualifying original records; the deepest index is 0 (or -1 for an empty table); the least salty index is the first least salty of the sorted table; the average is the mean of the original table; the deeper-than-average list is exactly the records of the sorted table strictly deeper than that average, in table order, and it is empty for a single record |

## Left out

- Console and file I/O: prompts, messages, the `cin.fail()`/`clear`/`ignore` mechanics, and opening and closing the file. A prompt reads from a given sequence of readings or lines; a file is its sequence of lines. The open-failure path ("return 0") is not modelled separately: it behaves like an empty file.
- SeaInput.SafeInputDouble: when the input runs out before a value is accepted, the model returns None. The program would keep prompting. Each prompt has its own input sequence; how one stream is shared between prompts is not modelled.
- `PrintSeaData`, `PrintAllSeas` and the printing inside `FindSeasBySalinity` and `main`: these only format output. The model returns the records that would be printed, and the "found" flag.
- The menu of `main`, the keyboard count check (1..10) and the exit codes: top-level control flow. `SeaProgram.Report` starts from a filled table.
- Code-page and locale setup (`SetConsoleCP`, `SetConsoleOutputCP`, `setlocale`): foreign calls.
- `std::stod`: it is a parameter of the reader, and its exception on malformed text is not modelled (the source does not handle it).
- Floating point: depth, salinity, the mean and `std::abs(...) <= tolerance` use exact reals. IEEE rounding, NaN and infinities are not modelled. Two consequences show in the program's output and not in the model. First, depths 0.7, 0.7, 0.7 have a double mean of 0.6999999999999998, so the program lists all three seas as deeper than average, while `SeaQueries.AboveAverageEmptyIff` says none are listed. Second, |35.1 - 35.0| is 0.10000000000000142 in doubles, which exceeds 0.1, so the program does not find salinity 35.1 for target 35 with the default tolerance, while the model does.
- SeaSort.SortSeasByDepth: the body is an insertion sort, not `std::sort`. Only sortedness and permutation are stated, so the order among seas of equal depth is left open, as it is for `std::sort`.
- Writing a table to a file and deleting a record by name: they are not part of this model. The reading side of the file layout is covered by `SeaFile.AllRecordsOfJoined`, over text fields.
- `int` overflow of the count is not modelled: the count is at most 10.
