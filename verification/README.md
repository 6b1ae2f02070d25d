# The hard algorithms of the SQLCipher engine, modelled and proved

The repository carries the C sources of SQLCipher 4.10.0, a build of SQLite. This project models eight pieces of
them and proves what they are for. Every algorithm that works in place is a class or an array method here, with the
branches and constants of the C code, proved against a specification on values; the specification's own properties
are lemmas.

| files | source | subject |
|---|---|---|
| `IndexRows`, `StatSpec`, `StatOrder`, `StatInvariant`, `StatTheorems`, `StatRoom`, `StatChoice`, `StatCounts`, `StatAccum` | `analyze.c` | the counters of ANALYZE and its one-pass STAT4 sampler |
| `Calendar`, `DateTime`, `DateText` | `date.c` | Julian day arithmetic, month arithmetic, `timediff` and its text, ISO weeks |
| `BtreeMutex` | `btmutex.c` | the lock protocol of shared caches |
| `Backup` | `backup.c` | the resumable online backup |
| `Bitvec` | `bitvec.c` | page sets as bitmap, hash table or tree |
| `HashTable` | `hash.c` | the hash table over one linked list |
| `RenameEdit` | `alter.c` | the in-place editor of SQL text |
| `ColumnLayout`, `WithoutRowid` | `build.c` | column storage order, and the indexes of WITHOUT ROWID tables |

`dafny verify dfyconfig.toml` checks the whole project.

## How the model reads the source

- **Sampler.** A row is a sequence of column values; the code sees only the leftmost changed column and the rowid.
  `Exact` says that a sample has the counts of the whole index. `IndexRows` defines those counts by counting all
  rows. The buffers of the C structures are indices into one array `mem`, so that a copy to a wrong or shared buffer
  would show. The counters and the stat1 list are treated for every number of samples, estimate and limit
  (`StatCounts`); with a limit, the rows are those that the scan visits. The theorems about samples need `HasRoom`:
  fewer rows are periodic than samples can be kept. `RoomIsExact` shows that a scan of any rows meets the assertion
  on `iMin` (`analyze.c:636`) exactly then, `TooSmallAnEstimate` is an input at which it fails, and
  `EstimateLeavesRoom` says that an estimate which is not exceeded is enough. ANALYZE never passes a smaller one: with
  STAT4, `OP_Count` has P3 = 0 and counts exactly (`analyze.c:1154-1155`, `vdbe.c:3747-3752`). `StatChoice` says which
  rows are kept: none of a smaller group while a larger one is left out.
- **Dates.** Instants are whole milliseconds; seconds and the number of a modifier "NNN months" are real numbers.
  The quotients by 365.25, 36524.25 and 30.6001 are exact rationals. `DateTime` works on the fields of a difference,
  `DateText` on its text, which is read character by character. The comment at `date.c:93-101` knows numbers of two
  and four digits and years up to 9999; the code also reads five digits, up to 14712. The check at `date.c:959` that
  a number comes before the colon of a time of day is left to the reading of the time of day, which refuses such
  texts too. The theorems start from an instant `iJD` in range, as a parsed hour of 24 leaves fields that are not
  normalised.
- **Locks.** One connection is one thread. A step is one call on a mutex or one test in the enter routine; a try may
  also fail on a free mutex, as `sqlite3_mutex_try()` may; and any connection may enter and leave its Btrees in any
  order. The comment at `btmutex.c:181` says that entering all Btrees goes in ascending address order; the code goes
  by database number. The proofs need no order of entering.
- **Backup.** A database is its bytes. What the pagers and Btrees answer is a parameter of each call. The byte that
  locks live on is at any multiple of the largest page size. `Settled` says that no page and no closing operation
  answers BUSY or LOCKED once both files are locked; the update routine asserts this. It is needed: `iNext` is
  advanced after a failed page too. `BusyReadLosesPage` is a run of the model, with an answer that `Settled`
  excludes, in which such a page is lost; the contract of `CopyPage` says exactly when a failed page is lost, by
  what the destination had before. An empty source becomes a new database of one page; where the destination's pages
  are larger, its file is then cut to the size of one source page (`Finished`).
- **Bitvec.** The sizes are those of a 64-bit build. The comments at `bitvec.c:96-104` give 125 and 34,359,739 as
  bounds; the code gives 123 set slots and a divisor of at most 69,273,667. The three arrays of the union are
  sequence fields of the node, of which one is in use.
- **Hash.** Pointers to data are numbers, 0 is the null pointer. The number of buckets after a resize is whatever
  the allocated block holds.
- **SQL editor.** Tokens are offsets and lengths; they are not empty, and do not overlap. The comment at
  `alter.c:1034-1036` says that tokens come in the order of the text; the code takes the last one first, and so does
  the model.
- **Indexes.** A term is a column with the name of its collating sequence and its sort order. The tables of
  `ColumnLayout` are sequences of flags that say which columns are virtual.

## Model

| member | source | states |
|---|---|---|
| `IndexRows.Contiguous` | sqlcipher-4.10.0/src/analyze.c:643-649 | Rows of a sorted index that agree in their first columns are neighbours, which is why a scan can count a group when it ends. |
| `IndexRows.CountsNew` | sqlcipher-4.10.0/src/analyze.c:736-742 | A row that first differs in column c starts new groups in every longer prefix: equal count 1, less-than count the number of rows before. |
| `IndexRows.CountsKeep` | sqlcipher-4.10.0/src/analyze.c:732-734 | A later row changes no less-than count of an earlier row, and its equal counts only while the group is open. |
| `IndexRows.PrefixesNew` | sqlcipher-4.10.0/src/analyze.c:737 | A new prefix has exactly one distinct predecessor more than the previous one. |
| `IndexRows.PrefixesGrow` | sqlcipher-4.10.0/src/analyze.c:870-873 | Longer prefixes have no fewer distinct values, and no more than there are rows. |
| `StatSpec.EvictKeepsPeriodic` | sqlcipher-4.10.0/src/analyze.c:598-612 | Evicting sample iMin never removes a periodic sample. |
| `StatSpec.InsertWellFormed` | sqlcipher-4.10.0/src/analyze.c:558-640 | An insertion keeps the array within mxSample, and iMin a non-periodic sample once it is full. |
| `StatOrder.BetterOrder` | sqlcipher-4.10.0/src/analyze.c:511-552 | The preference between samples is asymmetric, and a sample is comparable with one of any two that are. |
| `StatOrder.BetterTrans` | sqlcipher-4.10.0/src/analyze.c:511-552 | The preference is transitive. |
| `StatOrder.BetterMeans` | sqlcipher-4.10.0/src/analyze.c:511-552 | What is preferred: more rows; for as many rows, fewer columns; and then the first difference in the counts of more columns, or the hash. |
| `StatOrder.FindMinIsLeast` | sqlcipher-4.10.0/src/analyze.c:629-639 | The scan for iMin finds a sample than which no non-periodic sample is less preferred. |
| `StatOrder.ScanFinds` | sqlcipher-4.10.0/src/analyze.c:580-590 | The scan for a shared prefix finds a periodic sample of the group if there is one, and otherwise a most preferred sample of it. |
| `StatInvariant.UpgradeComplete` | sqlcipher-4.10.0/src/analyze.c:591-595 | The sample that is upgraded has all its counts of longer prefixes already, so that writing one count leaves none unknown. |
| `StatInvariant.GroupEnds` | sqlcipher-4.10.0/src/analyze.c:655-661 | Pushing the candidate of a group that ends keeps the whole sampler invariant, whether it is inserted, merged or passed over. |
| `StatChoice.InsertDoes` | sqlcipher-4.10.0/src/analyze.c:558-640 | What an insertion makes of the array: the new sample is passed over when a periodic one waits in its group, upgrades a most preferred one of those that wait, comes to the end while there is room, and otherwise to the end in the place of a least preferred sample that is not periodic. |
| `StatChoice.CandidatePushed` | sqlcipher-4.10.0/src/analyze.c:650-661 | The candidate of a group that ends is inserted if and only if there is room or it is better than some sample that is not periodic. |
| `StatChoice.CandidatesLargest` | sqlcipher-4.10.0/src/analyze.c:766-772 | At every row of any scan, each candidate stands for a largest group of one more column in its open group. |
| `StatChoice.LargestGroupsKept` | sqlcipher-4.10.0/src/analyze.c:401-681 | At the end of any scan of any number of columns, no group of rows is left out for a smaller one: each has a sample in it, or else the array is full and it has no more rows than any group for which a sample that is not periodic was kept. |
| `StatTheorems.GroupsEnd` | sqlcipher-4.10.0/src/analyze.c:650-661 | All groups that end with a row are closed correctly, and no periodic sample is lost. |
| `StatTheorems.FillExact` | sqlcipher-4.10.0/src/analyze.c:671-679 | Filling in the unknown counts gives each sample the count of rows of its group. |
| `StatTheorems.PeriodicBelowCount` | sqlcipher-4.10.0/src/analyze.c:757-764 | Every row at which the row number steps over a multiple of the interval is a periodic row, and they are that many. |
| `StatTheorems.PeriodicShare` | sqlcipher-4.10.0/src/analyze.c:460 | While there are no more rows than estimated, periodic samples take at most a third of the array. |
| `StatTheorems.PeriodicThird` | sqlcipher-4.10.0/src/analyze.c:460 | Once (m/3+1)*(m/3) rows are estimated for m samples, a scan of as many rows as estimated has exactly m/3 periodic rows. |
| `StatTheorems.RowPushed` | sqlcipher-4.10.0/src/analyze.c:702-779 | Each row keeps the invariant of the whole scan, and the retained periodic rows are exactly those that were due. |
| `StatRoom.RoomIsExact` | sqlcipher-4.10.0/src/analyze.c:610-636 | The exact condition of the assertion on iMin, for all scans: it holds at every row if and only if fewer rows are periodic than samples can be kept, which follows from the number of rows, the estimate and mxSample alone; and then the scan is the one of the theorems about samples. |
| `StatRoom.TooSmallAnEstimate` | sqlcipher-4.10.0/src/analyze.c:636 | An input at which the assertion fails: 24 rows, the number of samples of the source, with an estimate of 8. |
| `StatRoom.DueNeedsRoom` | sqlcipher-4.10.0/src/analyze.c:757-764 | When a row that is due arrives, a full array has a sample to evict afterwards exactly when there is room for one row more. |
| `StatTheorems.EstimateLeavesRoom` | sqlcipher-4.10.0/src/analyze.c:460 | An estimate that is not exceeded leaves that room, for every number of samples. |
| `StatTheorems.RunningSamples` | sqlcipher-4.10.0/src/analyze.c:558-640 | At every row of the scan the current row is exact, the samples are strictly increasing and at most mxSample, and iMin is a least preferred non-periodic one when the array is full. |
| `StatCounts.RunningCounts` | sqlcipher-4.10.0/src/analyze.c:718-745 | After any sorted rows, for every number of samples (also none), every estimate and every limit, the equal and distinct-less-than counts of the current row are exact for every prefix, and so are the less-than counts where samples are kept. |
| `StatCounts.SamplerCounts` | sqlcipher-4.10.0/src/analyze.c:718-745 | The sampler runs on the same counters. |
| `StatCounts.SkipsAfterLimit` | sqlcipher-4.10.0/src/analyze.c:774-777 | The scan gets an answer exactly when no samples are kept and more rows were visited than a positive limit; the number of skips is then the number of whole limits before the last row. |
| `StatTheorems.SamplesExact` | sqlcipher-4.10.0/src/analyze.c:558-681 | After the last row and the closing push, every retained sample has the counts that a two-pass count of the whole index gives, for every prefix; there are at most mxSample, in index order, and no periodic row is lost. |
| `StatCounts.Stat1Falls` | sqlcipher-4.10.0/src/analyze.c:867-878 | For every number of samples, estimate and limit: every number of the stat1 list after the first is the rows visited by the exact number of distinct prefixes, rounded up, but 1 where the quotient is at most 1.1; these never increase, never fall below 1 and never exceed the rows visited; the first is the number of rows, or the estimate after skipping, and only then, exactly if the estimate is below the second number, is it not the largest. |
| `StatCounts.EstimateIs` | sqlcipher-4.10.0/src/analyze.c:870-873 | The integer arithmetic gives the quotient rounded up, but 1 up to 1.1, and nothing else does. |
| `StatCounts.RowCounter.StatPush` | sqlcipher-4.10.0/src/analyze.c:702-777 | The loops over two arrays advance the counters as specified. The answer, if there is one, is whether the first column has changed since the first row: true ends the scan, false has it seek past the rows with the present value of that column. |
| `StatCounts.RowCounter.StatGet` | sqlcipher-4.10.0/src/analyze.c:867-878 | The loop gives the list of the specification. |
| `StatCounts.AnalyzeCounts` | sqlcipher-4.10.0/src/analyze.c:401-878 | A whole ANALYZE without samples, which sees only the first changed column of each row: the list is exact for the rows visited and never increases. |
| `StatAccumulator.SampleIsBetterPost` | sqlcipher-4.10.0/src/analyze.c:511-525 | The loop over the counts decides as the lexicographic order with the hash as tie-break. |
| `StatAccumulator.SampleIsBetter` | sqlcipher-4.10.0/src/analyze.c:535-552 | The comparison by count, then column, then the later columns. |
| `StatAccumulator.StatAccum.constructor` | sqlcipher-4.10.0/src/analyze.c:452-479 | One allocation is cut into buffers that no two sample structures share. |
| `StatAccumulator.StatAccum.SampleCopy` | sqlcipher-4.10.0/src/analyze.c:348-364 | A copy goes into the buffers of the target and changes no other structure. |
| `StatAccumulator.StatAccum.FindSharing` | sqlcipher-4.10.0/src/analyze.c:580-590 | The downward loop over the samples finds what its specification finds. |
| `StatAccumulator.StatAccum.FindNewMin` | sqlcipher-4.10.0/src/analyze.c:628-639 | The loop over all samples sets iMin to the specified one. |
| `StatAccumulator.StatAccum.EvictMin` | sqlcipher-4.10.0/src/analyze.c:599-612 | The memmove shifts the structures and gives the freed one the buffers of the removed one, so that buffers stay unshared. |
| `StatAccumulator.StatAccum.AppendSample` | sqlcipher-4.10.0/src/analyze.c:620-626 | The new sample is stored at the end with its first counts zeroed. |
| `StatAccumulator.StatAccum.UpgradeSample` | sqlcipher-4.10.0/src/analyze.c:591-595 | The sample takes the smaller column and its count. |
| `StatAccumulator.StatAccum.SampleInsert` | sqlcipher-4.10.0/src/analyze.c:558-640 | The in-place insertion refines the insertion on values, of which InsertDoes says what it keeps. |
| `StatAccumulator.StatAccum.SamplePushPrevious` | sqlcipher-4.10.0/src/analyze.c:650-680 | The in-place closing of groups and filling of counts refines the one on values. |
| `StatAccumulator.StatAccum.AdvanceCounts` | sqlcipher-4.10.0/src/analyze.c:718-743 | The counters of the current row are advanced in place. |
| `StatAccumulator.StatAccum.KeepIfPeriodic` | sqlcipher-4.10.0/src/analyze.c:757-764 | A row that is due becomes a periodic sample, through a flag that is reset. |
| `StatAccumulator.StatAccum.UpdateBests` | sqlcipher-4.10.0/src/analyze.c:766-772 | The candidate of each level is replaced where the row changes the level or is better. |
| `StatAccumulator.StatAccum.StatPush` | sqlcipher-4.10.0/src/analyze.c:702-779 | One row in place is one row of the specification. |
| `StatAccumulator.StatAccum.StatGetRowid` | sqlcipher-4.10.0/src/analyze.c:882-895 | The first call closes all open groups; then the samples come in order. |
| `StatAccumulator.StatAccum.StatGetCounts` | sqlcipher-4.10.0/src/analyze.c:896-917 | The counts of the sample, after which the next one is due. |
| `StatAccumulator.StatAccum.StatGetStat1` | sqlcipher-4.10.0/src/analyze.c:867-878 | The list from the counters of the sampler. |
| `StatAccumulator.Analyze` | sqlcipher-4.10.0/src/analyze.c:401-922 | A whole ANALYZE with samples, which sees only the first changed column and the rowid of each row: the stat1 list is exact; what is stored are the samples that the sampler retains, in index order and exact for the whole index; every row that was due as a periodic sample is among them; and a group of rows without a stored sample, of which there are any only when the array is full, has no more rows than the first value of any stored row that was not due. |
| `Calendar.SuccessorDayNo` | sqlcipher-4.10.0/src/date.c:271-279 | The calendar successor of a legal date has the next day number. |
| `Calendar.DateOfDayNo` | sqlcipher-4.10.0/src/date.c:461-485 | computeYMD undoes computeJD on every legal date in range. |
| `Calendar.DateOfIsCalendar` | sqlcipher-4.10.0/src/date.c:256-294 | On every day number 0..5373484, computeYMD gives a legal date, computeJD maps it back, and the next day number gives the calendar successor. |
| `Calendar.MonthDayStep` | sqlcipher-4.10.0/src/date.c:271-279 | The first of the next month is as many days later as the month is long. |
| `Calendar.DayOfYear` | sqlcipher-4.10.0/src/date.c:1329-1339 | The day of the year lies in 0..365. |
| `Calendar.IsoWeekRange` | sqlcipher-4.10.0/src/date.c:1530-1538 | %V is in 1..53 and %G in range for every week whose Thursday is. |
| `Calendar.IsoWeekIs` | sqlcipher-4.10.0/src/date.c:1530-1538 | %V is V exactly where the Thursday of the week is the V-th Thursday of year %G. |
| `Calendar.WeekOne` | sqlcipher-4.10.0/src/date.c:1443-1457 | Week 1 is the week of the fourth of January. |
| `Calendar.NextWeek` | sqlcipher-4.10.0/src/date.c:1443-1457 | The next week has the next number, or is the first of the next year. |
| `Calendar.IsoWeekIdentifies` | sqlcipher-4.10.0/src/date.c:1443-1457 | Two days have the same %G and %V exactly when they lie in the same Monday-to-Sunday week (section 4.1.4 of ISO 8601:2004). |
| `DateTimes.CivilDate` | sqlcipher-4.10.0/src/date.c:473-482 | The arithmetic of computeYMD, with its mask and truncating quotients, gives a legal date in range whose day number is the one that it started from. |
| `DateTimes.MsIsNearest` | sqlcipher-4.10.0/src/date.c:284 | Fractions of a second are rounded to the nearest millisecond. |
| `DateTimes.UnixEpoch` | sqlcipher-4.10.0/src/date.c:24 | 1970-01-01 00:00:00 is Julian day 2440587.5. |
| `DateTimes.DateTime.ComputeJD` | sqlcipher-4.10.0/src/date.c:256-294 | The instant of the fields, with fractional seconds, the error state for years out of range or a raw number, and the time zone that invalidates the fields and marks the instant as UTC. |
| `DateTimes.DateTime.ComputeFloor` | sqlcipher-4.10.0/src/date.c:302-317 | nFloor is the number of days by which the day exceeds the month, by the bit mask and the leap rule. |
| `DateTimes.DateTime.ComputeYMD` | sqlcipher-4.10.0/src/date.c:461-485 | The date of the instant, the default date, or the error state. |
| `DateTimes.DateTime.ComputeHMS` | sqlcipher-4.10.0/src/date.c:490-501 | The time of day of the instant. |
| `DateTimes.DateTime.ComputeYMD_HMS` | sqlcipher-4.10.0/src/date.c:506-509 | For an instant in range, all fields describe that instant. |
| `DateTimes.DateTime.NormaliseMonth` | sqlcipher-4.10.0/src/date.c:986-988 | The month comes back to 1..12, and 12*Y+M stays. |
| `DateTimes.FractionRounds` | sqlcipher-4.10.0/src/date.c:1040-1074 | The fraction of a number of months or years adds its share of 30 or 365 days, rounded to the nearest millisecond, with the sign of the number, and nothing for a whole number. |
| `DateTimes.UnitsAreDays` | sqlcipher-4.10.0/src/date.c:670-676 | A month counts as 30 days and a year as 365. |
| `DateTimes.DateTime.AddMonths` | sqlcipher-4.10.0/src/date.c:1048-1058 | Adding any number of months, refused exactly from 176546 on: the whole part moves to that month with the overflow noted, or to the error state outside years -4713..9999, and the fraction is added as time. |
| `DateTimes.DateTime.AddYears` | sqlcipher-4.10.0/src/date.c:1059-1069 | Adding any number of years, refused exactly from 14713 on: the whole part n is 12n months, and the fraction is added as time. |
| `DateTimes.DateTime.FloorDay` | sqlcipher-4.10.0/src/date.c:766-779 | The modifier takes the noted overflow off; an error stays an error. |
| `DateTimes.DateTime.AddDate` | sqlcipher-4.10.0/src/date.c:965-1001 | The modifier (+|-)YYYY-MM-DD alone is refused exactly outside its digit ranges, and otherwise moves by months first, with the overflow noted, and then by days. |
| `DateTimes.DateTime.AddTime` | sqlcipher-4.10.0/src/date.c:1007-1029 | The modifier (+|-)HH:MM:SS.SSS adds a time of day that was read, less its time zone and without whole days, so that an hour of 24 counts as 0. |
| `DateTimes.ZoneIsAhead` | sqlcipher-4.10.0/src/date.c:256-294 | A time of day in a zone that is hours and minutes ahead is that much earlier. |
| `DateTimes.DateTime.AddDiff` | sqlcipher-4.10.0/src/date.c:951-1030 | Both together, by fields: months first, then days and time; a bad time of day fails after months and days were added. |
| `DateTimes.TimeDiffForward` | sqlcipher-4.10.0/src/date.c:1622-1655 | The forward branch terminates and gives a difference that leads to A. |
| `DateTimes.TimeDiffBackward` | sqlcipher-4.10.0/src/date.c:1656-1690 | The backward branch terminates and gives a difference that leads to A. |
| `DateTimes.TimeDiff` | sqlcipher-4.10.0/src/date.c:1608-1697 | timediff(A,B): M in 0..11, days in 0..30, a time of day, and the first month towards A that does not overshoot. |
| `DateTimes.DiffLeadsBack` | sqlcipher-4.10.0/src/date.c:1600-1604 | Every such difference is accepted as a modifier and leads from B to A exactly. |
| `DateTimes.DiffUnique` | sqlcipher-4.10.0/src/date.c:1608-1697 | There is only one such difference. |
| `DateTimes.AddTimeDiff` | sqlcipher-4.10.0/src/date.c:1600-1697 | datetime(A) == datetime(B, timediff(A,B)) for all A and B in range, through the methods themselves. |
| `DateText.GetDigits` | sqlcipher-4.10.0/src/date.c:112-148 | The loops over a format find exactly the leading integers that have their digits, limits and separators. |
| `DateText.ParseTimezone` | sqlcipher-4.10.0/src/date.c:166-194 | Spaces, then Z or a signed HH:MM or nothing, then spaces up to the end; the minutes are less than 15 hours. |
| `DateText.ParseFraction` | sqlcipher-4.10.0/src/date.c:217-227 | The loop over the digits gives their fraction, cut off at 0.999. |
| `DateText.ParseHhMmSs` | sqlcipher-4.10.0/src/date.c:203-239 | A text is refused or gives hours, minutes, seconds with a fraction and a time zone, all in range. |
| `DateText.FindStop` | sqlcipher-4.10.0/src/date.c:949-956 | The scan for the end of the number stops at the first colon or space, at the minus sign behind a year of four or five digits, or at the end. |
| `DateText.Modify` | sqlcipher-4.10.0/src/date.c:945-1030 | The whole branch of the modifiers that start with a sign or a digit, from the text: refused without effect, a time of day, days, or both, where a bad time of day fails after the days were added; other texts are left to the numbers of units. |
| `DateText.DiffReads` | sqlcipher-4.10.0/src/date.c:1694-1695 | The text that timediff() writes is read as the difference that it wrote, for every difference and for years of four and five digits. |
| `DateText.ZoneReads` | sqlcipher-4.10.0/src/date.c:166-194 | Z, z, a signed HH:MM up to 14:59 or nothing is read as the zone that it writes. |
| `DateText.ClockTextReads` | sqlcipher-4.10.0/src/date.c:203-239 | HH:MM, HH:MM:SS or HH:MM:SS.FFF, with any zone, is read as the time of day that it writes. |
| `DateText.TimeModifier` | sqlcipher-4.10.0/src/date.c:1007-1029 | A time of day alone, with or without a sign, is a modifier that adds or subtracts it. |
| `DateText.DateModifier` | sqlcipher-4.10.0/src/date.c:965-1001 | A signed date alone is a modifier that moves by its years, months and days. |
| `DateText.AddTimeDiffText` | sqlcipher-4.10.0/src/date.c:1600-1697 | datetime(A) == datetime(B, timediff(A,B)) for all A and B in range, through the text of the difference. |
| `DateTimes.FloorLands` | sqlcipher-4.10.0/src/date.c:302-317 | Moving to a month and taking the overflow off lands in that month on the same day or its last one. |
| `DateTimes.AddMonthsFloor` | sqlcipher-4.10.0/src/date.c:1048-1074 | datetime(x, n months, floor), for every whole number: refused exactly outside the limits, and otherwise lands in the n-th next month on day min(D, days in month), or in the error state. |
| `DateTimes.MovedRunsOver` | sqlcipher-4.10.0/src/date.c:1048-1074 | Without that modifier, a day that the month does not have runs over into the next month by as many days. |
| `DateTimes.DaysAfterMonday` | sqlcipher-4.10.0/src/date.c:1349-1352 | The n in 0..6 for which the day n days earlier is a whole number of weeks after day 0, which is a Monday. |
| `DateTimes.DaysAfterJan01` | sqlcipher-4.10.0/src/date.c:1329-1339 | The zero-based day of the year. |
| `DateTimes.ThursdayInRange` | sqlcipher-4.10.0/src/date.c:1530-1538 | Day 0 is a Monday and the last day a Friday, so that the Thursday of the week of every instant in range is in range. |
| `DateTimes.WeekOf` | sqlcipher-4.10.0/src/date.c:1530-1538 | For every instant in range, the week is that of the %V-th Thursday of year %G, as the strftime code computes both. |
| `BtreeMutex.StepInv` | sqlcipher-4.10.0/src/btmutex.c:71-153 | Every step of every connection keeps ownership and lock order; a try may fail on a free mutex too. |
| `BtreeMutex.RunInv` | sqlcipher-4.10.0/src/btmutex.c:71-153 | So does every interleaving of every number of connections. |
| `BtreeMutex.WaitsAboveHeld` | sqlcipher-4.10.0/src/btmutex.c:118-136 | A connection that is about to block holds only mutexes of smaller address. |
| `BtreeMutex.LargestWait` | sqlcipher-4.10.0/src/btmutex.c:63-69 | Among connections that wait, one waits for the largest address. |
| `BtreeMutex.NoDeadlock` | sqlcipher-4.10.0/src/btmutex.c:63-137 | In no reachable state does a set of connections block each other. |
| `BtreeMutex.Progress` | sqlcipher-4.10.0/src/btmutex.c:105-137 | While a connection is inside the enter routine, some connection can take a step. |
| `BtreeMutex.OutsideHoldsWanted` | sqlcipher-4.10.0/src/btmutex.c:71-152 | Outside the enter routine, a connection holds the mutex of a Btree exactly when it has entered it more often than left it, and no other connection holds it then: the lock is recursive. |
| `BtreeMutex.WantCounts` | sqlcipher-4.10.0/src/btmutex.c:93-152 | In every run, wantToLock is the number of enters less the number of leaves so far. |
| `BtreeMutex.EntersAtOnce` | sqlcipher-4.10.0/src/btmutex.c:105-110 | Entering a Btree whose mutex is free takes it at once and lets go of no other. |
| `BtreeMutex.EnterGoesOn` | sqlcipher-4.10.0/src/btmutex.c:27-53 | Every unblocked step, and every failed try, brings the call nearer to its end, and the assertions at locking and unlocking hold. |
| `Backup.ChunkInPage` | sqlcipher-4.10.0/src/backup.c:306-324 | A piece of the smaller page size lies in one page of the larger. |
| `Backup.ChunkPlace` | sqlcipher-4.10.0/src/backup.c:308-309 | A piece lies in the destination page of the pending byte or wholly outside it. |
| `Backup.Backup.CopyChunk` | sqlcipher-4.10.0/src/backup.c:306-331 | One turn of the copy loop: the page of the pending byte is skipped, the rest is copied, page 1 gets the size field. |
| `Backup.Backup.BackupOnePage` | sqlcipher-4.10.0/src/backup.c:249-335 | One source page is copied to the destination pages it lies on, for all pairs of page sizes, and nothing else changes; the size field of page 1 is the page count of the source, or in an update what the source has there. When a destination page fails, all before it is copied and nothing behind is written. |
| `Backup.Backup.CopyPage` | sqlcipher-4.10.0/src/backup.c:446-455 | A page counts as passed even when it failed. Whether the read or a destination page failed, the part before that place is current, nothing behind it changed, and the part that counts as copied is current if and only if the destination had the rest of the page already before the call. |
| `Backup.StoppedPage` | sqlcipher-4.10.0/src/backup.c:306-335 | The same for the bytes: a copy that stops inside a page loses the page exactly when the destination did not have the rest of it before. |
| `Backup.BusyReadLosesPage` | sqlcipher-4.10.0/src/backup.c:449-455 | A run of the model in which a read answers BUSY: the page is lost, no fatal code is stored and the backup goes on. |
| `Backup.Backup.CopyPages` | sqlcipher-4.10.0/src/backup.c:445-456 | The loop passes the wanted number of pages or all that are left, each of them current. |
| `Backup.Backup.Prepare` | sqlcipher-4.10.0/src/backup.c:392-438 | Write transaction of the source, locks, page size, and the refusal of different sizes for WAL and memory files: each with its answer, in this order, and OK exactly when none of them applies. |
| `Backup.Backup.Advance` | sqlcipher-4.10.0/src/backup.c:443-465 | The counts of pages left, and DONE exactly past the last page. |
| `Backup.TruncateRounds` | sqlcipher-4.10.0/src/backup.c:504-537 | The number of pages kept covers the source or stops before the page of the pending byte, as the assertion says. |
| `Backup.TruncateExact` | sqlcipher-4.10.0/src/backup.c:511 | For pages of the same size or smaller ones, the pages kept are exactly the source. |
| `Backup.Backup.JournalTail` | sqlcipher-4.10.0/src/backup.c:545-555 | Every page from the last kept one on, apart from that of the pending byte, is journalled. |
| `Backup.Backup.WriteRest` | sqlcipher-4.10.0/src/backup.c:560-575 | The source pages behind the pending byte that share its destination page are written directly, and nothing else changes. |
| `Backup.Backup.ShrinkFile` | sqlcipher-4.10.0/src/backup.c:515-583 | The file is the source; every byte that changed was journalled, lies in the page of the pending byte, or is a header field; otherwise a failure of a layer below is the answer. |
| `Backup.Backup.CutToSource` | sqlcipher-4.10.0/src/backup.c:560-583 | Behind the journal: the rest of the page of the pending byte is written, the file is cut to the size of the source and synced, or a failure of a layer below is the answer. |
| `Backup.Backup.CommitLarger` | sqlcipher-4.10.0/src/backup.c:584-587 | The file is the source, by truncating the image of whole pages. |
| `Backup.Backup.Finish` | sqlcipher-4.10.0/src/backup.c:472-596 | DONE, after every operation that it takes has succeeded, and then with a finished file; or the failure of a layer below, never OK. |
| `Backup.Backup.Step` | sqlcipher-4.10.0/src/backup.c:369-617 | A step keeps every page below iNext current; DONE means that the destination is the source outside the pending-byte page and the header fields of a commit; fatal codes are absorbing. The answer, from the layers and the pages left: BUSY in a write transaction, NOMEM for the page size, READONLY for different page sizes in WAL or memory, or the failure to lock; DONE when all pages left were asked for and OK otherwise; or a failure of a layer below. With all locks, equal sizes where they are needed and no failure it is DONE or OK. The counts of pages left are exact. |
| `Backup.Put4Is` | sqlcipher-4.10.0/src/backup.c:326-328 | The size field has the page count with its most significant byte first. |
| `Backup.CurrentByUpdate` | sqlcipher-4.10.0/src/backup.c:724-735 | A page that was written again after it was copied is current after the update. |
| `Backup.Backup.BackupUpdate` | sqlcipher-4.10.0/src/backup.c:716-740 | Only pages below iNext are copied again, only while no fatal code is stored, and a failure is stored. |
| `Backup.Backup.Tell` | sqlcipher-4.10.0/src/backup.c:716-743 | The share of one backup in a reported write of any page, also one that lets the file grow: what it has copied is current again. |
| `Backup.SourceWritten` | sqlcipher-4.10.0/src/backup.c:716-743 | The loop over all backups of the source keeps the invariant of each, and leaves the ended ones as they are. |
| `Backup.SourceShrunk` | sqlcipher-4.10.0/src/backup.c:445 | Truncating the source keeps the copied part of every backup current. |
| `Backup.SourceChanged` | sqlcipher-4.10.0/src/backup.c:756-762 | After an unreported change of any kind, also to another page size, every attached backup starts at page 1. |
| `Backup.Happen` | sqlcipher-4.10.0/src/backup.c:369-762 | Any of these events keeps the invariant of every backup; one that ends with DONE does so in a step of its own, and has the source as it is then. |
| `Backup.Run` | sqlcipher-4.10.0/src/backup.c:369-762 | For any number of backups of one source and any interleaving of their steps, writes, growth, truncation, changes of the page size and restarts: the copied part of each stays current, an ended backup stays as it is, and one that ended with DONE holds what one of its own steps left of the source as it was at that moment, or the new page of that step where the source was empty. |
| `Bitvecs.BitWritten` | sqlcipher-4.10.0/src/bitvec.c:143 | Setting and clearing a bit in its byte changes that bit only. |
| `Bitvecs.PackedIsFull` | sqlcipher-4.10.0/src/bitvec.c:147-149 | A search meets no free slot only when all slots are taken. |
| `Bitvecs.FreeSlot` | sqlcipher-4.10.0/src/bitvec.c:188-196 | With fewer than NINT occupied slots every search ends. |
| `Bitvecs.NotInTable` | sqlcipher-4.10.0/src/bitvec.c:146-150 | A search that ends at a free slot has proved the value absent. |
| `Bitvecs.TableInsert` | sqlcipher-4.10.0/src/bitvec.c:233-236 | A value put into the first free slot of its search is found, and so are all others; one slot more is occupied. |
| `Bitvecs.Probe` | sqlcipher-4.10.0/src/bitvec.c:199-204 | The probing loop stops at the value or at the first free slot. |
| `Bitvecs.FirstFree` | sqlcipher-4.10.0/src/bitvec.c:264-267 | The probing loop of a rebuild stops at the first free slot. |
| `Bitvecs.ProbeDecides` | sqlcipher-4.10.0/src/bitvec.c:145-151 | The search decides membership. |
| `Bitvecs.DepthMonotone` | sqlcipher-4.10.0/src/bitvec.c:220-222 | A smaller range needs no more nodes. |
| `Bitvecs.FiveNodes` | sqlcipher-4.10.0/src/bitvec.c:220-222 | For every 32-bit size a search path has at most five nodes. |
| `Bitvecs.GatherOne` | sqlcipher-4.10.0/src/bitvec.c:135-137 | Changing a bit of a part changes exactly the bit of the whole that it stands for. |
| `Bitvecs.Bitvec.constructor` | sqlcipher-4.10.0/src/bitvec.c:115-123 | A new node is the empty set. |
| `Bitvecs.Bitvec.Test` | sqlcipher-4.10.0/src/bitvec.c:130-152 | Test is membership, through all three forms, also for 0 and numbers out of range, along at most five nodes. |
| `Bitvecs.Bitvec.Set` | sqlcipher-4.10.0/src/bitvec.c:169-237 | Set adds exactly the bit; it fails exactly when a request for memory fails, and then no bit appears that was not set or asked for. |
| `Bitvecs.Bitvec.SetPart` | sqlcipher-4.10.0/src/bitvec.c:175-184 | The part of the range that has the bit is created when it is missing and then set. |
| `Bitvecs.Bitvec.SetHash` | sqlcipher-4.10.0/src/bitvec.c:188-236 | nSet is the exact number of occupied slots and a slot stays free, through both ways of inserting and the division. |
| `Bitvecs.Bitvec.Divide` | sqlcipher-4.10.0/src/bitvec.c:209-230 | Dividing a table into parts and inserting its values again keeps the set. |
| `Bitvecs.Bitvec.Clear` | sqlcipher-4.10.0/src/bitvec.c:242-274 | Clear removes exactly the bit. |
| `Bitvecs.Bitvec.Rebuild` | sqlcipher-4.10.0/src/bitvec.c:256-272 | The table built again without the value holds all others, with the exact count. |
| `Bitvecs.Run` | sqlcipher-4.10.0/src/bitvec.c:130-274 | Any run of Set and Clear is the run on a mathematical set; without memory it is a subset of it. |
| `HashTable.StrHash` | sqlcipher-4.10.0/src/hash.c:55-73 | The loop computes the 32-bit multiplicative hash of the masked bytes. |
| `HashTable.EqualKeysHashAlike` | sqlcipher-4.10.0/src/hash.c:58-70 | Keys that are equal ignoring case have the same hash. |
| `HashTable.EqualIgnoringCase` | sqlcipher-4.10.0/src/hash.c:175 | The comparison of keys is equality of folded keys. |
| `HashTable.FoldMeans` | sqlcipher-4.10.0/src/hash.c:175 | Folded keys are equal exactly when the keys have the same length and, at each place, the same character or the two cases of one ASCII letter. |
| `HashTable.RunMoves` | sqlcipher-4.10.0/src/hash.c:86-104 | A new entry moves the runs of other buckets as wholes. |
| `HashTable.RunGrows` | sqlcipher-4.10.0/src/hash.c:87-90 | A new entry at the head of a run makes it longer by one. |
| `HashTable.RunShrinks` | sqlcipher-4.10.0/src/hash.c:201-207 | A removed entry makes its run shorter by one, and its head moves on if it was the head. |
| `HashTable.NotHeld` | sqlcipher-4.10.0/src/hash.c:172-181 | A key that no entry of its bucket has is not in the table. |
| `HashTable.Hash.LinkIn` | sqlcipher-4.10.0/src/hash.c:94-104 | Linking before the head of a bucket or at the front keeps a well-formed doubly linked list. |
| `HashTable.Hash.BucketIn` | sqlcipher-4.10.0/src/hash.c:85-93 | The bucket counts the entry and starts with it. |
| `HashTable.Hash.InsertElement` | sqlcipher-4.10.0/src/hash.c:79-106 | Both together: list and buckets stay well formed and gain the entry. |
| `HashTable.Hash.Rehash` | sqlcipher-4.10.0/src/hash.c:113-145 | New buckets for the same entries, each exactly once; without memory nothing changes. |
| `HashTable.Hash.FindElement` | sqlcipher-4.10.0/src/hash.c:153-182 | The entry of the key if there is one, in the bucket or, without buckets, in the whole list. |
| `HashTable.Hash.Find` | sqlcipher-4.10.0/src/hash.c:222-226 | The data of the key in the map, null exactly for absent keys. |
| `HashTable.Hash.LinkOut` | sqlcipher-4.10.0/src/hash.c:193-200 | The list without the entry is well formed. |
| `HashTable.Hash.BucketOut` | sqlcipher-4.10.0/src/hash.c:201-208 | So are the buckets. |
| `HashTable.Hash.RemoveElement` | sqlcipher-4.10.0/src/hash.c:188-216 | The map without the key; an empty table gives up its buckets. |
| `HashTable.Hash.Clear` | sqlcipher-4.10.0/src/hash.c:35-50 | All entries are freed, each once, and the table is empty. |
| `HashTable.Hash.Replace` | sqlcipher-4.10.0/src/hash.c:252-254 | The entry takes the new data and the new spelling of the key. |
| `HashTable.Hash.Add` | sqlcipher-4.10.0/src/hash.c:263-267 | A new entry joins the table, whose count grows by one; the table may grow first, exactly when the entries are five or more and more than two for each bucket, with or without success. |
| `HashTable.Hash.Insert` | sqlcipher-4.10.0/src/hash.c:242-269 | Insert, replace and delete on a map that ignores case, with the returned pointer of every case, also without memory. |
| `HashTable.Run` | sqlcipher-4.10.0/src/hash.c:23-269 | Every reachable table is well formed and holds the map of its calls. |
| `RenameEdit.ReadWritten` | sqlcipher-4.10.0/src/alter.c:1213 | Text written in quotes reads back, wherever it stands, unless another quote follows. |
| `RenameEdit.SplicedBefore` | sqlcipher-4.10.0/src/alter.c:1277-1285 | Replacing one more token from the right in the buffer is one more token of the splice from the left. |
| `RenameEdit.Growth` | sqlcipher-4.10.0/src/alter.c:1224-1226 | A token grows by no more than the quoted name, and a string by less than its length. |
| `RenameEdit.Dequote` | sqlcipher-4.10.0/src/alter.c:1267-1269 | Removing the quotes in place gives the text that they enclose. |
| `RenameEdit.ReplaceAt` | sqlcipher-4.10.0/src/alter.c:1276-1285 | Moving the tail and copying the replacement splices the buffer, which stays zero-terminated. |
| `RenameEdit.RenameCtx.TokenNext` | sqlcipher-4.10.0/src/alter.c:1038-1050 | The token of the largest address is taken out of the list, and no other. |
| `RenameEdit.NextReplacement` | sqlcipher-4.10.0/src/alter.c:1250-1274 | The bare name where the token is bare and no quotes are asked for, else the quoted name, or the string in single quotes, with the extra space before a quote; the small buffers suffice. |
| `RenameEdit.EditLast` | sqlcipher-4.10.0/src/alter.c:1244-1286 | One turn of the loop keeps the splice, the terminating zero and the room for the rest. |
| `RenameEdit.RenameEditSql` | sqlcipher-4.10.0/src/alter.c:1195-1297 | The buffer edited from right to left is the text spliced from left to right, in which every token is edited as in EveryTokenEdited; it never exceeds nSql + nList*nQuot + 1 bytes, or 2*nSql + 1 when fixing quotes. |
| `RenameEdit.EveryTokenEdited` | sqlcipher-4.10.0/src/alter.c:1244-1286 | For all modes, bare tokens too: in the new text each token stands at its offset moved by the growth so far, in lengths of names, and reads as its meaning; what followed it up to the next token follows it, and nothing else is in the text. |
| `RenameEdit.ReadsBack` | sqlcipher-4.10.0/src/alter.c:1258-1263 | Every quoted replacement reads back in the new text as the new name, or as the string it was, ending where it should. |
| `ColumnLayout.InOrder` | sqlcipher-4.10.0/src/build.c:1134-1135 | Columns of a kind keep their order, and all virtual columns come after the others. |
| `ColumnLayout.OnePlaceEach` | sqlcipher-4.10.0/src/build.c:1144-1159 | Different columns have different places. |
| `ColumnLayout.EveryPlace` | sqlcipher-4.10.0/src/build.c:1144-1159 | Every place is used, so that the places are a permutation. |
| `ColumnLayout.TableColumnToStorage` | sqlcipher-4.10.0/src/build.c:1144-1159 | The loop computes the place of a column; the rowid stays. |
| `ColumnLayout.StorageColumnToTable` | sqlcipher-4.10.0/src/build.c:1096-1105 | The loop whose bound grows ends inside the table, at the stored column of that place. |
| `ColumnLayout.RoundTrip` | sqlcipher-4.10.0/src/build.c:1096-1159 | To storage and back is the same column. |
| `WithoutRowid.DedupKeeps` | sqlcipher-4.10.0/src/build.c:2393-2405 | Removing repeated terms leaves none twice, loses none and makes none up. |
| `WithoutRowid.MissingCovers` | sqlcipher-4.10.0/src/build.c:2433-2461 | With the missing terms an index has the whole primary key; what it gains is new, from the primary key, ascending, and without repetition. |
| `WithoutRowid.ExtraCovers` | sqlcipher-4.10.0/src/build.c:2468-2486 | With the extra columns the primary key has every stored column; what it gains is new and ascending. |
| `WithoutRowid.ExtendedIsTable` | sqlcipher-4.10.0/src/build.c:2393-2488 | Without repeated terms and with the missing columns, any list of terms becomes that of a table. |
| `WithoutRowid.HasColumn` | sqlcipher-4.10.0/src/build.c:2238-2245 | Membership among the first columns. |
| `WithoutRowid.Index.IsDupColumn` | sqlcipher-4.10.0/src/build.c:2260-2279 | Whether one of the first terms has the same column and collating sequence, ignoring case. |
| `WithoutRowid.Index.Resize` | sqlcipher-4.10.0/src/build.c:2176-2203 | Room for more columns, with the old terms and their sort orders kept and the new ones ascending, or a failure that changes nothing. |
| `WithoutRowid.Index.RemoveRepeats` | sqlcipher-4.10.0/src/build.c:2393-2407 | The compaction in place leaves exactly the first occurrences, each with its own sort order. |
| `WithoutRowid.Index.AppendPrimaryKey` | sqlcipher-4.10.0/src/build.c:2431-2464 | The terms end with exactly the missing terms of the primary key in the place of the rowid, with an exact length; the ascending-key flag is set exactly when one of them descends. |
| `WithoutRowid.Index.AddColumns` | sqlcipher-4.10.0/src/build.c:2468-2488 | The primary key ends with exactly the missing stored columns, ascending under the binary collating sequence, with an exact length. |
| `WithoutRowid.ConvertToWithoutRowid` | sqlcipher-4.10.0/src/build.c:2340-2490 | Primary key columns are NOT NULL. Without a failed allocation: the primary key has no repeated terms, the sort orders that it had, and every stored column; every other index keeps its key and has all terms of the primary key; and neither has the rowid behind its key, as no primary key names it. |

## Left out

- StatTheorems.SamplesExact: the scan has at least one row, as the caller requires, and the first row reports column 0; scans without room are excluded, at which the source's assertion fails (StatRoom.RoomIsExact) and which ANALYZE does not run.
- StatAccumulator.Analyze: the 64-bit counters do not wrap around, and the text of the stored columns is a sequence of numbers; only the pseudo-random `iPrn` is reduced modulo 2^32.
- StatCounts.RowCounter.StatPush: a build without STAT4 keeps no equal counts; nothing that it reports depends on them.
- StatCounts.AnalyzeCounts: how the scan seeks over the rows that it skips is the virtual machine's.
- DateTimes.DateTime.ComputeJD: seconds are exact reals, not rounded doubles.
- DateTimes.TimeDiff: parsing of the arguments is left out, which are instants here.
- DateTimes.DateTime.AddMonths: the number is an exact real, not a rounded double; fields that a parser left without an instant are left out, here and in `AddYears` and `AddDate`.
- DateText.Modify: numbers of units, such as "3 days", are left to `AddMonths` and `AddYears`, and the other units and named modifiers are left out.
- DateText.Render: the directives of the print function are functions here.
- BtreeMutex.NoDeadlock: Btrees that are not sharable and two threads on one connection are left out; the connection mutex serialises the latter.
- BtreeMutex.Progress: fairness of the mutexes is not modelled, so that it says that some connection goes on, not which one.
- Backup.Run: page and closing operations do not answer BUSY or LOCKED (`Settled`), as the source asserts. The order of the list of backups, detaching in `sqlite3_backup_finish()`, the codec and its reserved bytes, and copying a whole file for VACUUM are left out.
- Backup.Backup.ShrinkFile: what the journal itself does is left out; the pages that it was given are recorded.
- Bitvecs.Bitvec.Set: the descent through the nodes, a loop in the source, is a recursion here, as it is in `Clear`; `Test` keeps its loop. Destroying a set and the built-in test are left out.
- HashTable.Hash.Insert: counts do not wrap around at 2^32.
- HashTable.Hash.Clear: freed memory is recorded, not modelled.
- RenameEdit.RenameEditSql: the allocation does not fail, and the pointers of the token list are a sequence; freeing the tokens is left out.
- RenameEdit.ReadsBack: a quoted token that touches the next one is left out, which SQL text with two column references does not have.
- RenameEdit.EveryTokenEdited: where such a token stands and what follows it is stated, but not that it reads as its meaning.
- ColumnLayout.StorageColumnToTable: column numbers do not exceed 16 bits, as the limit on columns ensures.
- WithoutRowid.ConvertToWithoutRowid: how the index is created that an INTEGER PRIMARY KEY table gets before it is converted (it is one of the indexes here, and has one term), row estimates, the bit mask of columns that are not indexed and the generated code are left out.
- WithoutRowid.Index.Resize: the row estimates that are copied along are left out.
- The application of the repository (routes, models, mail, pages), which is plumbing over libraries.
- The other C files: thin wrappers of cipher libraries, and code whose meaning lies in the parser and the virtual machine.
