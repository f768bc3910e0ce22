# stockgame: verified model of its sequential core

A Dafny model of the four pieces of sequential logic in the stockgame
repository (a stock-price guessing game backed by a PostgreSQL database):

- **Data loader** (`data_loader.dfy`, module `DataLoader`): which directory
  entries are queued for loading, how a price file's path becomes its stock
  symbol and its cleaned-file path, and `preprocessCSV`, which copies the
  header and keeps only 7-field rows with non-empty "open" and "volume"
  fields, truncating the volume at its first `.` and appending the symbol.
  The CSV reader is modelled by the sequence of results of its `Read` calls
  (a record or an error; the end of the sequence is end of file), and the
  open/create calls by whether they succeed. The method returns both the path
  (or error) and the records handed to the CSV writer, which its deferred
  flush writes out on every exit after the output file is created.
- **Stock-window check** (`stock_logic.dfy`, module `StockLogic`):
  `IsStocksValid` accepts a window iff it is non-empty, its integer average
  volume (Go's truncating division) is at least 25000, it is longer than the
  number of days to guess, and no day opens at 0; it then returns
  `len - numberOfDays`, and `(false, 0)` otherwise. The four cases of the
  repository's test for it are replayed in `StockTestScenarios`.
- **Guess scorer** (`score_logic.dfy`, module `ScoreLogic`): `GetScore`
  adds 10 per shared day for each of the low/high, open..close and
  close..open ranges the guess falls in, then a 10-point bonus when the
  guessed first-to-last direction matches the stock's first open to last
  close. Prices are compared only, so they are `real`.
- **Constant exporter** (`back_to_front.dfy`, module `BackToFront`): lines
  longer than five characters that start with `const` are emitted, in order,
  as `export <line>;`. Lines are `seq<char>`; Go measures them in bytes, but
  for this test the two agree: "const" is five one-byte characters, so a line
  whose first five bytes are "const" has those five characters first, and it
  is longer than five bytes iff it has a sixth character.

Each loop of the source is a method proved against a specification function
(`QueueStockFiles`/`StockFiles`, `PreprocessCsv`/`Preprocessed`,
`IsStocksValid`, `GetScore`/`Score`, `ExportConstants`/`ConstLines`), and the
properties are lemmas about those functions.

## Model

| member | source | states |
|---|---|---|
| DataLoader.HasSuffix | cmd/data-loader/main.go:164 | `strings.HasSuffix`: when it holds, the string is its own prefix followed by the suffix |
| DataLoader.HasSuffixOfAppend | cmd/data-loader/main.go:164 | conversely, any string followed by the suffix ends in it |
| DataLoader.TrimSuffix | cmd/data-loader/main.go:180 | `strings.TrimSuffix`: with the suffix present, result plus suffix is the input; otherwise the input unchanged |
| DataLoader.Base | cmd/data-loader/main.go:180 | `filepath.Base`: never empty; contains '/' only when it is "/", which happens iff the path is non-empty and all separators |
| DataLoader.BaseOfFileInDirectory | cmd/data-loader/main.go:180 | the base name of a directory path followed by a file name is that file name |
| DataLoader.Symbol | cmd/data-loader/main.go:180 | the symbol is a prefix of the base name: the base name minus one ".csv" when it ends in ".csv", the whole base name otherwise; it holds no '/' unless it is "/" |
| DataLoader.SymbolOfStockFile | cmd/data-loader/main.go:180 | the symbol of a queued `.csv` file is its name with exactly one trailing ".csv" removed |
| DataLoader.CleanedPath | cmd/data-loader/main.go:217 | the cleaned path starts with the input path and ends with "_cleaned.csv" |
| DataLoader.CleanedPathRoundTrip | cmd/data-loader/main.go:217 | trimming "_cleaned.csv" from the cleaned path gives back the input path |
| DataLoader.CleanedPathInjective | cmd/data-loader/main.go:217 | distinct input files get distinct cleaned files |
| DataLoader.IsStockFile | cmd/data-loader/main.go:164 | a queued entry is not a directory, and its symbol followed by ".csv" gives back its name |
| DataLoader.StockFiles | cmd/data-loader/main.go:163-168 | the queued names are at most the entries and all end in ".csv" |
| DataLoader.StockFilesMembership | cmd/data-loader/main.go:164 | a name is queued iff some entry of that name is not a directory and ends in ".csv" |
| DataLoader.QueueStockFiles | cmd/data-loader/main.go:162-168 | the enqueue loop sends exactly the stock-file names, in directory order |
| DataLoader.BeforeFirstDot | cmd/data-loader/main.go:266 | `strings.Split(v, ".")[0]`: a prefix of `v` with no '.', followed in `v` by a '.' when shorter |
| DataLoader.CleanVolume | cmd/data-loader/main.go:264-268 | the cleaned volume is a prefix without '.', the whole volume when it has no '.', cut at the first '.' otherwise |
| DataLoader.CleanVolumeIsBeforeFirstDot | cmd/data-loader/main.go:265-266 | the `strings.Contains` guard changes nothing: the cleaned volume is always the text before the first '.' |
| DataLoader.CleanVolumeIdempotent | cmd/data-loader/main.go:264-268 | cleaning a cleaned volume changes nothing |
| DataLoader.CleanVolumeExamples | cmd/data-loader/main.go:258-268 | "123.0" becomes "123", "1.2.3" becomes "1", and ".5" becomes "" (emptiness is tested before truncation) |
| DataLoader.Accepts | cmd/data-loader/main.go:253-261 | definition of the row test: 7 fields, non-empty "open" (field 1) and "volume" (field 6); its consequences are stated by `Accepted`, `CleanRowsOrigin` and `RejectedRowContributesNothing` |
| DataLoader.CleanRow | cmd/data-loader/main.go:264-269 | an accepted row becomes 8 fields: fields 0-5 unchanged, the cleaned volume, the symbol |
| DataLoader.CleanRowOfIntegralVolume | cmd/data-loader/main.go:264-269 | a row whose volume has no '.' is only extended by the symbol |
| DataLoader.CleanRows | cmd/data-loader/main.go:252-272 | at most as many output rows as input rows; each has 8 fields, the symbol last and a volume without '.' |
| DataLoader.Accepted | cmd/data-loader/main.go:252-261 | reference filter: a row is accepted iff it is an input row with 7 fields and non-empty fields 1 and 6 |
| DataLoader.CleanRowsMapsAccepted | cmd/data-loader/main.go:252-272 | the cleaned rows are exactly the accepted rows, each cleaned, in the same order |
| DataLoader.CleanRowsAppend | cmd/data-loader/main.go:243-273 | cleaning is row by row: the output for `a + b` is the output for `a` followed by that for `b` (relative order kept) |
| DataLoader.CleanRowsOrigin | cmd/data-loader/main.go:252-269 | every output row is the cleaned form of an accepted input row, and every accepted input row appears cleaned in the output |
| DataLoader.NoAcceptedRowLeavesNoOutput | cmd/data-loader/main.go:252-261 | when no row has 7 fields with non-empty open and volume, no data row is written, so the cleaned file is the header alone |
| DataLoader.RejectedRowContributesNothing | cmd/data-loader/main.go:252-261 | removing a row with a wrong field count or an empty open/volume field leaves the output unchanged |
| DataLoader.RowsReadPrefix | cmd/data-loader/main.go:243-250 | the records handed over are the fields of the leading successful reads, and the read right after them, if any, failed |
| DataLoader.RowsRead | cmd/data-loader/main.go:243-250 | the records seen before the first failed read are at most the reads |
| DataLoader.Preprocessed | cmd/data-loader/main.go:216-276 | definition of one file's cleaning: open, create and header failures write nothing; otherwise the header and the cleaned rows read before the first failed read, with success iff no read failed; its promises are stated by `PreprocessedOutcome` and `PreprocessedOnSuccess`, and `PreprocessCsv` is proved equal to it |
| DataLoader.PreprocessedOutcome | cmd/data-loader/main.go:216-276 | success iff both files open, the header reads and every row reads; success returns the cleaned path; the first record written is the header unchanged; every other one has 8 fields ending in the symbol; at most one record written per read |
| DataLoader.PreprocessedOnSuccess | cmd/data-loader/main.go:236-275 | on success the written records are the header followed by the cleaned rows of all data records |
| DataLoader.PreprocessCsv | cmd/data-loader/main.go:216-276 | the read loop returns exactly what `Preprocessed` describes, for every outcome of the reads and of opening the files |
| DataLoader.CleanedRowsCarryFileSymbol | cmd/data-loader/main.go:179-184 | every data row cleaned from a queued file ends with that file's name minus ".csv" |
| DataLoader.StrictReads | cmd/data-loader/main.go:231 | encoding/csv with its default field count: every read succeeds iff every record is as wide as the first |
| DataLoader.StrictReadsStopAtFirstWidthChange | cmd/data-loader/main.go:231-250 | the records handed over are the longest leading run of lines as wide as the first, and the line after that run has another width |
| DataLoader.StrictReadsAbortOnShortRow | cmd/data-loader/main.go:231-255 | as written: with a 7-field header, any data row of another width makes the whole file fail |
| DataLoader.LenientReads | cmd/data-loader/main.go:231 | with a variable field count every read succeeds and the records handed over are exactly the lines |
| DataLoader.LenientReadsSkipShortRows | cmd/data-loader/main.go:243-273 | corrected: the file succeeds with the header and the cleaned rows of every data line, rows of another width skipped |
| StockLogic.TotalVolume | internal/logic/stock.go:16-19 | definition of the volume sum, accumulated day by day as the loop does; `TotalVolumeNonNegative` bounds it |
| StockLogic.TruncDiv | internal/logic/stock.go:24 | definition of Go's integer `/`, which truncates toward zero; `TruncDivBounds` characterises it |
| StockLogic.TruncDivBounds | internal/logic/stock.go:24 | Go's integer division: the quotient times the divisor is the multiple nearest the dividend on the side of zero |
| StockLogic.EuclideanDivision | internal/logic/stock.go:24 | for a non-negative dividend the quotient times the divisor lies within one divisor below the dividend |
| StockLogic.TruncDivThreshold | internal/logic/stock.go:24-25 | for a non-negative total, the truncated quotient reaches a threshold iff the total reaches threshold times divisor |
| StockLogic.IsStocksValid | internal/logic/stock.go:13-44 | valid iff non-empty, truncated average volume at least 25000, more days than `numberOfDays`, no zero open; upper bound `len - numberOfDays` (at least 1) when valid and 0 otherwise |
| StockLogic.NoZeroOpen | internal/logic/stock.go:36-42 | definition of the second loop's test: no day opens at 0; `IsStocksValid` requires it for validity |
| StockLogic.StockTestScenarios | internal/logic/stock_test.go:8-73 | the four test cases: a 3-day window with 2 days to guess gives `(true, 1)`; too little volume, more days to guess than the window has, and a zero open each give `(false, 0)` |
| StockLogic.TotalVolumeNonNegative | internal/logic/stock.go:16-19 | non-negative volumes sum to a non-negative total |
| StockLogic.AverageTestIsTotalTest | internal/logic/stock.go:24-28 | with non-negative volumes, the average passes iff the total is at least 25000 per day |
| ScoreLogic.DayPoints | internal/logic/score.go:20-31 | one day's points are 0, 10, 20 or 30 |
| ScoreLogic.DayPointsOfMovingDay | internal/logic/score.go:25-31 | when open and close differ, at most one open/close check passes, so at most 20 |
| ScoreLogic.DayPointsOfFlatDay | internal/logic/score.go:25-31 | a guess at open == close passes both open/close checks; 30 iff it is also within low/high |
| ScoreLogic.DayPointsOfBodyHit | internal/logic/score.go:20-31 | on a day whose low/high bound its open and close, a guess between open and close earns at least 20 |
| ScoreLogic.SharedDaysPoints | internal/logic/score.go:15-33 | the first `k` days earn a multiple of 10 between 0 and 30k |
| ScoreLogic.SameDirection | internal/logic/score.go:36-40 | definition of the bonus test: the guess rises from first to last iff the stock rises from first open to last close |
| ScoreLogic.Score | internal/logic/score.go:5-42 | definition of the returned score: 0 when either side is empty, else the shared-days points plus 10 when `SameDirection`; `ScoreBounds` and `ExtraGuessesOnlyMoveBonus` state its properties and `GetScore` is proved equal to it |
| ScoreLogic.ScoreBounds | internal/logic/score.go:7-40 | the score is a multiple of 10; 0 when either side is empty; at most 30 per shared day plus 10; at least 10 when the directions agree |
| ScoreLogic.SharedDaysPointsUsePrefix | internal/logic/score.go:15-18 | per-day points depend only on the first `min(len(userPrices), len(actualStockInfo))` entries |
| ScoreLogic.ExtraGuessesOnlyMoveBonus | internal/logic/score.go:15-40 | guesses past the last actual day earn nothing; they can only change the bonus, which uses the full lengths |
| ScoreLogic.GetScore | internal/logic/score.go:5-42 | the loop with its `break` returns the shared-days points plus the 10-point direction bonus |
| BackToFront.IsConstLine | cmd/back-to-front/main.go:23 | definition of the export test: longer than five characters and starting with "const"; `ConstLinesMembership` and `ConstLineExamples` state its effect |
| BackToFront.ExportLine | cmd/back-to-front/main.go:38 | the emitted statement is "export ", then the line, then ";" |
| BackToFront.DeclarationOf | cmd/back-to-front/main.go:38 | the declaration inside a statement is 8 characters shorter |
| BackToFront.ExportLineRoundTrip | cmd/back-to-front/main.go:38 | the emitted statement gives back the original line |
| BackToFront.ExportedConstStartsWithExportConst | cmd/back-to-front/main.go:23-38 | every emitted statement starts with "export const" |
| BackToFront.ConstLines | cmd/back-to-front/main.go:21-26 | the kept lines are at most the input lines and all pass the `const` test |
| BackToFront.ConstLinesAppend | cmd/back-to-front/main.go:21-26 | lines are kept one by one, in input order |
| BackToFront.ConstLinesMembership | cmd/back-to-front/main.go:23 | a line is kept iff it is an input line longer than 5 that starts with "const" |
| BackToFront.DroppedLineContributesNothing | cmd/back-to-front/main.go:23-25 | removing a line that fails the test leaves the output unchanged |
| BackToFront.ConstLineExamples | cmd/back-to-front/main.go:23 | "const" alone and a line with leading blanks are dropped; "constant" is kept |
| BackToFront.ExportConstants | cmd/back-to-front/main.go:21-39 | both loops: one statement per kept line, in input order, at most one per input line |

## Findings

| source | as written | input that shows it | evidently intended | confidence | as-written member | corrected member |
|---|---|---|---|---|---|---|
| cmd/data-loader/main.go:231 | the CSV reader keeps its default field count (the first record's), so a data row of another width is a read error and `preprocessCSV` returns it (248-250): the file is not loaded at all and its partial cleaned file stays on disk | a file whose header has 7 fields followed by the row `2020-01-02,1` | the row is skipped, as the check at 253-254 and its comment say, and the other rows are loaded | high; not executed | DataLoader.StrictReadsAbortOnShortRow | DataLoader.LenientReadsSkipShortRows |

All other properties of the model are stated over the records the reader
returns, so they hold for the corrected reader unchanged.

## Left out

- The worker pool of `insertStocksParallel` (channel, WaitGroup, `maxWorkers`) and every other concurrency: the queue is modelled as the sequence of names sent to the channel.
- `filepath.Join` of the directory with the entry name and of the project root with the file path (main.go:165, 181): the queue holds entry names, and `BaseOfFileInDirectory` covers any directory prefix ending in '/', which is what `Join` produces.
- The COPY bulk load and its printed error (main.go:191-201), and the cleaned file's removal: `processStockFile` removes it by `defer` after any COPY outcome (main.go:189), but not when `preprocessCSV` fails (main.go:184-187); `createTables`, `insertCompanyInfo`, `addIndex` and `main`: database work.
- CSV tokenisation (quotes, blank lines, the lazy-quote setting) and CSV writing (quoting, the ignored write errors at 240 and 272): records are already split, and `written` is the sequence of records handed to the writer.
- The file system: opening, creating, closing and flushing files appear only as whether the open and the create succeed.
- IsStocksValid: prices are reals, so a NaN open, which is not 0 in Go and passes the test at stock.go:37, is not modelled. Nor is Go's 64-bit `int` wrap-around, in the volume sum (stock.go:18) or in `upperBound = len(stocks) - numberOfDays` (stock.go:29); for 3 valid days and `numberOfDays` = -2^63 + 2 Go wraps the subtraction to a negative value and returns `(false, 0)`, while the model returns `(true, 2^63 + 1)`.
- GetScore: the two `println` calls; NaN prices (float comparisons are modelled as comparisons of reals).
- The constant exporter's file I/O: opening the Go file, the scanner's errors and line-length limit, creating the TypeScript file, and the newline `Fprintln` adds after each statement; opening, scanning and creating failures end in `log.Fatal` (main.go:15, 29, 34), while the write errors of `Fprintln` (main.go:38) and of the deferred `f.Close()` (main.go:36) are ignored.
- The HTTP server, the other packages' database access, the frontend, and the test of a different `GetScore` that takes Bollinger bands, whose implementation is not part of this model.
