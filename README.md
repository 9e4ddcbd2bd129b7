# Stock Analyzer: quote loading and stock services

This project models the sequential logic of the Stock Analyzer sample, a WPF
application that loads stock quotes and shows them in a grid:

- **The CSV load of the search handler** (`Search_Click` in the main window).
  The handler skips the header line and splits every other line on commas.
  It trims quotes off every piece in place and reads columns 0, 1, 6, 7 and 8
  into a `StockPrice` record. It appends the records to a list in file order.
  Finally it shows only the records whose ticker equals the typed ticker.
  The load is `QuoteCsv.LoadStockPrices`, a loop over the data lines. Each
  line is read by `QuoteCsv.ReadLine`, which calls the in-place array pass
  `QuoteCsv.TrimSegments`. The load is proved against the function
  `QuoteCsv.ParseCsv`, and the lemmas are stated about that function.
- **The stock services.** The mock service filters a fixed table of four
  quotes by exact ticker equality; its results are computed exactly. The
  HTTP-backed service keeps a per-instance counter `i`. Each call reads `i`,
  increments it, and then waits the old value times 1000 milliseconds. The service is the class
  `Services.StockService`; its counter is an `Int32` that wraps around as C#
  `int` arithmetic does.

Modules:

- `Domain` (`domain.dfy`): the `StockPrice` record, `Int32` and the ticker
  filter (LINQ `Where(p => p.Ticker == ticker)`).
- `Text` (`text.dfy`): `String.Split(',')`, `String.Join` as its inverse, and
  `String.Trim('\'', '"')`.
- `QuoteCsv` (`quote_csv.dfy`): the CSV load and the search.
- `Services` (`stock_service.dfy`): the mock service and the counter of the
  real service.

The three library conversions (`DateTime.ParseExact` with format
`M/d/yyyy h:mm:ss tt`, `Convert.ToInt32` and `Convert.ToDecimal`, all with the
invariant culture) are parameters. Each one is a total function that returns
`None` where the library throws. C# `decimal` is modelled as `real`. An
exception thrown while loading is a `Failure` carrying the reason. It names
either the missing column index or the field whose conversion failed, in the
order the object initializer evaluates them. The handler never reports this
`Failure`: the exception faults the background task, nothing observes it, the
grid keeps its previous rows, and the status line still says the stocks were
loaded (MainWindow.xaml.cs:100-109). A `Failure` therefore only means that the
grid is not updated.

## Model

| member | source | states |
|---|---|---|
| Domain.Wrap32 | StockAnalyzer.Windows/Services/StockService.cs:20-23 | the unchecked `int` result is congruent to the true value modulo 2^32 and equals it when it fits |
| Domain.Wrap32Congruent | StockAnalyzer.Windows/Services/StockService.cs:23 | two integers that differ by a multiple of 2^32 give the same unchecked `int` |
| Domain.WithTicker | StockAnalyzer.Windows/MainWindow.xaml.cs:96 | the filter keeps no more records than its input, and every kept record has the ticker and comes from the input |
| Domain.WithTickerSubMultiset | StockAnalyzer.Windows/MainWindow.xaml.cs:96 | the filter only drops records: its result is a sub-multiset of the input |
| Domain.WithTickerAppend | StockAnalyzer.Windows/MainWindow.xaml.cs:96 | filtering a concatenation filters each part and keeps them in order, so the result is a subsequence in input order |
| Domain.WithTickerKeepsMatches | StockAnalyzer.Windows/MainWindow.xaml.cs:96 | every record with the ticker occurs in the result exactly as often as in the input |
| Domain.WithTickerKeepsAll | StockAnalyzer.Windows/MainWindow.xaml.cs:96 | the filter returns its input unchanged if and only if every record has the ticker |
| Domain.WithTickerNone | StockAnalyzer.Windows/MainWindow.xaml.cs:96 | the filter returns nothing if and only if no record has the ticker |
| Domain.WithTickerIdempotent | StockAnalyzer.Windows/MainWindow.xaml.cs:96 | filtering twice by the same ticker equals filtering once |
| Text.Split | StockAnalyzer.Windows/MainWindow.xaml.cs:79 | splitting always yields at least one piece |
| Text.SplitCount | StockAnalyzer.Windows/MainWindow.xaml.cs:79 | a line splits into one more piece than it has commas |
| Text.SplitPiecesFree | StockAnalyzer.Windows/MainWindow.xaml.cs:79 | no piece contains the separator |
| Text.JoinSplit | StockAnalyzer.Windows/MainWindow.xaml.cs:79 | joining the pieces with the separator gives back the line |
| Text.SplitJoin | StockAnalyzer.Windows/MainWindow.xaml.cs:79 | splitting a join of separator-free pieces gives back the pieces |
| Text.TrimStart | StockAnalyzer.Windows/MainWindow.xaml.cs:81 | the start trim leaves a suffix of the text that does not begin with a quote |
| Text.TrimStartRemovesQuotes | StockAnalyzer.Windows/MainWindow.xaml.cs:81 | everything the start trim removes is a quote |
| Text.TrimEnd | StockAnalyzer.Windows/MainWindow.xaml.cs:81 | the end trim leaves a prefix of the text that does not end with a quote |
| Text.TrimEndRemovesQuotes | StockAnalyzer.Windows/MainWindow.xaml.cs:81 | everything the end trim removes is a quote |
| Text.Trim | StockAnalyzer.Windows/MainWindow.xaml.cs:81 | the trimmed text neither starts nor ends with `'` or `"` |
| Text.TrimRemovesOnlyQuotes | StockAnalyzer.Windows/MainWindow.xaml.cs:81 | the trimmed text is a contiguous part of the text, and everything cut off at both ends is quotes |
| Text.TrimAllQuotes | StockAnalyzer.Windows/MainWindow.xaml.cs:81 | a text made only of quotes trims to the empty text |
| Text.TrimUnique | StockAnalyzer.Windows/MainWindow.xaml.cs:81 | the two properties above determine the trim: any such cut is the trimmed text |
| Text.TrimIdempotent | StockAnalyzer.Windows/MainWindow.xaml.cs:81 | trimming a second time changes nothing |
| Text.TrimKeepsUnquotedEnds | StockAnalyzer.Windows/MainWindow.xaml.cs:81 | a text whose ends are not quotes is kept whole, whitespace and interior quotes included |
| Text.TrimStripsWrapping | StockAnalyzer.Windows/MainWindow.xaml.cs:81 | runs of quotes wrapped around such a text are exactly what the trim removes |
| QuoteCsv.TrimEach | StockAnalyzer.Windows/MainWindow.xaml.cs:81 | the result has one trimmed piece per piece, at the same position |
| QuoteCsv.TrimSegments | StockAnalyzer.Windows/MainWindow.xaml.cs:81 | the in-place loop leaves the array holding each original piece trimmed |
| QuoteCsv.ToStockPrice | StockAnalyzer.Windows/MainWindow.xaml.cs:82-89 | the record is built if and only if the line has nine columns and all four conversions succeed; then the ticker is segment 0 and the other fields are the conversions of segments 1, 6, 7 and 8; a one-column line fails on index 1 |
| QuoteCsv.ToStockPriceIgnoresColumns2To5 | StockAnalyzer.Windows/MainWindow.xaml.cs:82-89 | lines that differ only in columns 2 to 5 give the same record or error |
| QuoteCsv.ReadLine | StockAnalyzer.Windows/MainWindow.xaml.cs:79-89 | splitting into an array, trimming in place and building the record gives the line's parse result |
| QuoteCsv.DataLines | StockAnalyzer.Windows/MainWindow.xaml.cs:77 | with zero or one line there are no data lines |
| QuoteCsv.ParseCsv | StockAnalyzer.Windows/MainWindow.xaml.cs:76-91 | with zero or one line the load succeeds with no records |
| QuoteCsv.LoadStockPrices | StockAnalyzer.Windows/MainWindow.xaml.cs:76-91 | the loop over the data lines computes exactly the load result, aborting at the first bad line |
| QuoteCsv.SearchStocks | StockAnalyzer.Windows/MainWindow.xaml.cs:76-96 | the search fails exactly when the load fails; otherwise it shows the loaded records that have the typed ticker |
| QuoteCsv.ParseRowsNext | StockAnalyzer.Windows/MainWindow.xaml.cs:77-90 | after a successful prefix, a bad line is the error of the whole load and a good line extends the record list by its record |
| QuoteCsv.ParseRowsFailurePersists | StockAnalyzer.Windows/MainWindow.xaml.cs:77-91 | once a prefix of the lines fails, later lines do not change the result |
| QuoteCsv.ParseRowsAllRead | StockAnalyzer.Windows/MainWindow.xaml.cs:76-91 | the load succeeds if and only if every row parses, and then record k is row k's record |
| QuoteCsv.ParseRowsFirstError | StockAnalyzer.Windows/MainWindow.xaml.cs:76-91 | a failed load reports the error of the first bad row; all earlier rows parse |
| QuoteCsv.ParseCsvWellFormed | StockAnalyzer.Windows/MainWindow.xaml.cs:76-91 | when every data line is well formed there is one record per line after the header, in file order |
| QuoteCsv.ParseCsvBadLineFails | StockAnalyzer.Windows/MainWindow.xaml.cs:79-91 | any bad data line makes the whole load fail, with no partial list |
| QuoteCsv.ParseCsvShortLineFails | StockAnalyzer.Windows/MainWindow.xaml.cs:79-88 | a data line with fewer than nine columns makes the whole load fail |
| QuoteCsv.ParseCsvIgnoresHeader | StockAnalyzer.Windows/MainWindow.xaml.cs:77 | the first line never influences the load |
| QuoteCsv.ParseLineOfPieces | StockAnalyzer.Windows/MainWindow.xaml.cs:79-89 | a line written as comma-free pieces is read from exactly those pieces, trimmed |
| QuoteCsv.TrimQuoted | StockAnalyzer.Windows/MainWindow.xaml.cs:81 | single quotes around a plain column are exactly what the trim removes |
| QuoteCsv.WrittenPiecesTrim | StockAnalyzer.Windows/MainWindow.xaml.cs:79-81 | a written record's nine pieces are comma-free and trim back to the plain column texts |
| QuoteCsv.ParseLineRoundTrip | StockAnalyzer.Windows/MainWindow.xaml.cs:79-89 | a record written as a line, with quoted ticker and date and any filler in columns 2 to 5, loads back to the same record |
| Services.MockTable | StockAnalyzer.Windows/Services/StockService.cs:41-47 | the mock's table has four rows |
| Services.MockGetStockPricesFor | StockAnalyzer.Windows/Services/StockService.cs:39-49 | every returned record has the requested ticker and is a row of the table; at most four are returned |
| Services.MockLoadsMsft | StockAnalyzer.Tests/MockStockServiceTests.cs:16-19 | MSFT gives the first two rows: two records whose changes sum to 0.8 |
| Services.MockLoadsGoogl | StockAnalyzer.Windows/Services/StockService.cs:45-49 | GOOGL gives the last two rows, changes 0.3 then 0.5 |
| Services.MockUnknownTicker | StockAnalyzer.Windows/Services/StockService.cs:49 | any ticker other than exactly MSFT or GOOGL, such as UNKNOWN or msft, gives an empty result and no error |
| Services.MockIgnoresToken | StockAnalyzer.Windows/Services/StockService.cs:39-49 | the mock has no state and ignores the token: calls with the same ticker return equal results |
| Services.MockFanOut | StockAnalyzer.Windows/Services/StockService.cs:41-49 | the MSFT and GOOGL results, in either order, hold every table row exactly once |
| Services.TaskDelay | StockAnalyzer.Windows/Services/StockService.cs:23 | a non-negative delay waits that long, -1 waits forever, and any other negative delay is rejected |
| Services.PacingIsLinear | StockAnalyzer.Windows/Services/StockService.cs:20-23 | the k-th call (from 0) waits k * 1000 ms while that fits in an `int` |
| Services.PacingNeverWaitsForever | StockAnalyzer.Windows/Services/StockService.cs:23 | the service's pause is never the wait-forever delay: the counter times 1000, wrapped to an `int`, is even and so never -1 |
| Services.PacingOverflows | StockAnalyzer.Windows/Services/StockService.cs:20-23 | call 2147483 waits 2147483000 ms; call 2147484 overflows `i * 1000` and the delay is rejected |
| Services.StockService.constructor | StockAnalyzer.Windows/Services/StockService.cs:20 | a new service has made no calls and its counter is 0 |
| Services.StockService.GetStockPricesFor | StockAnalyzer.Windows/Services/StockService.cs:21-23 | each call increments the counter by one, wrapping as `int` does, and pauses for the old counter times 1000 ms, which is the pause of the call's position |

## Left out

- The HTTP request, `EnsureSuccessStatusCode`, the response body and the JSON deserialization of `StockService` (StockService.cs:24-32) are network I/O and an external library.
- Services.StockService.GetStockPricesFor: models only the pause and the counter. It returns the pause, not the quotes, because the quotes come from the network. It also assumes that calls on one instance do not overlap before their first `await`. `i++` is a read-modify-write that is not atomic, so two calls started on different threads can read the same `i`, wait equally long and advance the counter by one in total; the contract's one-step increment and the k-th call's k * 1000 ms pause then do not hold.
- `IStockService` is not a separate declaration. Both implementations keep its signature (ticker and token), but the interface itself is left out because it would need an abstract type with two implementations.
- `File.ReadAllLines`, `Task.Run`, `ContinueWith` and `Dispatcher.Invoke` are file I/O, threading and UI marshalling. The load is a function of the file's lines.
- `DateTime.ParseExact`, `Convert.ToInt32` and `Convert.ToDecimal` are library parsers. They are parameters that either yield a value or reject the text. The date format string is named in a comment, not passed to the parameter.
- `decimal` range and rounding are not modelled. `real` is exact and unbounded, so a value the library would reject as out of range is rejected only by the conversion parameter.
- The time `Task.Delay` actually waits, and cancellation through the token, are not modelled. The real service passes the token only to the HTTP call, which is left out.
- Stopwatch timing, the progress bar, status text and the rest of the window are UI.
- `Where` in the handler is lazy. It compares against `Ticker.Text` each time the grid enumerates it: first inside `Dispatcher.Invoke` after the load, and again whenever the view re-enumerates. The loaded records stay fixed, but the text box may by then hold something other than what it held at the click. The `ticker` argument of `QuoteCsv.SearchStocks` stands for `Ticker.Text` at the moment the grid enumerates the filter. A later change of the text box, and the re-filtering it causes, is not modelled.
