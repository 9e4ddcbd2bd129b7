/**
 * The CSV loading done by the main window's search handler: skip the header
 * line, split every other line on commas, strip quotes from each piece, read
 * fixed columns into a quote record, collect the records in file order, and
 * show only the records of the requested ticker.
 *
 * The three library conversions the handler calls are parameters: each one
 * either yields a value or rejects its text.
 */
module QuoteCsv {
  import opened Domain
  import opened Text

  /**
   * The library conversions, with the invariant culture:
   * `DateTime.ParseExact(text, "M/d/yyyy h:mm:ss tt")`, `Convert.ToInt32(text)`
   * and `Convert.ToDecimal(text)`. `None` stands for the exception each throws
   * on text it cannot convert (bad format or out of range).
   */
  datatype Converters = Converters(
    parseDate: string -> Option<DateTime>,
    toInt32: string -> Option<Int32>,
    toDecimal: string -> Option<real>)

  /** The columns the record is read from. */
  const TickerColumn: nat := 0
  const TradeDateColumn: nat := 1
  const VolumeColumn: nat := 6
  const ChangeColumn: nat := 7
  const ChangePercentColumn: nat := 8

  /** The record fields that go through a conversion. */
  datatype Field = TradeDateField | VolumeField | ChangeField | ChangePercentField

  /** Why a line cannot become a record; either one aborts the whole load. */
  datatype ParseError =
    | IndexOutOfRange(index: nat)   // the line has no column `index`
    | BadFormat(field: Field)       // the conversion for `field` rejected its text

  /** The pieces of a line with the quotes trimmed off each one. */
  function TrimEach(pieces: seq<string>): (segments: seq<string>)
    ensures |segments| == |pieces|
    ensures forall k | 0 <= k < |pieces| :: segments[k] == Trim(pieces[k])
  {
    seq(|pieces|, k requires 0 <= k < |pieces| => Trim(pieces[k]))
  }

  /**
   * The record for one line's trimmed pieces. The fields are filled in
   * order (ticker, trade date, volume, change, change percent), so the
   * first column that is missing or fails to convert decides the error.
   */
  function ToStockPrice(segments: seq<string>, conv: Converters): (r: Result<StockPrice, ParseError>)
    requires |segments| >= 1
    ensures r.Success? <==>
      |segments| > ChangePercentColumn &&
      conv.parseDate(segments[TradeDateColumn]).Some? &&
      conv.toInt32(segments[VolumeColumn]).Some? &&
      conv.toDecimal(segments[ChangeColumn]).Some? &&
      conv.toDecimal(segments[ChangePercentColumn]).Some?
    ensures r.Success? ==>
      r.value.Ticker == segments[TickerColumn] &&
      conv.parseDate(segments[TradeDateColumn]) == Some(r.value.TradeDate) &&
      conv.toInt32(segments[VolumeColumn]) == Some(r.value.Volume) &&
      conv.toDecimal(segments[ChangeColumn]) == Some(r.value.Change) &&
      conv.toDecimal(segments[ChangePercentColumn]) == Some(r.value.ChangePercent)
    ensures |segments| <= TradeDateColumn ==> r == Failure(IndexOutOfRange(TradeDateColumn))
  {
    if |segments| <= TradeDateColumn then Failure(IndexOutOfRange(TradeDateColumn))
    else match conv.parseDate(segments[TradeDateColumn])
      case None => Failure(BadFormat(TradeDateField))
      case Some(date) =>
        if |segments| <= VolumeColumn then Failure(IndexOutOfRange(VolumeColumn))
        else match conv.toInt32(segments[VolumeColumn])
          case None => Failure(BadFormat(VolumeField))
          case Some(volume) =>
            if |segments| <= ChangeColumn then Failure(IndexOutOfRange(ChangeColumn))
            else match conv.toDecimal(segments[ChangeColumn])
              case None => Failure(BadFormat(ChangeField))
              case Some(change) =>
                if |segments| <= ChangePercentColumn then Failure(IndexOutOfRange(ChangePercentColumn))
                else match conv.toDecimal(segments[ChangePercentColumn])
                  case None => Failure(BadFormat(ChangePercentField))
                  case Some(percent) => Success(StockPrice(segments[TickerColumn], date, volume, change, percent))
  }

  /** The record for one data line. */
  function ParseLine(line: string, conv: Converters): Result<StockPrice, ParseError>
  {
    ToStockPrice(TrimEach(Split(line, ',')), conv)
  }

  /** `ParseLine` with the conversions fixed, as a value the row loop can be given. */
  function LineParser(conv: Converters): string -> Result<StockPrice, ParseError>
  {
    line => ParseLine(line, conv)
  }

  /**
   * The records `parse` makes of `rows`, in order, or the error of the first
   * row it rejects; no partial list survives a failure.
   */
  function ParseRows(rows: seq<string>, parse: string -> Result<StockPrice, ParseError>): Result<seq<StockPrice>, ParseError>
  {
    if rows == [] then Success([])
    else match ParseRows(rows[..|rows| - 1], parse)
      case Failure(e) => Failure(e)
      case Success(prices) =>
        match parse(rows[|rows| - 1])
        case Failure(e) => Failure(e)
        case Success(price) => Success(prices + [price])
  }

  /** `lines.Skip(1)`: every line but the first. */
  function DataLines(lines: seq<string>): (rows: seq<string>)
    ensures |lines| <= 1 ==> rows == []
  {
    if lines == [] then [] else lines[1..]
  }

  /** What the search handler loads from the lines of the file: the header is skipped. */
  function ParseCsv(lines: seq<string>, conv: Converters): (r: Result<seq<StockPrice>, ParseError>)
    ensures |lines| <= 1 ==> r == Success([])
  {
    ParseRows(DataLines(lines), LineParser(conv))
  }

  /**
   * The loop of the search handler: for each line after the header, split it,
   * trim every piece in place, build the record and append it to `data`.
   * A line that cannot be read aborts the load.
   */
  method LoadStockPrices(lines: seq<string>, conv: Converters) returns (r: Result<seq<StockPrice>, ParseError>)
    ensures r == ParseCsv(lines, conv)
  {
    var rows := DataLines(lines);
    var data: seq<StockPrice> := [];
    for n := 0 to |rows|
      invariant ParseRows(rows[..n], LineParser(conv)) == Success(data)
    {
      var price := ReadLine(rows[n], conv);
      ParseRowsNext(rows, n, LineParser(conv), data, price);
      if price.Failure? {
        return Failure(price.error);
      }
      data := data + [price.value];
    }
    assert rows[..|rows|] == rows;
    r := Success(data);
  }

  /**
   * The body of the handler's loop for one line: split it on commas into an
   * array, trim the pieces in place, and fill in the record.
   */
  method ReadLine(line: string, conv: Converters) returns (price: Result<StockPrice, ParseError>)
    ensures price == LineParser(conv)(line)
  {
    var pieces := Split(line, ',');
    var segments := new string[|pieces|](k requires 0 <= k < |pieces| => pieces[k]);
    assert segments[..] == pieces;
    TrimSegments(segments);
    price := ToStockPrice(segments[..], conv);
  }

  /** The in-place pass over a split line that trims the quotes off every piece. */
  method TrimSegments(segments: array<string>)
    modifies segments
    ensures segments[..] == TrimEach(old(segments[..]))
  {
    for i := 0 to segments.Length
      invariant forall k | 0 <= k < i :: segments[k] == Trim(old(segments[k]))
      invariant forall k | i <= k < segments.Length :: segments[k] == old(segments[k])
    {
      segments[i] := Trim(segments[i]);
    }
  }

  /**
   * The grid shows the loaded records whose ticker equals the one typed in:
   * the handler's load followed by its `Where` filter.
   */
  method SearchStocks(lines: seq<string>, ticker: string, conv: Converters) returns (shown: Result<seq<StockPrice>, ParseError>)
    ensures shown.Success? <==> ParseCsv(lines, conv).Success?
    ensures shown.Success? ==> shown.value == WithTicker(ParseCsv(lines, conv).value, ticker)
  {
    var data := LoadStockPrices(lines, conv);
    if data.Failure? {
      return Failure(data.error);
    }
    shown := Success(WithTicker(data.value, ticker));
  }

  /** Reading one more row after a successful prefix appends its record or fails with its error. */
  lemma ParseRowsStep(rows: seq<string>, n: nat, parse: string -> Result<StockPrice, ParseError>)
    requires n < |rows|
    requires ParseRows(rows[..n], parse).Success?
    ensures parse(rows[n]).Failure? ==> ParseRows(rows[..n + 1], parse) == Failure(parse(rows[n]).error)
    ensures parse(rows[n]).Success? ==>
      ParseRows(rows[..n + 1], parse) == Success(ParseRows(rows[..n], parse).value + [parse(rows[n]).value])
  {
    assert rows[..n + 1][..n] == rows[..n];
  }

  /**
   * One turn of the load loop: after a successful prefix, a row that cannot be
   * read is the error of the whole load, and a readable one extends the prefix.
   */
  lemma ParseRowsNext(rows: seq<string>, n: nat, parse: string -> Result<StockPrice, ParseError>,
                      data: seq<StockPrice>, price: Result<StockPrice, ParseError>)
    requires n < |rows|
    requires ParseRows(rows[..n], parse) == Success(data)
    requires price == parse(rows[n])
    ensures price.Failure? ==> ParseRows(rows, parse) == Failure(price.error)
    ensures price.Success? ==> ParseRows(rows[..n + 1], parse) == Success(data + [price.value])
  {
    ParseRowsStep(rows, n, parse);
    if price.Failure? {
      ParseRowsFailurePersists(rows, n + 1, parse);
    }
  }

  /** Once a prefix of the rows fails, the rest of the rows are never looked at. */
  lemma {:induction false} ParseRowsFailurePersists(rows: seq<string>, n: nat, parse: string -> Result<StockPrice, ParseError>)
    requires n <= |rows|
    requires ParseRows(rows[..n], parse).Failure?
    ensures ParseRows(rows, parse) == ParseRows(rows[..n], parse)
  {
    if n < |rows| {
      var init := rows[..|rows| - 1];
      assert init[..n] == rows[..n];
      ParseRowsFailurePersists(init, n, parse);
    } else {
      assert rows[..n] == rows;
    }
  }

  /**
   * The load succeeds exactly when every row can be read, and then yields
   * one record per row, the k-th record being the k-th row's.
   */
  lemma {:induction false} ParseRowsAllRead(rows: seq<string>, parse: string -> Result<StockPrice, ParseError>)
    ensures ParseRows(rows, parse).Success? <==> forall k | 0 <= k < |rows| :: parse(rows[k]).Success?
    ensures ParseRows(rows, parse).Success? ==>
      |ParseRows(rows, parse).value| == |rows| &&
      forall k | 0 <= k < |rows| :: ParseRows(rows, parse).value[k] == parse(rows[k]).value
  {
    if rows != [] {
      var init := rows[..|rows| - 1];
      ParseRowsAllRead(init, parse);
      assert forall k | 0 <= k < |init| :: init[k] == rows[k];
    }
  }

  /** A failed load reports the error of the first row that cannot be read. */
  lemma {:induction false} ParseRowsFirstError(rows: seq<string>, parse: string -> Result<StockPrice, ParseError>)
    requires ParseRows(rows, parse).Failure?
    ensures exists k | 0 <= k < |rows| ::
      parse(rows[k]) == Failure(ParseRows(rows, parse).error) &&
      forall m | 0 <= m < k :: parse(rows[m]).Success?
  {
    var init := rows[..|rows| - 1];
    assert forall k | 0 <= k < |init| :: init[k] == rows[k];
    if ParseRows(init, parse).Failure? {
      ParseRowsFirstError(init, parse);
    } else {
      ParseRowsAllRead(init, parse);
    }
  }

  /**
   * When every line after the header is well formed, the load yields one
   * record per data line, in file order; the header is never read as data.
   */
  lemma ParseCsvWellFormed(lines: seq<string>, conv: Converters)
    requires forall k | 1 <= k < |lines| :: ParseLine(lines[k], conv).Success?
    ensures ParseCsv(lines, conv).Success?
    ensures |ParseCsv(lines, conv).value| == if lines == [] then 0 else |lines| - 1
    ensures forall k | 1 <= k < |lines| :: ParseCsv(lines, conv).value[k - 1] == ParseLine(lines[k], conv).value
  {
    var rows := DataLines(lines);
    assert forall k | 1 <= k < |lines| :: rows[k - 1] == lines[k];
    ParseRowsAllRead(rows, LineParser(conv));
  }

  /** A data line that cannot be read makes the whole load fail. */
  lemma ParseCsvBadLineFails(lines: seq<string>, k: nat, conv: Converters)
    requires 1 <= k < |lines|
    requires ParseLine(lines[k], conv).Failure?
    ensures ParseCsv(lines, conv).Failure?
  {
    var rows := DataLines(lines);
    assert rows[k - 1] == lines[k];
    ParseRowsAllRead(rows, LineParser(conv));
  }

  /** A data line with fewer than nine columns makes the whole load fail. */
  lemma ParseCsvShortLineFails(lines: seq<string>, k: nat, conv: Converters)
    requires 1 <= k < |lines|
    requires |Split(lines[k], ',')| <= ChangePercentColumn
    ensures ParseCsv(lines, conv).Failure?
  {
    ParseCsvBadLineFails(lines, k, conv);
  }

  /** The header line has no influence on the load. */
  lemma ParseCsvIgnoresHeader(header: string, other: string, rest: seq<string>, conv: Converters)
    ensures ParseCsv([header] + rest, conv) == ParseCsv([other] + rest, conv)
  {
    assert DataLines([header] + rest) == rest == DataLines([other] + rest);
  }

  /** Columns 2 to 5 are never read: lines that agree elsewhere give the same record. */
  lemma ToStockPriceIgnoresColumns2To5(segments: seq<string>, others: seq<string>, conv: Converters)
    requires |segments| == |others| >= 1
    requires forall k | 0 <= k < |segments| && (k < 2 || k > 5) :: segments[k] == others[k]
    ensures ToStockPrice(segments, conv) == ToStockPrice(others, conv)
  {
  }

  /** A line is split exactly into pieces that hold no comma themselves. */
  lemma ParseLineOfPieces(pieces: seq<string>, conv: Converters)
    requires |pieces| >= 1
    requires forall k | 0 <= k < |pieces| :: ',' !in pieces[k]
    ensures ParseLine(Join(pieces, ','), conv) == ToStockPrice(TrimEach(pieces), conv)
  {
    SplitJoin(pieces, ',');
  }

  /** Text a CSV writer can put in a column as it is: no comma, no quote at either end. */
  predicate PlainColumn(text: string)
  {
    ',' !in text && QuoteFreeEnds(text)
  }

  /** `text` in single quotes, as a CSV writer may emit a column. */
  function Quoted(text: string): string
  {
    "'" + text + "'"
  }

  /** The quotes around a plain column are exactly what the trim takes off again. */
  lemma TrimQuoted(text: string)
    requires PlainColumn(text)
    ensures ',' !in Quoted(text) && Trim(Quoted(text)) == text
  {
    var q := Quoted(text);
    TrimStripsWrapping("'", text, "'");
    assert forall k | 0 <= k < |q| :: k == 0 || k == |text| + 1 || q[k] == text[k - 1];
  }

  /** The pieces a record is written as: ticker and date quoted, filler, then the three numbers. */
  function WrittenPieces(ticker: string, dateText: string, filler: seq<string>,
                         volumeText: string, changeText: string, percentText: string): seq<string>
  {
    [Quoted(ticker), Quoted(dateText)] + filler + [volumeText, changeText, percentText]
  }

  /** Written pieces hold no comma, and trimming them gives back the plain column texts. */
  lemma WrittenPiecesTrim(ticker: string, dateText: string, filler: seq<string>,
                          volumeText: string, changeText: string, percentText: string)
    requires |filler| == 4 && forall k | 0 <= k < 4 :: ',' !in filler[k]
    requires PlainColumn(ticker) && PlainColumn(dateText)
    requires PlainColumn(volumeText) && PlainColumn(changeText) && PlainColumn(percentText)
    ensures var pieces := WrittenPieces(ticker, dateText, filler, volumeText, changeText, percentText);
      |pieces| == 9 && forall k | 0 <= k < 9 :: ',' !in pieces[k]
    ensures var segments := TrimEach(WrittenPieces(ticker, dateText, filler, volumeText, changeText, percentText));
      segments[0] == ticker && segments[1] == dateText &&
      segments[6] == volumeText && segments[7] == changeText && segments[8] == percentText
  {
    var pieces := WrittenPieces(ticker, dateText, filler, volumeText, changeText, percentText);
    assert pieces[0] == Quoted(ticker) && pieces[1] == Quoted(dateText);
    assert pieces[6] == volumeText && pieces[7] == changeText && pieces[8] == percentText;
    TrimQuoted(ticker);
    TrimQuoted(dateText);
    forall k | 0 <= k < 9 ensures ',' !in pieces[k] {
      if 2 <= k < 6 {
        assert pieces[k] == filler[k - 2];
      }
    }
    var segments := TrimEach(pieces);
    assert segments[0] == ticker && segments[1] == dateText;
    assert segments[6] == volumeText by { TrimKeepsUnquotedEnds(volumeText); }
    assert segments[7] == changeText by { TrimKeepsUnquotedEnds(changeText); }
    assert segments[8] == percentText by { TrimKeepsUnquotedEnds(percentText); }
  }

  /**
   * Writing a record's columns out as a line, ticker and date quoted, any
   * filler in columns 2 to 5, and loading the line gives the record back.
   */
  lemma ParseLineRoundTrip(price: StockPrice, dateText: string, filler: seq<string>,
                           volumeText: string, changeText: string, percentText: string, conv: Converters)
    requires |filler| == 4 && forall k | 0 <= k < 4 :: ',' !in filler[k]
    requires conv.parseDate(dateText) == Some(price.TradeDate)
    requires conv.toInt32(volumeText) == Some(price.Volume)
    requires conv.toDecimal(changeText) == Some(price.Change)
    requires conv.toDecimal(percentText) == Some(price.ChangePercent)
    requires PlainColumn(price.Ticker) && PlainColumn(dateText)
    requires PlainColumn(volumeText) && PlainColumn(changeText) && PlainColumn(percentText)
    ensures ParseLine(Join(WrittenPieces(price.Ticker, dateText, filler, volumeText, changeText, percentText), ','), conv)
         == Success(price)
  {
    var pieces := WrittenPieces(price.Ticker, dateText, filler, volumeText, changeText, percentText);
    WrittenPiecesTrim(price.Ticker, dateText, filler, volumeText, changeText, percentText);
    ParseLineOfPieces(pieces, conv);
  }
}
