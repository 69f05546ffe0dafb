/** CreateCsvData (FormQRtoCSV.cs): one scanned transaction code becomes one
    CSV record of seven quoted fields. */
module CsvRecord {
  import opened Wrappers
  import opened Text
  import opened Clock
  import opened Fields

  /** The four values read from the [CsvData] section of config.ini. */
  datatype OperatorContext = OperatorContext(shopNo: string, posNo: string,
                                             casherCode: string, casherName: string)

  /** The one way building a record fails: the scan is empty once trimmed. */
  datatype RecordError = EmptyTransactionNo

  /** The record's fields in their fixed order: date, time, transaction
      number, shop number, POS number, cashier code, cashier name. */
  function RecordFields(date: string, time: string, transactionNo: string,
                        ctx: OperatorContext): (r: seq<string>)
    ensures |r| == 7
  {
    [date, time, transactionNo, ctx.shopNo, ctx.posNo, ctx.casherCode, ctx.casherName]
  }

  /** Builds the record from the scan text, the configured context and the
      clock reading taken for it. It fails exactly when the scan is blank, and
      otherwise gives the record line of the trimmed scan. */
  function CreateCsvData(scanText: string, ctx: OperatorContext, now: DateTime)
    : (r: Result<string, RecordError>)
    requires Valid(now)
    ensures r.Failure? <==> IsBlank(scanText)
    ensures r.Failure? ==> r.error == EmptyTransactionNo
    ensures r.Success? ==> r.value == RecordLine(Trim(scanText), ctx, now)
  {
    var transactionNo := Trim(scanText);
    if transactionNo == [] then Failure(EmptyTransactionNo)
    else Success(RecordLine(transactionNo, ctx, now))
  }

  /** The record for a non-empty transaction number: the seven fields quoted
      and joined, opening and closing with a quote and with no line
      terminator after it. */
  function RecordLine(transactionNo: string, ctx: OperatorContext, now: DateTime): (r: string)
    requires Valid(now)
    ensures |r| >= 2 && r[0] == QuoteChar && r[|r| - 1] == QuoteChar
  {
    QuoteJoin(RecordFields(FormatDate(now), FormatTime(now), transactionNo, ctx))
  }

  /** No field of the record contains a quote, so it reads back unambiguously. */
  predicate FieldsQuoteFree(scanText: string, ctx: OperatorContext) {
    && QuoteFree(Trim(scanText))
    && QuoteFree(ctx.shopNo) && QuoteFree(ctx.posNo)
    && QuoteFree(ctx.casherCode) && QuoteFree(ctx.casherName)
  }

  /** Reading a record back gives exactly the seven fields in the fixed
      order: the printed date and time of the clock reading, the trimmed scan
      text, then the four context values unchanged. */
  lemma CsvDataFields(scanText: string, ctx: OperatorContext, now: DateTime)
    requires Valid(now) && !IsBlank(scanText)
    requires FieldsQuoteFree(scanText, ctx)
    ensures var r := CreateCsvData(scanText, ctx, now);
      && r.Success?
      && ParseQuoted(r.value) ==
           Some([FormatDate(now), FormatTime(now), Trim(scanText),
                 ctx.shopNo, ctx.posNo, ctx.casherCode, ctx.casherName])
  {
    var fields := RecordFields(FormatDate(now), FormatTime(now), Trim(scanText), ctx);
    assert CreateCsvData(scanText, ctx, now) == Success(RecordLine(Trim(scanText), ctx, now));
    DateQuoteFree(now);
    TimeQuoteFree(now);
    RecordFieldsQuoteFree(FormatDate(now), FormatTime(now), Trim(scanText), ctx);
    ParseQuoteJoin(fields);
  }

  /** Seven quote-free values make seven quote-free fields. */
  lemma RecordFieldsQuoteFree(date: string, time: string, transactionNo: string,
                              ctx: OperatorContext)
    requires QuoteFree(date) && QuoteFree(time) && QuoteFree(transactionNo)
    requires QuoteFree(ctx.shopNo) && QuoteFree(ctx.posNo)
    requires QuoteFree(ctx.casherCode) && QuoteFree(ctx.casherName)
    ensures var fields := RecordFields(date, time, transactionNo, ctx);
      forall k :: 0 <= k < |fields| ==> QuoteFree(fields[k])
  {
  }

  /** The record's transaction field is the scan text with surrounding white
      space removed, and nothing else: two scans that trim alike give the same
      record, and scans that trim differently give different records. */
  lemma CsvDataDependsOnTrimmedScan(a: string, b: string, ctx: OperatorContext, now: DateTime)
    requires Valid(now)
    ensures CreateCsvData(a, ctx, now) == CreateCsvData(b, ctx, now) <==> Trim(a) == Trim(b)
  {
    if !IsBlank(a) && !IsBlank(b) && CreateCsvData(a, ctx, now) == CreateCsvData(b, ctx, now) {
      RecordLineAround(Trim(a), ctx, now);
      RecordLineAround(Trim(b), ctx, now);
      CancelAround(RecordHead(now), Trim(a), Trim(b), RecordTail(ctx));
    }
  }

  /** What comes before the transaction number in every record of one clock reading. */
  function RecordHead(now: DateTime): string
    requires Valid(now)
  {
    Quote(FormatDate(now)) + "," + Quote(FormatTime(now)) + "," + [QuoteChar]
  }

  /** What comes after the transaction number in every record of one context. */
  function RecordTail(ctx: OperatorContext): string
  {
    [QuoteChar] + "," + QuoteJoin([ctx.shopNo, ctx.posNo, ctx.casherCode, ctx.casherName])
  }

  /** A record is a fixed head, the transaction number, and a fixed tail. */
  lemma RecordLineAround(transactionNo: string, ctx: OperatorContext, now: DateTime)
    requires Valid(now)
    ensures RecordLine(transactionNo, ctx, now) == RecordHead(now) + transactionNo + RecordTail(ctx)
  {
    var fields := RecordFields(FormatDate(now), FormatTime(now), transactionNo, ctx);
    var tail := [ctx.shopNo, ctx.posNo, ctx.casherCode, ctx.casherName];
    assert fields[1..][1..][1..] == tail;
    assert QuoteJoin(fields[1..][1..]) == Quote(transactionNo) + "," + QuoteJoin(tail);
    assert QuoteJoin(fields[1..]) == Quote(FormatTime(now)) + "," + QuoteJoin(fields[1..][1..]);
    assert QuoteJoin(fields) == Quote(FormatDate(now)) + "," + QuoteJoin(fields[1..]);
  }

  /** The same head and tail around two strings give the same result only for equal strings. */
  lemma CancelAround(head: string, x: string, y: string, tail: string)
    requires head + x + tail == head + y + tail
    ensures x == y
  {
    assert |x| == |y|;
    assert x == (head + x + tail)[|head|..|head| + |x|];
    assert y == (head + y + tail)[|head|..|head| + |y|];
  }
}
