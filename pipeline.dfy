/**
 * The whole pipeline for one incoming message: parse it, append the entry
 * to the sheet with the given date, aggregate every row and format the
 * reply.  The date is a parameter (the bot takes it from the clock).
 */
module Pipeline {
  import opened Wrappers
  import opened Parser
  import opened Ledger
  import opened Totals
  import opened Format

  /** `addEntryAndGetTotals`: the entry's row goes after every stored row,
      and the totals are those of all rows, the new one included. */
  method AddEntryAndGetTotals(sheet: Sheet, e: Entry, date: string) returns (totals: Table)
    modifies sheet
    ensures sheet.rows == old(sheet.rows) + [EntryRow(e, date)]
    ensures totals == TotalsOf(sheet.rows)
  {
    sheet.AddRow(EntryRow(e, date));
    var rows := sheet.GetRows();
    totals := AggregateTotals(rows);
  }

  /**
   * `processMessage`: text that does not parse leaves the sheet alone and
   * yields the parser's error; otherwise the entry is appended and the reply
   * is the formatted totals of every row.
   */
  method ProcessMessage(sheet: Sheet, text: string, date: string) returns (reply: Result<string, ParseError>)
    modifies sheet
    ensures ParseInput(text).Err? ==> reply == Err(ParseInput(text).error) && sheet.rows == old(sheet.rows)
    ensures ParseInput(text).Ok? ==>
              && sheet.rows == old(sheet.rows) + [EntryRow(ParseInput(text).value, date)]
              && reply == Ok(Message(TotalsOf(sheet.rows)))
  {
    match ParseInput(text)
    case Err(error) =>
      reply := Err(error);
    case Ok(e) =>
      var totals := AddEntryAndGetTotals(sheet, e, date);
      var msg := FormatTotalsMessage(totals);
      reply := Ok(msg);
  }

  /** The reply to an accepted entry reports the entry's bucket: its person's
      line, and after it the category's line with the new total. */
  lemma ReplyReportsEntry(rows: seq<Row>, e: Entry, date: string)
    ensures Lookup(TotalsOf(rows + [EntryRow(e, date)]), e.name, e.category).Some?
    ensures exists k, m :: 0 < k < m < |Lines(TotalsOf(rows + [EntryRow(e, date)]))|
              && Lines(TotalsOf(rows + [EntryRow(e, date)]))[k] == PersonLine(e.name)
              && Lines(TotalsOf(rows + [EntryRow(e, date)]))[m] ==
                   CategoryLine(e.category, Lookup(TotalsOf(rows + [EntryRow(e, date)]), e.name, e.category).value)
  {
    var t := TotalsOf(rows + [EntryRow(e, date)]);
    EntryRowReadsBack(e, date);
    AppendRow(rows, EntryRow(e, date), e.name, e.category);
    BucketHasLine(t, e.name, e.category);
  }
}
