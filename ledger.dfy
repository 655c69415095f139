/**
 * The spreadsheet that backs the ledger, as the bot uses it: an append-only
 * sequence of rows whose cells are, by position, Name, Date, Amount and
 * Category.  Appending one row and reading every row are its only
 * operations; authentication, the network and the spreadsheet's own cell
 * formatting are not part of this model.
 */
module Ledger {
  import opened Amount
  import opened Parser

  /** One spreadsheet row: the text of its cells by position. */
  datatype Row = Row(cells: seq<string>)

  /** The row that is appended for an entry made on `date`: the name, the
      date, the amount written with two decimals, the category. */
  function EntryRow(e: Entry, date: string): Row {
    Row([e.name, date, FormatCents(e.amount), e.category])
  }

  /** The first sheet of the spreadsheet, holding the ledger's rows in storage order. */
  class Sheet {
    var rows: seq<Row>

    constructor (initial: seq<Row>)
      ensures rows == initial
    {
      rows := initial;
    }

    /** `sheet.addRow(...)`: the row goes after every row already stored. */
    method AddRow(row: Row)
      modifies this
      ensures rows == old(rows) + [row]
    {
      rows := rows + [row];
    }

    /** `sheet.getRows()`: every stored row, in storage order. */
    method GetRows() returns (all: seq<Row>)
      ensures all == rows
    {
      all := rows;
    }
  }
}
