/**
 * The input parser: free text of the form "name, category, amount" becomes a
 * validated entry, or the reason it was refused.
 */
module Parser {
  import opened Wrappers
  import opened Text
  import opened Amount

  /** A validated expense entry: who spent, on what, and how much (in cents). */
  datatype Entry = Entry(name: string, category: string, amount: int)

  /** Why the text was refused: the four errors the parser throws. */
  datatype ParseError = EmptyInput | WrongFieldCount | MissingFields | InvalidAmount

  /** A name or category as the parser hands it on: not empty, free of commas
      and of surrounding whitespace. */
  predicate ValidField(s: string) {
    s != "" && ',' !in s && !Padded(s)
  }

  /**
   * Parses "name, category, amount".  The text is refused when it is empty or
   * does not hold exactly two commas; otherwise the three trimmed parts
   * decide.  An accepted entry's name and category are valid fields.
   */
  function ParseInput(text: string): (r: Result<Entry, ParseError>)
    ensures r == Err(EmptyInput) <==> text == ""
    ensures r == Err(WrongFieldCount) <==> text != "" && Count(text, ',') != 2
    ensures r.Ok? ==> ValidField(r.value.name) && ValidField(r.value.category)
  {
    if text == "" then Err(EmptyInput)
    else
      var parts := Split(text, ',');
      if |parts| != 3 then Err(WrongFieldCount)
      else
        TrimKeepsOut(parts[0], ',');
        TrimKeepsOut(parts[1], ',');
        ParseFields(Trim(parts[0]), Trim(parts[1]), Trim(parts[2]))
  }

  /** The three trimmed parts to an entry: none may be empty, and the last
      must be a number. */
  function ParseFields(name: string, category: string, amountText: string): (r: Result<Entry, ParseError>)
    ensures r.Ok? <==> name != "" && category != "" && amountText != "" && ParseCents(amountText).Some?
    ensures r.Ok? ==> r.value == Entry(name, category, ParseCents(amountText).value)
    ensures r.Err? ==> r.error == (if name == "" || category == "" || amountText == "" then MissingFields else InvalidAmount)
  {
    if name == "" || category == "" || amountText == "" then Err(MissingFields)
    else
      match ParseCents(amountText)
      case None => Err(InvalidAmount)
      case Some(amount) => Ok(Entry(name, category, amount))
  }

  /** A refusal for a missing field is exactly a blank part among three. */
  lemma MissingFieldsExactly(text: string)
    ensures ParseInput(text) == Err(MissingFields) <==>
              && text != "" && Count(text, ',') == 2
              && (IsBlank(Split(text, ',')[0]) || IsBlank(Split(text, ',')[1]) || IsBlank(Split(text, ',')[2]))
  {
    if text != "" && Count(text, ',') == 2 {
      var parts := Split(text, ',');
      assert ParseInput(text) == ParseFields(Trim(parts[0]), Trim(parts[1]), Trim(parts[2]));
    }
  }

  /** A refusal for a bad amount is exactly three non-blank parts whose last
      one, trimmed, is not a number. */
  lemma InvalidAmountExactly(text: string)
    ensures ParseInput(text) == Err(InvalidAmount) <==>
              && text != "" && Count(text, ',') == 2
              && !IsBlank(Split(text, ',')[0]) && !IsBlank(Split(text, ',')[1]) && !IsBlank(Split(text, ',')[2])
              && ParseCents(Trim(Split(text, ',')[2])).None?
  {
    if text != "" && Count(text, ',') == 2 {
      var parts := Split(text, ',');
      assert ParseInput(text) == ParseFields(Trim(parts[0]), Trim(parts[1]), Trim(parts[2]));
    }
  }

  /** What an accepted entry was read from: three comma-free parts joined by
      commas, whose trimmed forms are the name, the category and a numeral of
      the amount. */
  lemma ParsedFrom(text: string, e: Entry)
    requires ParseInput(text) == Ok(e)
    ensures exists p0, p1, p2 ::
              && text == Join([p0, p1, p2], ',')
              && ',' !in p0 && ',' !in p1 && ',' !in p2
              && Trim(p0) == e.name && Trim(p1) == e.category
              && ParseCents(Trim(p2)) == Some(e.amount)
  {
    var parts := Split(text, ',');
    assert parts == [parts[0], parts[1], parts[2]];
  }

  /** Conversely, three comma-free parts whose trimmed forms are a name, a
      category and a numeral are accepted as that entry. */
  lemma ParseJoined(p0: string, p1: string, p2: string, amount: int)
    requires ',' !in p0 && ',' !in p1 && ',' !in p2
    requires Trim(p0) != "" && Trim(p1) != "" && ParseCents(Trim(p2)) == Some(amount)
    ensures ParseInput(Join([p0, p1, p2], ',')) == Ok(Entry(Trim(p0), Trim(p1), amount))
  {
    var text := Join([p0, p1, p2], ',');
    SplitThree(p0, p1, p2);
    var name, category, amountText := Trim(p0), Trim(p1), Trim(p2);
    assert amountText != "";
    assert ParseFields(name, category, amountText) == Ok(Entry(name, category, amount));
    assert ParseInput(text) == ParseFields(name, category, amountText);
  }

  lemma SplitThree(p0: string, p1: string, p2: string)
    requires ',' !in p0 && ',' !in p1 && ',' !in p2
    ensures Join([p0, p1, p2], ',') != ""
    ensures Split(Join([p0, p1, p2], ','), ',') == [p0, p1, p2]
  {
    JoinThree(p0, p1, p2, ',');
    SplitJoin([p0, p1, p2], ',');
  }

  /** The canonical text of an entry, as a user would type it. */
  function EntryText(e: Entry): string {
    e.name + ", " + e.category + ", " + FormatCents(e.amount)
  }

  /** An entry with valid fields survives being written out and parsed back. */
  lemma EntryTextRoundTrip(e: Entry)
    requires ValidField(e.name) && ValidField(e.category)
    ensures ParseInput(EntryText(e)) == Ok(e)
  {
    var amountText := FormatCents(e.amount);
    var p1, p2 := " " + e.category, " " + amountText;
    JoinThree(e.name, p1, p2, ',');
    assert EntryText(e) == Join([e.name, p1, p2], ',');
    FormatCentsUnpadded(e.amount);
    TrimLeadingSpace(e.category);
    TrimLeadingSpace(amountText);
    FormatThenParse(e.amount);
    ParseJoined(e.name, p1, p2, e.amount);
  }

  /** The printed amount is a field on its own: no comma, no surrounding whitespace. */
  lemma FormatCentsUnpadded(c: int)
    ensures ',' !in FormatCents(c) && FormatCents(c) != "" && !Padded(FormatCents(c))
  {
    var s := FormatCents(c);
    assert !IsWhitespace(s[0]) && !IsWhitespace(s[|s| - 1]);
  }

  /** One space in front of unpadded text is trimmed away. */
  lemma TrimLeadingSpace(s: string)
    requires s != "" && !Padded(s)
    ensures Trim(" " + s) == s
  {
    var t := " " + s;
    assert t[1..] == s;
    assert FirstNonBlank(t) == 1;
    assert EndNonBlank(s) == |s|;
  }
}
