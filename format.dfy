/**
 * The reply formatter: the totals table rendered as plain text, one line per
 * person and one indented line per category, every line ending in a line
 * feed, under a fixed header.
 */
module Format {
  import opened Amount
  import opened Text
  import opened Totals

  /** The text of the first line of every reply. */
  const Header: string := "Current spending totals:"

  /** The three kinds of line the reply is made of. */
  datatype Line = HeaderLine | PersonLine(name: string) | CategoryLine(category: string, total: Num)

  /** The text of a line: the header, `${person}:`, or
      ` ${cat}: ${total.toFixed(2)}` with a single leading space. */
  function Render(line: Line): string {
    match line
    case HeaderLine => Header
    case PersonLine(name) => name + ":"
    case CategoryLine(category, total) => " " + category + ": " + NumText(total)
  }

  /** One line per category, in key order. */
  function CategoryLines(cs: seq<CategoryTotal>): seq<Line> {
    if cs == [] then []
    else CategoryLines(cs[..|cs| - 1]) + [CategoryLine(cs[|cs| - 1].category, cs[|cs| - 1].total)]
  }

  /** A person's line followed by that person's category lines. */
  function PersonBlock(p: PersonTotals): seq<Line> {
    [PersonLine(p.name)] + CategoryLines(p.categories)
  }

  /** The blocks of all people, in key order. */
  function BodyLines(t: Table): seq<Line> {
    if t == [] then [] else BodyLines(t[..|t| - 1]) + PersonBlock(t[|t| - 1])
  }

  /** Every line of the reply, header first. */
  function Lines(t: Table): seq<Line> {
    [HeaderLine] + BodyLines(t)
  }

  /** The text of each line, in order. */
  function Rendered(lines: seq<Line>): seq<string> {
    if lines == [] then [] else [Render(lines[0])] + Rendered(lines[1..])
  }

  /** The lines' text, each followed by a line feed. */
  function Terminated(lines: seq<Line>): string {
    if lines == [] then [] else Render(lines[0]) + "\n" + Terminated(lines[1..])
  }

  /** The reply the bot sends for the table. */
  function Message(t: Table): string {
    Terminated(Lines(t))
  }

  /** The number of (person, category) buckets in the table. */
  function Pairs(t: Table): nat {
    if t == [] then 0 else Pairs(t[..|t| - 1]) + |t[|t| - 1].categories|
  }

  // ---------------------------------------------------------------------
  // The loop that builds the reply

  /**
   * `formatTotalsMessage`: the header, then for each person in key order the
   * person's line and one line per category in key order, appended to the
   * message one line at a time.
   */
  method FormatTotalsMessage(totals: Table) returns (msg: string)
    ensures msg == Message(totals)
  {
    msg := Header + "\n";
    assert msg == Terminated(Lines(totals[..0]));
    for i := 0 to |totals|
      invariant msg == Terminated(Lines(totals[..i]))
    {
      var p := totals[i];
      ghost var before := msg;
      var head := p.name + ":";
      assert head == Render(PersonLine(p.name));
      msg := msg + head + "\n";
      ghost var start := msg;
      assert p.categories[..0] == [];
      for j := 0 to |p.categories|
        invariant msg == start + Terminated(CategoryLines(p.categories[..j]))
      {
        var ct := p.categories[j];
        var line := " " + ct.category + ": " + NumText(ct.total);
        assert line == Render(CategoryLine(ct.category, ct.total));
        AppendLine(start, msg, CategoryLines(p.categories[..j]), CategoryLine(ct.category, ct.total));
        CategoryLinesSnoc(p.categories, j);
        msg := msg + line + "\n";
      }
      assert p.categories[..|p.categories|] == p.categories;
      LinesSnoc(totals, i);
      Regroup(before, head, "\n", Terminated(CategoryLines(p.categories)));
    }
    assert totals[..|totals|] == totals;
  }

  /** Appending a line's text and a line feed to the text of some lines gives
      the text of the lines with that line added. */
  lemma AppendLine(start: string, msg: string, lines: seq<Line>, line: Line)
    requires msg == start + Terminated(lines)
    ensures msg + Render(line) + "\n" == start + Terminated(lines + [line])
  {
    TerminatedSnoc(lines, line);
    Regroup(start, Terminated(lines), Render(line), "\n");
  }

  /** A proof hint: regrouping a concatenation of four strings.  Naming it
      keeps the solver from searching for the regrouping inside the loops. */
  lemma Regroup(a: string, b: string, c: string, d: string)
    ensures a + b + c + d == a + (b + c + d)
  {
  }

  /** One more category adds its line at the end. */
  lemma CategoryLinesSnoc(cs: seq<CategoryTotal>, j: nat)
    requires j < |cs|
    ensures CategoryLines(cs[..j + 1]) == CategoryLines(cs[..j]) + [CategoryLine(cs[j].category, cs[j].total)]
  {
    assert cs[..j + 1][..j] == cs[..j];
  }

  /** One more person adds that person's line and category lines at the end. */
  lemma LinesSnoc(t: Table, i: nat)
    requires i < |t|
    ensures Terminated(Lines(t[..i + 1])) ==
              Terminated(Lines(t[..i])) + (Render(PersonLine(t[i].name)) + "\n" + Terminated(CategoryLines(t[i].categories)))
  {
    assert t[..i + 1][..i] == t[..i];
    var block := PersonBlock(t[i]);
    assert Lines(t[..i + 1]) == Lines(t[..i]) + block;
    TerminatedAppend(Lines(t[..i]), block);
    TerminatedAppend([PersonLine(t[i].name)], CategoryLines(t[i].categories));
    assert Terminated([PersonLine(t[i].name)]) == Render(PersonLine(t[i].name)) + "\n";
  }

  lemma {:induction false} TerminatedAppend(a: seq<Line>, b: seq<Line>)
    ensures Terminated(a + b) == Terminated(a) + Terminated(b)
  {
    if a == [] {
      assert a + b == b;
    } else {
      assert (a + b)[1..] == a[1..] + b;
      TerminatedAppend(a[1..], b);
    }
  }

  /** One more line adds its text and a line feed at the end. */
  lemma TerminatedSnoc(lines: seq<Line>, line: Line)
    ensures Terminated(lines + [line]) == Terminated(lines) + Render(line) + "\n"
  {
    TerminatedAppend(lines, [line]);
    assert [line][1..] == [];
  }

  // ---------------------------------------------------------------------
  // The shape of the reply

  /** The reply starts with the header line. */
  lemma MessageStartsWithHeader(t: Table)
    ensures Header + "\n" <= Message(t)
    ensures Lines(t)[0] == HeaderLine
  {
    assert Lines(t)[1..] == BodyLines(t);
  }

  lemma {:induction false} CategoryLinesLength(cs: seq<CategoryTotal>)
    ensures |CategoryLines(cs)| == |cs|
  {
    if cs != [] {
      CategoryLinesLength(cs[..|cs| - 1]);
    }
  }

  /** One header line, one line per person and one line per bucket. */
  lemma {:induction false} LineCount(t: Table)
    ensures |Lines(t)| == 1 + |t| + Pairs(t)
  {
    BodyLineCount(t);
  }

  lemma {:induction false} BodyLineCount(t: Table)
    ensures |BodyLines(t)| == |t| + Pairs(t)
  {
    if t != [] {
      BodyLineCount(t[..|t| - 1]);
      CategoryLinesLength(t[|t| - 1].categories);
    }
  }

  lemma {:induction false} CategoryLineAt(cs: seq<CategoryTotal>, j: nat)
    requires j < |cs|
    ensures |CategoryLines(cs)| == |cs|
    ensures CategoryLines(cs)[j] == CategoryLine(cs[j].category, cs[j].total)
  {
    CategoryLinesLength(cs);
    if j < |cs| - 1 {
      CategoryLineAt(cs[..|cs| - 1], j);
    }
  }

  lemma {:induction false} BodyLinesPrefix(t: Table, i: nat)
    requires i <= |t|
    ensures BodyLines(t[..i]) <= BodyLines(t)
  {
    if i < |t| {
      var init := t[..|t| - 1];
      assert init[..i] == t[..i];
      BodyLinesPrefix(init, i);
    } else {
      assert t[..i] == t;
    }
  }

  /** The `m`-th line of person `i`'s block sits after the header and the
      blocks of the people before it. */
  lemma BlockLineAt(t: Table, i: nat, m: nat)
    requires i < |t| && m < |PersonBlock(t[i])|
    ensures 1 + i + Pairs(t[..i]) + m < |Lines(t)|
    ensures Lines(t)[1 + i + Pairs(t[..i]) + m] == PersonBlock(t[i])[m]
  {
    var upto := t[..i + 1];
    assert upto[..i] == t[..i];
    BodyLineCount(t[..i]);
    BodyLinesPrefix(t, i + 1);
    var block := PersonBlock(t[i]);
    var k := |BodyLines(t[..i])|;
    assert BodyLines(upto) == BodyLines(t[..i]) + block;
    assert BodyLines(upto)[k + m] == block[m];
    assert Lines(t)[1 + k + m] == BodyLines(t)[k + m];
  }

  /**
   * Where each line sits: person `i`'s line comes after the header and the
   * blocks of the people before it, and that person's category `j` follows
   * `j` lines later.
   */
  lemma LinePositions(t: Table, i: nat, j: nat)
    requires i < |t|
    ensures 1 + i + Pairs(t[..i]) < |Lines(t)|
    ensures Lines(t)[1 + i + Pairs(t[..i])] == PersonLine(t[i].name)
    ensures j < |t[i].categories| ==>
              2 + i + Pairs(t[..i]) + j < |Lines(t)| &&
              Lines(t)[2 + i + Pairs(t[..i]) + j] == CategoryLine(t[i].categories[j].category, t[i].categories[j].total)
  {
    BlockLineAt(t, i, 0);
    if j < |t[i].categories| {
      CategoryLineAt(t[i].categories, j);
      BlockLineAt(t, i, 1 + j);
    }
  }

  // ---------------------------------------------------------------------
  // Reading the reply back

  /** No name and no category in the table holds a line feed. */
  predicate SingleLineKeys(t: Table) {
    forall i :: 0 <= i < |t| ==>
      '\n' !in t[i].name &&
      forall j :: 0 <= j < |t[i].categories| ==> '\n' !in t[i].categories[j].category
  }

  /** A line of the reply whose name or category holds no line feed. */
  predicate SingleLine(line: Line) {
    match line
    case HeaderLine => true
    case PersonLine(name) => '\n' !in name
    case CategoryLine(category, _) => '\n' !in category
  }

  /** Such a line's text holds no line feed. */
  lemma RenderSingle(line: Line)
    requires SingleLine(line)
    ensures '\n' !in Render(line)
  {
    if line.CategoryLine? {
      NumTextHasNo(line.total, '\n');
    }
  }

  lemma {:induction false} RenderedLength(lines: seq<Line>)
    ensures |Rendered(lines)| == |lines|
  {
    if lines != [] {
      RenderedLength(lines[1..]);
    }
  }

  lemma {:induction false} TerminatedIsJoin(lines: seq<Line>)
    ensures Terminated(lines) == Join(Rendered(lines) + [""], '\n')
  {
    if lines != [] {
      TerminatedIsJoin(lines[1..]);
      assert (Rendered(lines) + [""])[1..] == Rendered(lines[1..]) + [""];
    }
  }

  lemma {:induction false} RenderedSingle(lines: seq<Line>)
    requires forall k :: 0 <= k < |lines| ==> SingleLine(lines[k])
    ensures forall k :: 0 <= k < |Rendered(lines)| ==> '\n' !in Rendered(lines)[k]
  {
    if lines != [] {
      RenderedSingle(lines[1..]);
      RenderSingle(lines[0]);
    }
  }

  lemma {:induction false} CategoryLinesSingle(cs: seq<CategoryTotal>)
    requires forall j :: 0 <= j < |cs| ==> '\n' !in cs[j].category
    ensures forall k :: 0 <= k < |CategoryLines(cs)| ==> SingleLine(CategoryLines(cs)[k])
  {
    if cs != [] {
      CategoryLinesSingle(cs[..|cs| - 1]);
    }
  }

  lemma {:induction false} BodyLinesSingle(t: Table)
    requires SingleLineKeys(t)
    ensures forall k :: 0 <= k < |BodyLines(t)| ==> SingleLine(BodyLines(t)[k])
  {
    if t != [] {
      assert SingleLineKeys(t[..|t| - 1]);
      BodyLinesSingle(t[..|t| - 1]);
      CategoryLinesSingle(t[|t| - 1].categories);
    }
  }

  /** Split at its line feeds, the reply gives back the text of its lines,
      followed by the empty piece after the last line feed. */
  lemma SplitMessage(t: Table)
    requires SingleLineKeys(t)
    ensures Split(Message(t), '\n') == Rendered(Lines(t)) + [""]
  {
    var lines := Lines(t);
    TerminatedIsJoin(lines);
    BodyLinesSingle(t);
    assert forall k :: 0 <= k < |lines| ==> SingleLine(lines[k]) by {
      forall k | 0 <= k < |lines| ensures SingleLine(lines[k]) {
        if k > 0 {
          assert lines[k] == BodyLines(t)[k - 1];
        }
      }
    }
    RenderedSingle(lines);
    var parts := Rendered(lines) + [""];
    assert forall k :: 0 <= k < |parts| ==> '\n' !in parts[k] by {
      forall k | 0 <= k < |parts| ensures '\n' !in parts[k] {
        if k < |parts| - 1 {
          assert parts[k] == Rendered(lines)[k];
        }
      }
    }
    SplitJoin(parts, '\n');
  }

  // ---------------------------------------------------------------------
  // Every bucket is reported

  lemma {:induction false} FindPersonAt(t: Table, n: string)
    requires FindPerson(t, n).Some?
    ensures exists i :: 0 <= i < |t| && t[i].name == n && t[i].categories == FindPerson(t, n).value
  {
    if t[0].name != n {
      FindPersonAt(t[1..], n);
      var i :| 0 <= i < |t| - 1 && t[1..][i].name == n && t[1..][i].categories == FindPerson(t, n).value;
      assert t[i + 1] == t[1..][i];
    }
  }

  lemma {:induction false} FindTotalAt(cs: seq<CategoryTotal>, c: string)
    requires FindTotal(cs, c).Some?
    ensures exists j :: 0 <= j < |cs| && cs[j] == CategoryTotal(c, FindTotal(cs, c).value)
  {
    if cs[0].category != c {
      FindTotalAt(cs[1..], c);
      var j :| 0 <= j < |cs| - 1 && cs[1..][j] == CategoryTotal(c, FindTotal(cs, c).value);
      assert cs[j + 1] == cs[1..][j];
    }
  }

  /** Every bucket of the table is reported: its person's line, and after it
      the line of the category with its total. */
  lemma BucketHasLine(t: Table, n: string, c: string)
    requires Lookup(t, n, c).Some?
    ensures exists k, m :: 0 < k < m < |Lines(t)| && Lines(t)[k] == PersonLine(n)
                           && Lines(t)[m] == CategoryLine(c, Lookup(t, n, c).value)
  {
    FindPersonAt(t, n);
    var i :| 0 <= i < |t| && t[i].name == n && t[i].categories == FindPerson(t, n).value;
    FindTotalAt(t[i].categories, c);
    var j :| 0 <= j < |t[i].categories| && t[i].categories[j] == CategoryTotal(c, Lookup(t, n, c).value);
    LinePositions(t, i, j);
  }
}
