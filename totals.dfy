/**
 * The totals aggregator: every row of the ledger is folded into a nested
 * table `name -> category -> total`.  The table is a JavaScript object of
 * objects, so its keys keep the order in which they were first inserted;
 * the model makes that order explicit with association lists.
 */
module Totals {
  import opened Wrappers
  import opened Amount
  import opened Ledger
  import Parser

  /** One `category: total` entry of a person's inner object. */
  datatype CategoryTotal = CategoryTotal(category: string, total: Num)

  /** One `name: { ... }` entry of the outer object. */
  datatype PersonTotals = PersonTotals(name: string, categories: seq<CategoryTotal>)

  /** The totals object, entries in insertion order. */
  type Table = seq<PersonTotals>

  // ---------------------------------------------------------------------
  // Reading a row by position

  /** Cell 0, or "undefined" (the property key JavaScript makes of a missing cell). */
  function NameOf(row: Row): string {
    if |row.cells| > 0 then row.cells[0] else "undefined"
  }

  /** Cell 3, or "undefined" when the row is shorter. */
  function CategoryOf(row: Row): string {
    if |row.cells| > 3 then row.cells[3] else "undefined"
  }

  /** Cell 2 read as a rounded number; a missing or empty cell counts as 0,
      text that is not a number gives NaN. */
  function AmountOf(row: Row): Num {
    if |row.cells| <= 2 || row.cells[2] == "" then Cents(0)
    else
      match ParseCents(row.cells[2])
      case Some(c) => Cents(c)
      case None => NaN
  }

  /** A missing or empty amount cell counts 0; any other cell is NaN exactly
      when it is not decimal text. */
  lemma AmountOfCell(row: Row)
    ensures |row.cells| <= 2 || row.cells[2] == "" ==> AmountOf(row) == Cents(0)
    ensures AmountOf(row) == NaN <==> |row.cells| > 2 && row.cells[2] != "" && !IsDecimal(row.cells[2])
  {
  }

  // ---------------------------------------------------------------------
  // Reading the table

  function Names(t: Table): seq<string> {
    if t == [] then [] else [t[0].name] + Names(t[1..])
  }

  function CategoryNames(cs: seq<CategoryTotal>): seq<string> {
    if cs == [] then [] else [cs[0].category] + CategoryNames(cs[1..])
  }

  /** `totals[n]`: the inner object of the person named `n`, if there is one. */
  function FindPerson(t: Table, n: string): (r: Option<seq<CategoryTotal>>)
    ensures r.Some? <==> n in Names(t)
  {
    if t == [] then None
    else if t[0].name == n then Some(t[0].categories)
    else FindPerson(t[1..], n)
  }

  /** `cats[c]`: the total of category `c`, if there is one. */
  function FindTotal(cs: seq<CategoryTotal>, c: string): (r: Option<Num>)
    ensures r.Some? <==> c in CategoryNames(cs)
  {
    if cs == [] then None
    else if cs[0].category == c then Some(cs[0].total)
    else FindTotal(cs[1..], c)
  }

  /** `totals[n][c]`, if both keys are present. */
  function Lookup(t: Table, n: string, c: string): Option<Num> {
    match FindPerson(t, n)
    case None => None
    case Some(cs) => FindTotal(cs, c)
  }

  /** The category keys of person `n`, in order; none when `n` is absent. */
  function CategoriesOf(t: Table, n: string): seq<string> {
    match FindPerson(t, n)
    case None => []
    case Some(cs) => CategoryNames(cs)
  }

  // ---------------------------------------------------------------------
  // Updating the table in place

  lemma {:induction false} NamesAppend(t: Table, p: PersonTotals)
    ensures Names(t + [p]) == Names(t) + [p.name]
  {
    if t == [] {
      assert t + [p] == [p];
    } else {
      assert (t + [p])[1..] == t[1..] + [p];
      NamesAppend(t[1..], p);
    }
  }

  lemma {:induction false} FindPersonAppend(t: Table, p: PersonTotals, m: string)
    ensures FindPerson(t + [p], m) ==
              if m in Names(t) then FindPerson(t, m)
              else if p.name == m then Some(p.categories)
              else None
  {
    if t == [] {
      assert t + [p] == [p];
    } else {
      assert (t + [p])[1..] == t[1..] + [p];
      FindPersonAppend(t[1..], p, m);
    }
  }

  /** `if (!totals[n]) totals[n] = {}`: a person not yet present is added
      last, with no categories; nothing else changes. */
  function AddPerson(t: Table, n: string): (r: Table)
    ensures Names(r) == if n in Names(t) then Names(t) else Names(t) + [n]
    ensures forall m :: FindPerson(r, m) == if m == n && n !in Names(t) then Some([]) else FindPerson(t, m)
  {
    if n in Names(t) then t
    else
      var p := PersonTotals(n, []);
      NamesAppend(t, p);
      assert forall m :: FindPerson(t + [p], m) == if m == n then Some([]) else FindPerson(t, m) by {
        forall m { FindPersonAppend(t, p, m); }
      }
      t + [p]
  }

  /** `cats[c] = v`: an existing category keeps its place and takes the new
      total; a new one is added last. */
  function SetCategory(cs: seq<CategoryTotal>, c: string, v: Num): (r: seq<CategoryTotal>)
    ensures CategoryNames(r) == if c in CategoryNames(cs) then CategoryNames(cs) else CategoryNames(cs) + [c]
    ensures forall d :: FindTotal(r, d) == if d == c then Some(v) else FindTotal(cs, d)
  {
    if cs == [] then [CategoryTotal(c, v)]
    else if cs[0].category == c then [CategoryTotal(c, v)] + cs[1..]
    else
      var r := [cs[0]] + SetCategory(cs[1..], c, v);
      assert r[1..] == SetCategory(cs[1..], c, v);
      r
  }

  /** `totals[n][c] = v` for a person `n` who is present; without that person
      nothing changes. */
  function SetTotal(t: Table, n: string, c: string, v: Num): (r: Table)
    ensures Names(r) == Names(t)
    ensures forall m :: FindPerson(r, m) ==
              if m == n && n in Names(t) then Some(SetCategory(FindPerson(t, n).value, c, v)) else FindPerson(t, m)
  {
    if t == [] then []
    else if t[0].name == n then [PersonTotals(n, SetCategory(t[0].categories, c, v))] + t[1..]
    else
      var r := [t[0]] + SetTotal(t[1..], n, c, v);
      assert r[1..] == SetTotal(t[1..], n, c, v);
      r
  }

  // ---------------------------------------------------------------------
  // One row of the loop, and the whole fold

  /** A bucket's next value: `if (!b) b = 0; b += a`, where an absent bucket
      also counts as falsy. */
  function Accumulate(bucket: Option<Num>, a: Num): Num {
    Plus(if bucket.None? || Falsy(bucket.value) then Cents(0) else bucket.value, a)
  }

  /** The body of the loop over the rows, applied to one row. */
  function Step(t: Table, row: Row): Table {
    var n, c, a := NameOf(row), CategoryOf(row), AmountOf(row);
    var t1 := AddPerson(t, n);
    var t2 := if Lookup(t1, n, c).None? || Falsy(Lookup(t1, n, c).value) then SetTotal(t1, n, c, Cents(0)) else t1;
    SetTotal(t2, n, c, Plus(Lookup(t2, n, c).value, a))
  }

  /** The table the loop has built after the given rows, in order. */
  function TotalsOf(rows: seq<Row>): Table {
    if rows == [] then [] else Step(TotalsOf(rows[..|rows| - 1]), rows[|rows| - 1])
  }

  /**
   * The aggregation loop over every row of the sheet: each row's amount is
   * added to the bucket of its name and category, the bucket and the person
   * being created on first sight.  The result is the fold of the rows.
   */
  method AggregateTotals(rows: seq<Row>) returns (totals: Table)
    ensures totals == TotalsOf(rows)
  {
    totals := [];
    for i := 0 to |rows|
      invariant totals == TotalsOf(rows[..i])
    {
      var row := rows[i];
      ghost var before := totals;
      var n, c, a := NameOf(row), CategoryOf(row), AmountOf(row);
      totals := AddPerson(totals, n);
      var bucket := Lookup(totals, n, c);
      if bucket.None? || Falsy(bucket.value) {
        totals := SetTotal(totals, n, c, Cents(0));
      }
      totals := SetTotal(totals, n, c, Plus(Lookup(totals, n, c).value, a));
      assert totals == Step(before, row);
      TotalsOfPrefix(rows, i);
    }
    assert rows[..|rows|] == rows;
  }

  /** The fold over one more row is one more step. */
  lemma TotalsOfPrefix(rows: seq<Row>, i: nat)
    requires i < |rows|
    ensures TotalsOf(rows[..i + 1]) == Step(TotalsOf(rows[..i]), rows[i])
  {
    assert rows[..i + 1][..i] == rows[..i];
  }

  // ---------------------------------------------------------------------
  // What one row does to the table

  /** A row changes only its own bucket, which takes the row's amount as
      `Accumulate` says; every other bucket keeps its value. */
  lemma StepLookup(t: Table, row: Row, n: string, c: string)
    ensures Lookup(Step(t, row), n, c) ==
              if n == NameOf(row) && c == CategoryOf(row) then Some(Accumulate(Lookup(t, n, c), AmountOf(row)))
              else Lookup(t, n, c)
  {
    var n0, c0, a := NameOf(row), CategoryOf(row), AmountOf(row);
    var t1 := AddPerson(t, n0);
    assert Lookup(t1, n, c) == Lookup(t, n, c);
    var t2 := if Lookup(t1, n0, c0).None? || Falsy(Lookup(t1, n0, c0).value) then SetTotal(t1, n0, c0, Cents(0)) else t1;
    assert Lookup(t2, n0, c0).Some?;
    assert Lookup(t2, n, c) == if n == n0 && c == c0 then Some(Lookup(t2, n0, c0).value) else Lookup(t, n, c);
  }

  /** A row's name joins the names last, the first time it is seen. */
  lemma StepNames(t: Table, row: Row)
    ensures Names(Step(t, row)) == if NameOf(row) in Names(t) then Names(t) else Names(t) + [NameOf(row)]
  {
  }

  /** A row's category joins its person's categories last, the first time it
      is seen for that person; no other person's categories change. */
  lemma StepCategories(t: Table, row: Row, n: string)
    ensures CategoriesOf(Step(t, row), n) ==
              if n == NameOf(row) && CategoryOf(row) !in CategoriesOf(t, n) then CategoriesOf(t, n) + [CategoryOf(row)]
              else CategoriesOf(t, n)
  {
    var n0, c0 := NameOf(row), CategoryOf(row);
    var t1 := AddPerson(t, n0);
    assert CategoriesOf(t1, n) == CategoriesOf(t, n);
    var t2 := if Lookup(t1, n0, c0).None? || Falsy(Lookup(t1, n0, c0).value) then SetTotal(t1, n0, c0, Cents(0)) else t1;
    assert CategoriesOf(t2, n) == CategoriesOf(Step(t, row), n);
  }

  // ---------------------------------------------------------------------
  // Independent descriptions of the result

  /** The amounts of the rows filed under name `n` and category `c`, in row order. */
  function AmountsFor(rows: seq<Row>, n: string, c: string): seq<Num> {
    if rows == [] then []
    else
      var last := rows[|rows| - 1];
      AmountsFor(rows[..|rows| - 1], n, c)
        + (if NameOf(last) == n && CategoryOf(last) == c then [AmountOf(last)] else [])
  }

  /** A bucket's value after the given amounts were added to it in order. */
  function FoldAmounts(amounts: seq<Num>): Num {
    if amounts == [] then Cents(0)
    else Accumulate(Some(FoldAmounts(amounts[..|amounts| - 1])), amounts[|amounts| - 1])
  }

  /** The plain sum of numeric amounts. */
  function SumCents(amounts: seq<Num>): int
    requires forall k :: 0 <= k < |amounts| ==> amounts[k].Cents?
  {
    if amounts == [] then 0
    else SumCents(amounts[..|amounts| - 1]) + amounts[|amounts| - 1].cents
  }

  /** The table holds a bucket for exactly the (name, category) pairs that
      occur in the rows, and each bucket's value is its amounts folded in
      row order. */
  lemma {:induction false} BucketIsFold(rows: seq<Row>, n: string, c: string)
    ensures Lookup(TotalsOf(rows), n, c) ==
              if AmountsFor(rows, n, c) == [] then None else Some(FoldAmounts(AmountsFor(rows, n, c)))
  {
    if rows != [] {
      var init, last := rows[..|rows| - 1], rows[|rows| - 1];
      assert rows == init + [last];
      BucketIsFold(init, n, c);
      BucketSnoc(init, last, n, c);
    }
  }

  /** One more row extends the bucket's amounts, and its fold, by one. */
  lemma BucketSnoc(init: seq<Row>, last: Row, n: string, c: string)
    requires Lookup(TotalsOf(init), n, c) ==
               if AmountsFor(init, n, c) == [] then None else Some(FoldAmounts(AmountsFor(init, n, c)))
    ensures Lookup(TotalsOf(init + [last]), n, c) ==
              if AmountsFor(init + [last], n, c) == [] then None else Some(FoldAmounts(AmountsFor(init + [last], n, c)))
  {
    AppendRow(init, last, n, c);
    AmountsForSnoc(init, last, n, c);
    var prev, a := AmountsFor(init, n, c), AmountOf(last);
    if NameOf(last) == n && CategoryOf(last) == c {
      FoldAmountsSnoc(prev, a);
      assert AmountsFor(init + [last], n, c) == prev + [a];
      if prev == [] {
        assert Accumulate(None, a) == Accumulate(Some(Cents(0)), a);
      }
    } else {
      assert AmountsFor(init + [last], n, c) == prev;
    }
  }

  lemma AmountsForSnoc(init: seq<Row>, last: Row, n: string, c: string)
    ensures AmountsFor(init + [last], n, c) ==
              AmountsFor(init, n, c) + (if NameOf(last) == n && CategoryOf(last) == c then [AmountOf(last)] else [])
  {
    assert (init + [last])[..|init|] == init;
  }

  lemma FoldAmountsSnoc(prev: seq<Num>, a: Num)
    ensures FoldAmounts(prev + [a]) == Accumulate(Some(FoldAmounts(prev)), a)
  {
    assert (prev + [a])[..|prev|] == prev;
  }

  /** A bucket has amounts exactly when some row is filed under it. */
  lemma {:induction false} AmountsForEmpty(rows: seq<Row>, n: string, c: string)
    ensures AmountsFor(rows, n, c) == [] <==>
              forall k :: 0 <= k < |rows| ==> NameOf(rows[k]) != n || CategoryOf(rows[k]) != c
  {
    if rows != [] {
      var init := rows[..|rows| - 1];
      AmountsForEmpty(init, n, c);
      assert forall k :: 0 <= k < |init| ==> init[k] == rows[k];
    }
  }

  /** The table has a bucket for name `n` and category `c` exactly when some
      row carries that name and that category. */
  lemma BucketPresent(rows: seq<Row>, n: string, c: string)
    ensures Lookup(TotalsOf(rows), n, c).Some? <==>
              exists k :: 0 <= k < |rows| && NameOf(rows[k]) == n && CategoryOf(rows[k]) == c
  {
    BucketIsFold(rows, n, c);
    AmountsForEmpty(rows, n, c);
  }

  /** Folding numbers only is summing them. */
  lemma {:induction false} FoldIsSum(amounts: seq<Num>)
    requires forall k :: 0 <= k < |amounts| ==> amounts[k].Cents?
    ensures FoldAmounts(amounts) == Cents(SumCents(amounts))
  {
    if amounts != [] {
      FoldIsSum(amounts[..|amounts| - 1]);
    }
  }

  /**
   * While no amount of theirs is NaN, the total of name `n` and category `c`
   * is the sum of the amounts of all rows filed under them (a missing amount
   * counting 0); a pair that occurs in no row has no bucket.
   */
  lemma BucketIsSum(rows: seq<Row>, n: string, c: string)
    requires forall k :: 0 <= k < |AmountsFor(rows, n, c)| ==> AmountsFor(rows, n, c)[k].Cents?
    ensures Lookup(TotalsOf(rows), n, c) ==
              if AmountsFor(rows, n, c) == [] then None else Some(Cents(SumCents(AmountsFor(rows, n, c))))
  {
    BucketIsFold(rows, n, c);
    FoldIsSum(AmountsFor(rows, n, c));
  }

  /** A NaN amount makes the bucket NaN. */
  lemma FoldEndingInNaN(amounts: seq<Num>)
    ensures FoldAmounts(amounts + [NaN]) == NaN
  {
    assert (amounts + [NaN])[..|amounts|] == amounts;
  }

  /** Once the bucket is falsy (0 or NaN), the amounts before no longer matter:
      `if (!b) b = 0` starts it over. */
  lemma {:induction false} FoldRestartsWhenFalsy(before: seq<Num>, after: seq<Num>)
    requires Falsy(FoldAmounts(before)) && after != []
    ensures FoldAmounts(before + after) == FoldAmounts(after)
  {
    var all := before + after;
    assert all[..|all| - 1] == before + after[..|after| - 1];
    if |after| == 1 {
      assert after[..0] == [];
    } else {
      FoldRestartsWhenFalsy(before, after[..|after| - 1]);
    }
  }

  /** In particular a NaN amount discards every earlier amount of its bucket:
      the amounts after it are all that count. */
  lemma NaNDiscardsEarlierAmounts(before: seq<Num>, after: seq<Num>)
    requires after != []
    ensures FoldAmounts(before + [NaN] + after) == FoldAmounts(after)
  {
    FoldEndingInNaN(before);
    FoldRestartsWhenFalsy(before + [NaN], after);
  }

  // ---------------------------------------------------------------------
  // Key order

  /** The elements of `s` in the order of their first occurrence. */
  function Distinct(s: seq<string>): seq<string> {
    if s == [] then []
    else
      var d := Distinct(s[..|s| - 1]);
      if s[|s| - 1] in d then d else d + [s[|s| - 1]]
  }

  predicate NoDuplicates(s: seq<string>) {
    forall i, j :: 0 <= i < j < |s| ==> s[i] != s[j]
  }

  lemma {:induction false} DistinctIsSet(s: seq<string>)
    ensures NoDuplicates(Distinct(s))
    ensures forall x :: x in Distinct(s) <==> x in s
  {
    if s != [] {
      DistinctIsSet(s[..|s| - 1]);
      assert s == s[..|s| - 1] + [s[|s| - 1]];
    }
  }

  /** The names of the rows, in row order. */
  function NameKeys(rows: seq<Row>): seq<string> {
    if rows == [] then [] else NameKeys(rows[..|rows| - 1]) + [NameOf(rows[|rows| - 1])]
  }

  /** The categories of the rows filed under name `n`, in row order. */
  function CategoryKeys(rows: seq<Row>, n: string): seq<string> {
    if rows == [] then []
    else
      var last := rows[|rows| - 1];
      CategoryKeys(rows[..|rows| - 1], n) + (if NameOf(last) == n then [CategoryOf(last)] else [])
  }

  /** The people appear in the order in which the rows first name them. */
  lemma {:induction false} NamesInFirstSeenOrder(rows: seq<Row>)
    ensures Names(TotalsOf(rows)) == Distinct(NameKeys(rows))
  {
    if rows != [] {
      var init, last := rows[..|rows| - 1], rows[|rows| - 1];
      NamesInFirstSeenOrder(init);
      StepNames(TotalsOf(init), last);
      var keys := NameKeys(rows);
      assert keys[..|keys| - 1] == NameKeys(init);
    }
  }

  /** Each person's categories appear in the order in which that person's
      rows first name them. */
  lemma {:induction false} CategoriesInFirstSeenOrder(rows: seq<Row>, n: string)
    ensures CategoriesOf(TotalsOf(rows), n) == Distinct(CategoryKeys(rows, n))
  {
    if rows != [] {
      var init, last := rows[..|rows| - 1], rows[|rows| - 1];
      var t, prev := TotalsOf(init), CategoryKeys(init, n);
      assert TotalsOf(rows) == Step(t, last);
      CategoriesInFirstSeenOrder(init, n);
      StepCategories(t, last, n);
      if NameOf(last) == n {
        var keys := prev + [CategoryOf(last)];
        assert CategoryKeys(rows, n) == keys;
        assert keys[..|keys| - 1] == prev;
        assert Distinct(keys) == if CategoryOf(last) in Distinct(prev) then Distinct(prev) else Distinct(prev) + [CategoryOf(last)];
      } else {
        assert CategoryKeys(rows, n) == prev;
      }
    }
  }

  /** Like the keys of a JavaScript object, no name and no category of one
      person occurs twice in the table. */
  lemma KeysAreUnique(rows: seq<Row>, n: string)
    ensures NoDuplicates(Names(TotalsOf(rows)))
    ensures NoDuplicates(CategoriesOf(TotalsOf(rows), n))
  {
    NamesInFirstSeenOrder(rows);
    CategoriesInFirstSeenOrder(rows, n);
    DistinctIsSet(NameKeys(rows));
    DistinctIsSet(CategoryKeys(rows, n));
  }

  // ---------------------------------------------------------------------
  // Appending an entry and aggregating again

  /** The appended row of an entry is read back as that entry. */
  lemma EntryRowReadsBack(e: Parser.Entry, date: string)
    ensures NameOf(EntryRow(e, date)) == e.name
    ensures CategoryOf(EntryRow(e, date)) == e.category
    ensures AmountOf(EntryRow(e, date)) == Cents(e.amount)
  {
    var row := EntryRow(e, date);
    assert row.cells[2] == FormatCents(e.amount) != "";
    FormatThenParse(e.amount);
  }

  /** Adding a number to a bucket: the sum when the bucket holds a number,
      the number itself when the bucket is absent or NaN. */
  lemma AccumulateNumber(bucket: Option<Num>, x: int)
    ensures bucket.Some? && bucket.value.Cents? ==> Accumulate(bucket, Cents(x)) == Plus(bucket.value, Cents(x))
    ensures bucket == None || bucket == Some(NaN) ==> Accumulate(bucket, Cents(x)) == Cents(x)
  {
  }

  /**
   * Appending an entry's row and aggregating again adds exactly the entry's
   * amount to the bucket of its name and category, creating the bucket if it
   * was absent (and starting it over if it was NaN); every other bucket
   * keeps its value.
   */
  lemma AppendEntry(rows: seq<Row>, e: Parser.Entry, date: string, n: string, c: string)
    ensures n == e.name && c == e.category && Lookup(TotalsOf(rows), n, c).Some? && Lookup(TotalsOf(rows), n, c).value.Cents? ==>
              Lookup(TotalsOf(rows + [EntryRow(e, date)]), n, c) == Some(Plus(Lookup(TotalsOf(rows), n, c).value, Cents(e.amount)))
    ensures n == e.name && c == e.category && (Lookup(TotalsOf(rows), n, c) == None || Lookup(TotalsOf(rows), n, c) == Some(NaN)) ==>
              Lookup(TotalsOf(rows + [EntryRow(e, date)]), n, c) == Some(Cents(e.amount))
    ensures n != e.name || c != e.category ==>
              Lookup(TotalsOf(rows + [EntryRow(e, date)]), n, c) == Lookup(TotalsOf(rows), n, c)
  {
    EntryRowReadsBack(e, date);
    AppendNumberRow(rows, EntryRow(e, date), e.amount, n, c);
  }

  /** A row holding the number `x` adds `x` to its own bucket. */
  lemma AppendNumberRow(rows: seq<Row>, row: Row, x: int, n: string, c: string)
    requires AmountOf(row) == Cents(x)
    ensures n == NameOf(row) && c == CategoryOf(row) && Lookup(TotalsOf(rows), n, c).Some? && Lookup(TotalsOf(rows), n, c).value.Cents? ==>
              Lookup(TotalsOf(rows + [row]), n, c) == Some(Plus(Lookup(TotalsOf(rows), n, c).value, Cents(x)))
    ensures n == NameOf(row) && c == CategoryOf(row) && (Lookup(TotalsOf(rows), n, c) == None || Lookup(TotalsOf(rows), n, c) == Some(NaN)) ==>
              Lookup(TotalsOf(rows + [row]), n, c) == Some(Cents(x))
    ensures n != NameOf(row) || c != CategoryOf(row) ==>
              Lookup(TotalsOf(rows + [row]), n, c) == Lookup(TotalsOf(rows), n, c)
  {
    AppendRow(rows, row, n, c);
    AccumulateNumber(Lookup(TotalsOf(rows), n, c), x);
  }

  /** A row whose amount cell is missing or empty contributes 0: a numeric
      bucket keeps its value, and an absent or NaN bucket becomes 0. */
  lemma MissingAmountAddsZero(rows: seq<Row>, row: Row)
    requires |row.cells| <= 2 || row.cells[2] == ""
    ensures var before := Lookup(TotalsOf(rows), NameOf(row), CategoryOf(row));
            Lookup(TotalsOf(rows + [row]), NameOf(row), CategoryOf(row)) ==
              if before.Some? && before.value.Cents? then before else Some(Cents(0))
  {
    AppendNumberRow(rows, row, 0, NameOf(row), CategoryOf(row));
  }

  /** Aggregating one more row is one more step of the loop. */
  lemma AppendRow(rows: seq<Row>, row: Row, n: string, c: string)
    ensures Lookup(TotalsOf(rows + [row]), n, c) ==
              if n == NameOf(row) && c == CategoryOf(row) then Some(Accumulate(Lookup(TotalsOf(rows), n, c), AmountOf(row)))
              else Lookup(TotalsOf(rows), n, c)
  {
    var all := rows + [row];
    assert all[..|all| - 1] == rows;
    StepLookup(TotalsOf(rows), row, n, c);
  }

  /** Appending an entry's row adds its name after the others when it is new,
      and leaves the names alone otherwise. */
  lemma AppendEntryNames(rows: seq<Row>, e: Parser.Entry, date: string)
    ensures Names(TotalsOf(rows + [EntryRow(e, date)])) ==
              if e.name in Names(TotalsOf(rows)) then Names(TotalsOf(rows)) else Names(TotalsOf(rows)) + [e.name]
  {
    var row := EntryRow(e, date);
    var all := rows + [row];
    assert all[..|all| - 1] == rows;
    assert TotalsOf(all) == Step(TotalsOf(rows), row);
    EntryRowReadsBack(e, date);
    StepNames(TotalsOf(rows), row);
  }
}
