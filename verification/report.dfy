/** The expense report of books/views.py:233-250: the stored books' distribution
    expenses summed per category name, largest first, with the grand total, the
    average per category and the most expensive category. */
module Report {
  import opened Optional
  import opened Models

  /** One `report_data` item: a category name and an amount in cents. Also used for the
      (category name, expense) pair each book contributes. */
  datatype ReportRow = ReportRow(category: string, total: int)

  /** What the view hands to the template. */
  datatype ReportData = ReportData(rows: seq<ReportRow>, total: int, average: real, top: Option<ReportRow>)

  /** The sum of the amounts of `rows`. */
  function Amount(rows: seq<ReportRow>): int {
    if |rows| == 0 then 0 else rows[0].total + Amount(rows[1..])
  }

  /** The sum of the distribution expenses of `books`. */
  function BooksExpense(books: seq<Book>): int {
    if |books| == 0 then 0 else books[0].distributionExpense + BooksExpense(books[1..])
  }

  /** The sum of the amounts in `rows` filed under `name`. */
  function GroupTotal(rows: seq<ReportRow>, name: string): int {
    if |rows| == 0 then 0
    else (if rows[0].category == name then rows[0].total else 0) + GroupTotal(rows[1..], name)
  }

  /** The (category name, expense) pair the report query reads from each stored book.
      The pairs carry every book's expense once: they sum to the books' total. */
  function Entries(store: Store): (es: seq<ReportRow>)
    requires WellFormed(store)
    ensures |es| == |store.books|
    ensures forall k :: 0 <= k < |es| ==>
              es[k] == ReportRow(store.categories[store.books[k].category].name, store.books[k].distributionExpense)
    ensures Amount(es) == BooksExpense(store.books)
  {
    var es := seq(|store.books|, k requires 0 <= k < |store.books| =>
      ReportRow(store.categories[store.books[k].category].name, store.books[k].distributionExpense));
    EntriesExpense(es, store.books);
    es
  }

  predicate Distinct(names: seq<string>) {
    forall i, j :: 0 <= i < j < |names| ==> names[i] != names[j]
  }

  /** The category names of `es`, each once, in order of first appearance. */
  function Names(es: seq<ReportRow>): (ns: seq<string>)
    ensures Distinct(ns)
    ensures forall k :: 0 <= k < |es| ==> es[k].category in ns
    ensures forall j :: 0 <= j < |ns| ==> exists k :: 0 <= k < |es| && es[k].category == ns[j]
  {
    if |es| == 0 then []
    else
      var n := |es| - 1;
      var prev := Names(es[..n]);
      assert forall k :: 0 <= k < n ==> es[..n][k] == es[k];
      if es[n].category in prev then prev else prev + [es[n].category]
  }

  /** One row per name of `ns`, carrying that name's group total in `es`. */
  function Totals(ns: seq<string>, es: seq<ReportRow>): (rows: seq<ReportRow>)
    ensures |rows| == |ns|
    ensures forall j :: 0 <= j < |ns| ==> rows[j] == ReportRow(ns[j], GroupTotal(es, ns[j]))
  {
    if |ns| == 0 then [] else Totals(ns[..|ns| - 1], es) + [ReportRow(ns[|ns| - 1], GroupTotal(es, ns[|ns| - 1]))]
  }

  /** The query's per-name sum of expenses:
      one row per category name that has books, before ordering. */
  function Groups(es: seq<ReportRow>): (g: seq<ReportRow>)
    ensures Amount(g) == Amount(es)
    ensures DistinctCategories(g)
    ensures forall j :: 0 <= j < |g| ==> g[j].total == GroupTotal(es, g[j].category)
    ensures |g| == 0 <==> |es| == 0
    ensures CategoriesOf(g) == CategoriesOf(es)
  {
    PartitionTotal(es);
    assert |es| > 0 ==> es[0].category in Names(es);
    TotalsCover(es);
    Totals(Names(es), es)
  }

  /** The category names the rows carry. */
  ghost function CategoriesOf(rows: seq<ReportRow>): set<string> {
    set r | r in rows :: r.category
  }

  /** Totalling over the distinct names gives one row per name some entry carries, and
      no other. */
  lemma TotalsCover(es: seq<ReportRow>)
    ensures CategoriesOf(Totals(Names(es), es)) == CategoriesOf(es)
  {
    var ns := Names(es);
    var g := Totals(ns, es);
    forall c | c in CategoriesOf(es) ensures c in CategoriesOf(g) {
      var k :| 0 <= k < |es| && es[k].category == c;
      var j :| 0 <= j < |ns| && ns[j] == c;
      assert g[j] in g;
    }
    forall c | c in CategoriesOf(g) ensures c in CategoriesOf(es) {
      var j :| 0 <= j < |g| && g[j].category == c;
      var k :| 0 <= k < |es| && es[k].category == ns[j];
      assert es[k] in es;
    }
  }

  predicate SortedDesc(rows: seq<ReportRow>) {
    forall i, j :: 0 <= i < j < |rows| ==> rows[i].total >= rows[j].total
  }

  /** Insert `x` before the first row whose total does not exceed its own. */
  function Insert(x: ReportRow, rows: seq<ReportRow>): (r: seq<ReportRow>)
    ensures |r| == |rows| + 1
    ensures multiset(r) == multiset(rows) + multiset{x}
  {
    if |rows| == 0 || x.total >= rows[0].total then [x] + rows
    else
      assert rows == [rows[0]] + rows[1..];
      [rows[0]] + Insert(x, rows[1..])
  }

  /** The query's ordering by decreasing total: the rows by non-increasing total. The database leaves
      the order of equal totals open; this sort keeps them in group order. */
  function SortDesc(rows: seq<ReportRow>): (r: seq<ReportRow>)
    ensures |r| == |rows|
    ensures multiset(r) == multiset(rows)
  {
    if |rows| == 0 then []
    else
      assert rows == [rows[0]] + rows[1..];
      Insert(rows[0], SortDesc(rows[1..]))
  }

  /** The figures `report_view` derives from the ordered rows (books/views.py:243-250):
      the grand total, the average per listed category, and the first row as the most
      expensive category. */
  function Summarize(rows: seq<ReportRow>): (rep: ReportData)
    ensures rep.rows == rows
    ensures rep.total == Amount(rows)
    ensures |rows| > 0 ==> rep.average * (|rows| as real) == rep.total as real
    ensures |rows| == 0 ==> rep.total == 0 && rep.average == 0.0
    ensures rep.top.None? <==> |rows| == 0
    ensures rep.top.Some? ==> rep.top.value == rows[0]
    ensures rep.top.Some? && SortedDesc(rows) ==> forall i :: 0 <= i < |rows| ==> rows[i].total <= rep.top.value.total
  {
    var total := Amount(rows);
    ReportData(rows, total, Average(total, |rows|), if |rows| == 0 then None else Some(rows[0]))
  }

  /** `report_data`: the per-name groups of the stored books, by descending total. They
      are a rearrangement of the groups, sum to the books' expenses, and are empty only
      when there are no books. */
  function Ordered(store: Store): (rows: seq<ReportRow>)
    requires WellFormed(store)
    ensures SortedDesc(rows)
    ensures multiset(rows) == multiset(Groups(Entries(store)))
    ensures Amount(rows) == BooksExpense(store.books)
    ensures |rows| == 0 <==> |store.books| == 0
  {
    var es := Entries(store);
    SortDescSorted(Groups(es));
    SortDescAmount(Groups(es));
    SortDesc(Groups(es))
  }

  /** `report_view` on the stored books: `report_data` ordered by descending total, and the
      figures derived from it. */
  function BuildReport(store: Store): (rep: ReportData)
    requires WellFormed(store)
    ensures SortedDesc(rep.rows)
    ensures rep.total == BooksExpense(store.books)
    ensures |rep.rows| == 0 <==> |store.books| == 0
    ensures rep.top.None? <==> |store.books| == 0
    ensures rep.top.Some? ==> rep.top.value in rep.rows
    ensures rep.top.Some? ==> forall i :: 0 <= i < |rep.rows| ==> rep.rows[i].total <= rep.top.value.total
  {
    Summarize(Ordered(store))
  }

  /** The grand total divided by the number of groups, or 0 when there are none. */
  function Average(total: int, count: nat): (a: real)
    ensures count > 0 ==> a * (count as real) == total as real
    ensures count == 0 ==> a == 0.0
  {
    if count == 0 then 0.0 else total as real / count as real
  }

  lemma {:induction false} AmountAppend(a: seq<ReportRow>, b: seq<ReportRow>)
    ensures Amount(a + b) == Amount(a) + Amount(b)
  {
    if |a| > 0 {
      assert (a + b)[1..] == a[1..] + b;
      AmountAppend(a[1..], b);
    } else {
      assert a + b == b;
    }
  }

  lemma {:induction false} GroupTotalAppend(a: seq<ReportRow>, b: seq<ReportRow>, name: string)
    ensures GroupTotal(a + b, name) == GroupTotal(a, name) + GroupTotal(b, name)
  {
    if |a| > 0 {
      assert (a + b)[1..] == a[1..] + b;
      GroupTotalAppend(a[1..], b, name);
    } else {
      assert a + b == b;
    }
  }

  /** A name no row is filed under has group total 0. */
  lemma {:induction false} GroupTotalAbsent(rows: seq<ReportRow>, name: string)
    requires forall k :: 0 <= k < |rows| ==> rows[k].category != name
    ensures GroupTotal(rows, name) == 0
  {
    if |rows| > 0 {
      GroupTotalAbsent(rows[1..], name);
    }
  }

  /** One more entry `e` adds its amount to the totals of `ns` exactly when its name is
      one of them. */
  lemma {:induction false} TotalsExtend(ns: seq<string>, es: seq<ReportRow>, e: ReportRow)
    requires Distinct(ns)
    ensures Amount(Totals(ns, es + [e])) == Amount(Totals(ns, es)) + (if e.category in ns then e.total else 0)
  {
    if |ns| > 0 {
      var n := |ns| - 1;
      assert Distinct(ns[..n]);
      TotalsExtend(ns[..n], es, e);
      GroupTotalAppend(es, [e], ns[n]);
      AmountAppend(Totals(ns[..n], es + [e]), [ReportRow(ns[n], GroupTotal(es + [e], ns[n]))]);
      AmountAppend(Totals(ns[..n], es), [ReportRow(ns[n], GroupTotal(es, ns[n]))]);
      assert e.category in ns <==> e.category in ns[..n] || e.category == ns[n];
      assert e.category in ns[..n] ==> e.category != ns[n];
    }
  }

  /** The group totals partition the entries: their sum is the sum of all amounts. */
  lemma {:induction false} PartitionTotal(es: seq<ReportRow>)
    ensures Amount(Totals(Names(es), es)) == Amount(es)
  {
    if |es| > 0 {
      var n := |es| - 1;
      assert es == es[..n] + [es[n]];
      PartitionTotal(es[..n]);
      PartitionStep(es[..n], es[n]);
    }
  }

  lemma PartitionStep(prev: seq<ReportRow>, e: ReportRow)
    requires Amount(Totals(Names(prev), prev)) == Amount(prev)
    ensures Amount(Totals(Names(prev + [e]), prev + [e])) == Amount(prev + [e])
  {
    NamesSnoc(prev, e);
    if e.category in Names(prev) {
      SumStepKnown(Names(prev), prev, e);
    } else {
      GroupTotalAbsent(prev, e.category);
      SumStepNew(Names(prev), prev, e);
    }
  }

  /** An entry under a listed name adds its amount to the listed totals. */
  lemma SumStepKnown(ns: seq<string>, prev: seq<ReportRow>, e: ReportRow)
    requires Distinct(ns) && e.category in ns
    requires Amount(Totals(ns, prev)) == Amount(prev)
    ensures Amount(Totals(ns, prev + [e])) == Amount(prev + [e])
  {
    AmountAppend(prev, [e]);
    assert Amount([e]) == e.total;
    TotalsExtend(ns, prev, e);
  }

  /** An entry under a new name adds a row carrying exactly its amount. */
  lemma SumStepNew(ns: seq<string>, prev: seq<ReportRow>, e: ReportRow)
    requires Distinct(ns) && e.category !in ns && GroupTotal(prev, e.category) == 0
    requires Amount(Totals(ns, prev)) == Amount(prev)
    ensures Amount(Totals(ns + [e.category], prev + [e])) == Amount(prev + [e])
  {
    AmountAppend(prev, [e]);
    assert Amount([e]) == e.total;
    TotalsExtend(ns, prev, e);
    GroupTotalAppend(prev, [e], e.category);
    assert GroupTotal([e], e.category) == e.total;
    TotalsSnoc(ns, e.category, prev + [e]);
  }

  /** One more entry adds its name at the end when the name is new, and nothing otherwise. */
  lemma NamesSnoc(prev: seq<ReportRow>, e: ReportRow)
    ensures Names(prev + [e]) == if e.category in Names(prev) then Names(prev) else Names(prev) + [e.category]
  {
    assert (prev + [e])[..|prev|] == prev;
  }

  lemma TotalsSnoc(ns: seq<string>, name: string, es: seq<ReportRow>)
    ensures Amount(Totals(ns + [name], es)) == Amount(Totals(ns, es)) + GroupTotal(es, name)
  {
    var last := ReportRow(name, GroupTotal(es, name));
    assert (ns + [name])[..|ns|] == ns;
    assert Totals(ns + [name], es) == Totals(ns, es) + [last];
    AmountAppend(Totals(ns, es), [last]);
    assert Amount([last]) == last.total;
  }

  /** The entries' amounts are the books' expenses. */
  lemma {:induction false} EntriesExpense(es: seq<ReportRow>, books: seq<Book>)
    requires |es| == |books|
    requires forall k :: 0 <= k < |es| ==> es[k].total == books[k].distributionExpense
    ensures Amount(es) == BooksExpense(books)
  {
    if |es| > 0 {
      EntriesExpense(es[1..], books[1..]);
    }
  }

  lemma {:induction false} InsertSorted(x: ReportRow, rows: seq<ReportRow>)
    requires SortedDesc(rows)
    ensures SortedDesc(Insert(x, rows))
  {
    if |rows| > 0 && x.total < rows[0].total {
      InsertSorted(x, rows[1..]);
      InsertBelow(x, rows[1..], rows[0].total);
    }
  }

  /** Inserting a row no larger than `bound` among rows no larger than `bound` keeps them so. */
  lemma {:induction false} InsertBelow(x: ReportRow, rows: seq<ReportRow>, bound: int)
    requires x.total <= bound
    requires forall k :: 0 <= k < |rows| ==> rows[k].total <= bound
    ensures forall k :: 0 <= k < |Insert(x, rows)| ==> Insert(x, rows)[k].total <= bound
  {
    if |rows| > 0 && x.total < rows[0].total {
      InsertBelow(x, rows[1..], bound);
    }
  }

  lemma {:induction false} SortDescSorted(rows: seq<ReportRow>)
    ensures SortedDesc(SortDesc(rows))
  {
    if |rows| > 0 {
      SortDescSorted(rows[1..]);
      InsertSorted(rows[0], SortDesc(rows[1..]));
    }
  }

  lemma {:induction false} InsertAmount(x: ReportRow, rows: seq<ReportRow>)
    ensures Amount(Insert(x, rows)) == Amount(rows) + x.total
  {
    if |rows| > 0 && x.total < rows[0].total {
      InsertAmount(x, rows[1..]);
    }
  }

  /** Ordering the rows keeps the grand total. */
  lemma {:induction false} SortDescAmount(rows: seq<ReportRow>)
    ensures Amount(SortDesc(rows)) == Amount(rows)
  {
    if |rows| > 0 {
      SortDescAmount(rows[1..]);
      InsertAmount(rows[0], SortDesc(rows[1..]));
    }
  }

  /** No two rows share a category name. */
  predicate DistinctCategories(rows: seq<ReportRow>) {
    forall i, j :: 0 <= i < j < |rows| ==> rows[i].category != rows[j].category
  }

  lemma {:induction false} InsertDistinct(x: ReportRow, rows: seq<ReportRow>)
    requires DistinctCategories(rows)
    requires forall k :: 0 <= k < |rows| ==> rows[k].category != x.category
    ensures DistinctCategories(Insert(x, rows))
  {
    if |rows| > 0 && x.total < rows[0].total {
      InsertDistinct(x, rows[1..]);
      InsertAvoids(x, rows[1..], rows[0].category);
    }
  }

  /** Inserting a row not named `name` among rows not named `name` keeps them so. */
  lemma {:induction false} InsertAvoids(x: ReportRow, rows: seq<ReportRow>, name: string)
    requires x.category != name
    requires forall k :: 0 <= k < |rows| ==> rows[k].category != name
    ensures forall k :: 0 <= k < |Insert(x, rows)| ==> Insert(x, rows)[k].category != name
  {
    if |rows| > 0 && x.total < rows[0].total {
      InsertAvoids(x, rows[1..], name);
    }
  }

  lemma {:induction false} SortAvoids(rows: seq<ReportRow>, name: string)
    requires forall k :: 0 <= k < |rows| ==> rows[k].category != name
    ensures forall k :: 0 <= k < |SortDesc(rows)| ==> SortDesc(rows)[k].category != name
  {
    if |rows| > 0 {
      SortAvoids(rows[1..], name);
      InsertAvoids(rows[0], SortDesc(rows[1..]), name);
    }
  }

  lemma {:induction false} SortDescDistinct(rows: seq<ReportRow>)
    requires DistinctCategories(rows)
    ensures DistinctCategories(SortDesc(rows))
  {
    if |rows| > 0 {
      SortDescDistinct(rows[1..]);
      SortAvoids(rows[1..], rows[0].category);
      InsertDistinct(rows[0], SortDesc(rows[1..]));
    }
  }

  /** No category name appears on two rows of the report. */
  lemma ReportDistinct(store: Store)
    requires WellFormed(store)
    ensures DistinctCategories(BuildReport(store).rows)
  {
    var es := Entries(store);
    assert DistinctCategories(Groups(es));
    SortDescDistinct(Groups(es));
  }

  /** Each row of the report names a category that has books, and its amount is the sum
      of the expenses of the books filed under that name. */
  lemma ReportRowTotals(store: Store)
    requires WellFormed(store)
    ensures var rows := BuildReport(store).rows;
      forall i :: 0 <= i < |rows| ==>
        && rows[i].total == GroupTotal(Entries(store), rows[i].category)
        && (exists k :: 0 <= k < |store.books| && store.categories[store.books[k].category].name == rows[i].category)
  {
    var es := Entries(store);
    var rows := Ordered(store);
    forall i | 0 <= i < |rows|
      ensures rows[i].total == GroupTotal(es, rows[i].category)
      ensures exists k :: 0 <= k < |store.books| && store.categories[store.books[k].category].name == rows[i].category
    {
      var k := RowOrigin(es, rows, i);
      EntryName(store, k);
    }
  }

  /** A row of any rearrangement of the groups carries its name's group total and the
      name of some entry, returned. */
  lemma RowOrigin(es: seq<ReportRow>, rows: seq<ReportRow>, i: nat) returns (k: nat)
    requires multiset(rows) == multiset(Groups(es)) && i < |rows|
    ensures rows[i].total == GroupTotal(es, rows[i].category)
    ensures k < |es| && es[k].category == rows[i].category
  {
    assert rows[i] in multiset(Groups(es));
    var j :| 0 <= j < |Groups(es)| && Groups(es)[j] == rows[i];
    k :| 0 <= k < |es| && es[k].category == Names(es)[j];
  }

  lemma EntryName(store: Store, k: nat)
    requires WellFormed(store) && k < |store.books|
    ensures Entries(store)[k].category == store.categories[store.books[k].category].name
  {
  }

  /** Every book's category name has a row in the report. */
  lemma ReportCoversBooks(store: Store)
    requires WellFormed(store)
    ensures var rows := BuildReport(store).rows;
      forall k :: 0 <= k < |store.books| ==>
        exists i :: 0 <= i < |rows| && rows[i].category == store.categories[store.books[k].category].name
  {
    var es := Entries(store);
    var rows := Ordered(store);
    forall k | 0 <= k < |store.books|
      ensures exists i :: 0 <= i < |rows| && rows[i].category == store.categories[store.books[k].category].name
    {
      EntryName(store, k);
      var i := EntryRow(es, rows, k);
    }
  }

  /** Any rearrangement of the groups has a row for every entry's name, returned. */
  lemma EntryRow(es: seq<ReportRow>, rows: seq<ReportRow>, k: nat) returns (i: nat)
    requires multiset(rows) == multiset(Groups(es)) && k < |es|
    ensures i < |rows| && rows[i].category == es[k].category
  {
    var j :| 0 <= j < |Names(es)| && Names(es)[j] == es[k].category;
    assert Groups(es)[j] in multiset(rows);
    i :| 0 <= i < |rows| && rows[i] == Groups(es)[j];
  }
}
