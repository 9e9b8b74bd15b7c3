/** The uploaded spreadsheet as the importer sees it after `pd.read_excel`
    (books/views.py:129-145): header normalisation, the required-column gate,
    one record per row, and the blank-title filter. */
module Sheet {
  import opened Optional
  import opened Text
  import opened Models

  /** One cell: pandas' NaN for an empty cell, or a value of the sheet's value type. */
  datatype Cell<V> = Missing | Value(v: V)

  /** A decoded sheet: the header row and the data rows (a short row lacks its trailing cells). */
  datatype Sheet<V> = Sheet(headers: seq<string>, rows: seq<seq<Cell<V>>>)

  /** What the importer asks of pandas and Python about one cell value: day-first date
      coercion (`pd.to_datetime`), numeric coercion to cents (`pd.to_numeric` then
      `Decimal`), and `str()`. Each is a foreign call, so each is a parameter. */
  datatype Env<!V> = Env(toDate: V -> Option<Date>, toNumber: V -> Option<int>, text: V -> string)

  /** The seven column names every upload must carry (books/views.py:132). */
  const Required: set<string> :=
    {"title", "subtitle", "authors", "publisher", "published_date", "category", "distribution_expense"}

  /** The column names after normalisation, in sheet order. */
  function Columns(headers: seq<string>): (cols: seq<string>)
    ensures |cols| == |headers|
    ensures forall k :: 0 <= k < |headers| ==> cols[k] == NormalizeHeader(headers[k])
  {
    if |headers| == 0 then [] else Columns(headers[..|headers| - 1]) + [NormalizeHeader(headers[|headers| - 1])]
  }

  /** The required names no header normalises to. */
  function MissingColumns(headers: seq<string>): (m: set<string>)
    ensures m <= Required
    ensures forall c :: c in Required ==>
              (c in m <==> forall k :: 0 <= k < |headers| ==> NormalizeHeader(headers[k]) != c)
  {
    var cols := Columns(headers);
    Required - (set k | 0 <= k < |cols| :: cols[k])
  }

  /** The position of the first column called `name`, if any. */
  function ColumnIndex(cols: seq<string>, name: string): (r: Option<nat>)
    ensures r.None? <==> name !in cols
    ensures r.Some? ==> r.value < |cols| && cols[r.value] == name
    ensures r.Some? ==> forall k :: 0 <= k < r.value ==> cols[k] != name
  {
    if |cols| == 0 then None
    else if cols[0] == name then Some(0)
    else match ColumnIndex(cols[1..], name)
      case None => None
      case Some(k) => Some(k + 1)
  }

  /** The cell at position `k` of a row: NaN when there is no such column or the row is
      too short to reach it. */
  function CellAt<V>(row: seq<Cell<V>>, k: Option<nat>): Cell<V> {
    match k
    case None => Missing
    case Some(k) => if k < |row| then row[k] else Missing
  }

  /** `c` is what `row[name]` reads: the cell under the first column called `name`, or
      NaN when no column has that name or the row stops short of it. */
  ghost predicate Reads<V>(cols: seq<string>, row: seq<Cell<V>>, name: string, c: Cell<V>) {
    && (name !in cols ==> c.Missing?)
    && forall k :: 0 <= k < |cols| && cols[k] == name && name !in cols[..k] ==>
         c == if k < |row| then row[k] else Missing
  }

  /** `row[name]`: the cell under the first column called `name`. */
  function Field<V>(cols: seq<string>, row: seq<Cell<V>>, name: string): (c: Cell<V>)
    ensures Reads(cols, row, name, c)
  {
    CellAt(row, ColumnIndex(cols, name))
  }

  /** The seven required cells of one row. */
  datatype Record<V> = Record(
    title: Cell<V>,
    subtitle: Cell<V>,
    authors: Cell<V>,
    publisher: Cell<V>,
    publishedDate: Cell<V>,
    category: Cell<V>,
    distributionExpense: Cell<V>)

  /** One data row read through the normalised column names. */
  function RecordOf<V>(cols: seq<string>, row: seq<Cell<V>>): (rec: Record<V>)
    ensures Reads(cols, row, "title", rec.title) && Reads(cols, row, "subtitle", rec.subtitle)
    ensures Reads(cols, row, "authors", rec.authors) && Reads(cols, row, "publisher", rec.publisher)
    ensures Reads(cols, row, "published_date", rec.publishedDate) && Reads(cols, row, "category", rec.category)
    ensures Reads(cols, row, "distribution_expense", rec.distributionExpense)
  {
    Record(
      Field(cols, row, "title"),
      Field(cols, row, "subtitle"),
      Field(cols, row, "authors"),
      Field(cols, row, "publisher"),
      Field(cols, row, "published_date"),
      Field(cols, row, "category"),
      Field(cols, row, "distribution_expense"))
  }

  /** `f` applied to each element of `s`, in order. */
  function Each<A, B>(f: A -> B, s: seq<A>): (r: seq<B>)
    ensures |r| == |s|
    ensures forall i :: 0 <= i < |s| ==> r[i] == f(s[i])
  {
    seq(|s|, i requires 0 <= i < |s| => f(s[i]))
  }

  lemma EachAppend<A, B>(f: A -> B, a: seq<A>, b: seq<A>)
    ensures Each(f, a + b) == Each(f, a) + Each(f, b)
  {
    var r := Each(f, a + b);
    forall i | 0 <= i < |a| ensures r[i] == (Each(f, a) + Each(f, b))[i] {
      assert (a + b)[i] == a[i];
    }
    forall i | |a| <= i < |a| + |b| ensures r[i] == (Each(f, a) + Each(f, b))[i] {
      assert (a + b)[i] == b[i - |a|];
    }
  }

  /** One record per data row, in sheet order. */
  function Records<V>(sheet: Sheet<V>): (recs: seq<Record<V>>)
    ensures |recs| == |sheet.rows|
  {
    RecordsOf(Columns(sheet.headers), sheet.rows)
  }

  function RecordsOf<V>(cols: seq<string>, rows: seq<seq<Cell<V>>>): (recs: seq<Record<V>>)
    ensures |recs| == |rows|
    ensures forall i :: 0 <= i < |rows| ==> recs[i] == RecordOf(cols, rows[i])
  {
    Each(row => RecordOf(cols, row), rows)
  }

  /** Reading two runs of rows one after the other reads each run on its own. */
  lemma RecordsOfAppend<V>(cols: seq<string>, a: seq<seq<Cell<V>>>, b: seq<seq<Cell<V>>>)
    ensures RecordsOf(cols, a + b) == RecordsOf(cols, a) + RecordsOf(cols, b)
  {
    EachAppend(row => RecordOf(cols, row), a, b);
  }

  /** The title filter: the rows whose title cell is not NaN, in order. */
  function KeepTitled<V>(recs: seq<Record<V>>): (kept: seq<Record<V>>)
    ensures |kept| <= |recs|
    ensures forall k :: 0 <= k < |kept| ==> kept[k].title.Value? && kept[k] in recs
    ensures forall i :: 0 <= i < |recs| && recs[i].title.Value? ==> recs[i] in kept
    ensures forall x | x in recs :: multiset(kept)[x] == if x.title.Value? then multiset(recs)[x] else 0
  {
    if |recs| == 0 then []
    else
      assert recs == [recs[0]] + recs[1..];
      if recs[0].title.Value? then [recs[0]] + KeepTitled(recs[1..])
      else KeepTitled(recs[1..])
  }

  lemma {:induction false} KeepTitledAppend<V>(a: seq<Record<V>>, b: seq<Record<V>>)
    ensures KeepTitled(a + b) == KeepTitled(a) + KeepTitled(b)
  {
    if |a| == 0 {
      assert a + b == b;
    } else {
      assert (a + b)[1..] == a[1..] + b;
      KeepTitledAppend(a[1..], b);
    }
  }

  /** A row without a title disappears before anything else looks at it. */
  lemma UntitledRowDropped<V>(pre: seq<Record<V>>, r: Record<V>, post: seq<Record<V>>)
    requires r.title.Missing?
    ensures KeepTitled(pre + [r] + post) == KeepTitled(pre + post)
  {
    KeepTitledAppend(pre + [r], post);
    KeepTitledAppend(pre, [r]);
    KeepTitledAppend(pre, post);
    assert KeepTitled([r]) == [];
    assert KeepTitled(pre + [r]) == KeepTitled(pre);
  }

  /** A sheet whose headers cover the required names yields, for each required name,
      the cell of the first column with that name. */
  lemma GatePassedColumnsFound(headers: seq<string>)
    requires MissingColumns(headers) == {}
    ensures forall c :: c in Required ==> ColumnIndex(Columns(headers), c).Some?
  {
    forall c | c in Required ensures c in Columns(headers) {
      assert c !in MissingColumns(headers);
    }
  }
}
