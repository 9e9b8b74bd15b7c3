/** The spreadsheet import of books/views.py:118-229: read the upload, normalise its
    headers, reject a sheet missing a required column, drop untitled rows, reject the
    whole batch if any row has a bad date or expense, then resolve categories and append
    one book per row inside one transaction. */
module Import {
  import opened Optional
  import opened Text
  import opened Models
  import opened Sheet
  import opened Validation
  import opened Categories

  /** How an upload ends; every outcome ends in a redirect carrying a message. */
  datatype Outcome =
    | Imported(count: nat)                 // success, reporting how many books were added
    | SchemaRejected(missing: set<string>) // the upload lacks these required columns
    | RowsRejected(badRows: nat)           // this many rows have a bad date or expense
    | Failed                               // the file did not parse, or the store refused the batch

  /** Python's `str()` of a cell; pandas' NaN prints as "nan". */
  function CellText<V>(env: Env<V>, c: Cell<V>): (t: string)
    ensures c.Missing? ==> t == "nan"
    ensures c.Value? ==> t == env.text(c.v)
  {
    match c
    case Missing => "nan"
    case Value(v) => env.text(v)
  }

  /** The optional text fields (books/views.py:193-195): the stripped text, or "" for NaN. */
  function OptionalText<V>(env: Env<V>, c: Cell<V>): (t: string)
    ensures Stripped(t)
    ensures c.Missing? ==> t == ""
    ensures c.Value? ==> t == Strip(env.text(c.v))
  {
    match c
    case Missing => ""
    case Value(v) => Strip(env.text(v))
  }

  /** The row's category cell as text, stripped: a NaN category cell names a category "nan". */
  function CategoryName<V>(env: Env<V>, r: Record<V>): (name: string)
    ensures Stripped(name)
    ensures r.category.Missing? ==> name == "nan"
    ensures r.category.Value? ==> name == Strip(env.text(r.category.v))
  {
    Strip(CellText(env, r.category))
  }

  /** A NaN category cell and a cell whose text reads "nan" up to case and padding end up
      under the same cache key, so they share one category. */
  lemma NaNCategoryMatchesText<V>(env: Env<V>, nan: Record<V>, text: Record<V>)
    requires nan.category.Missing? && text.category.Value?
    requires Lower(Strip(env.text(text.category.v))) == "nan"
    ensures Lower(CategoryName(env, nan)) == Lower(CategoryName(env, text))
  {
  }

  function CategoryNames<V>(env: Env<V>, recs: seq<Record<V>>): (names: seq<string>)
    ensures |names| == |recs|
    ensures forall i :: 0 <= i < |recs| ==> names[i] == CategoryName(env, recs[i])
  {
    seq(|recs|, i requires 0 <= i < |recs| => CategoryName(env, recs[i]))
  }

  /** The loop body of books/views.py:187-214 for a row whose category was resolved to
      position `cat`. A row whose date is NaT builds no book, as the date test at
      books/views.py:199 decides. An expense that did not convert becomes 0 here; in the
      source such a value is a NaN that the decimal conversion accepts without raising, so
      its fallback to 0 never runs and the book would carry a NaN expense. Past the gate
      neither case arises. */
  function BuildBook<V>(env: Env<V>, r: Record<V>, cat: nat): (b: Option<Book>)
    ensures b.Some? <==> ParseDate(env, r.publishedDate).Some?
    ensures b.Some? ==> b.value.category == cat
  {
    var cost := ParseExpense(env, r.distributionExpense).GetOr(0);
    match ParseDate(env, r.publishedDate)
    case None => None
    case Some(d) =>
      Some(Book(
        Strip(CellText(env, r.title)),
        OptionalText(env, r.subtitle),
        OptionalText(env, r.authors),
        OptionalText(env, r.publisher),
        d, cat, cost))
  }

  /** The book a row that passed the gate stands for: its date and expense as parsed. */
  function CleanBook<V>(env: Env<V>, r: Record<V>, cat: nat): (b: Book)
    requires Valid(env, r)
    ensures Stripped(b.title) && Stripped(b.subtitle) && Stripped(b.authors) && Stripped(b.publisher)
    ensures r.title.Value? ==> b.title == Strip(env.text(r.title.v))
    ensures r.subtitle.Missing? ==> b.subtitle == ""
    ensures r.authors.Missing? ==> b.authors == ""
    ensures r.publisher.Missing? ==> b.publisher == ""
    ensures r.subtitle.Value? ==> b.subtitle == Strip(env.text(r.subtitle.v))
    ensures r.authors.Value? ==> b.authors == Strip(env.text(r.authors.v))
    ensures r.publisher.Value? ==> b.publisher == Strip(env.text(r.publisher.v))
    ensures Some(b.publishedDate) == ParseDate(env, r.publishedDate)
    ensures Some(b.distributionExpense) == ParseExpense(env, r.distributionExpense)
    ensures b.category == cat
  {
    Book(
      Strip(CellText(env, r.title)),
      OptionalText(env, r.subtitle),
      OptionalText(env, r.authors),
      OptionalText(env, r.publisher),
      ParseDate(env, r.publishedDate).value,
      cat,
      ParseExpense(env, r.distributionExpense).value)
  }

  /** The books rows that passed the gate stand for, one per row, in order. */
  function CleanBooks<V>(env: Env<V>, recs: seq<Record<V>>, refs: seq<nat>): seq<Book>
    requires |refs| == |recs|
    requires forall i :: 0 <= i < |recs| ==> Valid(env, recs[i])
  {
    seq(|recs|, i requires 0 <= i < |recs| => CleanBook(env, recs[i], refs[i]))
  }

  /** `books_to_create`: the books the rows build, in row order; `refs[i]` is row `i`'s category. */
  function BuildBooks<V>(env: Env<V>, recs: seq<Record<V>>, refs: seq<nat>): (books: seq<Book>)
    requires |refs| == |recs|
    ensures |books| <= |recs|
    ensures forall k :: 0 <= k < |books| ==> books[k].category in refs
  {
    if |recs| == 0 then []
    else
      var rest := BuildBooks(env, recs[1..], refs[1..]);
      match BuildBook(env, recs[0], refs[0])
      case None => rest
      case Some(b) => [b] + rest
  }

  /** Once every row passed the gate, the date-skip branch and the zero-expense fallback
      never fire: each row builds exactly the book it stands for, in order. */
  lemma {:induction false} BuildBooksAfterGate<V>(env: Env<V>, recs: seq<Record<V>>, refs: seq<nat>)
    requires |refs| == |recs|
    requires forall i :: 0 <= i < |recs| ==> Valid(env, recs[i])
    ensures BuildBooks(env, recs, refs) == CleanBooks(env, recs, refs)
  {
    if |recs| > 0 {
      assert forall i :: 1 <= i < |recs| ==> recs[1..][i - 1] == recs[i];
      BuildBooksAfterGate(env, recs[1..], refs[1..]);
      assert BuildBook(env, recs[0], refs[0]) == Some(CleanBook(env, recs[0], refs[0]));
      CleanBooksCons(env, recs, refs);
    }
  }

  lemma CleanBooksCons<V>(env: Env<V>, recs: seq<Record<V>>, refs: seq<nat>)
    requires |refs| == |recs| > 0
    requires forall i :: 0 <= i < |recs| ==> Valid(env, recs[i])
    ensures CleanBooks(env, recs, refs) == [CleanBook(env, recs[0], refs[0])] + CleanBooks(env, recs[1..], refs[1..])
  {
    var whole := CleanBooks(env, recs, refs);
    var rest := CleanBooks(env, recs[1..], refs[1..]);
    forall i | 1 <= i < |recs| ensures whole[i] == rest[i - 1] {
      assert recs[1..][i - 1] == recs[i] && refs[1..][i - 1] == refs[i];
      assert rest[i - 1] == CleanBook(env, recs[i], refs[i]);
    }
    SeqCons(whole, CleanBook(env, recs[0], refs[0]), rest);
  }

  lemma SeqCons<T>(whole: seq<T>, head: T, rest: seq<T>)
    requires |whole| == |rest| + 1 && whole[0] == head
    requires forall i :: 1 <= i < |whole| ==> whole[i] == rest[i - 1]
    ensures whole == [head] + rest
  {
  }

  /** The store the transaction would leave behind for the surviving rows `recs`:
      categories resolved against the stored ones, then the built books appended. */
  function Staged<V>(env: Env<V>, recs: seq<Record<V>>, store: Store): (s: Store)
    ensures Extends(store, s)
    ensures |s.books| - |store.books| <= |recs|
    ensures WellFormed(store) ==> WellFormed(s)
  {
    var res := Resolved(store.categories, CategoryNames(env, recs));
    var books := BuildBooks(env, recs, res.refs);
    BooksWithin(res.refs, books, |res.categories|);
    AppendBooks(store, res.categories, books);
    Store(res.categories, store.books + books)
  }

  lemma BooksWithin(refs: seq<nat>, books: seq<Book>, bound: nat)
    requires forall i :: 0 <= i < |refs| ==> refs[i] < bound
    requires forall k :: 0 <= k < |books| ==> books[k].category in refs
    ensures forall k :: 0 <= k < |books| ==> books[k].category < bound
  {
  }

  /** Appending books that reference categories of an extended table keeps the store
      well-formed and extends it. */
  lemma AppendBooks(store: Store, cats: seq<Category>, books: seq<Book>)
    requires |store.categories| <= |cats| && cats[..|store.categories|] == store.categories
    ensures Extends(store, Store(cats, store.books + books))
    ensures WellFormed(store) && (forall k :: 0 <= k < |books| ==> books[k].category < |cats|)
            ==> WellFormed(Store(cats, store.books + books))
  {
    var all := store.books + books;
    assert all[..|store.books|] == store.books;
    forall i | 0 <= i < |all| && WellFormed(store) && (forall k :: 0 <= k < |books| ==> books[k].category < |cats|)
      ensures all[i].category < |cats|
    {
      if i < |store.books| {
        assert all[i] == store.books[i];
      } else {
        assert all[i] == books[i - |store.books|];
      }
    }
  }

  /** Everything after `pd.read_excel` (books/views.py:138-220), given the required names
      no header normalises to and the rows that survive the title filter. */
  function Process<V>(env: Env<V>, commits: Store -> bool, missing: set<string>, recs: seq<Record<V>>,
                      store: Store): (res: (Outcome, Store))
    ensures res.0.Imported? ==> Extends(store, res.1) && res.0.count == |res.1.books| - |store.books|
    ensures !res.0.Imported? ==> res.1 == store
    ensures WellFormed(store) ==> WellFormed(res.1)
    ensures res.0.Imported? ==> commits(res.1)
  {
    if missing != {} then (SchemaRejected(missing), store)
    else
      var bad := CountFaults(env, recs, EitherBad);
      if bad > 0 then (RowsRejected(bad), store)
      else
        var next := Staged(env, recs, store);
        if commits(next) then (Imported(|next.books| - |store.books|), next)
        else (Failed, store)
  }

  /** The rows that reach the gate: every data row whose title cell is not NaN. */
  function Survivors<V>(sheet: Sheet<V>): (recs: seq<Record<V>>)
    ensures |recs| <= |sheet.rows|
    ensures forall k :: 0 <= k < |recs| ==> recs[k].title.Value? && recs[k] in Records(sheet)
    ensures forall i :: 0 <= i < |sheet.rows| && Records(sheet)[i].title.Value? ==> Records(sheet)[i] in recs
    ensures forall x | x in Records(sheet) ::
              multiset(recs)[x] == if x.title.Value? then multiset(Records(sheet))[x] else 0
  {
    KeepTitled(Records(sheet))
  }

  /** `book_import` on a POST with a valid form. `upload` is what `pd.read_excel` made of
      the file (None when it raised); `commits` says whether the database accepts the
      transaction that leads to a given store (False when it raised). */
  function BookImport<V>(env: Env<V>, commits: Store -> bool, upload: Option<Sheet<V>>, store: Store): (res: (Outcome, Store))
    ensures res.0.Imported? ==> Extends(store, res.1) && res.0.count == |res.1.books| - |store.books|
    ensures !res.0.Imported? ==> res.1 == store
    ensures WellFormed(store) ==> WellFormed(res.1)
    ensures res.0.Imported? ==> commits(res.1)
    ensures upload.None? ==> res == (Failed, store)
  {
    match upload
    case None => (Failed, store)
    case Some(sheet) => Process(env, commits, MissingColumns(sheet.headers), Survivors(sheet), store)
  }

  /** A sheet missing a required column is refused before any row is read, naming exactly
      the required columns no header normalises to; nothing is stored. */
  lemma ImportRejectsSchema<V>(env: Env<V>, commits: Store -> bool, sheet: Sheet<V>, store: Store)
    requires exists c :: c in Required && forall k :: 0 <= k < |sheet.headers| ==> NormalizeHeader(sheet.headers[k]) != c
    ensures var res := BookImport(env, commits, Some(sheet), store);
      && res.1 == store && res.0.SchemaRejected?
      && res.0.missing != {} && res.0.missing <= Required
      && forall c :: c in Required ==>
           (c in res.0.missing <==> forall k :: 0 <= k < |sheet.headers| ==> NormalizeHeader(sheet.headers[k]) != c)
  {
    var c :| c in Required && forall k :: 0 <= k < |sheet.headers| ==> NormalizeHeader(sheet.headers[k]) != c;
    assert c in MissingColumns(sheet.headers);
  }

  /** Headers that normalise alike give the same import, whatever their spelling. */
  lemma ImportIgnoresHeaderSpelling<V>(env: Env<V>, commits: Store -> bool, h1: seq<string>, h2: seq<string>,
                                       rows: seq<seq<Cell<V>>>, store: Store)
    requires |h1| == |h2|
    requires forall k :: 0 <= k < |h1| ==> NormalizeHeader(h1[k]) == NormalizeHeader(h2[k])
    ensures BookImport(env, commits, Some(Sheet(h1, rows)), store) == BookImport(env, commits, Some(Sheet(h2, rows)), store)
  {
    assert Columns(h1) == Columns(h2);
    assert MissingColumns(h1) == MissingColumns(h2);
    assert Records(Sheet(h1, rows)) == Records(Sheet(h2, rows));
  }

  /** If any surviving row has a date or an expense that does not convert, the whole batch
      is refused and nothing is stored; the count is the number of such rows, each counted
      once even when both its cells are bad. */
  lemma ImportRejectsBadRows<V>(env: Env<V>, commits: Store -> bool, sheet: Sheet<V>, store: Store, i: nat)
    requires MissingColumns(sheet.headers) == {}
    requires i < |Survivors(sheet)| && !Valid(env, Survivors(sheet)[i])
    ensures var res := BookImport(env, commits, Some(sheet), store);
      var recs := Survivors(sheet);
      && res.1 == store && res.0.RowsRejected?
      && 1 <= res.0.badRows <= |recs|
      && res.0.badRows == CountFaults(env, recs, BadDate) + CountFaults(env, recs, BadExpense)
                          - CountFaults(env, recs, BothBad)
  {
    BadRowsAreUnion(env, Survivors(sheet));
  }

  /** When the sheet has every column and every surviving row is valid but the database
      refuses the transaction, the import fails and the store is left as it was: no
      category and no book of the batch remains. */
  lemma ImportRefused<V>(env: Env<V>, commits: Store -> bool, sheet: Sheet<V>, store: Store)
    requires MissingColumns(sheet.headers) == {}
    requires forall i :: 0 <= i < |Survivors(sheet)| ==> Valid(env, Survivors(sheet)[i])
    requires !commits(Staged(env, Survivors(sheet), store))
    ensures BookImport(env, commits, Some(sheet), store) == (Failed, store)
  {
    ProcessRefused(env, commits, Survivors(sheet), store);
  }

  lemma ProcessRefused<V>(env: Env<V>, commits: Store -> bool, recs: seq<Record<V>>, store: Store)
    requires forall i :: 0 <= i < |recs| ==> Valid(env, recs[i])
    requires !commits(Staged(env, recs, store))
    ensures Process(env, commits, {}, recs, store) == (Failed, store)
  {
    assert CountFaults(env, recs, EitherBad) == 0;
  }

  /** When the sheet has every column, every surviving row is valid and the store accepts
      the batch, the import reports one book per surviving row and appends exactly those
      books, in row order, each the book its row stands for with the category resolved
      for the row. */
  lemma ImportSucceeds<V>(env: Env<V>, commits: Store -> bool, sheet: Sheet<V>, store: Store)
    requires MissingColumns(sheet.headers) == {}
    requires forall i :: 0 <= i < |Survivors(sheet)| ==> Valid(env, Survivors(sheet)[i])
    requires commits(Staged(env, Survivors(sheet), store))
    ensures var res := BookImport(env, commits, Some(sheet), store);
      var recs := Survivors(sheet);
      var r := Resolved(store.categories, CategoryNames(env, recs));
      && res.0 == Imported(|recs|)
      && res.1.categories == r.categories
      && |res.1.books| == |store.books| + |recs|
      && forall i :: 0 <= i < |recs| ==> res.1.books[|store.books| + i] == CleanBook(env, recs[i], r.refs[i])
  {
    ProcessSucceeds(env, commits, Survivors(sheet), store);
  }

  lemma ProcessSucceeds<V>(env: Env<V>, commits: Store -> bool, recs: seq<Record<V>>, store: Store)
    requires forall i :: 0 <= i < |recs| ==> Valid(env, recs[i])
    requires commits(Staged(env, recs, store))
    ensures var res := Process(env, commits, {}, recs, store);
      var r := Resolved(store.categories, CategoryNames(env, recs));
      && res.0 == Imported(|recs|)
      && res.1.categories == r.categories
      && |res.1.books| == |store.books| + |recs|
      && forall i :: 0 <= i < |recs| ==> res.1.books[|store.books| + i] == CleanBook(env, recs[i], r.refs[i])
  {
    StagedAfterGate(env, recs, store);
    assert CountFaults(env, recs, EitherBad) == 0;
  }

  /** Past the gate, the staged store holds the resolved table and, after the stored
      books, one clean book per row. */
  lemma StagedAfterGate<V>(env: Env<V>, recs: seq<Record<V>>, store: Store)
    requires forall i :: 0 <= i < |recs| ==> Valid(env, recs[i])
    ensures var r := Resolved(store.categories, CategoryNames(env, recs));
      var s := Staged(env, recs, store);
      && s.categories == r.categories
      && |s.books| == |store.books| + |recs|
      && forall i :: 0 <= i < |recs| ==> s.books[|store.books| + i] == CleanBook(env, recs[i], r.refs[i])
  {
    var r := Resolved(store.categories, CategoryNames(env, recs));
    BuildBooksAfterGate(env, recs, r.refs);
    AppendedBooks(env, recs, store.books, r.refs, Staged(env, recs, store).books);
  }

  lemma AppendedBooks<V>(env: Env<V>, recs: seq<Record<V>>, before: seq<Book>, refs: seq<nat>, after: seq<Book>)
    requires |refs| == |recs| && forall i :: 0 <= i < |recs| ==> Valid(env, recs[i])
    requires after == before + CleanBooks(env, recs, refs)
    ensures |after| == |before| + |recs|
    ensures forall i :: 0 <= i < |recs| ==> after[|before| + i] == CleanBook(env, recs[i], refs[i])
  {
  }

  /** The categories a successful import creates: one per lower-cased row category name
      that no stored category has, each for such a name, no two for the same name. */
  lemma ImportCreatesOnePerNewName<V>(env: Env<V>, commits: Store -> bool, sheet: Sheet<V>, store: Store)
    requires MissingColumns(sheet.headers) == {}
    requires forall i :: 0 <= i < |Survivors(sheet)| ==> Valid(env, Survivors(sheet)[i])
    requires commits(Staged(env, Survivors(sheet), store))
    ensures var after := BookImport(env, commits, Some(sheet), store).1;
      var unseen := KeysOf(CategoryNames(env, Survivors(sheet))) - NameKeys(store.categories);
      && |after.categories| - |store.categories| == |unseen|
      && (forall j :: |store.categories| <= j < |after.categories| ==> Lower(after.categories[j].name) in unseen)
      && (forall j1, j2 :: |store.categories| <= j1 < j2 < |after.categories| ==>
            Lower(after.categories[j1].name) != Lower(after.categories[j2].name))
  {
    ImportSucceeds(env, commits, sheet, store);
    ResolvedCreatesOnePerNewKey(store.categories, CategoryNames(env, Survivors(sheet)));
  }

  /** In a successful import, a row whose category name some stored category has up to
      case references a stored category, the last one with that name in store order. */
  lemma ImportReusesStoredCategory<V>(env: Env<V>, commits: Store -> bool, sheet: Sheet<V>, store: Store, i: nat)
    requires MissingColumns(sheet.headers) == {}
    requires forall i :: 0 <= i < |Survivors(sheet)| ==> Valid(env, Survivors(sheet)[i])
    requires commits(Staged(env, Survivors(sheet), store))
    requires i < |Survivors(sheet)| && Lower(CategoryName(env, Survivors(sheet)[i])) in NameKeys(store.categories)
    ensures var after := BookImport(env, commits, Some(sheet), store).1;
      && |store.books| + i < |after.books|
      && var c := after.books[|store.books| + i].category;
      && c < |store.categories|
      && Lower(store.categories[c].name) == Lower(CategoryName(env, Survivors(sheet)[i]))
      && forall j :: c < j < |store.categories| ==> Lower(store.categories[j].name) != Lower(CategoryName(env, Survivors(sheet)[i]))
  {
    var names := CategoryNames(env, Survivors(sheet));
    ImportSucceeds(env, commits, sheet, store);
    ResolvedReusesStored(store.categories, names, i);
  }

  /** In a successful import, rows whose category names agree up to case share one category. */
  lemma ImportSharesCategory<V>(env: Env<V>, commits: Store -> bool, sheet: Sheet<V>, store: Store, i1: nat, i2: nat)
    requires MissingColumns(sheet.headers) == {}
    requires forall i :: 0 <= i < |Survivors(sheet)| ==> Valid(env, Survivors(sheet)[i])
    requires commits(Staged(env, Survivors(sheet), store))
    requires i1 < |Survivors(sheet)| && i2 < |Survivors(sheet)|
    requires Lower(CategoryName(env, Survivors(sheet)[i1])) == Lower(CategoryName(env, Survivors(sheet)[i2]))
    ensures var after := BookImport(env, commits, Some(sheet), store).1;
      && |store.books| + i1 < |after.books| && |store.books| + i2 < |after.books|
      && after.books[|store.books| + i1].category == after.books[|store.books| + i2].category
  {
    ImportSucceeds(env, commits, sheet, store);
    ResolvedSameKeySameCategory(store.categories, CategoryNames(env, Survivors(sheet)), i1, i2);
  }

  /** In a successful import, the first row with a category name unknown to the store up
      to case creates that category, named as the row spells it once stripped. */
  lemma ImportNamesNewCategory<V>(env: Env<V>, commits: Store -> bool, sheet: Sheet<V>, store: Store, i: nat)
    requires MissingColumns(sheet.headers) == {}
    requires forall i :: 0 <= i < |Survivors(sheet)| ==> Valid(env, Survivors(sheet)[i])
    requires commits(Staged(env, Survivors(sheet), store))
    requires i < |Survivors(sheet)|
    requires Lower(CategoryName(env, Survivors(sheet)[i])) !in NameKeys(store.categories)
    requires FirstSeen(CategoryNames(env, Survivors(sheet)), i)
    ensures var after := BookImport(env, commits, Some(sheet), store).1;
      && |store.books| + i < |after.books|
      && var c := after.books[|store.books| + i].category;
      |store.categories| <= c < |after.categories| && after.categories[c].name == CategoryName(env, Survivors(sheet)[i])
  {
    ImportSucceeds(env, commits, sheet, store);
    ResolvedFirstSeenName(store.categories, CategoryNames(env, Survivors(sheet)), i);
  }

  /** A data row whose title cell is NaN changes nothing about the import. */
  lemma ImportIgnoresUntitledRow<V>(env: Env<V>, commits: Store -> bool, headers: seq<string>,
                                    pre: seq<seq<Cell<V>>>, row: seq<Cell<V>>, post: seq<seq<Cell<V>>>, store: Store)
    requires Field(Columns(headers), row, "title").Missing?
    ensures BookImport(env, commits, Some(Sheet(headers, pre + [row] + post)), store)
         == BookImport(env, commits, Some(Sheet(headers, pre + post)), store)
  {
    var cols := Columns(headers);
    RecordsOfAppend(cols, pre + [row], post);
    RecordsOfAppend(cols, pre, [row]);
    RecordsOfAppend(cols, pre, post);
    assert RecordsOf(cols, [row]) == [RecordOf(cols, row)];
    UntitledRowDropped(RecordsOf(cols, pre), RecordOf(cols, row), RecordsOf(cols, post));
  }
}
