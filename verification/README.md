# Rumi Press book import and expense report, in Dafny

This project models the two pieces of logic in the Rumi Press catalogue application
(a Django site that keeps books and their categories):

- **`book_import`** (`books/views.py`). It reads an uploaded spreadsheet and processes it
  in order:
  1. It normalises the column headers: strip, lower-case, spaces become underscores.
  2. It refuses a sheet that lacks one of the seven required columns, and names the
     missing columns.
  3. It drops rows whose title cell is NaN.
  4. It refuses the whole batch if any remaining row has a date or an expense that does
     not convert, and reports how many rows are bad.
  5. Otherwise it resolves each row's category through a cache keyed by lower-cased
     name. The cache is seeded from the stored categories, and a category is created for
     each new name.
  6. It appends one book per row inside a single transaction.
- **`report_view`**. It sums the stored books' distribution expenses per category name
  and orders the groups by decreasing total. It then derives the grand total, the average
  per category and the most expensive category.

The modules follow the import's steps:

| module | file | what it holds |
|---|---|---|
| `Optional` | `optional.dfy` | `Option<T>` |
| `Text` | `text.dfy` | Python's `str.strip`, `str.lower` and the space-to-underscore replacement; the header key |
| `Models` | `models.dfy` | `Category`, `Book`, and the store of both tables with its foreign-key constraint |
| `Sheet` | `sheet.dfy` | cells (NaN or a value), sheets, normalised columns, the required-column set difference, the title filter |
| `Validation` | `validation.dfy` | date and expense coercion, and the all-or-nothing gate with its bad-row count |
| `Categories` | `categories.dfy` | the category cache: its seed from the store, the per-row resolution loop, and its invariant |
| `Import` | `import.dfy` | book building, the staged store, and `book_import` end to end |
| `Report` | `report.dfy` | grouping, ordering, and the report figures |

**Parsers and the database are parameters.**
- An `Env<V>` carries three functions over an opaque cell-value type `V`:
  - `toDate` stands for `pd.to_datetime(..., errors='coerce', dayfirst=True)`;
  - `toNumber` stands for `pd.to_numeric(..., errors='coerce')`, in cents;
  - `text` stands for Python's `str()`.
- The upload is an `Option<Sheet<V>>`. `None` means `pd.read_excel` raised.
- The transaction is a predicate `commits: Store -> bool`. When the database refuses the
  store a batch would produce, the import ends in `Failed` and the store is unchanged.

**Representation choices.**
- Categories are identified by their position in the store's category sequence.
- A book refers to its category by that position.
- Money is an integer number of cents.
- The report's average is an exact `real`.

## Model

| member | source | states |
|---|---|---|
| Text.Strip | books/views.py:136 | the result is the slice of the input between its leading and trailing whitespace; it has no whitespace at either end, and only whitespace was cut |
| Text.StripIdempotent | books/views.py:136 | stripping twice is stripping once |
| Text.StripLower | books/views.py:136 | stripping and lower-casing commute |
| Text.Lower | books/views.py:173-179 | Python's `str.lower()`: the length is kept and each character goes through the case map of ASCII and Latin-1 capitals, everything else unchanged |
| Text.LowerIdempotent | books/views.py:173-179 | lower-casing an already lower-cased name changes nothing, so a cache key is its own key |
| Text.LowerKeepsSpaces | books/views.py:136 | lower-casing never turns a character into whitespace or back |
| Text.Underscore | books/views.py:136 | `.replace(" ", "_")`: the length is kept, no space remains, and the only characters that change are spaces, each becoming an underscore |
| Text.NormalizeHeader | books/views.py:136 | the key is no longer than the header, has no surrounding whitespace and no space, and is entirely lower case |
| Text.NormalizeHeaderIdempotent | books/views.py:136 | normalising an already normalised header changes nothing |
| Text.NormalizeHeaderIgnoresCase | books/views.py:136 | a header and its lower-cased form give the same key |
| Text.NormalizeHeaderIgnoresPadding | books/views.py:136 | surrounding whitespace of any length does not change the key |
| Text.PublishedDateVariants | books/views.py:136 | "Published Date", " published_date" and "Published_Date" all give the key "published_date" |
| Sheet.Columns | books/views.py:136 | one normalised name per header, in sheet order |
| Sheet.MissingColumns | books/views.py:132-138 | the missing set is a subset of the seven required names, and a required name is in it exactly when no header normalises to it |
| Sheet.ColumnIndex | books/views.py:145 | no index exactly when the name is not a column; otherwise the index is in range and holds that name |
| Sheet.GatePassedColumnsFound | books/views.py:138-145 | once no required name is missing, every required name has a column to read |
| Sheet.Field | books/views.py:145-213 | `row[name]` reads the cell under the first column with that name, and NaN when there is no such column or the row stops short of it |
| Sheet.RecordOf | books/views.py:145-213 | each of the seven fields of a record is what `row[name]` reads for its column name |
| Sheet.KeepTitled | books/views.py:145 | kept rows all have a title and come from the input; each titled row is kept as many times as it occurs, and no untitled row is kept |
| Sheet.KeepTitledAppend | books/views.py:145 | filtering two runs of rows one after the other filters each run on its own, so the kept rows stay in input order |
| Sheet.UntitledRowDropped | books/views.py:145 | inserting an untitled row anywhere leaves the filtered rows unchanged |
| Validation.ParseDate | books/views.py:148 | `errors='coerce'`: the result is NaT exactly when the cell is NaN or the parser rejects its value; otherwise it is the parser's date for that value |
| Validation.ParseExpense | books/views.py:151 | `errors='coerce'`: the result is NaN exactly when the cell is NaN or the parser rejects its value; otherwise it is the parser's amount for that value |
| Validation.HasFault | books/views.py:154-158 | a date is bad exactly when its cell is NaN or the parser rejects it, and likewise the expense; a row is bad exactly when its date or its expense is bad, and bad on both exactly when both are |
| Validation.CountFaults | books/views.py:154-162 | the count is the number of rows showing the fault (`len(df[mask])`); so it is at most the row count, 0 exactly when no row shows it, and the row count exactly when every row does |
| Validation.BadRowsAreUnion | books/views.py:154-162 | the reported count is the number of bad dates plus the number of bad expenses minus the rows with both: a union, not a sum |
| Validation.GateReadsDateAndExpense | books/views.py:154-157 | rows that agree on the date and expense cells have the same faults, so NaN optional fields never make a row bad |
| Validation.UntitledRowNotCounted | books/views.py:145-158 | an untitled row adds nothing to the bad-row count, whatever its date and expense hold |
| Categories.Seed | books/views.py:171-173 | every cache entry points at a stored category whose lower-cased name is the key, and every stored name has an entry |
| Categories.SeedKeys | books/views.py:171-173 | the seeded keys are exactly the lower-cased stored names |
| Categories.SeedKeepsLast | books/views.py:171-173 | when stored names collide after lower-casing, the entry holds the last such category |
| Categories.Step | books/views.py:178-185 | one more reference and at most one more category; earlier references, categories and cache entries are kept; the row's key is cached and the row references its entry; the cache stays consistent with the table |
| Categories.Resolve | books/views.py:177-185 | one reference per row; the stored categories stay a prefix of the table; with a consistent seed, the cache stays consistent and every row references a category whose lower-cased name is the row's key |
| Categories.ResolveInvariant | books/views.py:177-185 | the loop invariant: stored categories stay in place, the cache agrees with the table, each row references a category with its key, and each created category is named as the first row with its key spells it |
| Categories.Resolved | books/views.py:168-185 | one reference per row, stored categories unchanged, and every row references a category whose lower-cased name is the row's key |
| Categories.ResolvedReusesStored | books/views.py:179-182 | a row whose key a stored category has references the last stored category with that key |
| Categories.ResolvedCreatesOnePerNewKey | books/views.py:181-185 | the created categories are exactly one per row key no stored category has: their number, their keys, and no two share a key |
| Categories.ResolvedSameKeySameCategory | books/views.py:179-185 | rows whose names agree up to case reference the same category |
| Categories.ResolvedFirstSeenName | books/views.py:178-185 | the first row with a new key creates that row's category, named as the row spells it once stripped |
| Categories.FictionDeduplicated | books/views.py:177-185 | "Fiction" then "fiction" in an empty store create the single category "Fiction", and both rows reference it |
| Import.Survivors | books/views.py:145 | every surviving record has a title and comes from the sheet; each titled record survives as many times as it occurs in the sheet |
| Import.CellText | books/views.py:178 | `str()` of a cell: "nan" for a NaN cell, the value's text otherwise |
| Import.NaNCategoryMatchesText | books/views.py:178-181 | a NaN category cell and a cell whose text reads "nan" up to case and padding get the same cache key |
| Import.OptionalText | books/views.py:193-195 | the result has no surrounding whitespace; it is "" for NaN and the stripped text otherwise |
| Import.CategoryName | books/views.py:178 | `str(row['category']).strip()`: "nan" for a NaN cell, the stripped text otherwise, and never with surrounding whitespace |
| Import.BuildBook | books/views.py:187-214 | a book is built exactly when the date converted, and it carries the resolved category |
| Import.CleanBook | books/views.py:205-213 | the book of a valid row has the parsed date and expense, the resolved category, a stripped title, and stripped optional fields that are "" for NaN cells |
| Import.BuildBooks | books/views.py:177-214 | at most one book per row, each referencing a resolved category |
| Import.BuildBooksAfterGate | books/views.py:187-214 | after the gate, the date-skip branch and the expense fallback never fire: each row builds exactly its clean book, in order |
| Import.Staged | books/views.py:176-217 | the staged store extends the old one, adds at most one book per row, and keeps it well-formed |
| Import.StagedAfterGate | books/views.py:176-217 | past the gate, the staged store holds the resolved table and, after the old books, the clean book of each row in row order |
| Import.Process | books/views.py:138-220 | a success extends the store, reports the number of added books, and only happens when the database accepts the new store; any other outcome leaves the store unchanged; well-formedness is kept |
| Import.BookImport | books/views.py:118-225 | the same four promises for the whole view; an upload `pd.read_excel` cannot read ends in `Failed` with the store unchanged |
| Import.ImportRejectsSchema | books/views.py:132-141 | a sheet lacking a required column is refused, naming exactly the missing required names, and nothing is stored |
| Import.ImportIgnoresHeaderSpelling | books/views.py:136-138 | headers that normalise alike give the same import |
| Import.ImportIgnoresUntitledRow | books/views.py:145 | adding an untitled row anywhere does not change the import's outcome or store |
| Import.ImportRejectsBadRows | books/views.py:154-163 | one bad row refuses the batch and stores nothing; the count is between 1 and the row count and is the union of bad dates and bad expenses |
| Import.ImportRefused | books/views.py:176-225 | past both gates, when the database refuses the transaction, the import fails and the store is exactly as before: no category and no book of the batch remains |
| Import.ImportSucceeds | books/views.py:166-220 | past both gates, with a committing store, the count is the number of surviving rows, and the books of those rows are appended in order, each with its resolved category |
| Import.ImportCreatesOnePerNewName | books/views.py:171-185 | a successful import creates exactly one category per new lower-cased name, and no two share a name |
| Import.ImportReusesStoredCategory | books/views.py:171-182 | a row whose name a stored category has up to case gets a stored category, never a new one: the last one with that name in store order |
| Import.ImportSharesCategory | books/views.py:177-185 | rows whose names agree up to case get the same category |
| Import.ImportNamesNewCategory | books/views.py:178-185 | the first row with a new name gets a new category named as that row spells it |
| Report.Entries | books/views.py:236-237 | one pair per stored book, with the book's category name and expense; the pairs sum to the books' total expense |
| Report.Groups | books/views.py:237-238 | the groups carry exactly the entries' category names, each once; each group's total is the sum of the expenses filed under its name; the totals add up to the sum of all expenses; there are groups exactly when there are entries |
| Report.Names | books/views.py:237 | the distinct category names of the books, each one taken from some book |
| Report.Totals | books/views.py:238 | each name paired with the sum of the expenses filed under it |
| Report.PartitionTotal | books/views.py:237-238 | totalling each distinct name's expenses loses nothing: the totals add up to the sum of all expenses |
| Report.SortDesc | books/views.py:239 | the ordering is a permutation of the groups |
| Report.SortDescSorted | books/views.py:239 | the ordering is by non-increasing total |
| Report.SortDescAmount | books/views.py:239 | ordering keeps the grand total |
| Report.Ordered | books/views.py:235-240 | `report_data` is sorted by decreasing total, is a permutation of the per-name groups, sums to the books' total expense, and is empty exactly when there are no books |
| Report.Average | books/views.py:247 | with groups, the average times the group count is the total; with none, it is 0 |
| Report.Summarize | books/views.py:243-250 | the total is the sum of the rows; average times count is the total; both are 0 when empty; the top is the first row and is absent exactly when empty; on sorted rows the top is the maximum |
| Report.BuildReport | books/views.py:233-250 | the report is sorted; its total is the books' total expense; it is empty and has no top exactly when there are no books; the top is a row with the largest total |
| Report.ReportDistinct | books/views.py:237 | no category name appears on two rows |
| Report.ReportRowTotals | books/views.py:235-238 | each row's amount is the sum of the expenses filed under its name, and the name belongs to some book's category |
| Report.ReportCoversBooks | books/views.py:235-238 | every book's category name has a row |

## Left out

- **CRUD views, forms and URL routing** (`books/views.py:11-115`, `books/urls.py`): these
  have no logic of their own.
- **Parsers** (`books/views.py:129, 148, 151`): the internals of `pd.read_excel`,
  `pd.to_datetime` and `pd.to_numeric` are parameters, namely the optional upload and the
  `Env` functions.
  - The model applies them cell by cell. Column-wide inference of date formats by pandas
    is not modelled.
  - The `dayfirst` convention lives inside `toDate`.
- **Lower-casing**: `str.lower` is modelled for ASCII and Latin-1 letters only. Full
  Unicode case mapping, including characters whose lower case is longer, is not modelled.
- **Headers**: a header that is not a string is not modelled; every header is text.
- **Duplicate headers**: when two headers normalise to the same name, the model reads the
  first such column. pandas' behaviour for duplicate column labels is not modelled.
- **Messages and output**: `messages`, `redirect`, `render`, the debug `print` of the bad
  rows (`books/views.py:159-160`) and the chart colour palette are left out. The outcome
  datatype keeps only what each message reports.
- **GET requests and invalid forms** (`books/views.py:122-124, 226-229`): the form-handling
  branch is left out. `BookImport` models a POST with a valid form.
- **Line 133**: the first computation of the missing set (`books/views.py:133`) is
  overwritten before use and is not modelled.
- **Lines 202-203**: the `AttributeError` fallback for the date needs a converted date
  without `.date()`. `toDate` always yields a date, so that branch is not modelled.
- **Transactions**: the transaction and any database error inside it are folded into
  `commits`. Concurrent imports are not modelled. Category names carry no uniqueness
  constraint, so nothing is retried.
- **Decimal limits**: the `DecimalField(max_digits=10)` limit is not enforced. Expenses
  are unbounded integers of cents.
- **Floats in the report**: the report's float conversion (`books/views.py:244-247`) is
  replaced by integer cents and an exact `real` average.
- Import.BuildBook: the expense fallback at `books/views.py:189-190` is dead code, because
  the decimal conversion accepts NaN without raising, so the source would build a book
  with a NaN expense; the model stores 0 in its place. This case is not reachable past
  the gate.
- Categories.SeedKeepsLast: the stored-category query (`books/views.py:171`) has no
  ordering, so the database may return the categories in any order. The model fixes that
  order to creation order, and "last" means last in creation order.
- Categories.ResolvedReusesStored: it relies on the same fixed creation order for which
  stored category of a colliding name is reused.
- Import.ImportReusesStoredCategory: it relies on the same fixed creation order for which
  stored category of a colliding name is reused.
- Report.SortDesc: the database leaves the order of groups with equal totals open. The
  model keeps them in order of first appearance, and no lemma depends on that choice.

**Behaviour worth noting:**
- **Whitespace-only titles**: the title filter is `notna()` only. A title made only of
  whitespace is kept and stored as "".
- **Stored names are not stripped**: the cache key of a stored category is its name
  lower-cased but not stripped (`books/views.py:173`). Row names are stripped before
  lower-casing. So a stored name with surrounding whitespace never matches a row, and a
  new category is created for it.
- **A NaN category cell**: it is resolved as a category named "nan", the text
  `str()` gives for NaN.
- **The report groups by category name** (`values('category__name')`), not by category.
  Two categories that share a name share one row.
