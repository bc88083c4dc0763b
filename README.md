# Goodreads author lists and the CSV combiner, in Dafny

This project models the two data-preparation scripts of a book-tracking cache
warmer and proves properties of them.

**The Goodreads formatter** (`goodreads_formatter.py`) works in three steps.
- It reads the rows of a Goodreads export and cleans each author name.
- It attributes every row's book to its main author and to each of its
  additional authors, all in one insertion-ordered dict (author name to its
  books and `total_books`).
- It ranks that dict by `total_books`, largest first, with Python's stable
  sort. It renders the ranking three ways: a detailed cache-warming
  document, a plain list of names, and a two-column `author,book_count`
  table.

**The CSV combiner** (`combine_csvs.py`) also works in three steps.
- It reads the rows of several CSV files in one of two column layouts and
  turns each kept row into a `BookRecord` with normalised title, author,
  ISBN and year.
- It drops every record whose dedup key an earlier record already had.
- It counts the unique books, the unique (lower-cased) authors and the
  books whose ISBN serves as their key.

Modules:
- `Text` (text.dfy) defines the Python string operations the scripts use:
  - `strip` with and without a character set;
  - ASCII `lower`/`upper`;
  - `split(',')`;
  - the substring test;
  - `str(int)`.

  Whitespace is the set `str.isspace()` accepts, which is also the one `\s`
  matches.
- `Goodreads` (goodreads.dfy):
  - `clean_author_name`;
  - the row fold of `extract_authors_from_goodreads`, as a specification
    function `Aggregate`;
  - `ExtractAuthors`, an imperative loop proved equal to it.

  The dict is an `AuthorTable`: the keys in first-insertion order plus a map.
- `GoodreadsViews` (views.dfy): the stable descending sort and the three
  ranked outputs.
- `BookRecords` (records.dfy): `normalize_text`, `normalize_isbn`, the
  `BookRecord` constructor and `dedup_key`.
- `CsvCombiner` (combiner.dfy): the row logic of `process_file`, the
  deduplication, the statistics, and a `Combiner` class whose methods update
  `books` and the integer statistics in place.

The dict of `extract_authors_from_goodreads` is threaded through the loop as
a value: `Goodreads.AttributeStep` and `Goodreads.AddRowStep` take its keys
and entries and return the updated ones.

Where the documentation and the code disagree, the model follows the code:
- `clean_author_name` and `normalize_text` strip every leading and trailing
  quote, not "one layer".
- `normalize_text` also strips single quotes.
- `clean_author_name` is not idempotent. A quote that sits behind whitespace
  inside an outer quote, as in `"  "Bob"`, survives the first pass, which
  gives `"Bob`; the second pass gives `Bob` (`Goodreads.CleanKeepsInnerQuote`,
  `Goodreads.CleanSecondPass`). A quote behind leading whitespace alone, as
  in ` "Bob`, is removed, because the first `strip()` takes the whitespace
  off. `normalize_text` behaves the same way with a double quote behind a
  single quote when text follows it, as in `'"Dune`, which gives `"Dune`
  (`BookRecords.NormalizeTextKeepsInnerQuote`). With nothing after it, the
  double quote is the last character and is stripped too: `'"` gives ""
  (`BookRecords.NormalizeTextLoneQuotes`).

Other behaviour that follows from the code and is proved here:
- The ISBN13 cell is stripped of `"` before `=`. So a cell `="9780141"` keeps
  its leading quote (`Goodreads.IsbnFieldFormula`).
- The combiner tests for a blank title before normalising. So a title made
  only of quotes is kept. The title `""` is stored empty
  (`CsvCombiner.QuoteOnlyTitleKept`), but `'"'` is stored as `"`, because its
  apostrophes shield the double quote (`CsvCombiner.QuoteWrappedTitleKept`).
- Each attributed book takes its rating and shelf from the row. The
  defaults `"0"` and `"unknown"` apply only when the export has no such
  column; a present but empty cell is kept as "" (`Goodreads.BookForSpec`,
  `Goodreads.BookForEmptyCells`).
- A name that is both the main author and an additional author of a row is
  attributed that row's book twice, once per role
  (`Goodreads.SameAuthorTwice`).
- Fallback dedup keys join title and author with `:`. So two different books
  can share a key when a colon moves between the fields
  (`BookRecords.FallbackKeyColonCollision`). Without a colon in the author,
  the key is exact (`BookRecords.FallbackKeyExact`).
- The layout test looks only for the words "year" and "title" anywhere in the
  header. So `Title,Year` is read with the year-first positions
  (`CsvCombiner.LayoutOfTrailingYear`).

## Model

| member | source | states |
|---|---|---|
| Text.StripCharsTrimmed | cloudflare-workers/goodreads_formatter.py:18 | `strip(chars)` returns a contiguous slice of its input, with only characters of the set removed at the two ends. A non-empty result neither starts nor ends with one of them. |
| Text.StripCharsExact | cloudflare-workers/goodreads_formatter.py:18 | Stripping removes exactly the outer runs of set characters and leaves the middle untouched. |
| Text.SplitJoin | cloudflare-workers/goodreads_formatter.py:66 | The pieces of `split(',')` contain no comma, and joining them with commas gives back the cell. |
| Text.Contains | cloudflare-workers/personal-library-cache-warmer/csv-expansion/combine_csvs.py:140 | The substring test is true exactly when the word occurs at some position of the line. |
| Text.NatToString | cloudflare-workers/goodreads_formatter.py:158 | A written count is a non-empty string of digits with no leading zero. |
| Text.DecimalRoundTrip | cloudflare-workers/goodreads_formatter.py:158 | Reading a written count back as a decimal gives the count. |
| Goodreads.CleanAuthorName | cloudflare-workers/goodreads_formatter.py:12-37 | The cleaner itself: `None` for "" and for an empty or placeholder stripped name, else the stripped name. Its properties are the three rows below. |
| Goodreads.CleanAuthorNameNone | cloudflare-workers/goodreads_formatter.py:12-37 | No name is returned exactly when the stripped text is empty or is one of the five placeholders in any letter case. The empty input gives none. |
| Goodreads.CleanAuthorNameSome | cloudflare-workers/goodreads_formatter.py:18-37 | A returned name is the input with only whitespace and double quotes cut from its ends. It is non-empty, has no outer whitespace and is not a placeholder. |
| Goodreads.CleanAuthorNameReaches | cloudflare-workers/goodreads_formatter.py:18-37 | Every such name is returned for some input, so these names are exactly the cleaner's range. |
| Goodreads.CleanPlainName | cloudflare-workers/goodreads_formatter.py:12-37 | A name without whitespace or quotes at its ends is returned unchanged unless it is a placeholder. |
| Goodreads.CleanKeepsInnerQuote | cloudflare-workers/goodreads_formatter.py:18 | The literal `"  "Bob"`, whose inner quote sits behind whitespace inside an outer quote, cleans to `"Bob`: the inner quote survives. |
| Goodreads.CleanSecondPass | cloudflare-workers/goodreads_formatter.py:18 | Cleaning `"Bob` gives `Bob`, so cleaning is not idempotent. |
| Text.LowerAfterCase | cloudflare-workers/goodreads_formatter.py:33-35 | Lower-casing after upper- or lower-casing gives the same as lower-casing the original. |
| Goodreads.SkipWordCaseInsensitive | cloudflare-workers/goodreads_formatter.py:33-35 | Upper- or lower-casing a name never changes whether it is a placeholder, as `re.IGNORECASE` promises. |
| Goodreads.SkipWordAnyCase | cloudflare-workers/goodreads_formatter.py:25-35 | The upper-case literal `UNKNOWN` is dropped by the case-insensitive match. The general rule is in `Goodreads.CleanAuthorNameNone`. |
| Goodreads.SkipWordWholeName | cloudflare-workers/goodreads_formatter.py:25-35 | The literal `Editor Smith`, which only starts with a placeholder, is kept, because the patterns are anchored. |
| Goodreads.IsbnFieldFormula | cloudflare-workers/goodreads_formatter.py:57 | The ISBN cell `="9780141"` becomes `"9780141`, because `=` is stripped after the quotes. |
| Goodreads.IsbnFieldPadded | cloudflare-workers/goodreads_formatter.py:57 | The padded literal ` 9780141 ` becomes `9780141`. |
| Goodreads.CleanAllKeys | cloudflare-workers/goodreads_formatter.py:66 | Every name the cleaned additional-author list holds is a clean author key. |
| Goodreads.PartsKeys | cloudflare-workers/goodreads_formatter.py:49-66 | Every name a row contributes, main or additional, is a clean author key. |
| Goodreads.IsbnField | cloudflare-workers/goodreads_formatter.py:57 | The ISBN cell stripped of whitespace, then of `"`, then of `=`. Its behaviour is shown by the two rows above. |
| Goodreads.BookFor | cloudflare-workers/goodreads_formatter.py:55-60 | The book a row contributes: stripped title, ISBN field, rating and shelf with their `row.get` defaults, and the role. Its properties are in `Goodreads.BookForSpec`. |
| Goodreads.BookForSpec | cloudflare-workers/goodreads_formatter.py:55-60 | Title and ISBN come from their columns. The rating is `"0"` and the shelf is `"unknown"` exactly when their column is absent; otherwise each is the cell as given. The role is the one asked for. |
| Goodreads.BookForEmptyCells | cloudflare-workers/goodreads_formatter.py:55-60 | Present but empty `My Rating` and `Exclusive Shelf` cells give "" and "", while a row without those columns gives `"0"` and `"unknown"`. |
| Goodreads.Attribute | cloudflare-workers/goodreads_formatter.py:55-61 | One append and increment of the dict, inserting the key at the end on first use. Its properties are in `Goodreads.AttributeSpec`. |
| Goodreads.AddRow | cloudflare-workers/goodreads_formatter.py:49-76 | One iteration of the row loop: the main author, then the additional authors in order. Its properties are in `Goodreads.AddRowSpec`. |
| Goodreads.Aggregate | cloudflare-workers/goodreads_formatter.py:39-81 | The dict after all rows, folded left to right. Its properties are in `Goodreads.AggregateSpec`. |
| Goodreads.AttributeSpec | cloudflare-workers/goodreads_formatter.py:55-61 | One attribution keeps the dict invariant and appends the book to that author only. It adds one to the grand total and can only append the key to the insertion order. |
| Goodreads.AttributeAllSpec | cloudflare-workers/goodreads_formatter.py:64-76 | The additional-author loop gives each author the row's book once per piece that cleans to that name. It adds the number of valid pieces to the total and keeps the invariant. |
| Goodreads.ApplySpec | cloudflare-workers/goodreads_formatter.py:53-76 | A row's main and additional attributions together add exactly their books per author and their number to the total, and keep the invariant. |
| Goodreads.SameAuthorTwice | cloudflare-workers/goodreads_formatter.py:53-76 | A row whose main and only additional author are both `Ann` gives `Ann` two books, the main one first, a count of 2, and one key. |
| Goodreads.AddRowSpec | cloudflare-workers/goodreads_formatter.py:49-76 | One loop iteration, stated over the row: each author gains exactly the row's books for that author, and the key order only grows. |
| Goodreads.AggregateSpec | cloudflare-workers/goodreads_formatter.py:39-81 | The final dict keeps the invariant: distinct clean keys, non-empty book lists, and each count equal to its list's length. Each author's books are the row-by-row attributions to it, in row order. The grand total is the number of (row, valid author) attributions. |
| Goodreads.AggregateOnlyAppends | cloudflare-workers/goodreads_formatter.py:48-76 | Later rows only append: the key order and every author's book list after a prefix of the rows are prefixes of the final ones. |
| Goodreads.AttributeStep | cloudflare-workers/goodreads_formatter.py:55-61 | The in-place append and increment leave the dict equal to the attribution function. |
| Goodreads.AddRowStep | cloudflare-workers/goodreads_formatter.py:49-76 | The loop body, including its inner loop over the additional authors, leaves the dict equal to the row function. |
| Goodreads.ExtractAuthors | cloudflare-workers/goodreads_formatter.py:39-81 | The row loop returns the aggregate. It keeps the invariant, gives each author exactly its attributed books, and its total equals the number of attributions. |
| GoodreadsViews.NamesOfItems | cloudflare-workers/goodreads_formatter.py:88 | `items()` yields the keys in insertion order. |
| GoodreadsViews.SortDesc | cloudflare-workers/goodreads_formatter.py:87-91 | The stable descending sort on `total_books`; it keeps the length. The next three rows pin it down. |
| GoodreadsViews.SortDescPerm | cloudflare-workers/goodreads_formatter.py:87-91 | The sort returns a permutation of the items. |
| GoodreadsViews.SortDescOrdered | cloudflare-workers/goodreads_formatter.py:87-91 | Counts in the sorted result never increase. |
| GoodreadsViews.SortDescStable | cloudflare-workers/goodreads_formatter.py:87-91 | The sort is stable: the items of any one count keep their input order. |
| GoodreadsViews.SortDescSum | cloudflare-workers/goodreads_formatter.py:87-98 | Sorting does not change the sum of the counts. |
| GoodreadsViews.SumItems | cloudflare-workers/goodreads_formatter.py:98 | The counts of all items sum to the table's total. |
| GoodreadsViews.Ranked | cloudflare-workers/goodreads_formatter.py:87-91 | `sorted(authors_data.items(), key=total_books, reverse=True)`. Its properties are in `GoodreadsViews.RankedSpec` and `GoodreadsViews.RankedStable`. |
| GoodreadsViews.RankedSpec | cloudflare-workers/goodreads_formatter.py:87-91 | The ranking has one distinct entry per key, each paired with that key's own entry, in non-increasing count order. |
| GoodreadsViews.RankedStable | cloudflare-workers/goodreads_formatter.py:87-91 | Authors with equal counts appear in first-insertion order. |
| GoodreadsViews.RankedSum | cloudflare-workers/goodreads_formatter.py:98 | The ranked counts sum to the table's total. |
| GoodreadsViews.CreateCacheWarmingFormat | cloudflare-workers/goodreads_formatter.py:83-113 | The metadata carries the fixed source, date and version, the number of authors and the total of all counts. Each ranked author has their true count and their first ten books, in ranking order. |
| GoodreadsViews.TakePrefix | cloudflare-workers/goodreads_formatter.py:110 | The `[:10]` slice is the first min(10, n) books. |
| GoodreadsViews.SimpleAuthorList | cloudflare-workers/goodreads_formatter.py:115-124 | The names of the ranking. Its properties are in the next row. |
| GoodreadsViews.SimpleAuthorListSpec | cloudflare-workers/goodreads_formatter.py:115-124 | The list is a duplicate-free permutation of the keys, in the detailed view's order, with non-increasing counts. |
| GoodreadsViews.CountTable | cloudflare-workers/goodreads_formatter.py:154-158 | The rows given to `csv.writer`. Its properties are in the next row. |
| GoodreadsViews.CountTableSpec | cloudflare-workers/goodreads_formatter.py:154-158 | The table is the header plus one two-cell row per author in ranking order. Each second cell reads back as that author's total. |
| BookRecords.CollapseShape | cloudflare-workers/personal-library-cache-warmer/csv-expansion/combine_csvs.py:41 | After `re.sub(r'\s+', ' ', ...)` the only whitespace is single spaces. |
| BookRecords.CollapseContent | cloudflare-workers/personal-library-cache-warmer/csv-expansion/combine_csvs.py:41 | Collapsing keeps every non-whitespace character in order. |
| BookRecords.CollapseRun | cloudflare-workers/personal-library-cache-warmer/csv-expansion/combine_csvs.py:40-41 | Every maximal whitespace run becomes exactly one space, and the text on each side of it is collapsed independently. |
| BookRecords.CollapseIdempotent | cloudflare-workers/personal-library-cache-warmer/csv-expansion/combine_csvs.py:41 | Collapsing twice equals collapsing once. |
| BookRecords.TrimmedSpec | cloudflare-workers/personal-library-cache-warmer/csv-expansion/combine_csvs.py:39 | The strip chain cuts only whitespace and both kinds of quote from the ends, and leaves no outer whitespace. |
| BookRecords.NormalizeText | cloudflare-workers/personal-library-cache-warmer/csv-expansion/combine_csvs.py:34-42 | `normalize_text`: "" stays "", else the strip chain followed by the whitespace collapse. Its properties are in the rows below. |
| BookRecords.NormalizeTextSpec | cloudflare-workers/personal-library-cache-warmer/csv-expansion/combine_csvs.py:34-42 | The empty text gives "". Every result has no outer whitespace and only single spaces, and it keeps the trimmed text's non-space characters. |
| BookRecords.NormalizeTextRun | cloudflare-workers/personal-library-cache-warmer/csv-expansion/combine_csvs.py:40-41 | Inside the trimmed text, each whitespace run becomes one space and the parts around it are normalised on their own. |
| BookRecords.NormalizeTextDoubleSpace | cloudflare-workers/personal-library-cache-warmer/csv-expansion/combine_csvs.py:34-42 | The literal `a  b` (two spaces) becomes `a b`. |
| BookRecords.NormalizeTextFixed | cloudflare-workers/personal-library-cache-warmer/csv-expansion/combine_csvs.py:34-42 | Text already in that shape, with no outer quotes, is unchanged. |
| BookRecords.NormalizeTextKeepsInnerQuote | cloudflare-workers/personal-library-cache-warmer/csv-expansion/combine_csvs.py:39 | The literal `'"Dune` normalises to `"Dune`: a double quote behind a single quote, with text after it, survives. |
| BookRecords.NormalizeTextLoneQuotes | cloudflare-workers/personal-library-cache-warmer/csv-expansion/combine_csvs.py:39 | The literal `'"` normalises to "": with nothing after it the double quote is stripped as well. |
| BookRecords.NormalizeTextSecondPass | cloudflare-workers/personal-library-cache-warmer/csv-expansion/combine_csvs.py:39 | A second normalisation removes that quote. |
| BookRecords.KeepIsbnCharsSpec | cloudflare-workers/personal-library-cache-warmer/csv-expansion/combine_csvs.py:49 | The filter keeps only digits, `X` and `x`. |
| BookRecords.KeepIsbnCharsAppend | cloudflare-workers/personal-library-cache-warmer/csv-expansion/combine_csvs.py:49 | The filter distributes over concatenation. With the next row this fixes it on every input: every digit, `X` and `x` is kept, in order, and nothing else. |
| BookRecords.KeepIsbnCharsOne | cloudflare-workers/personal-library-cache-warmer/csv-expansion/combine_csvs.py:49 | A single character is kept exactly when it is a digit, `X` or `x`. |
| BookRecords.KeepIsbnCharsAll | cloudflare-workers/personal-library-cache-warmer/csv-expansion/combine_csvs.py:49 | Input made only of digits, `X` and `x` passes the filter whole. |
| BookRecords.CleanIsbnOfIsbnChars | cloudflare-workers/personal-library-cache-warmer/csv-expansion/combine_csvs.py:48-51 | On input made only of digits, `X` and `x`, cleaning keeps every character in place and turns `x` into `X`. |
| BookRecords.CleanIsbnAlphabet | cloudflare-workers/personal-library-cache-warmer/csv-expansion/combine_csvs.py:48-51 | The cleaned ISBN has only digits and upper-case `X`. |
| BookRecords.NormalizeIsbn | cloudflare-workers/personal-library-cache-warmer/csv-expansion/combine_csvs.py:44-64 | `normalize_isbn`, including the `978` prefix without a check digit. Its properties are in the rows below. |
| BookRecords.NormalizeIsbnLowerX | cloudflare-workers/personal-library-cache-warmer/csv-expansion/combine_csvs.py:49-58 | The literal `123456789x` becomes `123456789X`: the `x` is upper-cased, and the value is then kept because it ends in `X`. |
| BookRecords.NormalizeIsbnSpec | cloudflare-workers/personal-library-cache-warmer/csv-expansion/combine_csvs.py:44-64 | The empty input gives "". A 10-character value ending in `X` is kept. Any other 10-character value becomes `978` plus its first nine characters, with no check digit. Other lengths are kept as cleaned. No result has 10 characters unless it ends in `X`. |
| BookRecords.NormalizeIsbnIdempotent | cloudflare-workers/personal-library-cache-warmer/csv-expansion/combine_csvs.py:44-64 | Normalising an ISBN twice equals normalising it once. |
| BookRecords.NewBookRecord | cloudflare-workers/personal-library-cache-warmer/csv-expansion/combine_csvs.py:28-32 | The `BookRecord` constructor: normalised title and author, normalised ISBN, stripped year. |
| BookRecords.NewBookRecordNormal | cloudflare-workers/personal-library-cache-warmer/csv-expansion/combine_csvs.py:28-32 | Every constructed record has normalised title, author and ISBN, and a stripped year. |
| BookRecords.DedupKey | cloudflare-workers/personal-library-cache-warmer/csv-expansion/combine_csvs.py:66-73 | `dedup_key`: `isbn:` and the ISBN when it has at least 10 characters, else `title_author:` and the lower-cased title and author joined by `:`. Its properties are in the rows below. |
| BookRecords.IsbnKeyInjective | cloudflare-workers/personal-library-cache-warmer/csv-expansion/combine_csvs.py:66-70 | Two ISBN keys agree exactly when the ISBNs agree. |
| BookRecords.KeyKindsDisjoint | cloudflare-workers/personal-library-cache-warmer/csv-expansion/combine_csvs.py:66-73 | An ISBN key never equals a title/author key. |
| BookRecords.FallbackKeyExact | cloudflare-workers/personal-library-cache-warmer/csv-expansion/combine_csvs.py:72-73 | If neither lower-cased author contains `:`, two fallback keys agree exactly when the lower-cased titles and authors do. |
| BookRecords.FallbackKeyColonCollision | cloudflare-workers/personal-library-cache-warmer/csv-expansion/combine_csvs.py:73 | Books `a:b` by `c` and `a` by `b:c` get the same fallback key. |
| CsvCombiner.LayoutOf | cloudflare-workers/personal-library-cache-warmer/csv-expansion/combine_csvs.py:133-148 | The layout test on the stripped, lower-cased first line. Examples are in the rows below. |
| CsvCombiner.MissingLetter | cloudflare-workers/personal-library-cache-warmer/csv-expansion/combine_csvs.py:140 | A word whose first letter is absent from the header is not found in it. |
| CsvCombiner.LayoutOfTitleHeader | cloudflare-workers/personal-library-cache-warmer/csv-expansion/combine_csvs.py:133-148 | The literal header `Title,ISBN`, which has no "year", selects the title-first positions. |
| CsvCombiner.LayoutOfTrailingYear | cloudflare-workers/personal-library-cache-warmer/csv-expansion/combine_csvs.py:133-148 | The mixed-case header `Title,Year` selects the year-first positions, although its title comes first. |
| CsvCombiner.KeptRecords | cloudflare-workers/personal-library-cache-warmer/csv-expansion/combine_csvs.py:150-166 | The records the row loop appends, in row order. Its properties are in the rows below. |
| CsvCombiner.KeptRecordsOne | cloudflare-workers/personal-library-cache-warmer/csv-expansion/combine_csvs.py:150-166 | A row gives a record exactly when it has at least three cells and a non-blank title and author. |
| CsvCombiner.KeptRecordsAppend | cloudflare-workers/personal-library-cache-warmer/csv-expansion/combine_csvs.py:150-166 | The records of consecutive row blocks are the concatenation of their records. |
| CsvCombiner.KeptRecordsSpec | cloudflare-workers/personal-library-cache-warmer/csv-expansion/combine_csvs.py:150-166 | A file yields no more records than rows, and every record is normalised. |
| CsvCombiner.ShortYearRowHasNoIsbn | cloudflare-workers/personal-library-cache-warmer/csv-expansion/combine_csvs.py:142-158 | A three-cell year-first row has no ISBN cell, so its ISBN is "" and its year is the stripped first cell. |
| CsvCombiner.QuoteOnlyTitleKept | cloudflare-workers/personal-library-cache-warmer/csv-expansion/combine_csvs.py:161-164 | The row `""`, `Ann`, "" (a title of two double quotes) passes the blank test and is stored with title "". |
| CsvCombiner.QuoteWrappedTitleKept | cloudflare-workers/personal-library-cache-warmer/csv-expansion/combine_csvs.py:161-164 | The row `'"'`, `Ann`, "" (a title of quotes only) passes the blank test and is stored with title `"`, so a quotes-only title is not always stored empty. |
| CsvCombiner.Dedup | cloudflare-workers/personal-library-cache-warmer/csv-expansion/combine_csvs.py:184-197 | The records `remove_duplicates` keeps: each whose key no earlier kept record had. Its properties are in the rows below. |
| CsvCombiner.KeySetMembers | cloudflare-workers/personal-library-cache-warmer/csv-expansion/combine_csvs.py:184-192 | A key is seen exactly when some record has it. |
| CsvCombiner.DedupKeys | cloudflare-workers/personal-library-cache-warmer/csv-expansion/combine_csvs.py:184-197 | Deduplication keeps every key of the input and adds none. |
| CsvCombiner.DedupDistinct | cloudflare-workers/personal-library-cache-warmer/csv-expansion/combine_csvs.py:188-197 | No two kept records share a key. |
| CsvCombiner.DedupIndices | cloudflare-workers/personal-library-cache-warmer/csv-expansion/combine_csvs.py:188-197 | The kept records are an order-preserving subsequence of the input, and each is the first record with its key. |
| CsvCombiner.FirstOfEachKey | cloudflare-workers/personal-library-cache-warmer/csv-expansion/combine_csvs.py:184-195 | The loop over the books with a set of seen keys returns exactly the deduplication, and its duplicate count plus the kept count is the input length. |
| CsvCombiner.DedupNormal | cloudflare-workers/personal-library-cache-warmer/csv-expansion/combine_csvs.py:197 | Deduplicating normalised records leaves only normalised records. |
| CsvCombiner.DedupMembers | cloudflare-workers/personal-library-cache-warmer/csv-expansion/combine_csvs.py:188-197 | Every kept record is an input record. |
| CsvCombiner.DedupLength | cloudflare-workers/personal-library-cache-warmer/csv-expansion/combine_csvs.py:188-198 | No more records are kept than were given, so the duplicate count is a natural number. |
| CsvCombiner.DedupDistinctFixed | cloudflare-workers/personal-library-cache-warmer/csv-expansion/combine_csvs.py:188-197 | Records with pairwise distinct keys are all kept. |
| CsvCombiner.DedupIdempotent | cloudflare-workers/personal-library-cache-warmer/csv-expansion/combine_csvs.py:180-198 | Removing duplicates a second time changes nothing. |
| CsvCombiner.AuthorSet | cloudflare-workers/personal-library-cache-warmer/csv-expansion/combine_csvs.py:208-212 | The set of lower-cased authors. Its properties are in `CsvCombiner.AuthorSetSpec`. |
| CsvCombiner.IsbnCount | cloudflare-workers/personal-library-cache-warmer/csv-expansion/combine_csvs.py:209-214 | The number of books whose ISBN has at least 10 characters. Its bound is in `CsvCombiner.IsbnCountBound`. |
| CsvCombiner.AuthorSetSpec | cloudflare-workers/personal-library-cache-warmer/csv-expansion/combine_csvs.py:208-216 | The author set holds exactly the lower-cased authors of the books, and it is no larger than the number of books. |
| CsvCombiner.IsbnCountBound | cloudflare-workers/personal-library-cache-warmer/csv-expansion/combine_csvs.py:209-214 | No more books have an ISBN key than there are books. |
| CsvCombiner.Combiner.constructor | cloudflare-workers/personal-library-cache-warmer/csv-expansion/combine_csvs.py:90-100 | A new combiner has no books and all statistics zero. |
| CsvCombiner.Combiner.ProcessFile | cloudflare-workers/personal-library-cache-warmer/csv-expansion/combine_csvs.py:123-178 | It appends the records of the kept rows, in the layout the header selects. It adds their number to the raw total, counts one more file, and changes nothing else. |
| CsvCombiner.Combiner.RemoveDuplicates | cloudflare-workers/personal-library-cache-warmer/csv-expansion/combine_csvs.py:180-198 | It replaces the books by their deduplication and records the number removed. The other statistics are unchanged. |
| CsvCombiner.Combiner.CalculateStats | cloudflare-workers/personal-library-cache-warmer/csv-expansion/combine_csvs.py:203-216 | It sets the unique-book and unique-author counts and returns the number of books with an ISBN key. Neither count exceeds the unique-book count, and the books are unchanged. |
| CsvCombiner.Combiner.ProcessAllFiles | cloudflare-workers/personal-library-cache-warmer/csv-expansion/combine_csvs.py:102-121 | After processing the files in order, the books are the deduplication of all kept records and the statistics describe them. The removed duplicates plus the unique books never exceed the raw records read, and the unique authors never exceed the unique books. |

## Left out

- Files, `open`, `csv.DictReader`/`csv.reader` tokenising, `readline`/`seek` and `os.listdir`. A Goodreads export is given as its rows, a map from column name to cell. A combiner file is given as its first line and its data rows, already split, and the files come in processing order, so the alphabetical sort is left out.
- `None` cells. `DictReader` gives `None` for the cells missing from a short row, and the model has no `None` cell: a column is either present with a string or absent, and an absent column takes the `row.get` default. In the source, a `None` cell behaves as follows:
  - a `None` Title or Additional Authors crashes `.strip()` (lines 49 and 51);
  - a `None` ISBN13 crashes `.strip()` when the book is attributed to someone (lines 57 and 71);
  - a `None` Author gives no name (line 14);
  - a `None` My Rating or Exclusive Shelf is stored as `None`, with no crash and no default (lines 58-59 and 72-73).
- Empty-directory and empty-export edge cases that exist only in the I/O layer. One example is `row_num` being unbound at goodreads_formatter.py line 78 when the export has no rows.
- All `print` output, `json.dump` of the two JSON files, `main`'s statistics printout, `export_combined_csv`, `to_dict` and `__str__`.
- The `try`/`except` paths of `process_file` (lines 168-174). A file that cannot be opened or has no header row is not representable, because every modelled file has a first line.
- `isbn_coverage` and any ratio: they are floating point. `CsvCombiner.Combiner.CalculateStats` returns the integer `books_with_isbn` as an out-parameter instead.
- The defaultdict of `extract_authors_from_goodreads` is passed as a value through `Goodreads.AttributeStep`, `Goodreads.AddRowStep` and `Goodreads.ExtractAuthors`, so aliasing of the dict is not modelled; nothing else refers to it in the source.
- `input_dir` and the path joining. A file is identified by its content.
- `Text.Lower`/`Text.Upper` change only ASCII letters. Python's `lower()`/`upper()` and `re.IGNORECASE` also fold other Unicode letters, and `\d` also matches non-ASCII digits.
