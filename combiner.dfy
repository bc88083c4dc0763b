/** CSVCombiner: reads the rows of several CSV exports into BookRecords,
    removes duplicates by dedup key, and counts the result.  A file is given as
    its first line and its already-split data rows. */
module CsvCombiner {
  import opened Text
  import opened BookRecords

  // ---------------------------------------------------------------------------
  // process_file row logic

  /** Column positions of a file; yearIdx is None when the file has no year
      column (the source's has_year = False, year_idx = -1). */
  datatype Layout = Layout(titleIdx: nat, authorIdx: nat, isbnIdx: nat, yearIdx: Option<nat>)

  /** year,title,author,isbn13 */
  const YearFirst: Layout := Layout(1, 2, 3, Some(0))

  /** Title,Author,ISBN-13 */
  const TitleFirst: Layout := Layout(0, 1, 2, None)

  /** The layout chosen from the file's first line. */
  function LayoutOf(firstLine: string): Layout {
    var line := Lower(Strip(firstLine));
    if Contains(line, "year") && Contains(line, "title") then YearFirst else TitleFirst
  }

  /** A word whose first letter does not occur in the line is not in it. */
  lemma MissingLetter(line: string, word: string)
    requires word != [] && word[0] !in line
    ensures !Contains(line, word)
  {
    forall i | 0 <= i <= |line| - |word|
      ensures !OccursAt(line, word, i)
    {
      assert line[i..i + |word|][0] == line[i];
      assert line[i] in line;
    }
  }

  lemma StripTitleIsbn()
    ensures Strip("Title,ISBN") == "Title,ISBN"
  {
    var h := "Title,ISBN";
    assert forall i :: 0 <= i < |h| ==> IsGraphic(h[i]);
    GraphicNormal(h);
  }

  /** A header without "year" selects the title-first layout. */
  lemma LayoutOfTitleHeader()
    ensures LayoutOf("Title,ISBN") == TitleFirst
  {
    var h := "Title,ISBN";
    StripTitleIsbn();
    var line := Lower(h);
    assert 'y' !in line by {
      forall i | 0 <= i < |line|
        ensures line[i] != 'y'
      {
        assert line[i] == LowerChar(h[i]);
      }
    }
    MissingLetter(line, "year");
  }

  lemma StripTitleYear()
    ensures Strip("Title,Year") == "Title,Year"
  {
    var h := "Title,Year";
    assert forall i :: 0 <= i < |h| ==> IsGraphic(h[i]);
    GraphicNormal(h);
  }

  lemma NormalTitleYear()
    ensures Lower(Strip("Title,Year")) == "title,year"
  {
    StripTitleYear();
    assert Lower("Title,Year") == "title,year";
  }

  /** Only the two words are looked at, in either case: a title-first header
      that also has a year column is read with the year-first positions. */
  lemma LayoutOfTrailingYear()
    ensures LayoutOf("Title,Year") == YearFirst
  {
    NormalTitleYear();
    var line := "title,year";
    assert OccursAt(line, "title", 0);
    assert OccursAt(line, "year", 6);
  }

  /** row[i] if i < len(row) else "" */
  function FieldAt(row: seq<string>, i: nat): string {
    if i < |row| then row[i] else ""
  }

  function YearOf(layout: Layout, row: seq<string>): string {
    match layout.yearIdx
    case Some(y) => FieldAt(row, y)
    case None => ""
  }

  /** A row is kept when it has at least three fields and a non-blank title and
      author. */
  predicate Keeps(layout: Layout, row: seq<string>) {
    && |row| >= 3
    && Strip(FieldAt(row, layout.titleIdx)) != ""
    && Strip(FieldAt(row, layout.authorIdx)) != ""
  }

  function RecordOf(layout: Layout, row: seq<string>): BookRecord {
    NewBookRecord(FieldAt(row, layout.titleIdx), FieldAt(row, layout.authorIdx),
                  FieldAt(row, layout.isbnIdx), YearOf(layout, row))
  }

  /** The records process_file appends for these rows, in row order. */
  function KeptRecords(layout: Layout, rows: seq<seq<string>>): seq<BookRecord> {
    if rows == [] then []
    else
      var last := rows[|rows| - 1];
      KeptRecords(layout, rows[..|rows| - 1]) + (if Keeps(layout, last) then [RecordOf(layout, last)] else [])
  }

  /** Rows are processed one after another: the records of a concatenation are
      the records of its parts, concatenated. */
  lemma {:induction false} KeptRecordsAppend(layout: Layout, a: seq<seq<string>>, b: seq<seq<string>>)
    ensures KeptRecords(layout, a + b) == KeptRecords(layout, a) + KeptRecords(layout, b)
    decreases |b|
  {
    if b != [] {
      var init := b[..|b| - 1];
      KeptRecordsAppend(layout, a, init);
      assert (a + b)[..|a + b| - 1] == a + init;
      assert (a + b)[|a + b| - 1] == b[|b| - 1];
    } else {
      assert a + b == a;
    }
  }

  /** No more records than rows, and every record is normalised. */
  lemma {:induction false} KeptRecordsSpec(layout: Layout, rows: seq<seq<string>>)
    ensures |KeptRecords(layout, rows)| <= |rows|
    ensures forall i :: 0 <= i < |KeptRecords(layout, rows)| ==> IsNormalRecord(KeptRecords(layout, rows)[i])
  {
    if rows != [] {
      var last := rows[|rows| - 1];
      KeptRecordsSpec(layout, rows[..|rows| - 1]);
      NewBookRecordNormal(FieldAt(last, layout.titleIdx), FieldAt(last, layout.authorIdx),
                          FieldAt(last, layout.isbnIdx), YearOf(layout, last));
    }
  }

  /** A row is kept exactly when it has three fields and a non-blank title and
      author, and then contributes one record built from its cells. */
  lemma KeptRecordsOne(layout: Layout, row: seq<string>)
    ensures KeptRecords(layout, [row]) == if Keeps(layout, row) then [RecordOf(layout, row)] else []
  {
    assert [row][..0] == [];
  }

  /** In the year-first layout a row of exactly three fields has no ISBN cell:
      the out-of-range lookup yields "", which normalises to "". */
  lemma ShortYearRowHasNoIsbn(row: seq<string>)
    requires |row| == 3
    ensures RecordOf(YearFirst, row).isbn == ""
    ensures RecordOf(YearFirst, row).year == Strip(row[0])
  {
  }

  /** The blank-title test runs before normalisation, so a title made only of
      quote characters is kept and stored empty. */
  lemma QuoteOnlyTitleKept()
    ensures Keeps(TitleFirst, ["\"\"", "Ann", ""])
    ensures RecordOf(TitleFirst, ["\"\"", "Ann", ""]).title == ""
  {
    GraphicNormal("\"\"");
    assert "\"\"" == "\"\"" + [] + [];
    StripCharsExact("\"\"", [], [], DoubleQuote);
  }

  /** A title of quotes only is not always stored empty: the apostrophes of
      `'"'` shield its double quote, which survives as the title. */
  lemma QuoteWrappedTitleKept()
    ensures Keeps(TitleFirst, ["'\"'", "Ann", ""])
    ensures RecordOf(TitleFirst, ["'\"'", "Ann", ""]).title == "\""
  {
    GraphicNormal("'\"'");
    NoOuterChars("'\"'", DoubleQuote);
    assert "'\"'" == "'" + "\"" + "'";
    StripCharsExact("'", "\"", "'", SingleQuote);
    GraphicNormal("\"");
  }

  // ---------------------------------------------------------------------------
  // remove_duplicates

  /** The keys of the records of s (seen_keys). */
  function KeySet(s: seq<BookRecord>): set<string> {
    if s == [] then {} else KeySet(s[..|s| - 1]) + {DedupKey(s[|s| - 1])}
  }

  /** The records remove_duplicates keeps: each whose key no earlier record
      had. */
  function Dedup(s: seq<BookRecord>): seq<BookRecord> {
    if s == [] then []
    else
      var d := Dedup(s[..|s| - 1]);
      if DedupKey(s[|s| - 1]) in KeySet(d) then d else d + [s[|s| - 1]]
  }

  /** The positions in s of the records Dedup keeps. */
  function KeptIndices(s: seq<BookRecord>): seq<nat> {
    if s == [] then []
    else
      var ix := KeptIndices(s[..|s| - 1]);
      if DedupKey(s[|s| - 1]) in KeySet(Dedup(s[..|s| - 1])) then ix else ix + [|s| - 1]
  }

  lemma {:induction false} KeySetMembers(s: seq<BookRecord>)
    ensures forall k :: k in KeySet(s) <==> exists i :: 0 <= i < |s| && DedupKey(s[i]) == k
  {
    if s != [] {
      var init := s[..|s| - 1];
      KeySetMembers(init);
      assert forall i :: 0 <= i < |init| ==> init[i] == s[i];
    }
  }

  lemma {:induction false} KeyNotInSet(s: seq<BookRecord>, key: string)
    requires forall i :: 0 <= i < |s| ==> DedupKey(s[i]) != key
    ensures key !in KeySet(s)
  {
    if s != [] {
      var init := s[..|s| - 1];
      assert forall i :: 0 <= i < |init| ==> init[i] == s[i];
      KeyNotInSet(init, key);
    }
  }

  /** Every key of the input survives, and no other. */
  lemma {:induction false} DedupKeys(s: seq<BookRecord>)
    ensures KeySet(Dedup(s)) == KeySet(s)
  {
    if s != [] {
      DedupKeys(s[..|s| - 1]);
    }
  }

  /** The kept records have pairwise distinct keys. */
  lemma {:induction false} DedupDistinct(s: seq<BookRecord>)
    ensures forall i, j :: 0 <= i < j < |Dedup(s)| ==> DedupKey(Dedup(s)[i]) != DedupKey(Dedup(s)[j])
  {
    if s != [] {
      var d := Dedup(s[..|s| - 1]);
      DedupDistinct(s[..|s| - 1]);
      var x := s[|s| - 1];
      if DedupKey(x) !in KeySet(d) {
        KeySetMembers(d);
        var e := d + [x];
        forall i, j | 0 <= i < j < |e| ensures DedupKey(e[i]) != DedupKey(e[j]) {
          if j == |d| {
            assert e[i] == d[i];
          } else {
            assert e[i] == d[i] && e[j] == d[j];
          }
        }
      }
    }
  }

  lemma {:induction false} KeptIndicesIncreasing(s: seq<BookRecord>)
    ensures forall k :: 0 <= k < |KeptIndices(s)| ==> KeptIndices(s)[k] < |s|
    ensures forall k1, k2 :: 0 <= k1 < k2 < |KeptIndices(s)| ==> KeptIndices(s)[k1] < KeptIndices(s)[k2]
  {
    if s != [] {
      KeptIndicesIncreasing(s[..|s| - 1]);
    }
  }

  lemma {:induction false} DedupIndexed(s: seq<BookRecord>)
    ensures |KeptIndices(s)| == |Dedup(s)|
    ensures forall k :: 0 <= k < |KeptIndices(s)| ==>
              KeptIndices(s)[k] < |s| && Dedup(s)[k] == s[KeptIndices(s)[k]]
  {
    if s != [] {
      var init := s[..|s| - 1];
      DedupIndexed(init);
      assert forall i :: 0 <= i < |init| ==> init[i] == s[i];
    }
  }

  lemma {:induction false} DedupFirst(s: seq<BookRecord>)
    ensures forall k :: 0 <= k < |KeptIndices(s)| ==> KeptIndices(s)[k] < |s|
    ensures forall k, j :: 0 <= k < |KeptIndices(s)| && 0 <= j < KeptIndices(s)[k] ==>
              DedupKey(s[j]) != DedupKey(s[KeptIndices(s)[k]])
  {
    if s != [] {
      var init := s[..|s| - 1];
      var x := s[|s| - 1];
      DedupFirst(init);
      KeptIndicesIncreasing(s);
      var ix := KeptIndices(init);
      assert forall i :: 0 <= i < |init| ==> init[i] == s[i];
      if DedupKey(x) !in KeySet(Dedup(init)) {
        DedupKeys(init);
        KeySetMembers(init);
        assert forall j :: 0 <= j < |init| ==> DedupKey(s[j]) != DedupKey(x);
        var ix' := ix + [|s| - 1];
        assert forall k :: 0 <= k < |ix| ==> ix'[k] == ix[k];
      }
    }
  }

  /** Dedup takes an order-preserving subsequence of s, and each kept record is
      the first in s with its key. */
  lemma DedupIndices(s: seq<BookRecord>)
    ensures |KeptIndices(s)| == |Dedup(s)|
    ensures forall k :: 0 <= k < |KeptIndices(s)| ==>
              KeptIndices(s)[k] < |s| && Dedup(s)[k] == s[KeptIndices(s)[k]]
    ensures forall k1, k2 :: 0 <= k1 < k2 < |KeptIndices(s)| ==> KeptIndices(s)[k1] < KeptIndices(s)[k2]
    ensures forall k, j :: 0 <= k < |KeptIndices(s)| && 0 <= j < KeptIndices(s)[k] ==>
              DedupKey(s[j]) != DedupKey(s[KeptIndices(s)[k]])
  {
    DedupIndexed(s);
    KeptIndicesIncreasing(s);
    DedupFirst(s);
  }

  /** Every kept record comes from the input. */
  lemma {:induction false} DedupMembers(s: seq<BookRecord>)
    ensures forall b :: b in Dedup(s) ==> b in s
  {
    if s != [] {
      DedupMembers(s[..|s| - 1]);
      assert forall b :: b in s[..|s| - 1] ==> b in s;
    }
  }

  /** Dedup never adds records. */
  lemma DedupLength(s: seq<BookRecord>)
    ensures |Dedup(s)| <= |s|
  {
    DedupIndices(s);
    if |Dedup(s)| > |s| {
      var ix := KeptIndices(s);
      IncreasingBound(ix, |s|);
    }
  }

  lemma {:induction false} IncreasingBound(ix: seq<nat>, n: nat)
    requires forall k :: 0 <= k < |ix| ==> ix[k] < n
    requires forall k1, k2 :: 0 <= k1 < k2 < |ix| ==> ix[k1] < ix[k2]
    ensures |ix| <= n
  {
    if ix != [] {
      var init := ix[..|ix| - 1];
      assert forall k :: 0 <= k < |init| ==> init[k] < ix[|ix| - 1];
      IncreasingBound(init, ix[|ix| - 1]);
    }
  }

  /** Distinct keys stay distinct in a prefix, and the last key is not among
      the earlier ones. */
  lemma DistinctKeysInit(s: seq<BookRecord>, init: seq<BookRecord>)
    requires s != [] && init == s[..|s| - 1]
    requires forall i, j :: 0 <= i < j < |s| ==> DedupKey(s[i]) != DedupKey(s[j])
    ensures forall i, j :: 0 <= i < j < |init| ==> DedupKey(init[i]) != DedupKey(init[j])
    ensures forall i :: 0 <= i < |init| ==> DedupKey(init[i]) != DedupKey(s[|s| - 1])
  {
    assert forall i :: 0 <= i < |init| ==> init[i] == s[i];
  }

  /** A sequence whose keys are already distinct is left unchanged, so
      removing duplicates twice is the same as once. */
  lemma {:induction false} DedupDistinctFixed(s: seq<BookRecord>)
    requires forall i, j :: 0 <= i < j < |s| ==> DedupKey(s[i]) != DedupKey(s[j])
    ensures Dedup(s) == s
  {
    if s != [] {
      var init := s[..|s| - 1];
      DistinctKeysInit(s, init);
      DedupDistinctFixed(init);
      KeyNotInSet(init, DedupKey(s[|s| - 1]));
      assert init + [s[|s| - 1]] == s;
    }
  }

  lemma DedupIdempotent(s: seq<BookRecord>)
    ensures Dedup(Dedup(s)) == Dedup(s)
  {
    DedupDistinct(s);
    DedupDistinctFixed(Dedup(s));
  }

  // ---------------------------------------------------------------------------
  // calculate_stats

  /** The lower-cased authors of s (the authors set). */
  function AuthorSet(s: seq<BookRecord>): set<string> {
    if s == [] then {} else AuthorSet(s[..|s| - 1]) + {Lower(s[|s| - 1].author)}
  }

  /** The number of records that have an ISBN key (books_with_isbn). */
  function IsbnCount(s: seq<BookRecord>): nat {
    if s == [] then 0 else IsbnCount(s[..|s| - 1]) + (if HasIsbnKey(s[|s| - 1]) then 1 else 0)
  }

  /** The author set holds exactly the lower-cased authors, and there are no
      more of them than records. */
  lemma {:induction false} AuthorSetSpec(s: seq<BookRecord>)
    ensures forall a :: a in AuthorSet(s) <==> exists i :: 0 <= i < |s| && Lower(s[i].author) == a
    ensures |AuthorSet(s)| <= |s|
  {
    if s != [] {
      var init := s[..|s| - 1];
      AuthorSetSpec(init);
      assert forall i :: 0 <= i < |init| ==> init[i] == s[i];
    }
  }

  lemma {:induction false} IsbnCountBound(s: seq<BookRecord>)
    ensures IsbnCount(s) <= |s|
  {
    if s != [] {
      IsbnCountBound(s[..|s| - 1]);
    }
  }

  predicate AllNormal(s: seq<BookRecord>) {
    forall i :: 0 <= i < |s| ==> IsNormalRecord(s[i])
  }

  /** Deduplicating normalised records leaves normalised records. */
  lemma DedupNormal(s: seq<BookRecord>)
    requires AllNormal(s)
    ensures AllNormal(Dedup(s))
  {
    DedupMembers(s);
    forall k | 0 <= k < |Dedup(s)|
      ensures IsNormalRecord(Dedup(s)[k])
    {
      assert Dedup(s)[k] in Dedup(s);
    }
  }

  /** One step of the remove_duplicates loop. */
  lemma DedupStep(s: seq<BookRecord>, i: nat)
    requires i < |s|
    ensures Dedup(s[..i + 1]) == if DedupKey(s[i]) in KeySet(Dedup(s[..i])) then Dedup(s[..i]) else Dedup(s[..i]) + [s[i]]
  {
    assert s[..i + 1][..i] == s[..i];
  }

  /** The loop of remove_duplicates: scans the records once with the set of
      keys seen so far. */
  method FirstOfEachKey(books: seq<BookRecord>) returns (uniqueList: seq<BookRecord>, duplicateCount: nat)
    ensures uniqueList == Dedup(books)
    ensures duplicateCount + |uniqueList| == |books|
  {
    var seenKeys: set<string> := {};
    uniqueList := [];
    duplicateCount := 0;
    var i := 0;
    while i < |books|
      invariant 0 <= i <= |books|
      invariant uniqueList == Dedup(books[..i])
      invariant seenKeys == KeySet(uniqueList)
      invariant duplicateCount + |uniqueList| == i
    {
      var book := books[i];
      DedupStep(books, i);
      var key := DedupKey(book);
      if key !in seenKeys {
        seenKeys := seenKeys + {key};
        uniqueList := uniqueList + [book];
      } else {
        duplicateCount := duplicateCount + 1;
      }
      i := i + 1;
    }
    assert books[..|books|] == books;
  }

  // ---------------------------------------------------------------------------
  // process_all_files, with the directory listing replaced by its files

  /** The records of all files, processed in the given order. */
  function AllKept(files: seq<(string, seq<seq<string>>)>): seq<BookRecord> {
    if files == [] then []
    else
      var last := files[|files| - 1];
      AllKept(files[..|files| - 1]) + KeptRecords(LayoutOf(last.0), last.1)
  }

  lemma AllKeptStep(files: seq<(string, seq<seq<string>>)>, i: nat)
    requires i < |files|
    ensures AllKept(files[..i + 1]) == AllKept(files[..i]) + KeptRecords(LayoutOf(files[i].0), files[i].1)
  {
    assert files[..i + 1][..i] == files[..i];
  }

  class Combiner {
    var books: seq<BookRecord>
    var filesProcessed: nat
    var totalRawRecords: nat
    var duplicatesRemoved: nat
    var uniqueBooks: nat
    var uniqueAuthors: nat

    /** Every stored record is normalised, no more records are held (or were
        removed) than were read, and there are no more authors than books. */
    ghost predicate Valid()
      reads this
    {
      && AllNormal(books)
      && duplicatesRemoved + |books| <= totalRawRecords
      && uniqueAuthors <= uniqueBooks
    }

    constructor ()
      ensures Valid()
      ensures books == [] && filesProcessed == 0 && totalRawRecords == 0
      ensures duplicatesRemoved == 0 && uniqueBooks == 0 && uniqueAuthors == 0
    {
      books := [];
      filesProcessed := 0;
      totalRawRecords := 0;
      duplicatesRemoved := 0;
      uniqueBooks := 0;
      uniqueAuthors := 0;
    }

    /** process_file: appends the file's kept records in row order and counts
        them and the file. */
    method ProcessFile(firstLine: string, rows: seq<seq<string>>)
      requires Valid()
      modifies this
      ensures Valid()
      ensures books == old(books) + KeptRecords(LayoutOf(firstLine), rows)
      ensures totalRawRecords == old(totalRawRecords) + |KeptRecords(LayoutOf(firstLine), rows)|
      ensures filesProcessed == old(filesProcessed) + 1
      ensures duplicatesRemoved == old(duplicatesRemoved)
      ensures uniqueBooks == old(uniqueBooks) && uniqueAuthors == old(uniqueAuthors)
    {
      var layout := LayoutOf(firstLine);
      var recordsInFile := 0;
      var i := 0;
      while i < |rows|
        invariant 0 <= i <= |rows|
        invariant books == old(books) + KeptRecords(layout, rows[..i])
        invariant recordsInFile == |KeptRecords(layout, rows[..i])|
        invariant forall k :: 0 <= k < |books| ==> IsNormalRecord(books[k])
        invariant filesProcessed == old(filesProcessed) && totalRawRecords == old(totalRawRecords)
        invariant duplicatesRemoved == old(duplicatesRemoved)
        invariant uniqueBooks == old(uniqueBooks) && uniqueAuthors == old(uniqueAuthors)
      {
        var row := rows[i];
        assert rows[..i + 1][..i] == rows[..i];
        if |row| >= 3 {
          var title := FieldAt(row, layout.titleIdx);
          var author := FieldAt(row, layout.authorIdx);
          var isbn := FieldAt(row, layout.isbnIdx);
          var year := YearOf(layout, row);
          if Strip(title) != "" && Strip(author) != "" {
            var book := NewBookRecord(title, author, isbn, year);
            NewBookRecordNormal(title, author, isbn, year);
            books := books + [book];
            recordsInFile := recordsInFile + 1;
          }
        }
        i := i + 1;
      }
      assert rows[..|rows|] == rows;
      filesProcessed := filesProcessed + 1;
      totalRawRecords := totalRawRecords + recordsInFile;
    }

    /** remove_duplicates: keeps the first record of each key, in order, and
        records how many were dropped. */
    method RemoveDuplicates()
      requires Valid()
      modifies this
      ensures Valid()
      ensures books == Dedup(old(books))
      ensures duplicatesRemoved == |old(books)| - |books|
      ensures filesProcessed == old(filesProcessed) && totalRawRecords == old(totalRawRecords)
      ensures uniqueBooks == old(uniqueBooks) && uniqueAuthors == old(uniqueAuthors)
    {
      var uniqueList, duplicateCount := FirstOfEachKey(books);
      DedupNormal(books);
      books := uniqueList;
      duplicatesRemoved := duplicateCount;
    }

    /** calculate_stats: the number of books, the number of distinct
        lower-cased authors, and (returned) the number of books with an ISBN
        key. */
    method CalculateStats() returns (booksWithIsbn: nat)
      requires Valid()
      modifies this
      ensures Valid()
      ensures uniqueBooks == |books| && uniqueAuthors == |AuthorSet(books)|
      ensures booksWithIsbn == IsbnCount(books)
      ensures uniqueAuthors <= uniqueBooks && booksWithIsbn <= uniqueBooks
      ensures books == old(books) && filesProcessed == old(filesProcessed)
      ensures totalRawRecords == old(totalRawRecords) && duplicatesRemoved == old(duplicatesRemoved)
    {
      uniqueBooks := |books|;
      var authors: set<string> := {};
      booksWithIsbn := 0;
      var i := 0;
      while i < |books|
        invariant 0 <= i <= |books|
        invariant authors == AuthorSet(books[..i])
        invariant booksWithIsbn == IsbnCount(books[..i])
      {
        var book := books[i];
        assert books[..i + 1][..i] == books[..i];
        authors := authors + {Lower(book.author)};
        if book.isbn != "" && |book.isbn| >= 10 {
          booksWithIsbn := booksWithIsbn + 1;
        }
        i := i + 1;
      }
      assert books[..|books|] == books;
      AuthorSetSpec(books);
      IsbnCountBound(books);
      uniqueAuthors := |authors|;
    }

    /** process_all_files: every file in the given order, then deduplication
        and the statistics. */
    method ProcessAllFiles(files: seq<(string, seq<seq<string>>)>)
      requires Valid()
      modifies this
      ensures Valid()
      ensures books == Dedup(old(books) + AllKept(files))
      ensures filesProcessed == old(filesProcessed) + |files|
      ensures totalRawRecords == old(totalRawRecords) + |AllKept(files)|
      ensures duplicatesRemoved == |old(books) + AllKept(files)| - |books|
      ensures uniqueBooks == |books| && uniqueAuthors == |AuthorSet(books)|
      ensures duplicatesRemoved + uniqueBooks <= totalRawRecords && uniqueAuthors <= uniqueBooks
    {
      var i := 0;
      while i < |files|
        invariant 0 <= i <= |files|
        invariant Valid()
        invariant books == old(books) + AllKept(files[..i])
        invariant filesProcessed == old(filesProcessed) + i
        invariant totalRawRecords == old(totalRawRecords) + |AllKept(files[..i])|
      {
        AllKeptStep(files, i);
        ProcessFile(files[i].0, files[i].1);
        i := i + 1;
      }
      assert files[..|files|] == files;
      RemoveDuplicates();
      var _ := CalculateStats();
    }
  }
}
