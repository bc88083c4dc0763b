/** The Goodreads author aggregator: cleaning of author names and the fold of
    export rows into a table from author name to the books attributed to it. */
module Goodreads {
  import opened Text

  /** One export row as csv.DictReader yields it: column name to cell text.
      A column the file does not have is absent from the map. */
  type Row = map<string, string>

  /** row.get(column, default) */
  function Get(row: Row, column: string, default: string): string {
    if column in row then row[column] else default
  }

  const Quote: set<char> := {'"'}
  const Equals: set<char> := {'='}

  /** The placeholders that are never treated as an author, in lower case. */
  const SkipWords: set<string> := {"various", "unknown", "anonymous", "editor", "translator"}

  /** The anchored, case-insensitive match against the skip patterns.  The name
      it is applied to never ends in a newline, so `$` matches only at the end. */
  predicate IsSkipWord(name: string) {
    Lower(name) in SkipWords
  }

  /** name.strip().strip('"').strip() */
  function Cleaned(name: string): string {
    Strip(StripChars(Strip(name), Quote))
  }

  /** clean_author_name: None stands for "no valid name". */
  function CleanAuthorName(name: string): Option<string> {
    if name == "" then None
    else
      var n := Cleaned(name);
      if n == "" then None
      else if IsSkipWord(n) then None
      else Some(n)
  }

  /** The strings clean_author_name can return. */
  predicate IsAuthorKey(k: string) {
    k != "" && k[0] !in Whitespace && k[|k| - 1] !in Whitespace && !IsSkipWord(k)
  }

  // ---------------------------------------------------------------------------
  // Properties of clean_author_name

  lemma CleanedIsTrimmed(name: string)
    ensures IsTrimmedSlice(Cleaned(name), name, Whitespace + Quote)
    ensures Cleaned(name) == [] || (Cleaned(name)[0] !in Whitespace && Cleaned(name)[|Cleaned(name)| - 1] !in Whitespace)
  {
    var a := Strip(name);
    var b := StripChars(a, Quote);
    StripCharsTrimmed(name, Whitespace);
    StripCharsTrimmed(a, Quote);
    StripCharsTrimmed(b, Whitespace);
    TrimmedSliceCompose(b, a, name, Quote, Whitespace, Whitespace + Quote);
    TrimmedSliceCompose(Cleaned(name), b, name, Whitespace, Whitespace + Quote, Whitespace + Quote);
  }

  /** No valid name comes out exactly when the cleaned text is empty or is a
      placeholder; the empty input is one of those. */
  lemma CleanAuthorNameNone(name: string)
    ensures CleanAuthorName(name) == None <==> Cleaned(name) == "" || IsSkipWord(Cleaned(name))
    ensures name == "" ==> CleanAuthorName(name) == None
  {
    if name == "" {
      assert Strip(name) == "";
      assert StripChars(Strip(name), Quote) == "";
    }
  }

  /** A returned name is non-empty, has no surrounding whitespace, is not a
      placeholder, and is the input with only whitespace and double quotes cut
      from its two ends (so its letters keep their case). */
  lemma CleanAuthorNameSome(name: string)
    requires CleanAuthorName(name).Some?
    ensures CleanAuthorName(name).value == Cleaned(name)
    ensures IsAuthorKey(CleanAuthorName(name).value)
    ensures IsTrimmedSlice(CleanAuthorName(name).value, name, Whitespace + Quote)
  {
    CleanedIsTrimmed(name);
  }

  lemma CleanAuthorNameKey(name: string)
    requires CleanAuthorName(name).Some?
    ensures IsAuthorKey(CleanAuthorName(name).value)
  {
    CleanAuthorNameSome(name);
  }

  /** Every author key is reachable: wrapping it in a double quote and a space on
      each side gives an input that cleans to exactly that key.  With
      CleanAuthorNameSome this makes IsAuthorKey the exact range of the cleaner. */
  lemma CleanAuthorNameReaches(k: string)
    requires IsAuthorKey(k)
    ensures CleanAuthorName("\" " + k + " \"") == Some(k)
  {
    var s := "\" " + k + " \"";
    StripCharsExact([], s, [], Whitespace);
    assert [] + s + [] == s;
    assert s == "\"" + (" " + k + " ") + "\"";
    StripCharsExact("\"", " " + k + " ", "\"", Quote);
    assert " " + k + " " == " " + k + " ";
    StripCharsExact(" ", k, " ", Whitespace);
  }

  /** A name with no whitespace or double quote at either end is kept as it is
      unless it is a placeholder. */
  lemma CleanPlainName(w: string)
    requires w != [] && w[0] !in Whitespace && w[0] != '"'
    requires w[|w| - 1] !in Whitespace && w[|w| - 1] != '"'
    ensures CleanAuthorName(w) == if IsSkipWord(w) then None else Some(w)
  {
    NoOuterChars(w, Whitespace);
    NoOuterChars(w, Quote);
  }

  /** The cleaner is not idempotent: a quote hidden behind whitespace survives
      the first pass and is removed by the second. */
  lemma CleanKeepsInnerQuote()
    ensures CleanAuthorName("\"  \"Bob\"") == Some("\"Bob")
  {
    var s := "\"  \"Bob\"";
    NoOuterChars(s, Whitespace);
    assert s == "\"" + "  \"Bob" + "\"";
    StripCharsExact("\"", "  \"Bob", "\"", Quote);
    assert "  \"Bob" == "  " + "\"Bob" + [];
    StripCharsExact("  ", "\"Bob", [], Whitespace);
    assert Lower("\"Bob")[1] == 'b';
  }

  /** The second cleaning pass of the same name. */
  lemma CleanSecondPass()
    ensures CleanAuthorName("\"Bob") == Some("Bob")
  {
    NoOuterChars("\"Bob", Whitespace);
    assert "\"Bob" == "\"" + "Bob" + [];
    StripCharsExact("\"", "Bob", [], Quote);
    NoOuterChars("Bob", Whitespace);
    assert Lower("Bob")[0] == 'b';
  }

  /** Placeholders are recognised whatever their case. */
  lemma SkipWordAnyCase()
    ensures CleanAuthorName("UNKNOWN") == None
  {
    CleanPlainName("UNKNOWN");
    assert Lower("UNKNOWN") == "unknown";
  }

  /** The placeholder match ignores letter case: upper- or lower-casing a name
      never changes whether it is a placeholder. */
  lemma SkipWordCaseInsensitive(name: string)
    ensures IsSkipWord(Upper(name)) <==> IsSkipWord(name)
    ensures IsSkipWord(Lower(name)) <==> IsSkipWord(name)
  {
    LowerAfterCase(name);
  }

  /** Only a whole-name placeholder is dropped. */
  lemma SkipWordWholeName()
    ensures CleanAuthorName("Editor Smith") == Some("Editor Smith")
  {
    CleanPlainName("Editor Smith");
    assert Lower("Editor Smith")[6] == ' ';
  }

  // ---------------------------------------------------------------------------
  // The aggregate

  /** One book attributed to one author. role is None for the main author. */
  datatype BookRef = BookRef(title: string, isbn: string, rating: string, shelf: string, role: Option<string>)

  datatype AuthorEntry = AuthorEntry(books: seq<BookRef>, totalBooks: nat)

  /** The defaultdict of the source: entries holds the values, order the keys in
      first-insertion order (the order dict iteration yields). */
  datatype AuthorTable = AuthorTable(order: seq<string>, entries: map<string, AuthorEntry>)

  const EmptyTable: AuthorTable := AuthorTable([], map[])

  /** The lawful states of a dict: every key listed once, in insertion order. */
  ghost predicate WellFormed(t: AuthorTable) {
    && Distinct(t.order)
    && forall k :: k in t.entries <==> k in t.order
  }

  /** What aggregation maintains: keys are clean names, every entry has at least
      one book, and its count is the number of its books. */
  ghost predicate Inv(t: AuthorTable) {
    && WellFormed(t)
    && forall k :: k in t.entries ==>
         && IsAuthorKey(k)
         && t.entries[k].books != []
         && t.entries[k].totalBooks == |t.entries[k].books|
  }

  /** The books attributed to k so far; none when k is not a key. */
  function Books(t: AuthorTable, k: string): seq<BookRef> {
    if k in t.entries then t.entries[k].books else []
  }

  function SumTotals(ks: seq<string>, m: map<string, AuthorEntry>): nat
    requires forall k :: k in ks ==> k in m
  {
    if ks == [] then 0 else SumTotals(ks[..|ks| - 1], m) + m[ks[|ks| - 1]].totalBooks
  }

  /** The sum of total_books over all entries. */
  function TotalBooks(t: AuthorTable): nat
    requires WellFormed(t)
  {
    SumTotals(t.order, t.entries)
  }

  /** row.get('ISBN13', '').strip().strip('"').strip('=') */
  function IsbnField(raw: string): string {
    StripChars(StripChars(Strip(raw), Quote), Equals)
  }

  /** The book record a row contributes; the defaults apply only to a missing column. */
  function BookFor(row: Row, role: Option<string>): BookRef {
    BookRef(Strip(Get(row, "Title", "")), IsbnField(Get(row, "ISBN13", "")),
            Get(row, "My Rating", "0"), Get(row, "Exclusive Shelf", "unknown"), role)
  }

  /** Each field of the book comes from its own column; the rating and the
      shelf fall back to "0" and "unknown" only when the column is absent. */
  lemma BookForSpec(row: Row, role: Option<string>)
    ensures BookFor(row, role).title == Strip(Get(row, "Title", ""))
    ensures BookFor(row, role).isbn == IsbnField(Get(row, "ISBN13", ""))
    ensures "My Rating" !in row ==> BookFor(row, role).rating == "0"
    ensures "My Rating" in row ==> BookFor(row, role).rating == row["My Rating"]
    ensures "Exclusive Shelf" !in row ==> BookFor(row, role).shelf == "unknown"
    ensures "Exclusive Shelf" in row ==> BookFor(row, role).shelf == row["Exclusive Shelf"]
    ensures BookFor(row, role).role == role
  {
  }

  /** Present but empty rating and shelf cells are kept as "", not defaulted. */
  lemma BookForEmptyCells()
    ensures BookFor(map["My Rating" := "", "Exclusive Shelf" := ""], None).rating == ""
    ensures BookFor(map["My Rating" := "", "Exclusive Shelf" := ""], None).shelf == ""
    ensures BookFor(map[], None).rating == "0" && BookFor(map[], None).shelf == "unknown"
  {
    BookForSpec(map["My Rating" := "", "Exclusive Shelf" := ""], None);
    BookForSpec(map[], None);
  }

  const AdditionalRole: Option<string> := Some("additional_author")

  /** The comma-separated pieces of the additional-authors cell; none when the
      stripped cell is empty. */
  function AdditionalNames(row: Row): seq<string> {
    var additional := Strip(Get(row, "Additional Authors", ""));
    if additional == "" then [] else Split(additional, ',')
  }

  /** [clean_author_name(name) for name in names] */
  function CleanAll(names: seq<string>): seq<Option<string>> {
    seq(|names|, i requires 0 <= i < |names| => CleanAuthorName(names[i]))
  }

  /** additional_list: every piece cleaned. */
  function AdditionalList(row: Row): seq<Option<string>> {
    CleanAll(AdditionalNames(row))
  }

  /** authors[name]["books"].append(book); authors[name]["total_books"] += 1 */
  function Attribute(t: AuthorTable, name: string, book: BookRef): AuthorTable {
    var e := if name in t.entries then t.entries[name] else AuthorEntry([], 0);
    AuthorTable(if name in t.entries then t.order else t.order + [name],
                t.entries[name := AuthorEntry(e.books + [book], e.totalBooks + 1)])
  }

  /** Attributes book to every valid name of the cleaned list, in order. */
  function AttributeAll(t: AuthorTable, cleaned: seq<Option<string>>, book: BookRef): AuthorTable {
    if cleaned == [] then t
    else
      var t' := AttributeAll(t, cleaned[..|cleaned| - 1], book);
      match cleaned[|cleaned| - 1]
      case Some(n) => Attribute(t', n, book)
      case None => t'
  }

  /** What one row contributes: the cleaned main author with its book, and the
      cleaned additional-author list with the book every piece shares. */
  datatype RowPart = RowPart(main: Option<string>, mainBook: BookRef,
                             additional: seq<Option<string>>, additionalBook: BookRef)

  function Parts(row: Row): RowPart {
    RowPart(CleanAuthorName(Get(row, "Author", "")), BookFor(row, None),
            AdditionalList(row), BookFor(row, AdditionalRole))
  }

  /** Attributes a row's contribution: the main author first, then the
      additional authors in order. */
  function Apply(t: AuthorTable, p: RowPart): AuthorTable {
    var t1 := if p.main.Some? then Attribute(t, p.main.value, p.mainBook) else t;
    AttributeAll(t1, p.additional, p.additionalBook)
  }

  /** One iteration of the row loop of extract_authors_from_goodreads. */
  function AddRow(t: AuthorTable, row: Row): AuthorTable {
    Apply(t, Parts(row))
  }

  /** The table extract_authors_from_goodreads builds from the rows. */
  function Aggregate(rows: seq<Row>): AuthorTable {
    if rows == [] then EmptyTable else AddRow(Aggregate(rows[..|rows| - 1]), rows[|rows| - 1])
  }

  // ---------------------------------------------------------------------------
  // Reference definitions: attributions counted row by row, without the table

  /** The books name k receives from a cleaned list. */
  function NamedBooks(cleaned: seq<Option<string>>, k: string, book: BookRef): seq<BookRef> {
    if cleaned == [] then []
    else NamedBooks(cleaned[..|cleaned| - 1], k, book)
         + (if cleaned[|cleaned| - 1] == Some(k) then [book] else [])
  }

  function ValidCount(cleaned: seq<Option<string>>): nat {
    if cleaned == [] then 0
    else ValidCount(cleaned[..|cleaned| - 1]) + (if cleaned[|cleaned| - 1].Some? then 1 else 0)
  }

  predicate AllKeys(cleaned: seq<Option<string>>) {
    forall i :: 0 <= i < |cleaned| && cleaned[i].Some? ==> IsAuthorKey(cleaned[i].value)
  }

  /** The books author k receives from one contribution: at most one as main
      author, then one per additional-author piece that cleans to k. */
  function PartBooks(p: RowPart, k: string): seq<BookRef> {
    (if p.main == Some(k) then [p.mainBook] else []) + NamedBooks(p.additional, k, p.additionalBook)
  }

  /** The number of valid author names one contribution attributes its book to. */
  function PartCount(p: RowPart): nat {
    (if p.main.Some? then 1 else 0) + ValidCount(p.additional)
  }

  predicate PartKeys(p: RowPart) {
    (p.main.Some? ==> IsAuthorKey(p.main.value)) && AllKeys(p.additional)
  }

  function RowBooks(row: Row, k: string): seq<BookRef> {
    PartBooks(Parts(row), k)
  }

  /** The number of (row, valid author) attributions one row makes. */
  function RowAttributions(row: Row): nat {
    PartCount(Parts(row))
  }

  function AllBooks(rows: seq<Row>, k: string): seq<BookRef> {
    if rows == [] then [] else AllBooks(rows[..|rows| - 1], k) + RowBooks(rows[|rows| - 1], k)
  }

  function Attributions(rows: seq<Row>): nat {
    if rows == [] then 0 else Attributions(rows[..|rows| - 1]) + RowAttributions(rows[|rows| - 1])
  }

  // ---------------------------------------------------------------------------
  // Properties of the aggregation

  lemma {:induction false} SumTotalsAgree(ks: seq<string>, m1: map<string, AuthorEntry>, m2: map<string, AuthorEntry>)
    requires forall k :: k in ks ==> k in m1 && k in m2 && m1[k].totalBooks == m2[k].totalBooks
    ensures SumTotals(ks, m1) == SumTotals(ks, m2)
  {
    if ks != [] {
      SumTotalsAgree(ks[..|ks| - 1], m1, m2);
    }
  }

  lemma {:induction false} SumTotalsUpdate(ks: seq<string>, m: map<string, AuthorEntry>, k: string, e: AuthorEntry)
    requires Distinct(ks) && k in ks
    requires forall x :: x in ks ==> x in m
    ensures SumTotals(ks, m[k := e]) + m[k].totalBooks == SumTotals(ks, m) + e.totalBooks
  {
    var init := ks[..|ks| - 1];
    if ks[|ks| - 1] == k {
      assert forall i :: 0 <= i < |init| ==> init[i] == ks[i] && ks[i] != ks[|ks| - 1];
      assert k !in init;
      SumTotalsAgree(init, m[k := e], m);
    } else {
      assert k in init by {
        var i :| 0 <= i < |ks| && ks[i] == k;
        assert init[i] == k;
      }
      SumTotalsUpdate(init, m, k, e);
    }
  }

  lemma AttributeWellFormed(t: AuthorTable, name: string, book: BookRef)
    requires WellFormed(t)
    ensures WellFormed(Attribute(t, name, book))
    ensures t.order <= Attribute(t, name, book).order
  {
    var t' := Attribute(t, name, book);
    if name !in t.entries {
      assert t'.order == t.order + [name];
      assert name !in t.order;
      forall i, j | 0 <= i < j < |t'.order| ensures t'.order[i] != t'.order[j] {
        if j == |t.order| {
          assert t'.order[i] == t.order[i] && t.order[i] in t.order;
        } else {
          assert t'.order[i] == t.order[i] && t'.order[j] == t.order[j];
        }
      }
      forall k ensures k in t'.entries <==> k in t'.order {
        assert k in t'.order <==> k in t.order || k == name;
      }
    }
  }

  lemma AttributeTotal(t: AuthorTable, name: string, book: BookRef)
    requires WellFormed(t)
    ensures WellFormed(Attribute(t, name, book))
    ensures TotalBooks(Attribute(t, name, book)) == TotalBooks(t) + 1
  {
    AttributeWellFormed(t, name, book);
    var t' := Attribute(t, name, book);
    if name in t.entries {
      SumTotalsUpdate(t.order, t.entries, name, t'.entries[name]);
    } else {
      assert t'.order[..|t'.order| - 1] == t.order;
      assert name !in t.order;
      SumTotalsAgree(t.order, t'.entries, t.entries);
    }
  }

  /** One attribution appends one book to exactly one author, keeps the
      invariant, adds one to the total, and only ever appends to the key order. */
  lemma AttributeSpec(t: AuthorTable, name: string, book: BookRef)
    requires Inv(t) && IsAuthorKey(name)
    ensures Inv(Attribute(t, name, book))
    ensures forall k :: Books(Attribute(t, name, book), k) == Books(t, k) + (if k == name then [book] else [])
    ensures TotalBooks(Attribute(t, name, book)) == TotalBooks(t) + 1
    ensures t.order <= Attribute(t, name, book).order
  {
    AttributeWellFormed(t, name, book);
    AttributeTotal(t, name, book);
    AttributeInv(t, name, book);
    AttributeBooks(t, name, book);
  }

  lemma AttributeInv(t: AuthorTable, name: string, book: BookRef)
    requires Inv(t) && IsAuthorKey(name)
    ensures Inv(Attribute(t, name, book))
  {
    AttributeWellFormed(t, name, book);
  }

  lemma AttributeBooks(t: AuthorTable, name: string, book: BookRef)
    ensures forall k :: Books(Attribute(t, name, book), k) == Books(t, k) + (if k == name then [book] else [])
  {
  }

  lemma {:induction false} AttributeAllInv(t: AuthorTable, cleaned: seq<Option<string>>, book: BookRef)
    requires Inv(t) && AllKeys(cleaned)
    ensures Inv(AttributeAll(t, cleaned, book))
    ensures t.order <= AttributeAll(t, cleaned, book).order
  {
    if cleaned != [] {
      var init := cleaned[..|cleaned| - 1];
      assert AllKeys(init);
      AttributeAllInv(t, init, book);
      match cleaned[|cleaned| - 1]
      case Some(n) =>
        AttributeInv(AttributeAll(t, init, book), n, book);
        AttributeWellFormed(AttributeAll(t, init, book), n, book);
      case None =>
    }
  }

  lemma {:induction false} AttributeAllBooks(t: AuthorTable, cleaned: seq<Option<string>>, book: BookRef)
    ensures forall k :: Books(AttributeAll(t, cleaned, book), k) == Books(t, k) + NamedBooks(cleaned, k, book)
  {
    if cleaned != [] {
      var init := cleaned[..|cleaned| - 1];
      AttributeAllBooks(t, init, book);
      match cleaned[|cleaned| - 1]
      case Some(n) =>
        AttributeBooks(AttributeAll(t, init, book), n, book);
      case None =>
    }
  }

  lemma {:induction false} AttributeAllTotal(t: AuthorTable, cleaned: seq<Option<string>>, book: BookRef)
    requires WellFormed(t)
    ensures WellFormed(AttributeAll(t, cleaned, book))
    ensures TotalBooks(AttributeAll(t, cleaned, book)) == TotalBooks(t) + ValidCount(cleaned)
  {
    if cleaned != [] {
      var init := cleaned[..|cleaned| - 1];
      AttributeAllTotal(t, init, book);
      match cleaned[|cleaned| - 1]
      case Some(n) =>
        AttributeTotal(AttributeAll(t, init, book), n, book);
      case None =>
    }
  }

  /** Attributing a whole cleaned list keeps the invariant, appends to each
      author exactly the books the list names it for, and adds one to the total
      per valid name. */
  lemma AttributeAllSpec(t: AuthorTable, cleaned: seq<Option<string>>, book: BookRef)
    requires Inv(t) && AllKeys(cleaned)
    ensures Inv(AttributeAll(t, cleaned, book))
    ensures forall k :: Books(AttributeAll(t, cleaned, book), k) == Books(t, k) + NamedBooks(cleaned, k, book)
    ensures TotalBooks(AttributeAll(t, cleaned, book)) == TotalBooks(t) + ValidCount(cleaned)
    ensures t.order <= AttributeAll(t, cleaned, book).order
  {
    AttributeAllInv(t, cleaned, book);
    AttributeAllBooks(t, cleaned, book);
    AttributeAllTotal(t, cleaned, book);
  }

  lemma CleanAllKeys(names: seq<string>)
    ensures AllKeys(CleanAll(names))
  {
    forall i | 0 <= i < |names| && CleanAuthorName(names[i]).Some?
      ensures IsAuthorKey(CleanAuthorName(names[i]).value)
    {
      CleanAuthorNameKey(names[i]);
    }
  }

  /** Every name a row yields is a valid author key. */
  lemma PartsKeys(row: Row)
    ensures PartKeys(Parts(row))
  {
    var name := Get(row, "Author", "");
    if CleanAuthorName(name).Some? {
      CleanAuthorNameKey(name);
    }
    CleanAllKeys(AdditionalNames(row));
  }

  lemma ApplyInv(t: AuthorTable, p: RowPart)
    requires Inv(t) && PartKeys(p)
    ensures Inv(Apply(t, p))
    ensures t.order <= Apply(t, p).order
  {
    if p.main.Some? {
      AttributeInv(t, p.main.value, p.mainBook);
      AttributeWellFormed(t, p.main.value, p.mainBook);
      AttributeAllInv(Attribute(t, p.main.value, p.mainBook), p.additional, p.additionalBook);
    } else {
      AttributeAllInv(t, p.additional, p.additionalBook);
    }
  }

  lemma ApplyBooks(t: AuthorTable, p: RowPart, k: string)
    ensures Books(Apply(t, p), k) == Books(t, k) + PartBooks(p, k)
  {
    var named := NamedBooks(p.additional, k, p.additionalBook);
    if p.main.Some? {
      var t1 := Attribute(t, p.main.value, p.mainBook);
      AttributeBooks(t, p.main.value, p.mainBook);
      AttributeAllBooks(t1, p.additional, p.additionalBook);
      var mine := if p.main == Some(k) then [p.mainBook] else [];
      assert Books(Apply(t, p), k) == (Books(t, k) + mine) + named;
    } else {
      AttributeAllBooks(t, p.additional, p.additionalBook);
      assert PartBooks(p, k) == [] + named;
    }
  }

  lemma ApplyTotal(t: AuthorTable, p: RowPart)
    requires WellFormed(t)
    ensures WellFormed(Apply(t, p))
    ensures TotalBooks(Apply(t, p)) == TotalBooks(t) + PartCount(p)
  {
    if p.main.Some? {
      AttributeTotal(t, p.main.value, p.mainBook);
      AttributeAllTotal(Attribute(t, p.main.value, p.mainBook), p.additional, p.additionalBook);
    } else {
      AttributeAllTotal(t, p.additional, p.additionalBook);
    }
  }

  /** Applying one contribution appends exactly PartBooks(p, k) to every author
      k, adds PartCount(p) to the total, keeps the invariant, and never reorders
      the keys already present. */
  lemma ApplySpec(t: AuthorTable, p: RowPart)
    requires Inv(t) && PartKeys(p)
    ensures Inv(Apply(t, p))
    ensures forall k :: Books(Apply(t, p), k) == Books(t, k) + PartBooks(p, k)
    ensures TotalBooks(Apply(t, p)) == TotalBooks(t) + PartCount(p)
    ensures t.order <= Apply(t, p).order
  {
    ApplyInv(t, p);
    forall k ensures Books(Apply(t, p), k) == Books(t, k) + PartBooks(p, k) {
      ApplyBooks(t, p, k);
    }
    ApplyTotal(t, p);
  }

  /** Each row appends exactly RowBooks(row, k) to every author k, adds
      RowAttributions(row) to the total, keeps the invariant, and never
      reorders the keys already present. */
  lemma AddRowSpec(t: AuthorTable, row: Row)
    requires Inv(t)
    ensures Inv(AddRow(t, row))
    ensures forall k :: Books(AddRow(t, row), k) == Books(t, k) + RowBooks(row, k)
    ensures TotalBooks(AddRow(t, row)) == TotalBooks(t) + RowAttributions(row)
    ensures t.order <= AddRow(t, row).order
  {
    PartsKeys(row);
    ApplySpec(t, Parts(row));
  }

  /** A name that is both the main and an additional author of a row is
      attributed the book once per role: two books, the second marked as an
      additional-author book. */
  lemma SameAuthorTwice(b: BookRef, b': BookRef)
    ensures Books(Apply(EmptyTable, RowPart(Some("Ann"), b, [Some("Ann")], b')), "Ann") == [b, b']
    ensures Apply(EmptyTable, RowPart(Some("Ann"), b, [Some("Ann")], b')).entries["Ann"].totalBooks == 2
    ensures Apply(EmptyTable, RowPart(Some("Ann"), b, [Some("Ann")], b')).order == ["Ann"]
  {
    var t1 := Attribute(EmptyTable, "Ann", b);
    assert t1.order == ["Ann"] && t1.entries["Ann"] == AuthorEntry([b], 1);
    assert [Some("Ann")][..0] == [];
    assert AttributeAll(t1, [Some("Ann")], b') == Attribute(t1, "Ann", b');
  }

  /** The whole fold: the invariant holds, every author's books are exactly its
      attributions in row order, and the sum of total_books is the number of
      attributions. */
  lemma {:induction false} AggregateSpec(rows: seq<Row>)
    ensures Inv(Aggregate(rows))
    ensures forall k :: Books(Aggregate(rows), k) == AllBooks(rows, k)
    ensures TotalBooks(Aggregate(rows)) == Attributions(rows)
  {
    if rows != [] {
      AggregateSpec(rows[..|rows| - 1]);
      AddRowSpec(Aggregate(rows[..|rows| - 1]), rows[|rows| - 1]);
    }
  }

  /** Processing more rows only appends: the keys and books after the first i
      rows are prefixes of the final ones. */
  lemma {:induction false} AggregateOnlyAppends(rows: seq<Row>, i: nat)
    requires i <= |rows|
    ensures Aggregate(rows[..i]).order <= Aggregate(rows).order
    ensures forall k :: Books(Aggregate(rows[..i]), k) <= Books(Aggregate(rows), k)
    decreases |rows|
  {
    if i == |rows| {
      assert rows[..i] == rows;
    } else {
      var init := rows[..|rows| - 1];
      AggregateOnlyAppends(init, i);
      assert init[..i] == rows[..i];
      AggregateSpec(init);
      AddRowSpec(Aggregate(init), rows[|rows| - 1]);
    }
  }

  /** The stored ISBN strips whitespace, then double quotes, then '=' from both
      ends, in that order: a spreadsheet-style ="978..." cell keeps its opening
      quote. */
  lemma IsbnFieldFormula()
    ensures IsbnField("=\"9780141\"") == "\"9780141"
  {
    NoOuterChars("=\"9780141\"", Whitespace);
    assert "=\"9780141\"" == [] + "=\"9780141" + "\"";
    StripCharsExact([], "=\"9780141", "\"", Quote);
    assert "=\"9780141" == "=" + "\"9780141" + [];
    StripCharsExact("=", "\"9780141", [], Equals);
  }

  lemma IsbnFieldPadded()
    ensures IsbnField(" 9780141 ") == "9780141"
  {
    StripCharsExact(" ", "9780141", " ", Whitespace);
    NoOuterChars("9780141", Quote);
    NoOuterChars("9780141", Equals);
  }

  // ---------------------------------------------------------------------------
  // The imperative row loop

  /** The defaultdict update authors[name]["books"].append(book);
      authors[name]["total_books"] += 1, on the dict's keys and values. */
  method AttributeStep(order: seq<string>, entries: map<string, AuthorEntry>, name: string, book: BookRef)
    returns (order': seq<string>, entries': map<string, AuthorEntry>)
    ensures AuthorTable(order', entries') == Attribute(AuthorTable(order, entries), name, book)
  {
    var entry := if name in entries then entries[name] else AuthorEntry([], 0);
    order' := order;
    if name !in entries {
      order' := order + [name];
    }
    entries' := entries[name := AuthorEntry(entry.books + [book], entry.totalBooks + 1)];
  }

  /** One iteration of the row loop of extract_authors_from_goodreads. */
  method AddRowStep(order: seq<string>, entries: map<string, AuthorEntry>, row: Row)
    returns (order': seq<string>, entries': map<string, AuthorEntry>)
    ensures AuthorTable(order', entries') == AddRow(AuthorTable(order, entries), row)
  {
    ghost var p := Parts(row);
    var title := Strip(Get(row, "Title", ""));
    var author := CleanAuthorName(Get(row, "Author", ""));
    var additional := Strip(Get(row, "Additional Authors", ""));
    order', entries' := order, entries;

    if author.Some? {
      var book := BookRef(title, IsbnField(Get(row, "ISBN13", "")),
                          Get(row, "My Rating", "0"), Get(row, "Exclusive Shelf", "unknown"), None);
      order', entries' := AttributeStep(order', entries', author.value, book);
    }
    ghost var afterMain := AuthorTable(order', entries');

    if additional != "" {
      var additionalList := CleanAll(Split(additional, ','));
      var book := BookRef(title, IsbnField(Get(row, "ISBN13", "")),
                          Get(row, "My Rating", "0"), Get(row, "Exclusive Shelf", "unknown"), AdditionalRole);
      var j := 0;
      while j < |additionalList|
        invariant 0 <= j <= |additionalList|
        invariant AuthorTable(order', entries') == AttributeAll(afterMain, additionalList[..j], book)
      {
        assert additionalList[..j + 1][..j] == additionalList[..j];
        if additionalList[j].Some? {
          order', entries' := AttributeStep(order', entries', additionalList[j].value, book);
        }
        j := j + 1;
      }
      assert additionalList[..|additionalList|] == additionalList;
    }
  }

  lemma AggregateStep(rows: seq<Row>, i: nat)
    requires i < |rows|
    ensures Aggregate(rows[..i + 1]) == AddRow(Aggregate(rows[..i]), rows[i])
  {
    assert rows[..i + 1][..i] == rows[..i];
  }

  /** extract_authors_from_goodreads, with the file replaced by its rows. */
  method ExtractAuthors(rows: seq<Row>) returns (authors: AuthorTable)
    ensures authors == Aggregate(rows)
    ensures Inv(authors)
    ensures forall k :: Books(authors, k) == AllBooks(rows, k)
    ensures TotalBooks(authors) == Attributions(rows)
  {
    var order: seq<string> := [];
    var entries: map<string, AuthorEntry> := map[];
    var i := 0;
    while i < |rows|
      invariant 0 <= i <= |rows|
      invariant AuthorTable(order, entries) == Aggregate(rows[..i])
    {
      AggregateStep(rows, i);
      order, entries := AddRowStep(order, entries, rows[i]);
      i := i + 1;
    }
    assert rows[..|rows|] == rows;
    authors := AuthorTable(order, entries);
    AggregateSpec(rows);
  }
}
