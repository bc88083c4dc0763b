/** The three ranked views of the aggregated author table: the detailed
    cache-warming document, the plain list of names, and the two-column table
    written for upload.  All three rank the dict's items by total_books,
    largest first, with a stable sort. */
module GoodreadsViews {
  import opened Text
  import opened Goodreads

  /** One (name, entry) pair of authors_data.items(). */
  type Item = (string, AuthorEntry)

  /** The sort key: x[1]["total_books"]. */
  function Count(x: Item): nat {
    x.1.totalBooks
  }

  /** authors_data.items(), in the dict's insertion order. */
  function Items(t: AuthorTable): seq<Item>
    requires WellFormed(t)
  {
    seq(|t.order|, i requires 0 <= i < |t.order| => (t.order[i], t.entries[t.order[i]]))
  }

  function Names(s: seq<Item>): seq<string> {
    seq(|s|, i requires 0 <= i < |s| => s[i].0)
  }

  // ---------------------------------------------------------------------------
  // sorted(..., key=total_books, reverse=True)

  /** Places x in front of the first element whose count is not larger than its
      own, so x stays ahead of the equal counts that followed it. */
  function Insert(x: Item, s: seq<Item>): (r: seq<Item>)
    ensures |r| == |s| + 1
  {
    if s == [] || Count(x) >= Count(s[0]) then [x] + s else [s[0]] + Insert(x, s[1..])
  }

  /** A stable sort by descending count.  A stable sort's output is determined
      by its input, so any stable algorithm (Python uses Timsort) yields this
      sequence; SortDescPerm, SortDescOrdered and SortDescStable pin it down. */
  function SortDesc(s: seq<Item>): (r: seq<Item>)
    ensures |r| == |s|
  {
    if s == [] then [] else Insert(s[0], SortDesc(s[1..]))
  }

  predicate Descending(s: seq<Item>) {
    forall i, j :: 0 <= i < j < |s| ==> Count(s[i]) >= Count(s[j])
  }

  /** The elements of s whose count is c, in their order in s. */
  function Filter(s: seq<Item>, c: nat): seq<Item> {
    if s == [] then [] else (if Count(s[0]) == c then [s[0]] else []) + Filter(s[1..], c)
  }

  function SumCounts(s: seq<Item>): nat {
    if s == [] then 0 else Count(s[0]) + SumCounts(s[1..])
  }

  lemma {:induction false} InsertPerm(x: Item, s: seq<Item>)
    ensures multiset(Insert(x, s)) == multiset{x} + multiset(s)
  {
    if s != [] && Count(x) < Count(s[0]) {
      InsertPerm(x, s[1..]);
      assert s == [s[0]] + s[1..];
    }
  }

  /** Insertion brings in no count above a bound the parts respect. */
  lemma {:induction false} InsertBound(x: Item, s: seq<Item>, b: nat)
    requires Count(x) <= b && forall k :: 0 <= k < |s| ==> Count(s[k]) <= b
    ensures forall k :: 0 <= k < |Insert(x, s)| ==> Count(Insert(x, s)[k]) <= b
  {
    if s != [] && Count(x) < Count(s[0]) {
      InsertBound(x, s[1..], b);
      assert forall k :: 1 <= k < |Insert(x, s)| ==> Insert(x, s)[k] == Insert(x, s[1..])[k - 1];
    }
  }

  lemma {:induction false} InsertDescending(x: Item, s: seq<Item>)
    requires Descending(s)
    ensures Descending(Insert(x, s))
  {
    if s != [] && Count(x) < Count(s[0]) {
      var r := Insert(x, s[1..]);
      assert Descending(s[1..]);
      InsertDescending(x, s[1..]);
      InsertBound(x, s[1..], Count(s[0]));
      var u := [s[0]] + r;
      assert u == Insert(x, s);
      forall i, j | 0 <= i < j < |u| ensures Count(u[i]) >= Count(u[j]) {
        assert u[j] == r[j - 1];
        if i > 0 {
          assert u[i] == r[i - 1];
        }
      }
    }
  }

  /** Inserting never reorders equal counts: x lands ahead of every element
      whose count equals its own. */
  lemma {:induction false} InsertFilter(x: Item, s: seq<Item>, c: nat)
    ensures Filter(Insert(x, s), c) == (if Count(x) == c then [x] else []) + Filter(s, c)
  {
    if s == [] || Count(x) >= Count(s[0]) {
      assert ([x] + s)[1..] == s;
    } else {
      var r := Insert(x, s[1..]);
      InsertFilter(x, s[1..], c);
      assert ([s[0]] + r)[1..] == r;
      var f0 := if Count(s[0]) == c then [s[0]] else [];
      assert Filter(Insert(x, s), c) == f0 + Filter(r, c);
      assert Filter(s, c) == f0 + Filter(s[1..], c);
      if Count(x) == c {
        assert f0 == [];
      } else {
        assert Filter(r, c) == [] + Filter(s[1..], c);
      }
    }
  }

  lemma {:induction false} InsertSum(x: Item, s: seq<Item>)
    ensures SumCounts(Insert(x, s)) == Count(x) + SumCounts(s)
  {
    if s == [] || Count(x) >= Count(s[0]) {
      assert ([x] + s)[1..] == s;
    } else {
      var r := Insert(x, s[1..]);
      InsertSum(x, s[1..]);
      assert ([s[0]] + r)[1..] == r;
    }
  }

  /** The sorted items are a permutation of the input. */
  lemma {:induction false} SortDescPerm(s: seq<Item>)
    ensures multiset(SortDesc(s)) == multiset(s)
  {
    if s != [] {
      SortDescPerm(s[1..]);
      InsertPerm(s[0], SortDesc(s[1..]));
      assert s == [s[0]] + s[1..];
    }
  }

  /** The counts never increase along the sorted items. */
  lemma {:induction false} SortDescOrdered(s: seq<Item>)
    ensures Descending(SortDesc(s))
  {
    if s != [] {
      SortDescOrdered(s[1..]);
      InsertDescending(s[0], SortDesc(s[1..]));
    }
  }

  /** The sort is stable: the items of any one count come out in their input
      order. */
  lemma {:induction false} SortDescStable(s: seq<Item>, c: nat)
    ensures Filter(SortDesc(s), c) == Filter(s, c)
  {
    if s != [] {
      SortDescStable(s[1..], c);
      InsertFilter(s[0], SortDesc(s[1..]), c);
    }
  }

  lemma {:induction false} SortDescSum(s: seq<Item>)
    ensures SumCounts(SortDesc(s)) == SumCounts(s)
  {
    if s != [] {
      SortDescSum(s[1..]);
      InsertSum(s[0], SortDesc(s[1..]));
    }
  }

  // ---------------------------------------------------------------------------
  // The items of a well-formed table

  lemma NamesOfItems(t: AuthorTable)
    requires WellFormed(t)
    ensures Names(Items(t)) == t.order
  {
  }

  lemma ItemEntry(t: AuthorTable, x: Item)
    requires WellFormed(t) && x in multiset(Items(t))
    ensures x.0 in t.entries && x.1 == t.entries[x.0]
  {
    assert x in Items(t);
  }

  lemma {:induction false} SumCountsAppend(s: seq<Item>, x: Item)
    ensures SumCounts(s + [x]) == SumCounts(s) + Count(x)
  {
    if s != [] {
      SumCountsAppend(s[1..], x);
      assert (s + [x])[1..] == s[1..] + [x];
    }
  }

  lemma {:induction false} SumItemsPrefix(t: AuthorTable, n: nat)
    requires WellFormed(t) && n <= |t.order|
    ensures SumCounts(Items(t)[..n]) == SumTotals(t.order[..n], t.entries)
  {
    if n > 0 {
      SumItemsPrefix(t, n - 1);
      assert Items(t)[..n] == Items(t)[..n - 1] + [Items(t)[n - 1]];
      SumCountsAppend(Items(t)[..n - 1], Items(t)[n - 1]);
      assert t.order[..n][..n - 1] == t.order[..n - 1];
    }
  }

  /** Summing the counts of the items gives the table's total. */
  lemma SumItems(t: AuthorTable)
    requires WellFormed(t)
    ensures SumCounts(Items(t)) == TotalBooks(t)
  {
    SumItemsPrefix(t, |t.order|);
    assert Items(t)[..|t.order|] == Items(t);
    assert t.order[..|t.order|] == t.order;
  }

  // ---------------------------------------------------------------------------
  // The ranking

  /** sorted(authors_data.items(), key=total_books, reverse=True) */
  function Ranked(t: AuthorTable): seq<Item>
    requires WellFormed(t)
  {
    SortDesc(Items(t))
  }

  lemma DistinctCons(a: string, s: seq<string>)
    requires Distinct(s) && a !in s
    ensures Distinct([a] + s)
  {
    var u := [a] + s;
    forall i, j | 0 <= i < j < |u| ensures u[i] != u[j] {
      if i == 0 {
        assert u[j] == s[j - 1] && s[j - 1] in s;
      } else {
        assert u[i] == s[i - 1] && u[j] == s[j - 1];
      }
    }
  }

  lemma {:induction false} InsertNames(x: Item, s: seq<Item>)
    ensures multiset(Names(Insert(x, s))) == multiset{x.0} + multiset(Names(s))
  {
    if s == [] || Count(x) >= Count(s[0]) {
      assert Names([x] + s) == [x.0] + Names(s);
    } else {
      var r := Insert(x, s[1..]);
      InsertNames(x, s[1..]);
      assert Names([s[0]] + r) == [s[0].0] + Names(r);
      assert Names(s) == [s[0].0] + Names(s[1..]);
    }
  }

  lemma {:induction false} InsertDistinct(x: Item, s: seq<Item>)
    requires Distinct(Names(s)) && x.0 !in Names(s)
    ensures Distinct(Names(Insert(x, s)))
  {
    if s == [] || Count(x) >= Count(s[0]) {
      assert Names([x] + s) == [x.0] + Names(s);
      DistinctCons(x.0, Names(s));
    } else {
      var r := Insert(x, s[1..]);
      var ns := Names(s);
      assert ns == [s[0].0] + Names(s[1..]);
      assert Names(s[1..]) == ns[1..];
      assert x.0 !in Names(s[1..]);
      assert Distinct(Names(s[1..]));
      InsertDistinct(x, s[1..]);
      InsertNames(x, s[1..]);
      assert s[0].0 != x.0 by { assert ns[0] == s[0].0; }
      assert s[0].0 !in Names(s[1..]) by {
        forall j | 0 <= j < |Names(s[1..])| ensures Names(s[1..])[j] != s[0].0 {
          assert Names(s[1..])[j] == ns[j + 1];
        }
      }
      assert s[0].0 !in multiset(Names(r));
      assert Names([s[0]] + r) == [s[0].0] + Names(r);
      DistinctCons(s[0].0, Names(r));
    }
  }

  lemma {:induction false} SortDescNames(s: seq<Item>)
    ensures multiset(Names(SortDesc(s))) == multiset(Names(s))
  {
    if s != [] {
      SortDescNames(s[1..]);
      InsertNames(s[0], SortDesc(s[1..]));
      assert Names(s) == [s[0].0] + Names(s[1..]);
    }
  }

  lemma {:induction false} SortDescDistinct(s: seq<Item>)
    requires Distinct(Names(s))
    ensures Distinct(Names(SortDesc(s)))
  {
    if s != [] {
      var ns := Names(s);
      assert ns == [s[0].0] + Names(s[1..]);
      assert Names(s[1..]) == ns[1..];
      assert Distinct(Names(s[1..]));
      SortDescDistinct(s[1..]);
      SortDescNames(s[1..]);
      assert s[0].0 !in Names(s[1..]) by {
        forall j | 0 <= j < |Names(s[1..])| ensures Names(s[1..])[j] != s[0].0 {
          assert Names(s[1..])[j] == ns[j + 1] && ns[0] == s[0].0;
        }
      }
      assert s[0].0 !in multiset(Names(SortDesc(s[1..])));
      InsertDistinct(s[0], SortDesc(s[1..]));
    }
  }

  /** The ranking lists every author of the table exactly once, each with its
      own entry, in non-increasing order of total_books. */
  lemma RankedSpec(t: AuthorTable)
    requires WellFormed(t)
    ensures |Ranked(t)| == |t.order|
    ensures multiset(Names(Ranked(t))) == multiset(t.order)
    ensures Distinct(Names(Ranked(t)))
    ensures Descending(Ranked(t))
    ensures forall i :: 0 <= i < |Ranked(t)| ==> Ranked(t)[i].0 in t.entries && Ranked(t)[i].1 == t.entries[Ranked(t)[i].0]
  {
    SortDescPerm(Items(t));
    SortDescNames(Items(t));
    NamesOfItems(t);
    SortDescDistinct(Items(t));
    SortDescOrdered(Items(t));
    assert |Ranked(t)| == |multiset(Ranked(t))| == |multiset(Items(t))| == |Items(t)|;
    forall i | 0 <= i < |Ranked(t)|
      ensures Ranked(t)[i].0 in t.entries && Ranked(t)[i].1 == t.entries[Ranked(t)[i].0]
    {
      assert Ranked(t)[i] in multiset(Ranked(t));
      ItemEntry(t, Ranked(t)[i]);
    }
  }

  /** Ties keep the dict's insertion order: the authors with any one count
      appear in the ranking in the order they were first seen. */
  lemma RankedStable(t: AuthorTable, c: nat)
    requires WellFormed(t)
    ensures Filter(Ranked(t), c) == Filter(Items(t), c)
  {
    SortDescStable(Items(t), c);
  }

  lemma RankedSum(t: AuthorTable)
    requires WellFormed(t)
    ensures SumCounts(Ranked(t)) == TotalBooks(t)
  {
    SortDescSum(Items(t));
    SumItems(t);
  }

  // ---------------------------------------------------------------------------
  // create_cache_warming_format

  datatype Metadata = Metadata(source: string, totalAuthors: nat, totalBooks: nat,
                               exportDate: string, formatVersion: string)

  datatype RankedAuthor = RankedAuthor(name: string, bookCount: nat, books: seq<BookRef>)

  datatype CacheFormat = CacheFormat(metadata: Metadata, authors: seq<RankedAuthor>)

  /** The detailed view keeps at most this many books per author. */
  const MaxBooks: nat := 10

  /** s[:n] */
  function Take(s: seq<BookRef>, n: nat): seq<BookRef> {
    if |s| <= n then s else s[..n]
  }

  /** create_cache_warming_format: the metadata block and one summary per
      author, most prolific first. */
  method CreateCacheWarmingFormat(t: AuthorTable) returns (doc: CacheFormat)
    requires WellFormed(t)
    ensures doc.metadata == Metadata("goodreads_export", |t.order|, TotalBooks(t), "2025-09-27", "1.0")
    ensures |doc.authors| == |t.order|
    ensures forall i, j :: 0 <= i < j < |doc.authors| ==> doc.authors[i].bookCount >= doc.authors[j].bookCount
    ensures forall i :: 0 <= i < |doc.authors| ==>
              && doc.authors[i].name == Ranked(t)[i].0
              && doc.authors[i].name in t.entries
              && doc.authors[i].bookCount == t.entries[doc.authors[i].name].totalBooks
              && doc.authors[i].books == Take(t.entries[doc.authors[i].name].books, MaxBooks)
  {
    var sortedAuthors := Ranked(t);
    RankedSpec(t);
    RankedSum(t);
    var authors: seq<RankedAuthor> := [];
    var i := 0;
    while i < |sortedAuthors|
      invariant 0 <= i <= |sortedAuthors|
      invariant |authors| == i
      invariant forall k :: 0 <= k < i ==>
                  authors[k] == RankedAuthor(sortedAuthors[k].0, sortedAuthors[k].1.totalBooks,
                                             Take(sortedAuthors[k].1.books, MaxBooks))
    {
      var (name, data) := sortedAuthors[i];
      authors := authors + [RankedAuthor(name, data.totalBooks, Take(data.books, MaxBooks))];
      i := i + 1;
    }
    doc := CacheFormat(Metadata("goodreads_export", |sortedAuthors|, SumCounts(sortedAuthors),
                                "2025-09-27", "1.0"), authors);
  }

  /** Truncating an author's books keeps their first min(10, n) books and no
      others. */
  lemma TakePrefix(s: seq<BookRef>, n: nat)
    ensures |Take(s, n)| == if |s| <= n then |s| else n
    ensures Take(s, n) <= s
  {
  }

  // ---------------------------------------------------------------------------
  // create_simple_author_list

  /** [author_name for author_name, _ in sorted_authors] */
  function SimpleAuthorList(t: AuthorTable): seq<string>
    requires WellFormed(t)
  {
    Names(Ranked(t))
  }

  /** The simple list is a permutation of the dict's keys, ranked by count, in
      the same order as the detailed view's authors. */
  lemma SimpleAuthorListSpec(t: AuthorTable)
    requires WellFormed(t)
    ensures |SimpleAuthorList(t)| == |t.order|
    ensures forall i :: 0 <= i < |t.order| ==> SimpleAuthorList(t)[i] in t.entries
    ensures multiset(SimpleAuthorList(t)) == multiset(t.order)
    ensures Distinct(SimpleAuthorList(t))
    ensures forall i :: 0 <= i < |t.order| ==> SimpleAuthorList(t)[i] == Ranked(t)[i].0
    ensures forall i, j :: 0 <= i < j < |t.order| ==>
              t.entries[SimpleAuthorList(t)[i]].totalBooks >= t.entries[SimpleAuthorList(t)[j]].totalBooks
  {
    RankedSpec(t);
  }

  // ---------------------------------------------------------------------------
  // The upload table written by main

  const Header: seq<string> := ["author", "book_count"]

  /** The rows csv.writer receives: the header, then each ranked author with
      str(total_books). */
  function CountTable(t: AuthorTable): seq<seq<string>>
    requires WellFormed(t)
  {
    var r := Ranked(t);
    [Header] + seq(|r|, i requires 0 <= i < |r| => [r[i].0, NatToString(r[i].1.totalBooks)])
  }

  /** Below the header, row i names the (i-1)-th author of the simple list, and
      its second cell reads back as that author's total_books. */
  lemma CountTableSpec(t: AuthorTable)
    requires WellFormed(t)
    ensures |CountTable(t)| == |t.order| + 1
    ensures CountTable(t)[0] == Header
    ensures forall i :: 1 <= i < |CountTable(t)| ==>
              && |CountTable(t)[i]| == 2
              && CountTable(t)[i][0] == SimpleAuthorList(t)[i - 1]
              && CountTable(t)[i][0] in t.entries
              && ParseDecimal(CountTable(t)[i][1]) == t.entries[CountTable(t)[i][0]].totalBooks
  {
    RankedSpec(t);
    forall i | 1 <= i < |CountTable(t)|
      ensures ParseDecimal(CountTable(t)[i][1]) == t.entries[CountTable(t)[i][0]].totalBooks
    {
      DecimalRoundTrip(Ranked(t)[i - 1].1.totalBooks);
    }
  }
}
