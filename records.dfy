/** BookRecord of the CSV combiner: the normalisation of its text and ISBN
    fields and the key on which duplicates are detected. */
module BookRecords {
  import opened Text

  // ---------------------------------------------------------------------------
  // normalize_text

  const DoubleQuote: set<char> := {'"'}
  const SingleQuote: set<char> := {'\''}

  /** re.sub(r'\s+', ' ', s), scanning left to right; afterSpace says whether the
      character before s was part of a run already replaced. */
  function CollapseFrom(s: string, afterSpace: bool): string {
    if s == [] then []
    else if s[0] in Whitespace then
      (if afterSpace then [] else [' ']) + CollapseFrom(s[1..], true)
    else [s[0]] + CollapseFrom(s[1..], false)
  }

  function CollapseWhitespace(s: string): string {
    CollapseFrom(s, false)
  }

  /** text.strip().strip('"').strip("'").strip() */
  function Trimmed(text: string): string {
    Strip(StripChars(StripChars(Strip(text), DoubleQuote), SingleQuote))
  }

  /** normalize_text */
  function NormalizeText(text: string): string {
    if text == "" then "" else CollapseWhitespace(Trimmed(text))
  }

  predicate OnlySpaces(s: string) {
    forall i :: 0 <= i < |s| && s[i] in Whitespace ==> s[i] == ' '
  }

  predicate NoDoubleSpace(s: string) {
    forall i :: 0 <= i < |s| - 1 ==> s[i] !in Whitespace || s[i + 1] !in Whitespace
  }

  predicate NoOuterSpace(s: string) {
    s == [] || (s[0] !in Whitespace && s[|s| - 1] !in Whitespace)
  }

  /** The shape normalize_text promises. */
  predicate IsNormalText(s: string) {
    NoOuterSpace(s) && OnlySpaces(s) && NoDoubleSpace(s)
  }

  /** The characters of s that are not whitespace, in order. */
  function NonSpace(s: string): string {
    if s == [] then [] else (if s[0] in Whitespace then [] else [s[0]]) + NonSpace(s[1..])
  }

  /** Collapsing leaves only single spaces, and none at the start after a run. */
  lemma {:induction false} CollapseShape(s: string, afterSpace: bool)
    ensures OnlySpaces(CollapseFrom(s, afterSpace))
    ensures NoDoubleSpace(CollapseFrom(s, afterSpace))
    ensures afterSpace ==> CollapseFrom(s, afterSpace) == [] || CollapseFrom(s, afterSpace)[0] !in Whitespace
  {
    if s != [] {
      var rest := CollapseFrom(s[1..], s[0] in Whitespace);
      CollapseShape(s[1..], s[0] in Whitespace);
      var head := if s[0] in Whitespace then (if afterSpace then [] else [' ']) else [s[0]];
      var r := head + rest;
      assert CollapseFrom(s, afterSpace) == r;
      forall i | 0 <= i < |r| && r[i] in Whitespace ensures r[i] == ' ' {
        if i >= |head| {
          assert r[i] == rest[i - |head|];
        }
      }
      forall i | 0 <= i < |r| - 1 ensures r[i] !in Whitespace || r[i + 1] !in Whitespace {
        if i >= |head| {
          assert r[i] == rest[i - |head|] && r[i + 1] == rest[i + 1 - |head|];
        } else {
          assert r[i + 1] == rest[0];
        }
      }
    }
  }

  /** The first character survives when it is not whitespace. */
  lemma CollapseFirst(s: string, afterSpace: bool)
    requires s != [] && s[0] !in Whitespace
    ensures CollapseFrom(s, afterSpace) != [] && CollapseFrom(s, afterSpace)[0] == s[0]
  {
  }

  /** The last character survives when it is not whitespace. */
  lemma {:induction false} CollapseLast(s: string, afterSpace: bool)
    requires s != [] && s[|s| - 1] !in Whitespace
    ensures CollapseFrom(s, afterSpace) != []
    ensures CollapseFrom(s, afterSpace)[|CollapseFrom(s, afterSpace)| - 1] == s[|s| - 1]
  {
    if |s| > 1 {
      assert s[1..][|s[1..]| - 1] == s[|s| - 1];
      CollapseLast(s[1..], s[0] in Whitespace);
    }
  }

  /** Collapsing keeps every non-whitespace character, in order. */
  lemma {:induction false} CollapseContent(s: string, afterSpace: bool)
    ensures NonSpace(CollapseFrom(s, afterSpace)) == NonSpace(s)
  {
    if s != [] {
      var rest := CollapseFrom(s[1..], s[0] in Whitespace);
      CollapseContent(s[1..], s[0] in Whitespace);
      if s[0] in Whitespace {
        if !afterSpace {
          assert ([' '] + rest)[1..] == rest;
        } else {
          assert [] + rest == rest;
        }
      } else {
        assert ([s[0]] + rest)[1..] == rest;
      }
    }
  }

  /** Collapsing a text that ends in a non-whitespace character and then
      continues collapses the two parts independently. */
  lemma {:induction false} CollapseConcat(x: string, r: string, afterSpace: bool)
    requires x != [] && x[|x| - 1] !in Whitespace
    ensures CollapseFrom(x + r, afterSpace) == CollapseFrom(x, afterSpace) + CollapseFrom(r, false)
  {
    assert (x + r)[0] == x[0];
    assert (x + r)[1..] == x[1..] + r;
    if |x| == 1 {
      assert x[1..] + r == r;
    } else {
      assert x[1..][|x[1..]| - 1] == x[|x| - 1];
      CollapseConcat(x[1..], r, x[0] in Whitespace);
    }
  }

  /** A whitespace run becomes one space (none when a run was just replaced),
      and scanning goes on after it as after a run. */
  lemma {:induction false} CollapseRunFrom(w: string, y: string, afterSpace: bool)
    requires w != [] && forall i :: 0 <= i < |w| ==> w[i] in Whitespace
    ensures CollapseFrom(w + y, afterSpace) == (if afterSpace then [] else [' ']) + CollapseFrom(y, true)
  {
    assert (w + y)[0] == w[0];
    assert (w + y)[1..] == w[1..] + y;
    if |w| == 1 {
      assert w[1..] + y == y;
    } else {
      assert forall i :: 0 <= i < |w[1..]| ==> w[1..][i] == w[i + 1];
      CollapseRunFrom(w[1..], y, true);
    }
  }

  /** Each maximal whitespace run, wherever it is, becomes exactly one space,
      and the text on either side is collapsed on its own. */
  lemma CollapseRun(x: string, w: string, y: string)
    requires x == [] || x[|x| - 1] !in Whitespace
    requires w != [] && forall i :: 0 <= i < |w| ==> w[i] in Whitespace
    requires y == [] || y[0] !in Whitespace
    ensures CollapseWhitespace(x + w + y) == CollapseWhitespace(x) + " " + CollapseWhitespace(y)
  {
    CollapseRunFrom(w, y, false);
    if y != [] {
      assert CollapseFrom(y, true) == CollapseFrom(y, false);
    }
    if x == [] {
      assert x + w + y == w + y;
    } else {
      assert x + w + y == x + (w + y);
      CollapseConcat(x, w + y, false);
    }
  }

  /** A string already in the collapsed shape is left unchanged. */
  lemma {:induction false} CollapseFixed(s: string, afterSpace: bool)
    requires OnlySpaces(s) && NoDoubleSpace(s)
    requires afterSpace ==> s == [] || s[0] !in Whitespace
    ensures CollapseFrom(s, afterSpace) == s
  {
    if s != [] {
      assert OnlySpaces(s[1..]) && NoDoubleSpace(s[1..]) by {
        assert forall i :: 0 <= i < |s[1..]| ==> s[1..][i] == s[i + 1];
      }
      if s[0] in Whitespace {
        assert |s| > 1 ==> s[1] !in Whitespace;
      }
      CollapseFixed(s[1..], s[0] in Whitespace);
      assert s == [s[0]] + s[1..];
    }
  }

  /** re.sub(r'\s+', ' ', ...) is idempotent. */
  lemma CollapseIdempotent(s: string)
    ensures CollapseWhitespace(CollapseWhitespace(s)) == CollapseWhitespace(s)
  {
    CollapseShape(s, false);
    CollapseFixed(CollapseWhitespace(s), false);
  }

  /** The text trimmed before collapsing is a slice of the input cut only at
      whitespace and quote characters, with no whitespace at its ends. */
  lemma TrimmedSpec(text: string)
    ensures IsTrimmedSlice(Trimmed(text), text, Whitespace + DoubleQuote + SingleQuote)
    ensures NoOuterSpace(Trimmed(text))
  {
    var c := Whitespace + DoubleQuote + SingleQuote;
    var a := Strip(text);
    var b := StripChars(a, DoubleQuote);
    var d := StripChars(b, SingleQuote);
    StripCharsTrimmed(text, Whitespace);
    StripCharsTrimmed(a, DoubleQuote);
    StripCharsTrimmed(b, SingleQuote);
    StripCharsTrimmed(d, Whitespace);
    TrimmedSliceCompose(b, a, text, DoubleQuote, Whitespace, c);
    TrimmedSliceCompose(d, b, text, SingleQuote, c, c);
    TrimmedSliceCompose(Trimmed(text), d, text, Whitespace, c, c);
  }

  /** normalize_text: the empty text stays empty; otherwise the result has no
      surrounding whitespace, no two whitespace characters in a row, no
      whitespace other than ' ', and the same non-whitespace characters as the
      trimmed input. */
  lemma NormalizeTextSpec(text: string)
    ensures text == "" ==> NormalizeText(text) == ""
    ensures IsNormalText(NormalizeText(text))
    ensures text != "" ==> NonSpace(NormalizeText(text)) == NonSpace(Trimmed(text))
  {
    if text != "" {
      var m := Trimmed(text);
      TrimmedSpec(text);
      CollapseShape(m, false);
      CollapseContent(m, false);
      if m != [] {
        CollapseFirst(m, false);
        CollapseLast(m, false);
      }
    }
  }

  /** Inside the trimmed text, every whitespace run becomes a single space and
      the parts around it are normalised independently. */
  lemma NormalizeTextRun(text: string, x: string, w: string, y: string)
    requires text != "" && Trimmed(text) == x + w + y
    requires x == [] || x[|x| - 1] !in Whitespace
    requires w != [] && forall i :: 0 <= i < |w| ==> w[i] in Whitespace
    requires y == [] || y[0] !in Whitespace
    ensures NormalizeText(text) == CollapseWhitespace(x) + " " + CollapseWhitespace(y)
  {
    CollapseRun(x, w, y);
  }

  /** Two words separated by two spaces come out separated by one. */
  lemma NormalizeTextDoubleSpace()
    ensures NormalizeText("a  b") == "a b"
  {
    var t := "a  b";
    assert Strip(t) == t by {
      NoOuterChars(t, Whitespace);
    }
    NoOuterChars(t, DoubleQuote);
    NoOuterChars(t, SingleQuote);
    NoOuterChars(t, Whitespace);
    assert t == "a" + "  " + "b";
    CollapseRun("a", "  ", "b");
    assert CollapseWhitespace("a") == "a";
    assert CollapseWhitespace("b") == "b";
  }

  /** Text already in normal form, with no quote at either end, is a fixed
      point of normalize_text. */
  lemma NormalizeTextFixed(s: string)
    requires IsNormalText(s)
    requires s == [] || (s[0] !in DoubleQuote + SingleQuote && s[|s| - 1] !in DoubleQuote + SingleQuote)
    ensures NormalizeText(s) == s
  {
    if s != [] {
      NoOuterChars(s, Whitespace);
      NoOuterChars(s, DoubleQuote);
      NoOuterChars(s, SingleQuote);
      CollapseFixed(s, false);
    }
  }

  /** Printable ASCII text without spaces is untouched by the whitespace steps. */
  lemma GraphicNormal(s: string)
    requires forall i :: 0 <= i < |s| ==> IsGraphic(s[i])
    ensures Strip(s) == s && CollapseWhitespace(s) == s
  {
    forall i | 0 <= i < |s| ensures s[i] !in Whitespace {
      GraphicNotSpace(s[i]);
    }
    if s != [] {
      NoOuterChars(s, Whitespace);
    }
    CollapseFixed(s, false);
  }

  /** normalize_text is not idempotent: an apostrophe shields a double quote
      from the first pass, and the second pass removes it. */
  lemma NormalizeTextKeepsInnerQuote()
    ensures NormalizeText("'\"Dune") == "\"Dune"
  {
    GraphicNormal("'\"Dune");
    NoOuterChars("'\"Dune", DoubleQuote);
    assert "'\"Dune" == "'" + "\"Dune" + [];
    StripCharsExact("'", "\"Dune", [], SingleQuote);
    GraphicNormal("\"Dune");
  }

  /** A double quote behind an apostrophe is not shielded when nothing
      follows it: `'"` normalises to "". */
  lemma NormalizeTextLoneQuotes()
    ensures NormalizeText("'\"") == ""
  {
    GraphicNormal("'\"");
    assert "'\"" == [] + "'" + "\"";
    StripCharsExact([], "'", "\"", DoubleQuote);
    assert "'" == "'" + [] + [];
    StripCharsExact("'", [], [], SingleQuote);
  }

  /** The second normalisation of the same title. */
  lemma NormalizeTextSecondPass()
    ensures NormalizeText("\"Dune") == "Dune"
  {
    GraphicNormal("\"Dune");
    assert "\"Dune" == "\"" + "Dune" + [];
    StripCharsExact("\"", "Dune", [], DoubleQuote);
    NoOuterChars("Dune", SingleQuote);
    GraphicNormal("Dune");
  }

  // ---------------------------------------------------------------------------
  // normalize_isbn

  /** The characters kept by re.sub(r'[^\dXx]', '', ...). */
  predicate IsIsbnChar(c: char) {
    IsDigit(c) || c == 'X' || c == 'x'
  }

  function KeepIsbnChars(s: string): string {
    if s == [] then [] else (if IsIsbnChar(s[0]) then [s[0]] else []) + KeepIsbnChars(s[1..])
  }

  /** isbn_clean: the digits and X/x of the stripped input, upper-cased. */
  function CleanIsbn(isbn: string): string {
    Upper(KeepIsbnChars(Strip(isbn)))
  }

  /** normalize_isbn, including its naive ISBN-10 conversion (no check digit). */
  function NormalizeIsbn(isbn: string): string {
    if isbn == "" then ""
    else
      var c := CleanIsbn(isbn);
      if |c| == 10 then (if c[9] == 'X' then c else "978" + c[..9]) else c
  }

  predicate IsbnAlphabet(s: string) {
    forall i :: 0 <= i < |s| ==> IsDigit(s[i]) || s[i] == 'X'
  }

  /** The shape normalize_isbn promises: digits and upper-case X only, and a
      10-character value only when it ends in X. */
  predicate IsNormalIsbn(s: string) {
    IsbnAlphabet(s) && (|s| == 10 ==> s[9] == 'X')
  }

  lemma {:induction false} KeepIsbnCharsSpec(s: string)
    ensures forall i :: 0 <= i < |KeepIsbnChars(s)| ==> IsIsbnChar(KeepIsbnChars(s)[i])
  {
    if s != [] {
      KeepIsbnCharsSpec(s[1..]);
      var head := if IsIsbnChar(s[0]) then [s[0]] else [];
      assert forall i :: |head| <= i < |KeepIsbnChars(s)| ==> KeepIsbnChars(s)[i] == KeepIsbnChars(s[1..])[i - |head|];
    }
  }

  lemma {:induction false} KeepIsbnCharsFixed(s: string)
    requires IsbnAlphabet(s)
    ensures KeepIsbnChars(s) == s
  {
    if s != [] {
      assert IsbnAlphabet(s[1..]) by {
        assert forall i :: 0 <= i < |s[1..]| ==> s[1..][i] == s[i + 1];
      }
      KeepIsbnCharsFixed(s[1..]);
      assert s == [s[0]] + s[1..];
    }
  }

  /** The filter works character by character: it distributes over
      concatenation, and keeps a single character exactly when it is a digit,
      X or x.  Together these fix KeepIsbnChars on every input. */
  lemma {:induction false} KeepIsbnCharsAppend(a: string, b: string)
    ensures KeepIsbnChars(a + b) == KeepIsbnChars(a) + KeepIsbnChars(b)
  {
    if a == [] {
      assert a + b == b;
    } else {
      assert (a + b)[0] == a[0];
      assert (a + b)[1..] == a[1..] + b;
      KeepIsbnCharsAppend(a[1..], b);
    }
  }

  lemma KeepIsbnCharsOne(c: char)
    ensures KeepIsbnChars([c]) == if IsIsbnChar(c) then [c] else []
  {
    assert [c][1..] == [];
  }

  /** Input made only of digits, X and x passes the filter whole. */
  lemma {:induction false} KeepIsbnCharsAll(s: string)
    requires forall i :: 0 <= i < |s| ==> IsIsbnChar(s[i])
    ensures KeepIsbnChars(s) == s
  {
    if s != [] {
      assert forall i :: 0 <= i < |s[1..]| ==> s[1..][i] == s[i + 1];
      KeepIsbnCharsAll(s[1..]);
      assert s == [s[0]] + s[1..];
    }
  }

  /** On input made only of digits, X and x, the cleaning step keeps every
      character in place and upper-cases x to X. */
  lemma CleanIsbnOfIsbnChars(s: string)
    requires forall i :: 0 <= i < |s| ==> IsIsbnChar(s[i])
    ensures CleanIsbn(s) == Upper(s)
    ensures |CleanIsbn(s)| == |s|
    ensures forall i :: 0 <= i < |s| ==> CleanIsbn(s)[i] == if s[i] == 'x' then 'X' else s[i]
  {
    assert forall i :: 0 <= i < |s| ==> IsGraphic(s[i]);
    GraphicNormal(s);
    KeepIsbnCharsAll(s);
  }

  /** A lower-case check character x is upper-cased, not dropped. */
  lemma NormalizeIsbnLowerX()
    ensures NormalizeIsbn("123456789x") == "123456789X"
  {
    CleanIsbnLowerX();
  }

  lemma CleanIsbnLowerX()
    ensures CleanIsbn("123456789x") == "123456789X"
  {
    var s := "123456789x";
    assert forall i :: 0 <= i < |s| ==> IsIsbnChar(s[i]);
    CleanIsbnOfIsbnChars(s);
    assert CleanIsbn(s) == Upper(s);
    UpperLowerX();
  }

  lemma UpperLowerX()
    ensures Upper("123456789x") == "123456789X"
  {
    var u := Upper("123456789x");
    assert forall i | 0 <= i < 10 :: u[i] == "123456789X"[i];
  }

  lemma CleanIsbnAlphabet(isbn: string)
    ensures IsbnAlphabet(CleanIsbn(isbn))
  {
    KeepIsbnCharsSpec(Strip(isbn));
  }

  /** normalize_isbn: the empty input gives ""; the result holds only digits and
      X (a lower-case x is upper-cased); a 10-character cleaned value ending in X
      is returned as it is, any other 10-character value becomes "978" and its
      first nine characters (12 characters), and every other length is
      returned as cleaned. */
  lemma NormalizeIsbnSpec(isbn: string)
    ensures isbn == "" ==> NormalizeIsbn(isbn) == ""
    ensures IsNormalIsbn(NormalizeIsbn(isbn))
    ensures isbn != "" && |CleanIsbn(isbn)| == 10 && CleanIsbn(isbn)[9] == 'X' ==> NormalizeIsbn(isbn) == CleanIsbn(isbn)
    ensures isbn != "" && |CleanIsbn(isbn)| == 10 && CleanIsbn(isbn)[9] != 'X' ==>
              |NormalizeIsbn(isbn)| == 12 && NormalizeIsbn(isbn) == "978" + CleanIsbn(isbn)[..9]
    ensures isbn != "" && |CleanIsbn(isbn)| != 10 ==> NormalizeIsbn(isbn) == CleanIsbn(isbn)
  {
    CleanIsbnAlphabet(isbn);
    var c := CleanIsbn(isbn);
    if isbn != "" && |c| == 10 && c[9] != 'X' {
      var r := "978" + c[..9];
      assert forall i :: 3 <= i < 12 ==> r[i] == c[i - 3];
    }
  }

  /** Normalising a normalised ISBN changes nothing. */
  lemma NormalizeIsbnIdempotent(isbn: string)
    ensures NormalizeIsbn(NormalizeIsbn(isbn)) == NormalizeIsbn(isbn)
  {
    var r := NormalizeIsbn(isbn);
    NormalizeIsbnSpec(isbn);
    if r != "" {
      GraphicNormal(r);
      KeepIsbnCharsFixed(r);
      assert forall i :: 0 <= i < |r| ==> UpperChar(r[i]) == r[i];
      assert Upper(r) == r;
    }
  }

  // ---------------------------------------------------------------------------
  // BookRecord and dedup_key

  datatype BookRecord = BookRecord(title: string, author: string, isbn: string, year: string)

  /** BookRecord(title, author, isbn, year) */
  function NewBookRecord(title: string, author: string, isbn: string, year: string): BookRecord {
    BookRecord(NormalizeText(title), NormalizeText(author), NormalizeIsbn(isbn), Strip(year))
  }

  predicate IsNormalRecord(b: BookRecord) {
    IsNormalText(b.title) && IsNormalText(b.author) && IsNormalIsbn(b.isbn) && NoOuterSpace(b.year)
  }

  /** Every constructed record has normalised fields. */
  lemma NewBookRecordNormal(title: string, author: string, isbn: string, year: string)
    ensures IsNormalRecord(NewBookRecord(title, author, isbn, year))
  {
    NormalizeTextSpec(title);
    NormalizeTextSpec(author);
    NormalizeIsbnSpec(isbn);
    StripCharsTrimmed(year, Whitespace);
  }

  const IsbnTag: string := "isbn:"
  const FallbackTag: string := "title_author:"

  /** A record is keyed by its ISBN when that has at least 10 characters. */
  predicate HasIsbnKey(b: BookRecord) {
    b.isbn != "" && |b.isbn| >= 10
  }

  /** dedup_key */
  function DedupKey(b: BookRecord): string {
    if HasIsbnKey(b) then IsbnTag + b.isbn
    else FallbackTag + Lower(b.title) + ":" + Lower(b.author)
  }

  /** Two ISBN keys agree exactly when the ISBNs do. */
  lemma IsbnKeyInjective(a: BookRecord, b: BookRecord)
    requires HasIsbnKey(a) && HasIsbnKey(b)
    ensures DedupKey(a) == DedupKey(b) <==> a.isbn == b.isbn
  {
    if DedupKey(a) == DedupKey(b) {
      assert a.isbn == DedupKey(a)[|IsbnTag|..];
      assert b.isbn == DedupKey(b)[|IsbnTag|..];
    }
  }

  /** An ISBN key never equals a title/author key. */
  lemma KeyKindsDisjoint(a: BookRecord, b: BookRecord)
    requires HasIsbnKey(a) && !HasIsbnKey(b)
    ensures DedupKey(a) != DedupKey(b)
  {
    assert DedupKey(a)[0] == 'i' && DedupKey(b)[0] == 't';
  }

  /** In t + ":" + a with no colon in a, the last colon is at |t|. */
  lemma LastColon(t: string, a: string)
    requires ':' !in a
    ensures (t + [':'] + a)[|t|] == ':'
    ensures forall k :: |t| < k < |t + [':'] + a| ==> (t + [':'] + a)[k] != ':'
  {
    var s := t + [':'] + a;
    forall k | |t| < k < |s| ensures s[k] != ':' {
      assert s[k] == a[k - |t| - 1] && a[k - |t| - 1] in a;
    }
  }

  lemma LastColonSplit(t1: string, a1: string, t2: string, a2: string)
    requires ':' !in a1 && ':' !in a2
    requires t1 + [':'] + a1 == t2 + [':'] + a2
    ensures t1 == t2 && a1 == a2
  {
    var s := t1 + [':'] + a1;
    LastColon(t1, a1);
    LastColon(t2, a2);
    assert |t1| == |t2|;
    assert t1 == s[..|t1|] && t2 == s[..|t2|];
    assert a1 == s[|t1| + 1..] && a2 == s[|t2| + 1..];
  }

  /** Without ISBN keys, two records collide exactly when their lower-cased
      titles and authors agree, provided no author contains a colon. */
  lemma FallbackKeyExact(a: BookRecord, b: BookRecord)
    requires !HasIsbnKey(a) && !HasIsbnKey(b)
    requires ':' !in Lower(a.author) && ':' !in Lower(b.author)
    ensures DedupKey(a) == DedupKey(b) <==> Lower(a.title) == Lower(b.title) && Lower(a.author) == Lower(b.author)
  {
    if DedupKey(a) == DedupKey(b) {
      var sa := Lower(a.title) + [':'] + Lower(a.author);
      var sb := Lower(b.title) + [':'] + Lower(b.author);
      assert DedupKey(a) == FallbackTag + sa;
      assert DedupKey(b) == FallbackTag + sb;
      assert sa == DedupKey(a)[|FallbackTag|..];
      assert sb == DedupKey(b)[|FallbackTag|..];
      LastColonSplit(Lower(a.title), Lower(a.author), Lower(b.title), Lower(b.author));
    }
  }

  /** The colon separator is ambiguous: different title/author splits can share
      a key. */
  lemma FallbackKeyColonCollision()
    ensures DedupKey(BookRecord("a:b", "c", "", "")) == DedupKey(BookRecord("a", "b:c", "", ""))
  {
    assert Lower("a:b") == "a:b";
    assert Lower("c") == "c";
    assert Lower("a") == "a";
    assert Lower("b:c") == "b:c";
  }
}
