/** String helpers that mirror the Python built-ins both pipelines rely on:
    str.strip, str.lower / str.upper (ASCII letters), str.split with a separator,
    the substring test `sub in s`, and str(int) for non-negative integers. */
module Text {

  datatype Option<T> = None | Some(value: T)

  /** The characters for which Python's str.isspace() holds; `\s` in a str
      regular expression matches exactly these. */
  const Whitespace: set<char> :=
    {'\t', '\n', '\U{000B}', '\U{000C}', '\r', '\U{001C}', '\U{001D}', '\U{001E}', '\U{001F}',
     ' ', '\U{0085}', '\U{00A0}', '\U{1680}',
     '\U{2000}', '\U{2001}', '\U{2002}', '\U{2003}', '\U{2004}', '\U{2005}', '\U{2006}',
     '\U{2007}', '\U{2008}', '\U{2009}', '\U{200A}',
     '\U{2028}', '\U{2029}', '\U{202F}', '\U{205F}', '\U{3000}'}

  predicate IsDigit(c: char) { '0' <= c <= '9' }

  /** A printable ASCII character other than the space. */
  predicate IsGraphic(c: char) { '!' <= c <= '~' }

  lemma GraphicNotSpace(c: char)
    requires IsGraphic(c)
    ensures c !in Whitespace
  {
  }

  predicate Distinct<T(==)>(s: seq<T>) {
    forall i, j :: 0 <= i < j < |s| ==> s[i] != s[j]
  }

  /** Drops every leading character that belongs to cs. */
  function StripLeft(s: string, cs: set<char>): string {
    if |s| > 0 && s[0] in cs then StripLeft(s[1..], cs) else s
  }

  /** Drops every trailing character that belongs to cs. */
  function StripRight(s: string, cs: set<char>): string {
    if |s| > 0 && s[|s| - 1] in cs then StripRight(s[..|s| - 1], cs) else s
  }

  /** StripLeft removes exactly the longest prefix of cs-characters. */
  lemma {:induction false} StripLeftSpec(s: string, cs: set<char>)
    ensures |StripLeft(s, cs)| <= |s| && StripLeft(s, cs) == s[|s| - |StripLeft(s, cs)|..]
    ensures forall k :: 0 <= k < |s| - |StripLeft(s, cs)| ==> s[k] in cs
    ensures StripLeft(s, cs) == [] || StripLeft(s, cs)[0] !in cs
  {
    if |s| > 0 && s[0] in cs {
      StripLeftSpec(s[1..], cs);
    }
  }

  /** StripRight removes exactly the longest suffix of cs-characters. */
  lemma {:induction false} StripRightSpec(s: string, cs: set<char>)
    ensures |StripRight(s, cs)| <= |s| && StripRight(s, cs) == s[..|StripRight(s, cs)|]
    ensures forall k :: |StripRight(s, cs)| <= k < |s| ==> s[k] in cs
    ensures StripRight(s, cs) == [] || StripRight(s, cs)[|StripRight(s, cs)| - 1] !in cs
  {
    if |s| > 0 && s[|s| - 1] in cs {
      StripRightSpec(s[..|s| - 1], cs);
    }
  }

  /** r is s with a (possibly empty) run of cs-characters removed from each end. */
  ghost predicate TrimmedAt(r: string, s: string, cs: set<char>, i: int) {
    && 0 <= i <= |s| - |r|
    && r == s[i..i + |r|]
    && (forall k :: 0 <= k < i ==> s[k] in cs)
    && (forall k :: i + |r| <= k < |s| ==> s[k] in cs)
  }

  ghost predicate IsTrimmedSlice(r: string, s: string, cs: set<char>) {
    exists i :: TrimmedAt(r, s, cs, i)
  }

  /** Python's s.strip(chars): removes all leading and trailing characters in cs. */
  function StripChars(s: string, cs: set<char>): string {
    StripRight(StripLeft(s, cs), cs)
  }

  /** What s.strip(chars) leaves: a slice of s, cut only at runs of cs-characters,
      that neither starts nor ends with one. */
  lemma StripCharsTrimmed(s: string, cs: set<char>)
    ensures IsTrimmedSlice(StripChars(s, cs), s, cs)
    ensures StripChars(s, cs) == [] || (StripChars(s, cs)[0] !in cs && StripChars(s, cs)[|StripChars(s, cs)| - 1] !in cs)
  {
    var l := StripLeft(s, cs);
    var r := StripRight(l, cs);
    StripLeftSpec(s, cs);
    StripRightSpec(l, cs);
    assert TrimmedAt(r, s, cs, |s| - |l|);
  }

  /** StripLeft removes exactly a leading run of cs-characters. */
  lemma {:induction false} StripLeftExact(a: string, x: string, cs: set<char>)
    requires forall i :: 0 <= i < |a| ==> a[i] in cs
    requires x == [] || x[0] !in cs
    ensures StripLeft(a + x, cs) == x
  {
    if a != [] {
      assert (a + x)[1..] == a[1..] + x;
      StripLeftExact(a[1..], x, cs);
    }
  }

  /** StripRight removes exactly a trailing run of cs-characters. */
  lemma {:induction false} StripRightExact(x: string, b: string, cs: set<char>)
    requires forall i :: 0 <= i < |b| ==> b[i] in cs
    requires x == [] || x[|x| - 1] !in cs
    ensures StripRight(x + b, cs) == x
  {
    if b != [] {
      assert (x + b)[..|x + b| - 1] == x + b[..|b| - 1];
      StripRightExact(x, b[..|b| - 1], cs);
    }
  }

  /** s.strip(chars) removes exactly the cs-runs a and b around m. */
  lemma StripCharsExact(a: string, m: string, b: string, cs: set<char>)
    requires forall i :: 0 <= i < |a| ==> a[i] in cs
    requires forall i :: 0 <= i < |b| ==> b[i] in cs
    requires m == [] || (m[0] !in cs && m[|m| - 1] !in cs)
    ensures StripChars(a + m + b, cs) == m
  {
    if m == [] {
      assert a + m + b == (a + b) + [];
      StripLeftExact(a + b, [], cs);
    } else {
      assert a + m + b == a + (m + b);
      StripLeftExact(a, m + b, cs);
      StripRightExact(m, b, cs);
    }
  }

  /** Stripping a string whose ends are not in cs leaves it unchanged. */
  lemma NoOuterChars(w: string, cs: set<char>)
    requires w != [] && w[0] !in cs && w[|w| - 1] !in cs
    ensures StripChars(w, cs) == w
  {
    StripCharsExact([], w, [], cs);
    assert [] + w + [] == w;
  }

  /** Python's s.strip() with no argument. */
  function Strip(s: string): string {
    StripChars(s, Whitespace)
  }

  /** Trimming twice trims by the union of the two character sets. */
  lemma TrimmedSliceCompose(r: string, t: string, s: string, a: set<char>, b: set<char>, c: set<char>)
    requires IsTrimmedSlice(r, t, a) && IsTrimmedSlice(t, s, b)
    requires a <= c && b <= c
    ensures IsTrimmedSlice(r, s, c)
  {
    var i :| TrimmedAt(r, t, a, i);
    var j :| TrimmedAt(t, s, b, j);
    assert forall k :: 0 <= k < |t| ==> t[k] == s[j + k];
    assert s[j + i..j + i + |r|] == r;
    assert TrimmedAt(r, s, c, j + i);
  }

  lemma TrimmedSliceWiden(r: string, s: string, a: set<char>, b: set<char>)
    requires IsTrimmedSlice(r, s, a) && a <= b
    ensures IsTrimmedSlice(r, s, b)
  {
    var i :| TrimmedAt(r, s, a, i);
    assert TrimmedAt(r, s, b, i);
  }

  function LowerChar(c: char): char {
    if 'A' <= c <= 'Z' then (c as int + 32) as char else c
  }

  function UpperChar(c: char): char {
    if 'a' <= c <= 'z' then (c as int - 32) as char else c
  }

  /** str.lower() restricted to ASCII letters. */
  function Lower(s: string): (r: string)
    ensures |r| == |s| && forall i :: 0 <= i < |s| ==> r[i] == LowerChar(s[i])
  {
    seq(|s|, i requires 0 <= i < |s| => LowerChar(s[i]))
  }

  /** str.upper() restricted to ASCII letters. */
  function Upper(s: string): (r: string)
    ensures |r| == |s| && forall i :: 0 <= i < |s| ==> r[i] == UpperChar(s[i])
  {
    seq(|s|, i requires 0 <= i < |s| => UpperChar(s[i]))
  }

  /** Lower-casing forgets any earlier change of case. */
  lemma LowerAfterCase(s: string)
    ensures Lower(Upper(s)) == Lower(s)
    ensures Lower(Lower(s)) == Lower(s)
  {
  }

  /** Python's s.split(sep) for a one-character separator: the pieces between
      the separators, empty pieces included; split of "" is [""]. */
  function Split(s: string, sep: char): (r: seq<string>)
    ensures |r| >= 1
    decreases |s|
  {
    if s == [] then [[]]
    else
      var rest := Split(s[1..], sep);
      if s[0] == sep then [[]] + rest else [[s[0]] + rest[0]] + rest[1..]
  }

  /** sep.join(pieces). */
  function Join(pieces: seq<string>, sep: char): string {
    if |pieces| <= 1 then (if pieces == [] then [] else pieces[0])
    else pieces[0] + [sep] + Join(pieces[1..], sep)
  }

  /** Splitting loses nothing: joining the pieces gives back the input, and no
      piece contains the separator. */
  lemma {:induction false} SplitJoin(s: string, sep: char)
    ensures Join(Split(s, sep), sep) == s
    ensures forall p :: p in Split(s, sep) ==> sep !in p
    decreases |s|
  {
    if s != [] {
      var rest := Split(s[1..], sep);
      SplitJoin(s[1..], sep);
      if s[0] == sep {
        assert Split(s, sep) == [[]] + rest;
        if |rest| == 1 {
          assert Join([[]] + rest, sep) == [] + [sep] + rest[0];
        }
        assert s == [sep] + s[1..];
      } else {
        var r := [[s[0]] + rest[0]] + rest[1..];
        assert Split(s, sep) == r;
        assert r[1..] == rest[1..];
        if |rest| == 1 {
          assert Join(r, sep) == [s[0]] + rest[0];
        } else {
          assert Join(rest, sep) == rest[0] + [sep] + Join(rest[1..], sep);
          assert Join(r, sep) == [s[0]] + rest[0] + [sep] + Join(rest[1..], sep);
        }
        assert s == [s[0]] + s[1..];
        forall p | p in r ensures sep !in p {
          if p == r[0] {
            assert rest[0] in rest;
          } else {
            assert p in rest;
          }
        }
      }
    }
  }

  predicate StartsWith(s: string, prefix: string) {
    |prefix| <= |s| && s[..|prefix|] == prefix
  }

  /** sub occurs in s starting at index i. */
  predicate OccursAt(s: string, sub: string, i: int) {
    0 <= i <= |s| - |sub| && s[i..i + |sub|] == sub
  }

  /** A word that is neither a prefix of s nor anywhere in its tail is not in s. */
  lemma NotInTail(s: string, sub: string)
    requires s != [] && !StartsWith(s, sub)
    requires forall i :: !OccursAt(s[1..], sub, i)
    ensures forall i :: !OccursAt(s, sub, i)
  {
    forall i | 1 <= i <= |s| - |sub| ensures !OccursAt(s, sub, i) {
      assert !OccursAt(s[1..], sub, i - 1);
      assert s[1..][i - 1..i - 1 + |sub|] == s[i..i + |sub|];
    }
  }

  /** Python's `sub in s`. */
  function Contains(s: string, sub: string): (r: bool)
    ensures r <==> exists i :: OccursAt(s, sub, i)
  {
    if StartsWith(s, sub) then
      assert OccursAt(s, sub, 0);
      true
    else if s == [] then false
    else
      var r := Contains(s[1..], sub);
      if r then
        var i :| OccursAt(s[1..], sub, i);
        assert s[i + 1..i + 1 + |sub|] == s[1..][i..i + |sub|];
        assert OccursAt(s, sub, i + 1);
        true
      else
        NotInTail(s, sub);
        false
  }

  function DigitChar(d: nat): char
    requires d < 10
  {
    ('0' as int + d) as char
  }

  /** str(n) for a non-negative integer: its decimal digits, no leading zeros. */
  function NatToString(n: nat): (r: string)
    ensures |r| >= 1 && forall i :: 0 <= i < |r| ==> IsDigit(r[i])
    ensures |r| > 1 ==> r[0] != '0'
  {
    if n < 10 then [DigitChar(n)] else NatToString(n / 10) + [DigitChar(n % 10)]
  }

  function DigitValue(c: char): (d: nat)
    requires IsDigit(c)
    ensures d < 10 && DigitChar(d) == c
  {
    c as int - '0' as int
  }

  /** int(s) for a string of decimal digits. */
  function ParseDecimal(s: string): nat
    requires forall i :: 0 <= i < |s| ==> IsDigit(s[i])
  {
    if s == [] then 0
    else 10 * ParseDecimal(s[..|s| - 1]) + DigitValue(s[|s| - 1])
  }

  /** Reading back what str(n) wrote gives n. */
  lemma {:induction false} DecimalRoundTrip(n: nat)
    ensures ParseDecimal(NatToString(n)) == n
  {
    if n >= 10 {
      DecimalRoundTrip(n / 10);
      var s := NatToString(n);
      assert s[..|s| - 1] == NatToString(n / 10);
    }
  }
}
