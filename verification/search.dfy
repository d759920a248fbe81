/** The dashboard search of BookRecomendationApp.py: keep the catalog rows
    whose title or author contains the query, ignoring case, and show the
    first ten of them in catalog order. */
module CatalogSearch {
  import opened Wrappers

  /** The most rows the result area shows. */
  const MAX_SHOWN: nat := 10

  /** A catalog cell as `str(row.get(column, ''))` renders it: a missing column
      reads as the empty string and an empty cell (a floating-point NaN in the
      loaded table) as the text "nan". */
  datatype Cell = Absent | NaN | Text(s: string)

  function CellText(c: Cell): string
  {
    match c
    case Absent => ""
    case NaN => "nan"
    case Text(s) => s
  }

  /** One row of the loaded catalog. */
  datatype Book = Book(title: Cell, author: Cell, genre: Cell, releaseYear: Cell, averageRating: Cell)

  /** What the result area ends up holding. */
  datatype SearchResult = NoMatches | Shown(books: seq<Book>)
  {
    /** The label put in the result area, if any; shown rows become cards. */
    function Message(): Option<string>
    {
      if NoMatches? then Some("No matching books found.") else None
    }
  }

  function LowerChar(c: char): char
  {
    if 'A' <= c <= 'Z' then (c as int + 32) as char else c
  }

  /** `s.lower()`, for the ASCII letters. */
  function Lower(s: string): (r: string)
    ensures |r| == |s|
    ensures forall i :: 0 <= i < |s| ==> r[i] == LowerChar(s[i])
    ensures forall i :: 0 <= i < |r| ==> !('A' <= r[i] <= 'Z')
  {
    if s == [] then [] else [LowerChar(s[0])] + Lower(s[1..])
  }

  /** Lower-casing twice is lower-casing once. */
  lemma LowerIdempotent(s: string)
    ensures Lower(Lower(s)) == Lower(s)
  {
  }

  /** `q` occurs in `s` starting at index `i`. */
  ghost predicate OccursAt(s: string, q: string, i: int)
  {
    0 <= i && i + |q| <= |s| && s[i..i + |q|] == q
  }

  /** `q` occurs somewhere in `s`. */
  ghost predicate OccursIn(s: string, q: string)
  {
    exists i :: OccursAt(s, q, i)
  }

  /** Python's `q in s` on strings. */
  function Contains(s: string, q: string): bool
    decreases |s|
  {
    q <= s || (s != [] && Contains(s[1..], q))
  }

  /** Contains is substring search: it holds exactly when `q` occurs somewhere in `s`. */
  lemma {:induction false} ContainsIff(s: string, q: string)
    ensures Contains(s, q) <==> exists i :: OccursAt(s, q, i)
    decreases |s|
  {
    if q <= s {
      assert OccursAt(s, q, 0);
    } else if s == [] {
    } else {
      ContainsIff(s[1..], q);
      if Contains(s[1..], q) {
        var i :| OccursAt(s[1..], q, i);
        assert s[1..][i..i + |q|] == s[i + 1..i + 1 + |q|];
        assert OccursAt(s, q, i + 1);
      }
      if exists i :: OccursAt(s, q, i) {
        var i :| OccursAt(s, q, i);
        assert i != 0;
        assert s[1..][i - 1..i - 1 + |q|] == s[i..i + |q|];
        assert OccursAt(s[1..], q, i - 1);
      }
    }
  }

  /** The row test of the search, for an already lower-cased query. */
  function Matches(query: string, b: Book): (r: bool)
    ensures query == "" ==> r
  {
    Contains(Lower(CellText(b.title)), query) || Contains(Lower(CellText(b.author)), query)
  }

  /** A row matches exactly when the query occurs in its lower-cased title or
      in its lower-cased author. */
  lemma MatchesIff(query: string, b: Book)
    ensures Matches(query, b)
        <==> OccursIn(Lower(CellText(b.title)), query) || OccursIn(Lower(CellText(b.author)), query)
  {
    ContainsIff(Lower(CellText(b.title)), query);
    ContainsIff(Lower(CellText(b.author)), query);
  }

  /** The rows of `catalog` that match `query`, in catalog order. */
  function Filter(catalog: seq<Book>, query: string): (r: seq<Book>)
    ensures |r| <= |catalog|
    ensures forall b :: b in r ==> b in catalog && Matches(query, b)
  {
    if catalog == [] then []
    else (if Matches(query, catalog[0]) then [catalog[0]] else []) + Filter(catalog[1..], query)
  }

  /** Every matching row is kept. */
  lemma {:induction false} FilterKeepsMatches(catalog: seq<Book>, query: string, b: Book)
    requires b in catalog && Matches(query, b)
    ensures b in Filter(catalog, query)
  {
    if catalog[0] != b {
      FilterKeepsMatches(catalog[1..], query, b);
    }
  }

  /** Filtering a concatenation filters each part: kept rows stay in catalog order. */
  lemma {:induction false} FilterAppend(front: seq<Book>, back: seq<Book>, query: string)
    ensures Filter(front + back, query) == Filter(front, query) + Filter(back, query)
    decreases |front|
  {
    if front == [] {
      assert front + back == back;
    } else {
      assert (front + back)[1..] == front[1..] + back;
      FilterAppend(front[1..], back, query);
    }
  }

  /** A kept row is kept as often as it occurs in the catalog; a rejected row never. */
  lemma {:induction false} FilterCount(catalog: seq<Book>, query: string, b: Book)
    ensures multiset(Filter(catalog, query))[b] == if Matches(query, b) then multiset(catalog)[b] else 0
    decreases |catalog|
  {
    if catalog != [] {
      var x, rest := catalog[0], Filter(catalog[1..], query);
      FilterCount(catalog[1..], query, b);
      assert multiset(catalog) == multiset([x]) + multiset(catalog[1..]) by {
        assert catalog == [x] + catalog[1..];
      }
      if Matches(query, x) {
        assert Filter(catalog, query) == [x] + rest;
        assert multiset(Filter(catalog, query)) == multiset([x]) + multiset(rest);
      } else {
        assert Filter(catalog, query) == rest;
      }
    }
  }

  /** The empty query keeps every row. */
  lemma {:induction false} FilterEmptyQuery(catalog: seq<Book>)
    ensures Filter(catalog, "") == catalog
  {
    if catalog != [] {
      FilterEmptyQuery(catalog[1..]);
    }
  }

  /** The query as the search reads it: `(value or "").lower()`. */
  function QueryText(value: Option<string>): (q: string)
    ensures value == None || value == Some("") ==> q == ""
    ensures value.Some? ==> |q| == |value.value|
    ensures value.Some? ==> forall i :: 0 <= i < |q| ==> q[i] == LowerChar(value.value[i])
    ensures forall i :: 0 <= i < |q| ==> !('A' <= q[i] <= 'Z')
  {
    Lower(value.GetOr(""))
  }

  /** The search button: the first MAX_SHOWN matching rows, or the
      "No matching books found." message when none match. */
  function SearchBooks(catalog: seq<Book>, value: Option<string>): (r: SearchResult)
    ensures r.NoMatches? <==> forall b :: b in catalog ==> !Matches(QueryText(value), b)
    ensures r.Shown? ==>
              && 0 < |r.books| <= MAX_SHOWN
              && r.books <= Filter(catalog, QueryText(value))
              && (|r.books| < MAX_SHOWN ==> r.books == Filter(catalog, QueryText(value)))
  {
    var filtered := Filter(catalog, QueryText(value));
    if filtered == [] then
      assert forall b :: b in catalog ==> !Matches(QueryText(value), b) by {
        forall b | b in catalog ensures !Matches(QueryText(value), b) {
          if Matches(QueryText(value), b) { FilterKeepsMatches(catalog, QueryText(value), b); }
        }
      }
      NoMatches
    else
      assert filtered[0] in filtered;
      Shown(filtered[..if |filtered| < MAX_SHOWN then |filtered| else MAX_SHOWN])
  }

  /** The search ignores the case of the query. */
  lemma SearchIgnoresQueryCase(catalog: seq<Book>, query: string)
    ensures SearchBooks(catalog, Some(query)) == SearchBooks(catalog, Some(Lower(query)))
  {
    LowerIdempotent(query);
  }

  /** With no query text, or an empty one, the first rows of the catalog are shown. */
  lemma SearchWithoutQuery(catalog: seq<Book>, value: Option<string>)
    requires value == None || value == Some("")
    requires catalog != []
    ensures SearchBooks(catalog, value) == Shown(catalog[..if |catalog| < MAX_SHOWN then |catalog| else MAX_SHOWN])
  {
    assert QueryText(value) == "";
    FilterEmptyQuery(catalog);
  }
}
