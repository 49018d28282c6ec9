/** The catalog filter behind every app's `update_book_grid` callback: a
    case-insensitive substring search over title and author, then an exact
    category match, then one card per surviving row in the original order. */
module Catalog {

  datatype Option<T> = None | Some(value: T)

  /** One row of `books_data`. Of the display-only fields only `description`
      is kept; the filter never reads it. */
  datatype Book = Book(id: nat, title: string, author: string, category: string, description: string)

  /** What `create_book_card` renders for one row. */
  datatype Card = Card(book: Book)

  /** The dropdown value that switches the category step off. */
  const AllCategories: string := "All"

  // ---------------------------------------------------------------------------
  // The two callback inputs, read with Python truthiness

  /** `if v:` on a Dash input value: `None` and `""` are falsy. */
  predicate Truthy(v: Option<string>) {
    v.Some? && v.value != ""
  }

  predicate CategoryActive(category: Option<string>) {
    Truthy(category) && category.value != AllCategories
  }

  // ---------------------------------------------------------------------------
  // ASCII case folding

  predicate IsUpper(c: char) {
    'A' <= c <= 'Z'
  }

  function LowerChar(c: char): (r: char)
    ensures !IsUpper(r)
    ensures !IsUpper(c) ==> r == c
    ensures IsUpper(c) ==> 'a' <= r <= 'z' && r as int - 'a' as int == c as int - 'A' as int
  {
    if IsUpper(c) then (c as int + 32) as char else c
  }

  function Lower(s: string): (r: string)
    ensures |r| == |s|
    ensures forall i :: 0 <= i < |s| ==> r[i] == LowerChar(s[i])
    ensures forall i :: 0 <= i < |r| ==> !IsUpper(r[i])
  {
    seq(|s|, i requires 0 <= i < |s| => LowerChar(s[i]))
  }

  // ---------------------------------------------------------------------------
  // Search terms the model covers

  /** The characters Python's `re` module gives a meaning of their own. */
  predicate IsRegexMetachar(c: char) {
    || c == '.' || c == '^' || c == '$' || c == '*' || c == '+' || c == '?' || c == '{'
    || c == '}' || c == '[' || c == ']' || c == '\\' || c == '|' || c == '(' || c == ')'
  }

  /** A printable-ASCII term with no regex metacharacter: for such a term
      `str.contains(term, case=False)` is a literal case-insensitive match. */
  predicate IsPlainTerm(t: string) {
    forall i :: 0 <= i < |t| ==> ' ' <= t[i] <= '~' && !IsRegexMetachar(t[i])
  }

  predicate SearchIsPlain(search: Option<string>) {
    search.None? || IsPlainTerm(search.value)
  }

  // ---------------------------------------------------------------------------
  // Substrings

  predicate OccursAt(hay: string, needle: string, i: int) {
    0 <= i && i + |needle| <= |hay| && hay[i..i + |needle|] == needle
  }

  predicate Contains(hay: string, needle: string) {
    exists i | 0 <= i <= |hay| - |needle| :: OccursAt(hay, needle, i)
  }

  lemma ContainsEmpty(hay: string)
    ensures Contains(hay, "")
  {
    assert OccursAt(hay, "", 0);
  }

  /** Every character of a contained needle is a character of the haystack. */
  lemma ContainsNeedsChar(hay: string, needle: string, c: char)
    requires Contains(hay, needle)
    requires c in needle
    ensures c in hay
  {
    var i :| 0 <= i <= |hay| - |needle| && OccursAt(hay, needle, i);
    var j :| 0 <= j < |needle| && needle[j] == c;
    assert hay[i..i + |needle|][j] == hay[i + j];
  }

  // ---------------------------------------------------------------------------
  // Row masks and selection

  /** The text predicate of one row: the lower-cased term occurs in the
      lower-cased title or in the lower-cased author. */
  predicate MatchesText(b: Book, term: string) {
    Contains(Lower(b.title), Lower(term)) || Contains(Lower(b.author), Lower(term))
  }

  /** `term` occurs in `field` at `i` when each character agrees with the
      field's character there up to case. */
  ghost predicate MatchesIgnoringCaseAt(field: string, term: string, i: int) {
    && 0 <= i && i + |term| <= |field|
    && forall j :: 0 <= j < |term| ==> LowerChar(field[i + j]) == LowerChar(term[j])
  }

  lemma OccursAtLower(field: string, term: string, i: int)
    ensures OccursAt(Lower(field), Lower(term), i) <==> MatchesIgnoringCaseAt(field, term, i)
  {
    if 0 <= i && i + |term| <= |field| {
      var window := Lower(field)[i..i + |term|];
      assert forall j :: 0 <= j < |term| ==> window[j] == LowerChar(field[i + j]);
      if MatchesIgnoringCaseAt(field, term, i) {
        assert window == Lower(term);
      }
    }
  }

  /** Searching the lower-cased field for the lower-cased term is a
      case-insensitive, character-by-character match at some position. */
  lemma ContainsLowerIsCaseInsensitive(field: string, term: string)
    ensures Contains(Lower(field), Lower(term)) <==> exists i :: MatchesIgnoringCaseAt(field, term, i)
  {
    if Contains(Lower(field), Lower(term)) {
      var i :| 0 <= i <= |Lower(field)| - |Lower(term)| && OccursAt(Lower(field), Lower(term), i);
      OccursAtLower(field, term, i);
    }
    if exists i :: MatchesIgnoringCaseAt(field, term, i) {
      var i :| MatchesIgnoringCaseAt(field, term, i);
      OccursAtLower(field, term, i);
      assert OccursAt(Lower(field), Lower(term), i);
    }
  }

  /** A row matches exactly when the term occurs, ignoring case, in its title
      or in its author. */
  lemma MatchesTextIsCaseInsensitive(b: Book, term: string)
    ensures MatchesText(b, term)
        <==> (exists i :: MatchesIgnoringCaseAt(b.title, term, i)) || (exists i :: MatchesIgnoringCaseAt(b.author, term, i))
  {
    ContainsLowerIsCaseInsensitive(b.title, term);
    ContainsLowerIsCaseInsensitive(b.author, term);
  }

  /** Lower-casing commutes with slicing. */
  lemma LowerSlice(s: string, i: nat, j: nat)
    requires i <= j <= |s|
    ensures Lower(s)[i..j] == Lower(s[i..j])
  {
  }

  function UpperChar(c: char): char
    requires 'a' <= c <= 'z'
  {
    (c as int - 32) as char
  }

  /** A lower-case letter is absent from `Lower(s)` when neither of its cases is in `s`. */
  lemma LowerLacks(s: string, c: char)
    requires 'a' <= c <= 'z'
    requires c !in s && UpperChar(c) !in s
    ensures c !in Lower(s)
  {
  }

  /** A field that lacks, in either case, a letter of the lower-case term
      does not contain the term. */
  lemma NotContainedWithoutLetter(field: string, term: string, c: char)
    requires 'a' <= c <= 'z' && c in term
    requires c !in field && UpperChar(c) !in field
    ensures !Contains(Lower(field), Lower(term))
  {
    var j :| 0 <= j < |term| && term[j] == c;
    assert Lower(term)[j] == c;
    LowerLacks(field, c);
    if Contains(Lower(field), Lower(term)) {
      ContainsNeedsChar(Lower(field), Lower(term), c);
    }
  }

  /** A title that lacks the letter `ct` of the term and an author that lacks
      the letter `ca` (in both cases) do not contain it: a row with these
      fields fails the text mask. */
  lemma FieldsLackLetters(title: string, author: string, term: string, ct: char, ca: char)
    requires 'a' <= ct <= 'z' && ct in term && ct !in title && UpperChar(ct) !in title
    requires 'a' <= ca <= 'z' && ca in term && ca !in author && UpperChar(ca) !in author
    ensures !Contains(Lower(title), Lower(term)) && !Contains(Lower(author), Lower(term))
  {
    NotContainedWithoutLetter(title, term, ct);
    NotContainedWithoutLetter(author, term, ca);
  }

  lemma TitleMatchAt(b: Book, term: string, i: nat)
    requires i + |term| <= |b.title|
    requires Lower(b.title[i..i + |term|]) == Lower(term)
    ensures MatchesText(b, term)
  {
    LowerSlice(b.title, i, i + |term|);
    assert OccursAt(Lower(b.title), Lower(term), i);
  }

  lemma AuthorMatchAt(b: Book, term: string, i: nat)
    requires i + |term| <= |b.author|
    requires Lower(b.author[i..i + |term|]) == Lower(term)
    ensures MatchesText(b, term)
  {
    LowerSlice(b.author, i, i + |term|);
    assert OccursAt(Lower(b.author), Lower(term), i);
  }

  /** Only title and author are searched: changing a row's category or
      description never changes whether it matches. */
  lemma MatchIgnoresOtherFields(b: Book, term: string, category: string, description: string)
    ensures MatchesText(b.(category := category, description := description), term) == MatchesText(b, term)
  {
  }

  /** A boolean row mask, as pandas builds one from column comparisons. */
  datatype Mask =
    | Everything
    | TitleOrAuthorContains(term: string)
    | CategoryIs(name: string)
    | Both(left: Mask, right: Mask)

  predicate Passes(b: Book, m: Mask) {
    match m
    case Everything => true
    case TitleOrAuthorContains(t) => MatchesText(b, t)
    case CategoryIs(name) => b.category == name
    case Both(l, r) => Passes(b, l) && Passes(b, r)
  }

  /** `df[mask]`: the rows that pass the mask, in their original order. */
  function Select(books: seq<Book>, m: Mask): (r: seq<Book>)
    ensures |r| <= |books|
    ensures forall b :: b in r <==> b in books && Passes(b, m)
    decreases |books|
  {
    if books == [] then []
    else
      var init := books[..|books| - 1];
      var last := books[|books| - 1];
      assert books == init + [last];
      Select(init, m) + (if Passes(last, m) then [last] else [])
  }

  /** The row positions `df[mask]` keeps, in increasing order. */
  function KeptPositions(books: seq<Book>, m: Mask): (idx: seq<nat>)
    decreases |books|
  {
    if books == [] then []
    else KeptPositions(books[..|books| - 1], m) + (if Passes(books[|books| - 1], m) then [|books| - 1] else [])
  }

  /** `rows` are the rows of `books` at the strictly increasing positions `idx`. */
  ghost predicate RowsAt(rows: seq<Book>, books: seq<Book>, idx: seq<nat>) {
    && |idx| == |rows|
    && (forall k :: 0 <= k < |idx| ==> idx[k] < |books| && rows[k] == books[idx[k]])
    && Increasing(idx)
  }

  /** Extending the rows by one more position beyond all others keeps `RowsAt`. */
  lemma RowsAtExtend(rows: seq<Book>, books: seq<Book>, idx: seq<nat>, n: nat)
    requires n < |books|
    requires RowsAt(rows, books[..n], idx)
    ensures RowsAt(rows, books, idx)
    ensures RowsAt(rows + [books[n]], books, idx + [n])
  {
    var rows', idx' := rows + [books[n]], idx + [n];
    forall k | 0 <= k < |idx'|
      ensures idx'[k] < |books| && rows'[k] == books[idx'[k]]
    {
      if k < |idx| {
        assert books[..n][idx[k]] == books[idx[k]];
      }
    }
  }

  /** `df[mask]` keeps exactly the rows at the positions that pass, in order. */
  lemma {:induction false} SelectKeepsPassingPositions(books: seq<Book>, m: Mask)
    ensures RowsAt(Select(books, m), books, KeptPositions(books, m))
    ensures forall i :: 0 <= i < |books| ==> (i in KeptPositions(books, m) <==> Passes(books[i], m))
    decreases |books|
  {
    if books != [] {
      var n := |books| - 1;
      var init := books[..n];
      SelectKeepsPassingPositions(init, m);
      var idx0 := KeptPositions(init, m);
      var rows0 := Select(init, m);
      RowsAtExtend(rows0, books, idx0, n);
      if Passes(books[n], m) {
        assert Select(books, m) == rows0 + [books[n]];
        assert KeptPositions(books, m) == idx0 + [n];
      } else {
        assert Select(books, m) == rows0;
        assert KeptPositions(books, m) == idx0;
      }
      PositionsStep(books, m);
    }
  }

  lemma PositionsStep(books: seq<Book>, m: Mask)
    requires books != []
    requires var init := books[..|books| - 1];
      && (forall k :: 0 <= k < |KeptPositions(init, m)| ==> KeptPositions(init, m)[k] < |init|)
      && (forall i :: 0 <= i < |init| ==> (i in KeptPositions(init, m) <==> Passes(init[i], m)))
    ensures forall i :: 0 <= i < |books| ==> (i in KeptPositions(books, m) <==> Passes(books[i], m))
  {
    var n := |books| - 1;
    var init := books[..n];
    var idx0 := KeptPositions(init, m);
    var idx := KeptPositions(books, m);
    assert n !in idx0;
    forall i | 0 <= i < n
      ensures i in idx <==> Passes(books[i], m)
    {
      assert books[i] == init[i];
    }
  }

  lemma {:induction false} SelectAppend(a: seq<Book>, b: seq<Book>, m: Mask)
    ensures Select(a + b, m) == Select(a, m) + Select(b, m)
    decreases |b|
  {
    if b == [] {
      assert a + b == a;
    } else {
      var init := b[..|b| - 1];
      assert (a + b)[..|a + b| - 1] == a + init;
      assert (a + b)[|a + b| - 1] == b[|b| - 1];
      SelectAppend(a, init, m);
    }
  }

  /** What one row contributes to `df[mask]`. */
  function Part(b: Book, m: Mask): seq<Book> {
    if Passes(b, m) then [b] else []
  }

  lemma SelectSingle(x: Book, m: Mask)
    ensures Select([x], m) == Part(x, m)
  {
    assert [x][..0] == [];
  }

  /** `df[mask]` over a three-row frame. */
  lemma SelectThree(a: Book, b: Book, c: Book, m: Mask)
    ensures Select([a, b, c], m) == Part(a, m) + Part(b, m) + Part(c, m)
  {
    assert [a, b, c] == [a] + [b] + [c];
    SelectAppend([a] + [b], [c], m);
    SelectAppend([a], [b], m);
    SelectSingle(a, m);
    SelectSingle(b, m);
    SelectSingle(c, m);
  }

  /** `df[mask]` over a five-row frame. */
  lemma SelectFive(a: Book, b: Book, c: Book, d: Book, e: Book, m: Mask)
    ensures Select([a, b, c, d, e], m) == Part(a, m) + Part(b, m) + Part(c, m) + Part(d, m) + Part(e, m)
  {
    assert [a, b, c, d, e] == [a, b, c] + [d] + [e];
    SelectAppend([a, b, c] + [d], [e], m);
    SelectAppend([a, b, c], [d], m);
    SelectThree(a, b, c, m);
    SelectSingle(d, m);
    SelectSingle(e, m);
  }

  lemma {:induction false} SelectAllPass(books: seq<Book>, m: Mask)
    requires forall b :: b in books ==> Passes(b, m)
    ensures Select(books, m) == books
    decreases |books|
  {
    if books != [] {
      var init := books[..|books| - 1];
      assert books == init + [books[|books| - 1]];
      SelectAllPass(init, m);
    }
  }

  lemma NonePass(books: seq<Book>, m: Mask)
    requires forall b :: b in books ==> !Passes(b, m)
    ensures Select(books, m) == []
  {
  }

  /** Two masks that agree on every row select the same rows. */
  lemma {:induction false} SelectAgreeingMasks(books: seq<Book>, m1: Mask, m2: Mask)
    requires forall b :: b in books ==> (Passes(b, m1) <==> Passes(b, m2))
    ensures Select(books, m1) == Select(books, m2)
    decreases |books|
  {
    if books != [] {
      var init := books[..|books| - 1];
      assert books == init + [books[|books| - 1]];
      SelectAgreeingMasks(init, m1, m2);
    }
  }

  /** Masking twice is masking once with the conjunction. */
  lemma {:induction false} SelectThenSelect(books: seq<Book>, m1: Mask, m2: Mask)
    ensures Select(Select(books, m1), m2) == Select(books, Both(m1, m2))
    decreases |books|
  {
    if books != [] {
      var init := books[..|books| - 1];
      var last := books[|books| - 1];
      var tail := if Passes(last, m1) then [last] else [];
      SelectThenSelect(init, m1, m2);
      SelectAppend(Select(init, m1), tail, m2);
    }
  }

  lemma SelectIdempotent(books: seq<Book>, m: Mask)
    ensures Select(Select(books, m), m) == Select(books, m)
  {
    SelectThenSelect(books, m, m);
    SelectAgreeingMasks(books, Both(m, m), m);
  }

  lemma SelectCommutes(books: seq<Book>, m1: Mask, m2: Mask)
    ensures Select(Select(books, m1), m2) == Select(Select(books, m2), m1)
  {
    SelectThenSelect(books, m1, m2);
    SelectThenSelect(books, m2, m1);
    SelectAgreeingMasks(books, Both(m1, m2), Both(m2, m1));
  }

  // ---------------------------------------------------------------------------
  // The two steps of the callback

  /** `if search_term: df = df[title.contains | author.contains]`. */
  function SearchStep(books: seq<Book>, search: Option<string>): (r: seq<Book>)
    requires SearchIsPlain(search)
    ensures Truthy(search) ==> forall b :: b in r <==> b in books && MatchesText(b, search.value)
    ensures !Truthy(search) ==> r == books
  {
    if Truthy(search) then Select(books, TitleOrAuthorContains(search.value)) else books
  }

  /** `if category and category != "All": df = df[df.category == category]`. */
  function CategoryStep(books: seq<Book>, category: Option<string>): (r: seq<Book>)
    ensures CategoryActive(category) ==> forall b :: b in r <==> b in books && b.category == category.value
    ensures !CategoryActive(category) ==> r == books
  {
    if CategoryActive(category) then Select(books, CategoryIs(category.value)) else books
  }

  /** The row predicate the two steps implement together. */
  predicate Keep(b: Book, search: Option<string>, category: Option<string>) {
    && (Truthy(search) ==> MatchesText(b, search.value))
    && (CategoryActive(category) ==> b.category == category.value)
  }

  /** The selection the callback makes: the text step, then the category step. */
  function FilterBooks(books: seq<Book>, search: Option<string>, category: Option<string>): (r: seq<Book>)
    requires SearchIsPlain(search)
    ensures |r| <= |books|
    ensures forall b :: b in r <==> b in books && Keep(b, search, category)
  {
    CategoryStep(SearchStep(books, search), category)
  }

  /** One card per row, in row order. */
  function BookCards(books: seq<Book>): (cards: seq<Card>)
    ensures |cards| == |books|
    ensures forall k :: 0 <= k < |books| ==> cards[k].book == books[k]
  {
    seq(|books|, k requires 0 <= k < |books| => Card(books[k]))
  }

  /** The body of `update_book_grid` over a given non-empty `books_data` (on an
      empty frame the source's column lookups raise instead). */
  function UpdateBookGrid(books: seq<Book>, search: Option<string>, category: Option<string>): (cards: seq<Card>)
    requires SearchIsPlain(search)
    ensures |cards| <= |books|
    ensures forall k :: 0 <= k < |cards| ==> cards[k].book in books && Keep(cards[k].book, search, category)
    ensures ShowsExactly(cards, books, search, category)
  {
    var m := CriteriaMask(search, category);
    FilterBooksIsOneMask(books, search, category);
    SelectKeepsPassingPositions(books, m);
    assert GridAt(BookCards(FilterBooks(books, search, category)), books, KeptPositions(books, m), search, category);
    BookCards(FilterBooks(books, search, category))
  }

  /** Only a category: the callback is `df[mask]` with the category mask. */
  lemma CategoryOnly(books: seq<Book>, name: string)
    requires name != "" && name != AllCategories
    ensures FilterBooks(books, None, Some(name)) == Select(books, CategoryIs(name))
  {
  }

  lemma SelectTwo(a: Book, b: Book, m: Mask)
    ensures Select([a, b], m) == Part(a, m) + Part(b, m)
  {
    assert [a, b] == [a] + [b];
    SelectAppend([a], [b], m);
    SelectSingle(a, m);
    SelectSingle(b, m);
  }

  lemma CardsOfOne(a: Book)
    ensures BookCards([a]) == [Card(a)]
  {
  }

  lemma CardsOfTwo(a: Book, b: Book)
    ensures BookCards([a, b]) == [Card(a), Card(b)]
  {
  }

  lemma CardsOfThree(a: Book, b: Book, c: Book)
    ensures BookCards([a, b, c]) == [Card(a), Card(b), Card(c)]
  {
  }

  lemma CardsOfFive(a: Book, b: Book, c: Book, d: Book, e: Book)
    ensures BookCards([a, b, c, d, e]) == [Card(a), Card(b), Card(c), Card(d), Card(e)]
  {
  }

  // ---------------------------------------------------------------------------
  // What the callback promises

  /** The single mask equivalent to the two steps. */
  function CriteriaMask(search: Option<string>, category: Option<string>): (m: Mask)
    ensures forall b :: Passes(b, m) <==> Keep(b, search, category)
  {
    Both(if Truthy(search) then TitleOrAuthorContains(search.value) else Everything,
         if CategoryActive(category) then CategoryIs(category.value) else Everything)
  }

  lemma FilterBooksIsOneMask(books: seq<Book>, search: Option<string>, category: Option<string>)
    requires SearchIsPlain(search)
    ensures FilterBooks(books, search, category) == Select(books, CriteriaMask(search, category))
  {
    var text := if Truthy(search) then TitleOrAuthorContains(search.value) else Everything;
    var cat := if CategoryActive(category) then CategoryIs(category.value) else Everything;
    SelectAllPass(books, Everything);
    SelectAllPass(Select(books, text), Everything);
    SelectThenSelect(books, text, cat);
  }

  /** `cards` show the rows of `books` at the increasing positions `idx`, and
      `idx` holds exactly the positions whose row satisfies the criteria. */
  ghost predicate GridAt(cards: seq<Card>, books: seq<Book>, idx: seq<nat>, search: Option<string>, category: Option<string>) {
    && |cards| == |idx|
    && Increasing(idx)
    && (forall k :: 0 <= k < |idx| ==> idx[k] < |books| && cards[k].book == books[idx[k]])
    && (forall i :: 0 <= i < |books| ==> (i in idx <==> Keep(books[i], search, category)))
  }

  /** The grid is determined by the criteria: it shows, in their original
      order, exactly the rows that satisfy `Keep`, one card each. */
  ghost predicate ShowsExactly(cards: seq<Card>, books: seq<Book>, search: Option<string>, category: Option<string>) {
    exists idx :: GridAt(cards, books, idx, search, category)
  }

  /** `ShowsExactly` is an independent specification: it admits one grid only. */
  lemma {:induction false} ShowsExactlyIsUnique(c1: seq<Card>, c2: seq<Card>, books: seq<Book>, search: Option<string>, category: Option<string>)
    requires ShowsExactly(c1, books, search, category)
    requires ShowsExactly(c2, books, search, category)
    ensures c1 == c2
  {
    var i1 :| GridAt(c1, books, i1, search, category);
    var i2 :| GridAt(c2, books, i2, search, category);
    IncreasingSameElements(i1, i2);
  }

  ghost predicate Increasing(a: seq<nat>) {
    forall k, l :: 0 <= k < l < |a| ==> a[k] < a[l]
  }

  /** Dropping the last element of an increasing sequence removes its maximum. */
  lemma DropLast(a: seq<nat>)
    requires Increasing(a) && a != []
    ensures Increasing(a[..|a| - 1])
    ensures a == a[..|a| - 1] + [a[|a| - 1]]
    ensures forall x :: x in a ==> x <= a[|a| - 1]
    ensures forall x :: x in a ==> (x in a[..|a| - 1] <==> x != a[|a| - 1])
  {
    var a' := a[..|a| - 1];
    forall x | x in a
      ensures x <= a[|a| - 1] && (x in a' <==> x != a[|a| - 1])
    {
      var k :| 0 <= k < |a| && a[k] == x;
      if x in a' {
        var j :| 0 <= j < |a'| && a'[j] == x;
        assert a[j] == x;
      }
    }
  }

  lemma EmptyIffNoMembers(s: seq<nat>)
    ensures s == [] <==> forall x :: x !in s
  {
    if s != [] {
      assert s[0] in s;
    }
  }

  /** Two strictly increasing sequences with the same elements are equal. */
  lemma {:induction false} IncreasingSameElements(a: seq<nat>, b: seq<nat>)
    requires Increasing(a) && Increasing(b)
    requires forall x :: x in a <==> x in b
    ensures a == b
    decreases |a| + |b|
  {
    if a != [] && b != [] {
      DropLast(a);
      DropLast(b);
      var la, lb := a[|a| - 1], b[|b| - 1];
      assert la in b && lb in a;
      assert la == lb;
      var a', b' := a[..|a| - 1], b[..|b| - 1];
      forall x
        ensures x in a' <==> x in b'
      {
        assert x in a' ==> x in a;
        assert x in b' ==> x in b;
      }
      IncreasingSameElements(a', b');
    } else {
      EmptyIffNoMembers(a);
      EmptyIffNoMembers(b);
    }
  }

  /** Every card shows a book of `books` meeting both criteria, and every such
      book has a card. */
  lemma UpdateBookGridSoundAndComplete(books: seq<Book>, search: Option<string>, category: Option<string>)
    requires SearchIsPlain(search)
    ensures var cards := UpdateBookGrid(books, search, category);
      forall b :: (exists k :: 0 <= k < |cards| && cards[k].book == b) <==> b in books && Keep(b, search, category)
  {
    var r := FilterBooks(books, search, category);
    FilterBooksIsOneMask(books, search, category);
    var cards := UpdateBookGrid(books, search, category);
    forall b
      ensures (exists k :: 0 <= k < |cards| && cards[k].book == b) <==> b in r
    {
      if b in r {
        var k :| 0 <= k < |r| && r[k] == b;
        assert cards[k].book == b;
      }
    }
  }

  /** Neither criterion: every row, in its original order. */
  lemma NoCriteriaShowsAll(books: seq<Book>, search: Option<string>, category: Option<string>)
    requires SearchIsPlain(search)
    requires !Truthy(search) && !CategoryActive(category)
    ensures FilterBooks(books, search, category) == books
  {
  }

  lemma FilterBooksIdempotent(books: seq<Book>, search: Option<string>, category: Option<string>)
    requires SearchIsPlain(search)
    ensures FilterBooks(FilterBooks(books, search, category), search, category) == FilterBooks(books, search, category)
  {
    var m := CriteriaMask(search, category);
    FilterBooksIsOneMask(books, search, category);
    FilterBooksIsOneMask(Select(books, m), search, category);
    SelectIdempotent(books, m);
  }

  /** Both steps are row predicates, so their order does not matter. */
  lemma StepsCommute(books: seq<Book>, search: Option<string>, category: Option<string>)
    requires SearchIsPlain(search)
    ensures CategoryStep(SearchStep(books, search), category) == SearchStep(CategoryStep(books, category), search)
  {
    if Truthy(search) && CategoryActive(category) {
      SelectCommutes(books, TitleOrAuthorContains(search.value), CategoryIs(category.value));
    }
  }

  /** A selected category no row has gives an empty grid, not an error. */
  lemma UnknownCategoryIsEmpty(books: seq<Book>, search: Option<string>, category: Option<string>)
    requires SearchIsPlain(search)
    requires CategoryActive(category)
    requires forall b :: b in books ==> b.category != category.value
    ensures FilterBooks(books, search, category) == []
  {
    NonePass(SearchStep(books, search), CategoryIs(category.value));
  }

  /** Terms that lower-case alike select alike. */
  lemma SearchIgnoresCase(books: seq<Book>, t1: string, t2: string, category: Option<string>)
    requires IsPlainTerm(t1) && IsPlainTerm(t2)
    requires Lower(t1) == Lower(t2)
    ensures FilterBooks(books, Some(t1), category) == FilterBooks(books, Some(t2), category)
  {
    SelectAgreeingMasks(books, TitleOrAuthorContains(t1), TitleOrAuthorContains(t2));
  }

  /** The text step depends on the term only through its lower-cased form. */
  lemma SearchStepIgnoresCase(books: seq<Book>, t1: string, t2: string)
    requires IsPlainTerm(t1) && IsPlainTerm(t2)
    requires Lower(t1) == Lower(t2)
    ensures SearchStep(books, Some(t1)) == SearchStep(books, Some(t2))
  {
    SelectAgreeingMasks(books, TitleOrAuthorContains(t1), TitleOrAuthorContains(t2));
  }

  /** Even if the `if search_term:` guard let "" through, the text mask would
      keep every row: the guard changes nothing for an empty term. */
  lemma EmptyTermKeepsEveryRow(books: seq<Book>)
    ensures Select(books, TitleOrAuthorContains("")) == books
  {
    forall b | b in books
      ensures Passes(b, TitleOrAuthorContains(""))
    {
      ContainsEmpty(Lower(b.title));
    }
    SelectAllPass(books, TitleOrAuthorContains(""));
  }

  /** The empty string is as falsy as `None`, and `"All"` switches the
      category step off. */
  lemma EmptyInputsAreAbsent(books: seq<Book>, search: Option<string>, category: Option<string>)
    requires SearchIsPlain(search)
    ensures FilterBooks(books, Some(""), category) == FilterBooks(books, None, category)
    ensures FilterBooks(books, search, Some("")) == FilterBooks(books, search, None)
    ensures FilterBooks(books, search, Some(AllCategories)) == FilterBooks(books, search, None)
  {
  }

  /** The term is not trimmed: a lone space is a real filter, which drops a
      row whose title and author have no space. */
  lemma SpaceIsNotTrimmed()
    ensures var row := Book(1, "Tafsir", "Kathir", "Quranic Interpretation", "");
      FilterBooks([row], Some(" "), None) == [] && FilterBooks([row], None, None) == [row]
  {
    var row := Book(1, "Tafsir", "Kathir", "Quranic Interpretation", "");
    assert Lower(" ")[0] == ' ';
    assert ' ' !in Lower(row.title) && ' ' !in Lower(row.author);
    if MatchesText(row, " ") {
      if Contains(Lower(row.title), Lower(" ")) {
        ContainsNeedsChar(Lower(row.title), Lower(" "), ' ');
      } else {
        ContainsNeedsChar(Lower(row.author), Lower(" "), ' ');
      }
    }
    SelectSingle(row, TitleOrAuthorContains(" "));
  }
}
