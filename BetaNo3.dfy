/** The three-book app under beta/python/No.3: its `books_data` and its
    three-input `update_book_grid` callback. */
module BetaNo3 {
  import opened Catalog
  import opened RowText

  const Quran := Book(1, "The Noble Quran", "Divine Revelation", "Holy Book",
    "The foundational text of Islam, providing divine guidance")
  const Bukhari := Book(2, "Sahih Al-Bukhari", "Imam Al-Bukhari", "Hadith",
    "Authentic collection of Prophet Muhammad's sayings")
  const Riyad := Book(3, "Riyad us-Saliheen", "Imam An-Nawawi", "Islamic Teachings",
    "A comprehensive guide to Islamic ethics and morality")

  const BooksData: seq<Book> := [Quran, Bukhari, Riyad]

  /** The callback. The grid shows, in `books_data` order, exactly the books
      that match the search term (case-insensitively, in title or author) and
      the selected category, one card each; `nClicks`, the search button's
      click count, is never read. */
  function UpdateBookGrid(nClicks: Option<int>, searchTerm: Option<string>, category: Option<string>): (r: seq<Card>)
    requires SearchIsPlain(searchTerm)
    ensures ShowsExactly(r, BooksData, searchTerm, category)
  {
    Catalog.UpdateBookGrid(BooksData, searchTerm, category)
  }

  /** With no search term and no category ("" and "All" included) every book
      is shown, in `books_data` order. */
  lemma NoCriteriaShowsAllThree(nClicks: Option<int>, searchTerm: Option<string>, category: Option<string>)
    requires SearchIsPlain(searchTerm)
    requires !Truthy(searchTerm) && !CategoryActive(category)
    ensures UpdateBookGrid(nClicks, searchTerm, category) == [Card(Quran), Card(Bukhari), Card(Riyad)]
  {
    NoCriteriaShowsAll(BooksData, searchTerm, category);
    CardsOfThree(Quran, Bukhari, Riyad);
  }

  lemma IslamicTeachingsRows()
    ensures Select(BooksData, CategoryIs("Islamic Teachings")) == [Riyad]
  {
    SelectThree(Quran, Bukhari, Riyad, CategoryIs("Islamic Teachings"));
  }

  /** Choosing "Islamic Teachings" shows Riyad us-Saliheen only. */
  lemma IslamicTeachingsShowsRiyad(nClicks: Option<int>)
    ensures UpdateBookGrid(nClicks, None, Some("Islamic Teachings")) == [Card(Riyad)]
  {
    IslamicTeachingsRows();
    CategoryOnly(BooksData, "Islamic Teachings");
    CardsOfOne(Riyad);
  }

  /** A cleared search box or a cleared dropdown (`""`) counts as no input. */
  lemma ClearedInputsAreAbsent(nClicks: Option<int>, searchTerm: Option<string>, category: Option<string>)
    requires SearchIsPlain(searchTerm)
    ensures UpdateBookGrid(nClicks, Some(""), category) == UpdateBookGrid(nClicks, None, category)
    ensures UpdateBookGrid(nClicks, searchTerm, Some("")) == UpdateBookGrid(nClicks, searchTerm, None)
  {
    EmptyInputsAreAbsent(BooksData, searchTerm, category);
  }

  /** The text step keeps exactly the books with the term in title or author;
      category and description play no part. */
  lemma TextStepSoundAndComplete(term: string)
    requires IsPlainTerm(term) && term != ""
    ensures forall b :: b in SearchStep(BooksData, Some(term)) <==> b in BooksData && MatchesText(b, term)
    ensures forall b: Book, c: string, d: string :: MatchesText(b.(category := c, description := d), term) == MatchesText(b, term)
  {
    forall b: Book, c: string, d: string
      ensures MatchesText(b.(category := c, description := d), term) == MatchesText(b, term)
    {
      MatchIgnoresOtherFields(b, term, c, d);
    }
  }

  /** Running the filter on its own output changes nothing. */
  lemma RefilteringChangesNothing(searchTerm: Option<string>, category: Option<string>)
    requires SearchIsPlain(searchTerm)
    ensures FilterBooks(FilterBooks(BooksData, searchTerm, category), searchTerm, category)
         == FilterBooks(BooksData, searchTerm, category)
  {
    FilterBooksIdempotent(BooksData, searchTerm, category);
  }
}
