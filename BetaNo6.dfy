/** The three-book app under beta/python/No.6: its `books_data` and its
    three-input `update_book_grid` callback. */
module BetaNo6 {
  import opened Catalog
  import opened RowText

  const Quran := Book(1, "The Noble Quran", "Divine Revelation", "Holy Book",
    "The ultimate source of divine guidance, providing comprehensive wisdom for humanity.")
  const Bukhari := Book(2, "Sahih Al-Bukhari", "Imam Al-Bukhari", "Hadith",
    "A comprehensive collection of authenticated sayings and practices of Prophet Muhammad.")
  const Riyad := Book(3, "Riyad us-Saliheen", "Imam An-Nawawi", "Islamic Teachings",
    "A profound compilation of ethical principles and moral teachings in Islam.")

  const BooksData: seq<Book> := [Quran, Bukhari, Riyad]

  /** The callback. The grid shows, in `books_data` order, exactly the books
      that match the search term (case-insensitively, in title or author) and
      the selected category, one card each; `nClicks`, the search button's
      click count, is never read. */
  function UpdateBookGrid(nClicks: Option<int>, searchTerm: Option<string>, category: Option<string>): (r: seq<Card>)
    requires SearchIsPlain(searchTerm)
    ensures ShowsExactly(r, BooksData, searchTerm, category)
  {
    Catalog.UpdateBookGrid(BooksData, searchTerm, category)
  }

  /** With no search term and no category ("" and "All" included) every book
      is shown, in `books_data` order. */
  lemma NoCriteriaShowsAllThree(nClicks: Option<int>, searchTerm: Option<string>, category: Option<string>)
    requires SearchIsPlain(searchTerm)
    requires !Truthy(searchTerm) && !CategoryActive(category)
    ensures UpdateBookGrid(nClicks, searchTerm, category) == [Card(Quran), Card(Bukhari), Card(Riyad)]
  {
    NoCriteriaShowsAll(BooksData, searchTerm, category);
    CardsOfThree(Quran, Bukhari, Riyad);
  }

  lemma QuranRows()
    ensures Part(Quran, TitleOrAuthorContains("quran")) == [Quran]
    ensures Part(Bukhari, TitleOrAuthorContains("quran")) == []
    ensures Part(Riyad, TitleOrAuthorContains("quran")) == []
  {
    QuranTitleMatches(Quran, "quran");
    BukhariLacksQuran(Bukhari.title, Bukhari.author, "quran");
    RiyadLacksQuran(Riyad.title, Riyad.author, "quran");
  }

  lemma QuranSearchStep()
    ensures SearchStep(BooksData, Some("quran")) == [Quran]
  {
    QuranRows();
    SelectThree(Quran, Bukhari, Riyad, TitleOrAuthorContains("quran"));
  }

  /** Searching "quran" shows the Noble Quran only. */
  lemma SearchQuranShowsQuran(nClicks: Option<int>)
    ensures UpdateBookGrid(nClicks, Some("quran"), None) == [Card(Quran)]
  {
    QuranSearchStep();
    CardsOfOne(Quran);
  }

  lemma HadithRows()
    ensures Select(BooksData, CategoryIs("Hadith")) == [Bukhari]
  {
    SelectThree(Quran, Bukhari, Riyad, CategoryIs("Hadith"));
  }

  /** Choosing the "Hadith" category shows Sahih Al-Bukhari only. */
  lemma HadithShowsBukhari(nClicks: Option<int>)
    ensures UpdateBookGrid(nClicks, None, Some("Hadith")) == [Card(Bukhari)]
  {
    HadithRows();
    CategoryOnly(BooksData, "Hadith");
    CardsOfOne(Bukhari);
  }

  /** Running the filter on its own output changes nothing. */
  lemma RefilteringChangesNothing(searchTerm: Option<string>, category: Option<string>)
    requires SearchIsPlain(searchTerm)
    ensures FilterBooks(FilterBooks(BooksData, searchTerm, category), searchTerm, category)
         == FilterBooks(BooksData, searchTerm, category)
  {
    FilterBooksIdempotent(BooksData, searchTerm, category);
  }
}
