/** The three-book app under beta/python/No.4: its `books_data` and its
    three-input `update_book_grid` callback. */
module BetaNo4 {
  import opened Catalog
  import opened RowText

  const Quran := Book(1, "The Noble Quran", "Divine Revelation", "Holy Book",
    "The foundational sacred text of Islam, providing comprehensive guidance.")
  const Bukhari := Book(2, "Sahih Al-Bukhari", "Imam Al-Bukhari", "Hadith",
    "Comprehensive collection of authenticated sayings of Prophet Muhammad.")
  const Riyad := Book(3, "Riyad us-Saliheen", "Imam An-Nawawi", "Islamic Teachings",
    "A profound compilation of ethical and moral teachings in Islam.")

  const BooksData: seq<Book> := [Quran, Bukhari, Riyad]

  /** The callback. The grid shows, in `books_data` order, exactly the books
      that match the search term (case-insensitively, in title or author) and
      the selected category, one card each; `nClicks`, the search button's
      click count, is never read. */
  function UpdateBookGrid(nClicks: Option<int>, searchTerm: Option<string>, category: Option<string>): (r: seq<Card>)
    requires SearchIsPlain(searchTerm)
    ensures ShowsExactly(r, BooksData, searchTerm, category)
  {
    Catalog.UpdateBookGrid(BooksData, searchTerm, category)
  }

  /** With no search term and no category ("" and "All" included) every book
      is shown, in `books_data` order. */
  lemma NoCriteriaShowsAllThree(nClicks: Option<int>, searchTerm: Option<string>, category: Option<string>)
    requires SearchIsPlain(searchTerm)
    requires !Truthy(searchTerm) && !CategoryActive(category)
    ensures UpdateBookGrid(nClicks, searchTerm, category) == [Card(Quran), Card(Bukhari), Card(Riyad)]
  {
    NoCriteriaShowsAll(BooksData, searchTerm, category);
    CardsOfThree(Quran, Bukhari, Riyad);
  }

  lemma QuranSearchStep()
    ensures SearchStep(BooksData, Some("quran")) == [Quran]
  {
    QuranTitleMatches(Quran, "quran");
    BukhariLacksQuran(Bukhari.title, Bukhari.author, "quran");
    RiyadLacksQuran(Riyad.title, Riyad.author, "quran");
    SelectThree(Quran, Bukhari, Riyad, TitleOrAuthorContains("quran"));
  }

  lemma SameLetters(t1: string, t2: string)
    requires t1 == "QURAN" && t2 == "quran"
    ensures Lower(t1) == Lower(t2)
  {
  }

  lemma UpperQuranSearchStep(t1: string, t2: string)
    requires t1 == "QURAN" && t2 == "quran"
    ensures SearchStep(BooksData, Some(t1)) == SearchStep(BooksData, Some(t2))
  {
    SameLetters(t1, t2);
    SearchStepIgnoresCase(BooksData, t1, t2);
  }

  /** Searching "quran" shows the Noble Quran only. */
  lemma SearchQuranShowsQuran(nClicks: Option<int>)
    ensures UpdateBookGrid(nClicks, Some("quran"), None) == [Card(Quran)]
  {
    QuranSearchStep();
    CardsOfOne(Quran);
  }

  /** The search is case-insensitive: "QURAN" shows the Noble Quran only,
      as "quran" does. */
  lemma SearchUpperQuranShowsQuran(nClicks: Option<int>)
    ensures UpdateBookGrid(nClicks, Some("QURAN"), None) == [Card(Quran)]
  {
    UpperQuranSearchStep("QURAN", "quran");
    QuranSearchStep();
    CardsOfOne(Quran);
  }

  lemma HadithSearchStep()
    ensures SearchStep(BooksData, Some("hadith")) == []
  {
    QuranLacksHadith(Quran.title, Quran.author, "hadith");
    BukhariLacksHadith(Bukhari.title, Bukhari.author, "hadith");
    RiyadLacksHadith(Riyad.title, Riyad.author, "hadith");
    SelectThree(Quran, Bukhari, Riyad, TitleOrAuthorContains("hadith"));
  }

  lemma HadithRows()
    ensures Select(BooksData, CategoryIs("Hadith")) == [Bukhari]
  {
    SelectThree(Quran, Bukhari, Riyad, CategoryIs("Hadith"));
  }

  /** "Hadith" typed as a search term finds nothing: the category column is
      not searched. */
  lemma HadithIsNotSearched(nClicks: Option<int>)
    ensures UpdateBookGrid(nClicks, Some("hadith"), None) == []
  {
    HadithSearchStep();
  }

  /** The category must match exactly: "hadith" shows nothing, "Hadith" shows
      Sahih Al-Bukhari. */
  lemma CategoryIsCaseSensitive(nClicks: Option<int>)
    ensures UpdateBookGrid(nClicks, None, Some("hadith")) == []
    ensures UpdateBookGrid(nClicks, None, Some("Hadith")) == [Card(Bukhari)]
  {
    UnknownCategoryIsEmpty(BooksData, None, Some("hadith"));
    HadithRows();
    CategoryOnly(BooksData, "Hadith");
    CardsOfOne(Bukhari);
  }

  /** With both criteria a book has a card exactly when it matches the term
      in title or author and has the selected category. */
  lemma BothCriteria(nClicks: Option<int>, term: string, name: string)
    requires IsPlainTerm(term) && term != "" && name != "" && name != AllCategories
    ensures var cards := UpdateBookGrid(nClicks, Some(term), Some(name));
      forall b :: (exists k :: 0 <= k < |cards| && cards[k].book == b)
        <==> b in BooksData && MatchesText(b, term) && b.category == name
  {
    assert UpdateBookGrid(nClicks, Some(term), Some(name)) == Catalog.UpdateBookGrid(BooksData, Some(term), Some(name));
    UpdateBookGridSoundAndComplete(BooksData, Some(term), Some(name));
  }
}
