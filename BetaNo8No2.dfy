/** The three-book app under beta/python/No.8/No.2. Its callback has no
    search button: it reacts to the two inputs alone. */
module BetaNo8No2 {
  import opened Catalog
  import opened RowText

  const Quran := Book(1, "The Noble Quran", "Divine Revelation", "Holy Book",
    "The foundational text of Islam, providing guidance for humanity")
  const Bukhari := Book(2, "Sahih Al-Bukhari", "Imam Al-Bukhari", "Hadith",
    "A collection of sayings and actions of Prophet Muhammad")
  const Riyad := Book(3, "Riyad us-Saliheen", "Imam An-Nawawi", "Islamic Teachings",
    "A comprehensive guide to Islamic ethics and morality")

  const BooksData: seq<Book> := [Quran, Bukhari, Riyad]

  /** The callback, with the search term and the category as its only inputs.
      The grid shows, in `books_data` order, exactly the books that match the
      search term (case-insensitively, in title or author) and the selected
      category, one card each. */
  function UpdateBookGrid(searchTerm: Option<string>, category: Option<string>): (r: seq<Card>)
    requires SearchIsPlain(searchTerm)
    ensures ShowsExactly(r, BooksData, searchTerm, category)
  {
    Catalog.UpdateBookGrid(BooksData, searchTerm, category)
  }

  /** With no search term and no category ("" and "All" included) every book
      is shown, in `books_data` order. */
  lemma NoCriteriaShowsAllThree(searchTerm: Option<string>, category: Option<string>)
    requires SearchIsPlain(searchTerm)
    requires !Truthy(searchTerm) && !CategoryActive(category)
    ensures UpdateBookGrid(searchTerm, category) == [Card(Quran), Card(Bukhari), Card(Riyad)]
  {
    NoCriteriaShowsAll(BooksData, searchTerm, category);
    CardsOfThree(Quran, Bukhari, Riyad);
  }

  lemma ImamSearchStep()
    ensures SearchStep(BooksData, Some("imam")) == [Bukhari, Riyad]
  {
    QuranLacksImam(Quran.title, Quran.author, "imam");
    ImamAuthorMatches(Bukhari, "imam");
    ImamAuthorMatches(Riyad, "imam");
    SelectThree(Quran, Bukhari, Riyad, TitleOrAuthorContains("imam"));
  }

  /** Both criteria at once: "imam" in the "Hadith" category is Sahih
      Al-Bukhari alone; the search keeps two books and the category one. */
  lemma ImamInHadith()
    ensures SearchStep(BooksData, Some("imam")) == [Bukhari, Riyad]
    ensures UpdateBookGrid(Some("imam"), Some("Hadith")) == [Card(Bukhari)]
  {
    ImamSearchStep();
    SelectTwo(Bukhari, Riyad, CategoryIs("Hadith"));
    CardsOfOne(Bukhari);
  }

  /** Every card shows a book that passes both criteria, and every such book
      has a card. */
  lemma ShowsEveryMatchAndNothingElse(searchTerm: Option<string>, category: Option<string>)
    requires SearchIsPlain(searchTerm)
    ensures var cards := UpdateBookGrid(searchTerm, category);
      forall b :: (exists k :: 0 <= k < |cards| && cards[k].book == b) <==> b in BooksData && Keep(b, searchTerm, category)
  {
    assert UpdateBookGrid(searchTerm, category) == Catalog.UpdateBookGrid(BooksData, searchTerm, category);
    UpdateBookGridSoundAndComplete(BooksData, searchTerm, category);
  }
}
