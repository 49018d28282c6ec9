/** The three-book app under stable/python/No.8: its `books_data` and its
    three-input `update_book_grid` callback. */
module StableNo8 {
  import opened Catalog
  import opened RowText

  const Quran := Book(1, "The Noble Quran", "Divine Revelation", "Holy Book",
    "The ultimate source of divine guidance for humanity.")
  const Bukhari := Book(2, "Sahih Al-Bukhari", "Imam Al-Bukhari", "Hadith",
    "Comprehensive collection of Prophetic traditions.")
  const Riyad := Book(3, "Riyad us-Saliheen", "Imam An-Nawawi", "Islamic Teachings",
    "Profound compilation of ethical and moral teachings.")

  const BooksData: seq<Book> := [Quran, Bukhari, Riyad]

  /** The callback. The grid shows, in `books_data` order, exactly the books
      that match the search term (case-insensitively, in title or author) and
      the selected category, one card each; `nClicks`, the search button's
      click count, is never read. */
  function UpdateBookGrid(nClicks: Option<int>, searchTerm: Option<string>, category: Option<string>): (r: seq<Card>)
    requires SearchIsPlain(searchTerm)
    ensures ShowsExactly(r, BooksData, searchTerm, category)
  {
    Catalog.UpdateBookGrid(BooksData, searchTerm, category)
  }

  /** With no search term and no category ("" and "All" included) every book
      is shown, in `books_data` order. */
  lemma NoCriteriaShowsAllThree(nClicks: Option<int>, searchTerm: Option<string>, category: Option<string>)
    requires SearchIsPlain(searchTerm)
    requires !Truthy(searchTerm) && !CategoryActive(category)
    ensures UpdateBookGrid(nClicks, searchTerm, category) == [Card(Quran), Card(Bukhari), Card(Riyad)]
  {
    NoCriteriaShowsAll(BooksData, searchTerm, category);
    CardsOfThree(Quran, Bukhari, Riyad);
  }

  lemma ImamRows()
    ensures Part(Quran, TitleOrAuthorContains("imam")) == []
    ensures Part(Bukhari, TitleOrAuthorContains("imam")) == [Bukhari]
    ensures Part(Riyad, TitleOrAuthorContains("imam")) == [Riyad]
  {
    QuranLacksImam(Quran.title, Quran.author, "imam");
    ImamAuthorMatches(Bukhari, "imam");
    ImamAuthorMatches(Riyad, "imam");
  }

  lemma ImamSearchStep()
    ensures SearchStep(BooksData, Some("imam")) == [Bukhari, Riyad]
  {
    ImamRows();
    SelectThree(Quran, Bukhari, Riyad, TitleOrAuthorContains("imam"));
  }

  /** Searching "imam" finds the two books whose author is an Imam; neither
      title has the term, so the author column alone decides. */
  lemma SearchImamMatchesAuthors(nClicks: Option<int>)
    ensures !Contains(Lower(Bukhari.title), Lower("imam")) && !Contains(Lower(Riyad.title), Lower("imam"))
    ensures UpdateBookGrid(nClicks, Some("imam"), None) == [Card(Bukhari), Card(Riyad)]
  {
    BukhariTitleLacksImam(Bukhari.title, "imam");
    RiyadTitleLacksImam(Riyad.title, "imam");
    ImamSearchStep();
    CardsOfTwo(Bukhari, Riyad);
  }

  lemma BukhariTitleLacksImam(title: string, term: string)
    requires title == "Sahih Al-Bukhari" && term == "imam"
    ensures !Contains(Lower(title), Lower(term))
  {
    NotContainedWithoutLetter(title, term, 'm');
  }

  lemma RiyadTitleLacksImam(title: string, term: string)
    requires title == "Riyad us-Saliheen" && term == "imam"
    ensures !Contains(Lower(title), Lower(term))
  {
    NotContainedWithoutLetter(title, term, 'm');
  }

  lemma NonexistentSearchStep()
    ensures SearchStep(BooksData, Some("nonexistent")) == []
  {
    QuranLacksNonexistent(Quran.title, Quran.author, "nonexistent");
    BukhariLacksNonexistent(Bukhari.title, Bukhari.author, "nonexistent");
    RiyadLacksNonexistent(Riyad.title, Riyad.author, "nonexistent");
    SelectThree(Quran, Bukhari, Riyad, TitleOrAuthorContains("nonexistent"));
  }

  /** A term no title or author has gives an empty grid, whatever the
      dropdown says, "All" included. */
  lemma UnmatchedSearchIsEmpty(nClicks: Option<int>, category: Option<string>)
    ensures UpdateBookGrid(nClicks, Some("nonexistent"), category) == []
  {
    NonexistentSearchStep();
  }

  /** The two criteria together: "imam" under "Islamic Teachings" is Riyad
      us-Saliheen alone. */
  lemma ImamInIslamicTeachings(nClicks: Option<int>)
    ensures UpdateBookGrid(nClicks, Some("imam"), Some("Islamic Teachings")) == [Card(Riyad)]
  {
    ImamSearchStep();
    SelectTwo(Bukhari, Riyad, CategoryIs("Islamic Teachings"));
    CardsOfOne(Riyad);
  }

  /** Applying the category step before the search step gives the same rows. */
  lemma StepOrderIsIrrelevant(searchTerm: Option<string>, category: Option<string>)
    requires SearchIsPlain(searchTerm)
    ensures FilterBooks(BooksData, searchTerm, category)
         == SearchStep(CategoryStep(BooksData, category), searchTerm)
  {
    StepsCommute(BooksData, searchTerm, category);
  }

  /** One card per kept book, in the order of the kept books. */
  lemma OneCardPerKeptBook(nClicks: Option<int>, searchTerm: Option<string>, category: Option<string>)
    requires SearchIsPlain(searchTerm)
    ensures var kept := FilterBooks(BooksData, searchTerm, category);
      var cards := UpdateBookGrid(nClicks, searchTerm, category);
      |cards| == |kept| && forall k :: 0 <= k < |kept| ==> cards[k] == Card(kept[k])
  {
  }
}
