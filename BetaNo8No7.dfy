/** The five-book app under beta/python/No.8/No.7: its `books_data` and its
    three-input `update_book_grid` callback. */
module BetaNo8No7 {
  import opened Catalog
  import opened RowText

  const Quran := Book(1, "The Noble Quran", "Divine Revelation", "Holy Book",
    "The ultimate source of divine guidance, providing comprehensive wisdom for humanity.")
  const Bukhari := Book(2, "Sahih Al-Bukhari", "Imam Al-Bukhari", "Hadith",
    "A comprehensive collection of authenticated sayings and practices of Prophet Muhammad.")
  const Riyad := Book(3, "Riyad us-Saliheen", "Imam An-Nawawi", "Islamic Teachings",
    "A profound compilation of ethical principles and moral teachings in Islam.")
  const Tafsir := Book(4, "Tafsir Ibn Kathir", "Ibn Kathir", "Quranic Interpretation",
    "Comprehensive Quranic exegesis providing deep insights into Quranic verses.")
  const Muwatta := Book(5, "Muwatta Malik", "Imam Malik", "Hadith",
    "A foundational text of Islamic jurisprudence and prophetic traditions.")

  const BooksData: seq<Book> := [Quran, Bukhari, Riyad, Tafsir, Muwatta]

  /** The callback. The grid shows, in `books_data` order, exactly the books
      that match the search term (case-insensitively, in title or author) and
      the selected category, one card each; `nClicks`, the search button's
      click count, is never read. */
  function UpdateBookGrid(nClicks: Option<int>, searchTerm: Option<string>, category: Option<string>): (r: seq<Card>)
    requires SearchIsPlain(searchTerm)
    ensures ShowsExactly(r, BooksData, searchTerm, category)
  {
    Catalog.UpdateBookGrid(BooksData, searchTerm, category)
  }

  /** A non-empty term keeps exactly the books that have it in title or
      author; every other book is dropped. */
  lemma SearchStepSoundAndComplete(searchTerm: string)
    requires IsPlainTerm(searchTerm) && searchTerm != ""
    ensures forall b :: b in FilterBooks(BooksData, Some(searchTerm), None) <==> b in BooksData && MatchesText(b, searchTerm)
  {
  }

  lemma NoCriteriaShowsAllFive(nClicks: Option<int>, searchTerm: Option<string>, category: Option<string>)
    requires SearchIsPlain(searchTerm)
    requires !Truthy(searchTerm) && !CategoryActive(category)
    ensures UpdateBookGrid(nClicks, searchTerm, category)
         == [Card(Quran), Card(Bukhari), Card(Riyad), Card(Tafsir), Card(Muwatta)]
  {
    NoCriteriaShowsAll(BooksData, searchTerm, category);
    CardsOfFive(Quran, Bukhari, Riyad, Tafsir, Muwatta);
    assert UpdateBookGrid(nClicks, searchTerm, category) == Catalog.UpdateBookGrid(BooksData, searchTerm, category);
  }

  lemma HadithRows()
    ensures Select(BooksData, CategoryIs("Hadith")) == [Bukhari, Muwatta]
  {
    SelectFive(Quran, Bukhari, Riyad, Tafsir, Muwatta, CategoryIs("Hadith"));
  }

  /** Choosing "Hadith" shows Sahih Al-Bukhari and then Muwatta Malik. */
  lemma HadithShowsBukhariThenMuwatta(nClicks: Option<int>)
    ensures UpdateBookGrid(nClicks, None, Some("Hadith")) == [Card(Bukhari), Card(Muwatta)]
  {
    HadithRows();
    CategoryOnly(BooksData, "Hadith");
    CardsOfTwo(Bukhari, Muwatta);
  }

  lemma TafsirLacksImam(title: string, author: string, term: string)
    requires title == "Tafsir Ibn Kathir" && author == "Ibn Kathir" && term == "imam"
    ensures !Contains(Lower(title), Lower(term)) && !Contains(Lower(author), Lower(term))
  {
    FieldsLackLetters(title, author, term, 'm', 'm');
  }

  /** "imam" is in the author of Bukhari, Riyad and Muwatta and nowhere in
      the Quran's or the Tafsir's title or author. */
  lemma ImamRows()
    ensures Part(Quran, TitleOrAuthorContains("imam")) == []
    ensures Part(Bukhari, TitleOrAuthorContains("imam")) == [Bukhari]
    ensures Part(Riyad, TitleOrAuthorContains("imam")) == [Riyad]
    ensures Part(Tafsir, TitleOrAuthorContains("imam")) == []
    ensures Part(Muwatta, TitleOrAuthorContains("imam")) == [Muwatta]
  {
    QuranLacksImam(Quran.title, Quran.author, "imam");
    ImamAuthorMatches(Bukhari, "imam");
    ImamAuthorMatches(Riyad, "imam");
    TafsirLacksImam(Tafsir.title, Tafsir.author, "imam");
    ImamAuthorMatches(Muwatta, "imam");
  }

  lemma ImamSelect()
    ensures Select(BooksData, TitleOrAuthorContains("imam")) == [Bukhari, Riyad, Muwatta]
  {
    ImamRows();
    SelectFive(Quran, Bukhari, Riyad, Tafsir, Muwatta, TitleOrAuthorContains("imam"));
  }

  lemma ImamSearchStep()
    ensures SearchStep(BooksData, Some("imam")) == [Bukhari, Riyad, Muwatta]
  {
    ImamSelect();
  }

  /** Searching "imam" shows the books with ids 2, 3 and 5, in that order. */
  lemma SearchImamShowsIds235(nClicks: Option<int>)
    ensures var cards := UpdateBookGrid(nClicks, Some("imam"), None);
      && cards == [Card(Bukhari), Card(Riyad), Card(Muwatta)]
      && cards[0].book.id == 2 && cards[1].book.id == 3 && cards[2].book.id == 5
  {
    ImamSearchStep();
    CardsOfThree(Bukhari, Riyad, Muwatta);
  }

  lemma TafsirLacksQuranic(title: string, author: string, term: string)
    requires title == "Tafsir Ibn Kathir" && author == "Ibn Kathir" && term == "quranic"
    ensures !Contains(Lower(title), Lower(term)) && !Contains(Lower(author), Lower(term))
  {
    FieldsLackLetters(title, author, term, 'q', 'q');
  }

  lemma MuwattaLacksQuranic(title: string, author: string, term: string)
    requires title == "Muwatta Malik" && author == "Imam Malik" && term == "quranic"
    ensures !Contains(Lower(title), Lower(term)) && !Contains(Lower(author), Lower(term))
  {
    FieldsLackLetters(title, author, term, 'q', 'q');
  }

  lemma QuranicSelect()
    ensures Select(BooksData, TitleOrAuthorContains("quranic")) == []
  {
    QuranLacksQuranic(Quran.title, Quran.author, "quranic");
    BukhariLacksQuranic(Bukhari.title, Bukhari.author, "quranic");
    RiyadLacksQuranic(Riyad.title, Riyad.author, "quranic");
    TafsirLacksQuranic(Tafsir.title, Tafsir.author, "quranic");
    MuwattaLacksQuranic(Muwatta.title, Muwatta.author, "quranic");
    SelectFive(Quran, Bukhari, Riyad, Tafsir, Muwatta, TitleOrAuthorContains("quranic"));
  }

  lemma QuranicSearchStep()
    ensures SearchStep(BooksData, Some("quranic")) == []
  {
    QuranicSelect();
  }

  /** Categories are not searched: the Tafsir's category starts with
      "Quranic", yet no title or author has "quranic", so the grid is empty. */
  lemma SearchQuranicIsEmpty(nClicks: Option<int>)
    ensures Tafsir.category[..7] == "Quranic"
    ensures UpdateBookGrid(nClicks, Some("quranic"), None) == []
  {
    QuranicSearchStep();
  }

  /** With a category selected, every card has exactly that category, and a
      category no record has gives an empty grid. */
  lemma CategoryShowsOnlyThatCategory(nClicks: Option<int>, searchTerm: Option<string>, category: Option<string>)
    requires SearchIsPlain(searchTerm)
    requires CategoryActive(category)
    ensures forall c :: c in UpdateBookGrid(nClicks, searchTerm, category) ==> c.book.category == category.value
    ensures category.value !in {"Holy Book", "Hadith", "Islamic Teachings", "Quranic Interpretation"}
            ==> UpdateBookGrid(nClicks, searchTerm, category) == []
  {
    var cards := UpdateBookGrid(nClicks, searchTerm, category);
    forall c | c in cards
      ensures c.book.category == category.value
    {
      var k :| 0 <= k < |cards| && cards[k] == c;
    }
    if category.value !in {"Holy Book", "Hadith", "Islamic Teachings", "Quranic Interpretation"} {
      UnknownCategoryIsEmpty(BooksData, searchTerm, category);
    }
  }

  lemma IgnoresClicks(n1: Option<int>, n2: Option<int>, searchTerm: Option<string>, category: Option<string>)
    requires SearchIsPlain(searchTerm)
    ensures UpdateBookGrid(n1, searchTerm, category) == UpdateBookGrid(n2, searchTerm, category)
  {
  }
}
