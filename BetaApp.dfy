/** The three-book app at beta/python/app.py. Its frame `df_books` is built
    once from `books_data`; the callback filters a copy and wraps each card in
    a four-wide column of one row. */
module BetaApp {
  import opened Catalog
  import opened RowText

  const Quran := Book(1, "The Noble Quran", "Allah (Revealed to Prophet Muhammad)", "Holy Book",
    "The central religious text of Islam")
  const Bukhari := Book(2, "Sahih Al-Bukhari", "Imam Al-Bukhari", "Hadith",
    "Most authentic hadith collection")
  const Riyad := Book(3, "Riyad us-Saliheen", "Imam An-Nawawi", "Islamic Teachings",
    "Gardens of the Righteous")

  const BooksData: seq<Book> := [Quran, Bukhari, Riyad]

  /** `dbc.Col(card, width=4)`. */
  datatype Column = Column(width: nat, card: Card)

  /** `dbc.Row(columns)`. */
  datatype Grid = Row(columns: seq<Column>)

  /** The width every column of the grid gets. */
  const CardWidth: nat := 4

  /** The cards of a grid, left to right. */
  function GridCards(g: Grid): (cards: seq<Card>)
    ensures |cards| == |g.columns|
    ensures forall k :: 0 <= k < |cards| ==> cards[k] == g.columns[k].card
  {
    seq(|g.columns|, k requires 0 <= k < |g.columns| => g.columns[k].card)
  }

  /** The callback, with the search term and the category as its inputs. The
      row holds, in `books_data` order, one four-wide column for exactly each
      book that matches the search term and the category. */
  function UpdateBookGrid(searchTerm: Option<string>, category: Option<string>): (g: Grid)
    requires SearchIsPlain(searchTerm)
    ensures forall k :: 0 <= k < |g.columns| ==> g.columns[k].width == CardWidth
    ensures ShowsExactly(GridCards(g), BooksData, searchTerm, category)
  {
    var cards := Catalog.UpdateBookGrid(BooksData, searchTerm, category);
    var g := Row(seq(|cards|, k requires 0 <= k < |cards| => Column(CardWidth, cards[k])));
    assert GridCards(g) == cards;
    g
  }

  /** With no search term and no category the row shows every book, as it does
      on first load, when the dropdown holds "All" and the search box is empty. */
  lemma DefaultInputsShowAll(searchTerm: Option<string>, category: Option<string>)
    requires SearchIsPlain(searchTerm)
    requires !Truthy(searchTerm) && !CategoryActive(category)
    ensures UpdateBookGrid(searchTerm, category) == Row([Column(4, Card(Quran)), Column(4, Card(Bukhari)), Column(4, Card(Riyad))])
  {
    var cards := Catalog.UpdateBookGrid(BooksData, searchTerm, category);
    AllCards(searchTerm, category);
    ColumnsOfThree(cards);
  }

  /** With no criteria the cards are the three books, in order. */
  lemma AllCards(searchTerm: Option<string>, category: Option<string>)
    requires SearchIsPlain(searchTerm)
    requires !Truthy(searchTerm) && !CategoryActive(category)
    ensures Catalog.UpdateBookGrid(BooksData, searchTerm, category) == [Card(Quran), Card(Bukhari), Card(Riyad)]
  {
    NoCriteriaShowsAll(BooksData, searchTerm, category);
    CardsOfThree(Quran, Bukhari, Riyad);
  }

  /** Three cards make a row of three four-wide columns. */
  lemma ColumnsOfThree(cards: seq<Card>)
    requires cards == [Card(Quran), Card(Bukhari), Card(Riyad)]
    ensures Row(seq(|cards|, k requires 0 <= k < |cards| => Column(CardWidth, cards[k])))
         == Row([Column(4, Card(Quran)), Column(4, Card(Bukhari)), Column(4, Card(Riyad))])
  {
  }

  lemma MuhammadSearchStep()
    ensures SearchStep(BooksData, Some("muhammad")) == [Quran]
  {
    MuhammadAuthorMatches(Quran, "muhammad");
    BukhariLacksMuhammad(Bukhari.title, Bukhari.author, "muhammad");
    RiyadLacksMuhammad(Riyad.title, Riyad.author, "muhammad");
    SelectThree(Quran, Bukhari, Riyad, TitleOrAuthorContains("muhammad"));
  }

  /** In this app the Quran's author names the Prophet, so "muhammad" finds
      it through the author column alone. */
  lemma SearchMuhammadShowsQuran()
    ensures UpdateBookGrid(Some("muhammad"), None) == Row([Column(4, Card(Quran))])
    ensures !Contains(Lower(Quran.title), Lower("muhammad"))
  {
    MuhammadSearchStep();
    CardsOfOne(Quran);
    QuranTitleLacksMuhammad(Quran.title, "muhammad");
  }

  /** With a category selected every column shows a book of exactly that
      category, and a category no book has gives an empty row. */
  lemma CategoryKeepsOnlyThatCategory(searchTerm: Option<string>, category: Option<string>)
    requires SearchIsPlain(searchTerm)
    requires CategoryActive(category)
    ensures forall col :: col in UpdateBookGrid(searchTerm, category).columns ==> col.card.book.category == category.value
    ensures category.value !in {"Holy Book", "Hadith", "Islamic Teachings"} ==> UpdateBookGrid(searchTerm, category).columns == []
  {
    var cards := Catalog.UpdateBookGrid(BooksData, searchTerm, category);
    var g := UpdateBookGrid(searchTerm, category);
    forall col | col in g.columns
      ensures col.card.book.category == category.value
    {
      var k :| 0 <= k < |g.columns| && g.columns[k] == col;
      assert col.card == cards[k];
    }
    if category.value !in {"Holy Book", "Hadith", "Islamic Teachings"} {
      UnknownCategoryIsEmpty(BooksData, searchTerm, category);
    }
  }
}
