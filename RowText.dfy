/** Search facts about the three rows every app shares: the Quran, Sahih
    Al-Bukhari and Riyad us-Saliheen, with the titles and authors of their
    `books_data` entries. A negative fact names a letter of the term that the
    title (or the author) lacks in both cases. The strings are parameters, each
    fixed by a `requires`, because of solver cost: a fact stated directly on a
    named `Book` constant makes the verifier evaluate every text predicate on
    that constant, and such a proof runs out of its resource limit. */
module RowText {
  import opened Catalog

  /** An author that starts with "Imam" contains "imam". */
  lemma ImamAuthorMatches(b: Book, term: string)
    requires |b.author| >= 4 && b.author[..4] == "Imam" && term == "imam"
    ensures MatchesText(b, term)
  {
    AuthorMatchAt(b, term, 0);
  }

  /** "The Noble Quran" contains "quran" at position 10. */
  lemma QuranTitleMatches(b: Book, term: string)
    requires |b.title| >= 15 && b.title[10..15] == "Quran" && term == "quran"
    ensures MatchesText(b, term)
  {
    TitleMatchAt(b, term, 10);
  }

  /** "Allah (Revealed to Prophet Muhammad)" contains "muhammad" at position 27. */
  lemma MuhammadAuthorMatches(b: Book, term: string)
    requires |b.author| >= 35 && b.author[27..35] == "Muhammad" && term == "muhammad"
    ensures MatchesText(b, term)
  {
    AuthorMatchAt(b, term, 27);
  }

  lemma QuranLacksImam(title: string, author: string, term: string)
    requires title == "The Noble Quran" && author == "Divine Revelation" && term == "imam"
    ensures !Contains(Lower(title), Lower(term)) && !Contains(Lower(author), Lower(term))
  {
    FieldsLackLetters(title, author, term, 'm', 'm');
  }

  lemma BukhariLacksQuran(title: string, author: string, term: string)
    requires title == "Sahih Al-Bukhari" && author == "Imam Al-Bukhari" && term == "quran"
    ensures !Contains(Lower(title), Lower(term)) && !Contains(Lower(author), Lower(term))
  {
    FieldsLackLetters(title, author, term, 'q', 'q');
  }

  lemma RiyadLacksQuran(title: string, author: string, term: string)
    requires title == "Riyad us-Saliheen" && author == "Imam An-Nawawi" && term == "quran"
    ensures !Contains(Lower(title), Lower(term)) && !Contains(Lower(author), Lower(term))
  {
    FieldsLackLetters(title, author, term, 'q', 'q');
  }

  lemma QuranLacksQuranic(title: string, author: string, term: string)
    requires title == "The Noble Quran" && author == "Divine Revelation" && term == "quranic"
    ensures !Contains(Lower(title), Lower(term)) && !Contains(Lower(author), Lower(term))
  {
    FieldsLackLetters(title, author, term, 'c', 'c');
  }

  lemma BukhariLacksQuranic(title: string, author: string, term: string)
    requires title == "Sahih Al-Bukhari" && author == "Imam Al-Bukhari" && term == "quranic"
    ensures !Contains(Lower(title), Lower(term)) && !Contains(Lower(author), Lower(term))
  {
    FieldsLackLetters(title, author, term, 'q', 'q');
  }

  lemma RiyadLacksQuranic(title: string, author: string, term: string)
    requires title == "Riyad us-Saliheen" && author == "Imam An-Nawawi" && term == "quranic"
    ensures !Contains(Lower(title), Lower(term)) && !Contains(Lower(author), Lower(term))
  {
    FieldsLackLetters(title, author, term, 'q', 'q');
  }

  lemma QuranLacksNonexistent(title: string, author: string, term: string)
    requires title == "The Noble Quran" && author == "Divine Revelation" && term == "nonexistent"
    ensures !Contains(Lower(title), Lower(term)) && !Contains(Lower(author), Lower(term))
  {
    FieldsLackLetters(title, author, term, 'x', 'x');
  }

  lemma BukhariLacksNonexistent(title: string, author: string, term: string)
    requires title == "Sahih Al-Bukhari" && author == "Imam Al-Bukhari" && term == "nonexistent"
    ensures !Contains(Lower(title), Lower(term)) && !Contains(Lower(author), Lower(term))
  {
    FieldsLackLetters(title, author, term, 'x', 'x');
  }

  lemma RiyadLacksNonexistent(title: string, author: string, term: string)
    requires title == "Riyad us-Saliheen" && author == "Imam An-Nawawi" && term == "nonexistent"
    ensures !Contains(Lower(title), Lower(term)) && !Contains(Lower(author), Lower(term))
  {
    FieldsLackLetters(title, author, term, 'x', 'x');
  }

  lemma QuranLacksHadith(title: string, author: string, term: string)
    requires title == "The Noble Quran" && author == "Divine Revelation" && term == "hadith"
    ensures !Contains(Lower(title), Lower(term)) && !Contains(Lower(author), Lower(term))
  {
    FieldsLackLetters(title, author, term, 'd', 'h');
  }

  lemma BukhariLacksHadith(title: string, author: string, term: string)
    requires title == "Sahih Al-Bukhari" && author == "Imam Al-Bukhari" && term == "hadith"
    ensures !Contains(Lower(title), Lower(term)) && !Contains(Lower(author), Lower(term))
  {
    FieldsLackLetters(title, author, term, 'd', 'd');
  }

  lemma RiyadLacksHadith(title: string, author: string, term: string)
    requires title == "Riyad us-Saliheen" && author == "Imam An-Nawawi" && term == "hadith"
    ensures !Contains(Lower(title), Lower(term)) && !Contains(Lower(author), Lower(term))
  {
    FieldsLackLetters(title, author, term, 't', 't');
  }

  /** "The Noble Quran" has no 'm'. */
  lemma QuranTitleLacksMuhammad(title: string, term: string)
    requires title == "The Noble Quran" && term == "muhammad"
    ensures !Contains(Lower(title), Lower(term))
  {
    NotContainedWithoutLetter(title, term, 'm');
  }

  lemma BukhariLacksMuhammad(title: string, author: string, term: string)
    requires title == "Sahih Al-Bukhari" && author == "Imam Al-Bukhari" && term == "muhammad"
    ensures !Contains(Lower(title), Lower(term)) && !Contains(Lower(author), Lower(term))
  {
    FieldsLackLetters(title, author, term, 'm', 'd');
  }

  lemma RiyadLacksMuhammad(title: string, author: string, term: string)
    requires title == "Riyad us-Saliheen" && author == "Imam An-Nawawi" && term == "muhammad"
    ensures !Contains(Lower(title), Lower(term)) && !Contains(Lower(author), Lower(term))
  {
    FieldsLackLetters(title, author, term, 'm', 'd');
  }
}
