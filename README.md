# Islamic Library catalog filter

The Islamic Library templates are seven Dash apps. Each one shows a grid of
book cards built from a compiled-in list `books_data`. Each app has a search
box and a category dropdown, and every app reacts to them with the same
callback, `update_book_grid`. That callback works in three steps:

1. When the search term is truthy, it keeps the rows whose title or author
   contains the term, ignoring case.
2. When the category is truthy and not `"All"`, it keeps the rows whose
   category equals it exactly.
3. It renders one card per remaining row, in the original order.

This project models that callback in Dafny and proves what it promises.

- `Catalog.dfy` (module `Catalog`) holds the shared filter: Python
  truthiness of the two inputs, ASCII lowercasing, substring search, row
  masks (`df[mask]` as `Select`), the two steps, the cards and the general
  theorems. Those theorems cover soundness and completeness, order, the
  uniqueness of the specified grid, idempotence, the commuting of the two
  steps, case-insensitivity, absent inputs and the untrimmed term.
- One module per app holds that app's `books_data` and its `update_book_grid`
  (as `Catalog.UpdateBookGrid` on that data), with the concrete grids the
  data gives:
  - `BetaNo8No7.dfy`: the five-book app
  - `BetaNo6.dfy`, `StableNo8.dfy`, `BetaNo4.dfy` and `BetaNo3.dfy`: the
    three-book apps whose callback has a search button
  - `BetaNo8No2.dfy` and `BetaApp.dfy`: the two-input callbacks;
    `BetaApp` also wraps the cards in a row of four-wide columns
- `RowText.dfy` (module `RowText`) holds the search facts about the three
  rows every app shares. Their titles and authors are the same everywhere,
  except the Quran's author in `beta/python/app.py`.

The search term is used as written. `if search_term:` skips only `None` and
`""`, so a term of spaces is an ordinary substring, and the model does not
trim it (`Catalog.SpaceIsNotTrimmed`).

## Model

| member | source | states |
|---|---|---|
| Catalog.Truthy | beta/python/No.8/No.7/app.py:235 | `if search_term:` on a Dash input: `None` and `""` are falsy, every other string is truthy |
| Catalog.CategoryActive | beta/python/No.8/No.7/app.py:242 | `category and category != "All"`: the category step runs for a truthy value other than "All" |
| Catalog.MatchesText | beta/python/No.8/No.7/app.py:236-239 | a row passes the text step when the lower-cased term occurs in its lower-cased title or its lower-cased author |
| Catalog.MatchesTextIsCaseInsensitive | beta/python/No.8/No.7/app.py:236-239 | a row passes the text step exactly when, at some position of its title or of its author, every character of the term agrees with the field's character up to case |
| Catalog.ContainsLowerIsCaseInsensitive | beta/python/No.8/No.7/app.py:237 | the lower-cased term occurs in the lower-cased field exactly when it occurs in the field character by character ignoring case |
| Catalog.Contains | beta/python/No.8/No.7/app.py:237-238 | the needle occurs as a contiguous slice of the haystack: `str.contains` for a plain term |
| Catalog.OccursAtLower | beta/python/No.8/No.7/app.py:237 | at one position, the lowered window equals the lowered term exactly when each character agrees up to case |
| Catalog.LowerChar | beta/python/No.8/No.7/app.py:237-238 | the result is never upper case; a non-letter is unchanged; an upper-case letter maps to the lower-case letter at the same alphabet position |
| Catalog.Lower | beta/python/No.8/No.7/app.py:237-238 | same length, each character lowered by `LowerChar`, no upper-case letter left |
| Catalog.ContainsEmpty | beta/python/No.8/No.7/app.py:237 | every string contains the empty needle |
| Catalog.ContainsNeedsChar | beta/python/No.8/No.7/app.py:237 | every character of a contained needle occurs in the haystack |
| Catalog.LowerSlice | beta/python/No.8/No.7/app.py:237-238 | lowering commutes with slicing |
| Catalog.LowerLacks | beta/python/No.8/No.7/app.py:237-238 | a lower-case letter absent from a string in both cases is absent from its lowered form |
| Catalog.NotContainedWithoutLetter | beta/python/No.8/No.7/app.py:237-238 | a field that lacks, in both cases, some letter of the term does not contain the term case-insensitively |
| Catalog.FieldsLackLetters | beta/python/No.8/No.7/app.py:236-239 | the same two-letter test stated on a title and an author |
| Catalog.TitleMatchAt | beta/python/No.8/No.7/app.py:237 | a title whose slice at `i` lowers to the lowered term matches the row |
| Catalog.AuthorMatchAt | beta/python/No.8/No.7/app.py:238 | an author whose slice at `i` lowers to the lowered term matches the row |
| Catalog.MatchIgnoresOtherFields | beta/python/No.8/No.7/app.py:236-239 | changing a row's category or description never changes whether it matches the term |
| Catalog.Passes | beta/python/No.8/No.7/app.py:236-243 | whether a row passes a mask: the title-or-author search mask of lines 237-238, the category equality of line 243, their conjunction, or no mask |
| Catalog.Select | beta/python/No.8/No.7/app.py:236 | `df[mask]` is no longer than the frame and holds exactly the rows that pass the mask |
| Catalog.SelectKeepsPassingPositions | beta/python/No.8/No.7/app.py:236-243 | `df[mask]` lists the rows at the positions `KeptPositions`, strictly increasing, and a position is kept iff its row passes |
| Catalog.SelectAppend | beta/python/No.8/No.7/app.py:236 | masking distributes over concatenation of frames |
| Catalog.SelectSingle | beta/python/No.8/No.7/app.py:236 | a one-row frame keeps its row iff it passes |
| Catalog.SelectTwo | beta/python/No.8/No.7/app.py:243 | a two-row frame keeps each row that passes, in order |
| Catalog.SelectThree | beta/python/No.6/app.py:208-215 | a three-row frame keeps each row that passes, in order |
| Catalog.SelectFive | beta/python/No.8/No.7/app.py:236-243 | a five-row frame keeps each row that passes, in order |
| Catalog.SelectAllPass | beta/python/No.8/No.7/app.py:236 | a mask every row passes keeps the frame unchanged |
| Catalog.NonePass | beta/python/No.8/No.7/app.py:243 | a mask no row passes gives the empty frame |
| Catalog.SelectAgreeingMasks | beta/python/No.8/No.7/app.py:236-239 | masks that agree on every row select the same rows |
| Catalog.SelectThenSelect | beta/python/No.8/No.7/app.py:236-243 | masking twice equals masking once with the conjunction |
| Catalog.SelectIdempotent | beta/python/No.8/No.7/app.py:236 | masking the result again with the same mask changes nothing |
| Catalog.SelectCommutes | beta/python/No.8/No.7/app.py:236-243 | two maskings can be applied in either order |
| Catalog.SearchStep | beta/python/No.8/No.7/app.py:235-239 | for a truthy term, a row is kept iff the lowered term is in its lowered title or author; otherwise every row is kept |
| Catalog.CategoryStep | beta/python/No.8/No.7/app.py:242-243 | for a truthy category other than "All", a row is kept iff its category equals it exactly; otherwise every row is kept |
| Catalog.FilterBooks | beta/python/No.8/No.7/app.py:235-243 | the two steps keep at most all rows, and a row is kept iff it satisfies both criteria (`Keep`) |
| Catalog.BookCards | beta/python/No.8/No.7/app.py:246-249 | one card per row, the k-th card showing the k-th row |
| Catalog.UpdateBookGrid | beta/python/No.8/No.7/app.py:231-251 | no more cards than rows of `books_data`; every card shows a row that meets both criteria; and (`ShowsExactly`) the cards show, at strictly increasing positions of `books_data`, exactly the rows meeting both criteria, one card each |
| Catalog.CategoryOnly | beta/python/No.8/No.7/app.py:242-243 | with only a category, the callback is the category mask |
| Catalog.CardsOfOne | beta/python/No.8/No.7/app.py:246-249 | one row gives one card |
| Catalog.CardsOfTwo | beta/python/No.8/No.7/app.py:246-249 | two rows give their two cards in order |
| Catalog.CardsOfThree | beta/python/No.8/No.7/app.py:246-249 | three rows give their three cards in order |
| Catalog.CardsOfFive | beta/python/No.8/No.7/app.py:246-249 | five rows give their five cards in order |
| Catalog.CriteriaMask | beta/python/No.8/No.7/app.py:235-243 | the single mask that a row passes iff it meets both criteria |
| Catalog.FilterBooksIsOneMask | beta/python/No.8/No.7/app.py:235-243 | the two successive steps equal one selection with that combined mask |
| Catalog.ShowsExactlyIsUnique | beta/python/No.8/No.7/app.py:231-251 | that specification admits one grid only, so it determines the callback's output |
| Catalog.DropLast | beta/python/No.8/No.7/app.py:248 | dropping the last of strictly increasing positions removes exactly its maximum |
| Catalog.EmptyIffNoMembers | beta/python/No.8/No.7/app.py:248 | a position list is empty iff it has no members |
| Catalog.IncreasingSameElements | beta/python/No.8/No.7/app.py:248 | two strictly increasing position lists with the same members are equal |
| Catalog.UpdateBookGridSoundAndComplete | beta/python/No.8/No.7/app.py:231-251 | a book has a card iff it is in `books_data` and meets both criteria |
| Catalog.NoCriteriaShowsAll | beta/python/No.8/No.7/app.py:235-243 | with no term and no category (or "All") every row is kept, in order |
| Catalog.FilterBooksIdempotent | beta/python/No.6/app.py:207-215 | filtering the filtered rows again with the same inputs changes nothing |
| Catalog.StepsCommute | stable/python/No.8/app.py:205-213 | the category step before the text step gives the same rows as the source's order |
| Catalog.UnknownCategoryIsEmpty | beta/python/No.8/No.7/app.py:242-243 | a category that no row has gives no rows, not an error |
| Catalog.SearchIgnoresCase | beta/python/No.4/app.py:200-201 | terms that lower-case alike give the same rows |
| Catalog.SearchStepIgnoresCase | beta/python/No.4/app.py:200-201 | terms that lower-case alike give the same text step |
| Catalog.EmptyTermKeepsEveryRow | beta/python/No.8/No.7/app.py:235-239 | the text mask for "" keeps every row, so the `if search_term:` guard changes nothing for an empty term |
| Catalog.EmptyInputsAreAbsent | beta/python/No.3/app.py:190-197 | a term of "" acts as no term, and a category of "" or "All" acts as no category |
| Catalog.SpaceIsNotTrimmed | beta/python/No.8/No.7/app.py:235-239 | the term " " is not trimmed away: it drops a row with no space in title or author, which no term keeps |
| RowText.ImamAuthorMatches | beta/python/No.8/No.7/app.py:33 | an author starting "Imam" matches "imam" |
| RowText.QuranTitleMatches | beta/python/No.6/app.py:19 | "The Noble Quran" matches "quran" |
| RowText.MuhammadAuthorMatches | beta/python/app.py:21 | "Allah (Revealed to Prophet Muhammad)" matches "muhammad" |
| RowText.QuranLacksImam | stable/python/No.8/app.py:19-20 | the Quran's title and author do not contain "imam" |
| RowText.BukhariLacksQuran | beta/python/No.6/app.py:32-33 | Sahih Al-Bukhari's title and author do not contain "quran" |
| RowText.RiyadLacksQuran | beta/python/No.6/app.py:45-46 | Riyad us-Saliheen's title and author do not contain "quran" |
| RowText.QuranLacksQuranic | beta/python/No.8/No.7/app.py:19-20 | the Quran's title and author do not contain "quranic" |
| RowText.BukhariLacksQuranic | beta/python/No.8/No.7/app.py:32-33 | Sahih Al-Bukhari's title and author do not contain "quranic" |
| RowText.RiyadLacksQuranic | beta/python/No.8/No.7/app.py:45-46 | Riyad us-Saliheen's title and author do not contain "quranic" |
| RowText.QuranLacksNonexistent | stable/python/No.8/app.py:19-20 | the Quran's title and author do not contain "nonexistent" |
| RowText.BukhariLacksNonexistent | stable/python/No.8/app.py:29-30 | Sahih Al-Bukhari's title and author do not contain "nonexistent" |
| RowText.RiyadLacksNonexistent | stable/python/No.8/app.py:39-40 | Riyad us-Saliheen's title and author do not contain "nonexistent" |
| RowText.QuranLacksHadith | beta/python/No.4/app.py:19-20 | the Quran's title and author do not contain "hadith" |
| RowText.BukhariLacksHadith | beta/python/No.4/app.py:31-32 | Sahih Al-Bukhari's title and author do not contain "hadith", although its category is "Hadith" |
| RowText.RiyadLacksHadith | beta/python/No.4/app.py:43-44 | Riyad us-Saliheen's title and author do not contain "hadith" |
| RowText.BukhariLacksMuhammad | beta/python/app.py:30-31 | Sahih Al-Bukhari's title and author do not contain "muhammad" |
| RowText.RiyadLacksMuhammad | beta/python/app.py:40-41 | Riyad us-Saliheen's title and author do not contain "muhammad" |
| BetaNo8No7.BooksData | beta/python/No.8/No.7/app.py:16-82 | `books_data`: the five records in source order |
| BetaNo8No7.Quran | beta/python/No.8/No.7/app.py:17-29 | the record of "The Noble Quran": its id, title, author, category and description as written |
| BetaNo8No7.Bukhari | beta/python/No.8/No.7/app.py:30-42 | the record of "Sahih Al-Bukhari": its id, title, author, category and description as written |
| BetaNo8No7.Riyad | beta/python/No.8/No.7/app.py:43-55 | the record of "Riyad us-Saliheen": its id, title, author, category and description as written |
| BetaNo8No7.Tafsir | beta/python/No.8/No.7/app.py:56-68 | the record of "Tafsir Ibn Kathir": its id, title, author, category and description as written |
| BetaNo8No7.Muwatta | beta/python/No.8/No.7/app.py:69-81 | the record of "Muwatta Malik": its id, title, author, category and description as written |
| BetaNo8No7.UpdateBookGrid | beta/python/No.8/No.7/app.py:231-251 | the grid shows, in `books_data` order, exactly the books of the five that meet both criteria, one card each; the click count is never read |
| BetaNo8No7.SearchStepSoundAndComplete | beta/python/No.8/No.7/app.py:235-239 | a non-empty term keeps every book with it in title or author and drops every other |
| BetaNo8No7.NoCriteriaShowsAllFive | beta/python/No.8/No.7/app.py:235-249 | no term and no category (or "All") show all five books in order |
| BetaNo8No7.HadithRows | beta/python/No.8/No.7/app.py:31-76 | the "Hadith" mask keeps Sahih Al-Bukhari and Muwatta Malik |
| BetaNo8No7.HadithShowsBukhariThenMuwatta | beta/python/No.8/No.7/app.py:242-249 | category "Hadith" shows Sahih Al-Bukhari, then Muwatta Malik |
| BetaNo8No7.TafsirLacksImam | beta/python/No.8/No.7/app.py:58-59 | the Tafsir's title and author do not contain "imam" |
| BetaNo8No7.ImamRows | beta/python/No.8/No.7/app.py:18-76 | "imam" matches the rows with ids 2, 3 and 5 and not those with ids 1 and 4 |
| BetaNo8No7.ImamSelect | beta/python/No.8/No.7/app.py:236-239 | the "imam" mask keeps the books with ids 2, 3 and 5 |
| BetaNo8No7.ImamSearchStep | beta/python/No.8/No.7/app.py:235-239 | the text step for "imam" keeps the books with ids 2, 3 and 5 |
| BetaNo8No7.SearchImamShowsIds235 | beta/python/No.8/No.7/app.py:235-249 | searching "imam" shows the cards of ids 2, 3 and 5, in that order |
| BetaNo8No7.TafsirLacksQuranic | beta/python/No.8/No.7/app.py:58-59 | the Tafsir's title and author do not contain "quranic" |
| BetaNo8No7.MuwattaLacksQuranic | beta/python/No.8/No.7/app.py:71-72 | Muwatta Malik's title and author do not contain "quranic" |
| BetaNo8No7.QuranicSelect | beta/python/No.8/No.7/app.py:236-239 | the "quranic" mask keeps no book |
| BetaNo8No7.QuranicSearchStep | beta/python/No.8/No.7/app.py:235-239 | the text step for "quranic" keeps no book |
| BetaNo8No7.SearchQuranicIsEmpty | beta/python/No.8/No.7/app.py:58-61 | the Tafsir's category starts with "Quranic", yet searching "quranic" shows nothing, because categories are not searched |
| BetaNo8No7.CategoryShowsOnlyThatCategory | beta/python/No.8/No.7/app.py:242-243 | every card has the selected category, and a category no book has gives an empty grid |
| BetaNo8No7.IgnoresClicks | beta/python/No.8/No.7/app.py:231 | the grid does not depend on `n_clicks` |
| BetaNo6.BooksData | beta/python/No.6/app.py:16-56 | `books_data`: the three records in source order |
| BetaNo6.Quran | beta/python/No.6/app.py:17-29 | the record of "The Noble Quran": its id, title, author, category and description as written |
| BetaNo6.Bukhari | beta/python/No.6/app.py:30-42 | the record of "Sahih Al-Bukhari": its id, title, author, category and description as written |
| BetaNo6.Riyad | beta/python/No.6/app.py:43-55 | the record of "Riyad us-Saliheen": its id, title, author, category and description as written |
| BetaNo6.UpdateBookGrid | beta/python/No.6/app.py:203-223 | the grid shows, in `books_data` order, exactly the books that meet both criteria, one card each; the click count is never read |
| BetaNo6.NoCriteriaShowsAllThree | beta/python/No.6/app.py:207-221 | no term and no category (None, "" or "All") show all three books in order |
| BetaNo6.QuranRows | beta/python/No.6/app.py:19-46 | "quran" matches the Noble Quran only |
| BetaNo6.QuranSearchStep | beta/python/No.6/app.py:207-211 | the text step for "quran" keeps the Noble Quran only |
| BetaNo6.SearchQuranShowsQuran | beta/python/No.6/app.py:207-221 | searching "quran" shows the Noble Quran only |
| BetaNo6.HadithRows | beta/python/No.6/app.py:214-215 | the "Hadith" mask keeps Sahih Al-Bukhari only |
| BetaNo6.HadithShowsBukhari | beta/python/No.6/app.py:214-221 | category "Hadith" shows Sahih Al-Bukhari only |
| BetaNo6.RefilteringChangesNothing | beta/python/No.6/app.py:207-215 | filtering the output again with the same inputs changes nothing |
| StableNo8.BooksData | stable/python/No.8/app.py:16-47 | `books_data`: the three records in source order |
| StableNo8.Quran | stable/python/No.8/app.py:17-26 | the record of "The Noble Quran": its id, title, author, category and description as written |
| StableNo8.Bukhari | stable/python/No.8/app.py:27-36 | the record of "Sahih Al-Bukhari": its id, title, author, category and description as written |
| StableNo8.Riyad | stable/python/No.8/app.py:37-46 | the record of "Riyad us-Saliheen": its id, title, author, category and description as written |
| StableNo8.UpdateBookGrid | stable/python/No.8/app.py:201-221 | the grid shows, in `books_data` order, exactly the books that meet both criteria, one card each; the click count is never read |
| StableNo8.NoCriteriaShowsAllThree | stable/python/No.8/app.py:205-219 | no term and no category show all three books in order |
| StableNo8.ImamRows | stable/python/No.8/app.py:18-41 | "imam" matches Sahih Al-Bukhari and Riyad us-Saliheen and not the Quran |
| StableNo8.ImamSearchStep | stable/python/No.8/app.py:205-209 | the text step for "imam" keeps Sahih Al-Bukhari and Riyad us-Saliheen |
| StableNo8.BukhariTitleLacksImam | stable/python/No.8/app.py:29 | the title "Sahih Al-Bukhari" does not contain "imam" |
| StableNo8.RiyadTitleLacksImam | stable/python/No.8/app.py:39 | the title "Riyad us-Saliheen" does not contain "imam" |
| StableNo8.SearchImamMatchesAuthors | stable/python/No.8/app.py:205-219 | searching "imam" shows Sahih Al-Bukhari and Riyad us-Saliheen, though neither title has the term |
| StableNo8.NonexistentSearchStep | stable/python/No.8/app.py:205-209 | the text step for "nonexistent" keeps no book |
| StableNo8.UnmatchedSearchIsEmpty | stable/python/No.8/app.py:205-213 | searching "nonexistent" shows nothing, under "All" or any other category |
| StableNo8.ImamInIslamicTeachings | stable/python/No.8/app.py:205-219 | "imam" under "Islamic Teachings" shows Riyad us-Saliheen alone |
| StableNo8.StepOrderIsIrrelevant | stable/python/No.8/app.py:205-213 | the category step before the text step gives the same rows |
| StableNo8.OneCardPerKeptBook | stable/python/No.8/app.py:216-219 | as many cards as kept books, the k-th card showing the k-th kept book |
| BetaNo4.BooksData | beta/python/No.4/app.py:16-53 | `books_data`: the three records in source order |
| BetaNo4.Quran | beta/python/No.4/app.py:17-28 | the record of "The Noble Quran": its id, title, author, category and description as written |
| BetaNo4.Bukhari | beta/python/No.4/app.py:29-40 | the record of "Sahih Al-Bukhari": its id, title, author, category and description as written |
| BetaNo4.Riyad | beta/python/No.4/app.py:41-52 | the record of "Riyad us-Saliheen": its id, title, author, category and description as written |
| BetaNo4.UpdateBookGrid | beta/python/No.4/app.py:194-214 | the grid shows, in `books_data` order, exactly the books that meet both criteria, one card each; the click count is never read |
| BetaNo4.NoCriteriaShowsAllThree | beta/python/No.4/app.py:198-212 | no term and no category show all three books in order |
| BetaNo4.QuranSearchStep | beta/python/No.4/app.py:198-202 | the text step for "quran" keeps the Noble Quran only |
| BetaNo4.SameLetters | beta/python/No.4/app.py:200-201 | "QURAN" and "quran" lower-case alike |
| BetaNo4.UpperQuranSearchStep | beta/python/No.4/app.py:198-202 | "QURAN" and "quran" give the same text step |
| BetaNo4.SearchQuranShowsQuran | beta/python/No.4/app.py:198-212 | searching "quran" shows the Noble Quran only |
| BetaNo4.SearchUpperQuranShowsQuran | beta/python/No.4/app.py:198-212 | searching "QURAN" shows the Noble Quran only, as "quran" does |
| BetaNo4.HadithSearchStep | beta/python/No.4/app.py:198-202 | the text step for "hadith" keeps no book |
| BetaNo4.HadithRows | beta/python/No.4/app.py:205-206 | the "Hadith" mask keeps Sahih Al-Bukhari only |
| BetaNo4.HadithIsNotSearched | beta/python/No.4/app.py:198-202 | searching "hadith" shows nothing, since the category column is not searched |
| BetaNo4.CategoryIsCaseSensitive | beta/python/No.4/app.py:205-206 | category "hadith" shows nothing, while category "Hadith" shows Sahih Al-Bukhari |
| BetaNo4.BothCriteria | beta/python/No.4/app.py:198-206 | with both criteria, a book has a card iff it matches the term and has the category |
| BetaNo3.BooksData | beta/python/No.3/app.py:16-50 | `books_data`: the three records in source order |
| BetaNo3.Quran | beta/python/No.3/app.py:17-27 | the record of "The Noble Quran": its id, title, author, category and description as written |
| BetaNo3.Bukhari | beta/python/No.3/app.py:28-38 | the record of "Sahih Al-Bukhari": its id, title, author, category and description as written |
| BetaNo3.Riyad | beta/python/No.3/app.py:39-49 | the record of "Riyad us-Saliheen": its id, title, author, category and description as written |
| BetaNo3.UpdateBookGrid | beta/python/No.3/app.py:186-206 | the grid shows, in `books_data` order, exactly the books that meet both criteria, one card each; the click count is never read |
| BetaNo3.NoCriteriaShowsAllThree | beta/python/No.3/app.py:190-204 | no term and no category show all three books in order |
| BetaNo3.IslamicTeachingsRows | beta/python/No.3/app.py:197-198 | the "Islamic Teachings" mask keeps Riyad us-Saliheen only |
| BetaNo3.IslamicTeachingsShowsRiyad | beta/python/No.3/app.py:197-204 | category "Islamic Teachings" shows Riyad us-Saliheen only |
| BetaNo3.ClearedInputsAreAbsent | beta/python/No.3/app.py:190-197 | an empty search term or an empty category gives the grid of no input |
| BetaNo3.TextStepSoundAndComplete | beta/python/No.3/app.py:190-194 | the text step keeps exactly the books with the term in title or author, and category and description never affect a match |
| BetaNo3.RefilteringChangesNothing | beta/python/No.3/app.py:191-198 | filtering the output again with the same inputs changes nothing |
| BetaNo8No2.BooksData | beta/python/No.8/No.2/app.py:16-56 | `books_data`: the three records in source order |
| BetaNo8No2.Quran | beta/python/No.8/No.2/app.py:17-29 | the record of "The Noble Quran": its id, title, author, category and description as written |
| BetaNo8No2.Bukhari | beta/python/No.8/No.2/app.py:30-42 | the record of "Sahih Al-Bukhari": its id, title, author, category and description as written |
| BetaNo8No2.Riyad | beta/python/No.8/No.2/app.py:43-55 | the record of "Riyad us-Saliheen": its id, title, author, category and description as written |
| BetaNo8No2.UpdateBookGrid | beta/python/No.8/No.2/app.py:181-204 | the two-input grid shows, in `books_data` order, exactly the books that meet both criteria, one card each |
| BetaNo8No2.NoCriteriaShowsAllThree | beta/python/No.8/No.2/app.py:188-202 | no term and no category show all three books in order |
| BetaNo8No2.ImamSearchStep | beta/python/No.8/No.2/app.py:188-192 | the text step for "imam" keeps Sahih Al-Bukhari and Riyad us-Saliheen |
| BetaNo8No2.ImamInHadith | beta/python/No.8/No.2/app.py:188-202 | "imam" with "Hadith" keeps two books at the text step and shows Sahih Al-Bukhari alone |
| BetaNo8No2.ShowsEveryMatchAndNothingElse | beta/python/No.8/No.2/app.py:188-202 | a book has a card iff it matches the term (when given) and has the category (when selected) |
| BetaApp.Column | beta/python/app.py:174 | `dbc.Col(card, width=4)`: a column is its width and its card |
| BetaApp.Grid | beta/python/app.py:178 | `dbc.Row(book_cards)`: a row is its list of columns |
| BetaApp.CardWidth | beta/python/app.py:174 | the width 4 every column gets |
| BetaApp.GridCards | beta/python/app.py:173-178 | the cards of a row of columns, left to right |
| BetaApp.BooksData | beta/python/app.py:17-48 | `books_data`: the three records in source order |
| BetaApp.Quran | beta/python/app.py:18-27 | the record of "The Noble Quran": its id, title, author, category and description as written |
| BetaApp.Bukhari | beta/python/app.py:28-37 | the record of "Sahih Al-Bukhari": its id, title, author, category and description as written |
| BetaApp.Riyad | beta/python/app.py:38-47 | the record of "Riyad us-Saliheen": its id, title, author, category and description as written |
| BetaApp.UpdateBookGrid | beta/python/app.py:158-178 | every column is four wide, and the row's columns show, in `books_data` order, exactly the books that meet both criteria, one each |
| BetaApp.DefaultInputsShowAll | beta/python/app.py:141-176 | with no term and no category ("" and "All" included, as on first load) the row shows all three books in order, in four-wide columns |
| BetaApp.MuhammadSearchStep | beta/python/app.py:162-166 | the text step for "muhammad" keeps the Noble Quran only |
| BetaApp.SearchMuhammadShowsQuran | beta/python/app.py:162-178 | searching "muhammad" shows the Noble Quran alone, and its title "The Noble Quran" does not contain the term, so it is found through its author |
| RowText.QuranTitleLacksMuhammad | beta/python/app.py:20 | the title "The Noble Quran" does not contain "muhammad" |
| BetaApp.CategoryKeepsOnlyThatCategory | beta/python/app.py:169-170 | every column shows a book of the selected category, and an unknown category gives an empty row |

## Left out

- Catalog.UpdateBookGrid: over an empty `books_data` it returns no cards,
  whereas `pd.DataFrame([])` has no columns and the source would raise
  `KeyError` at the `title` or `category` lookup (lines 237 and 243 of
  `beta/python/No.8/No.7/app.py`). No app's `books_data` is empty; the
  generic function is meant for non-empty frames of these records.
- Regex matching: pandas `str.contains` treats the term as a regular
  expression. The model matches literally, and every function and lemma
  taking the callback's search input requires `SearchIsPlain`: printable
  ASCII with no regex metacharacter.
  For such terms the two readings agree. Terms with metacharacters, and the
  error an invalid pattern raises, are not modelled.
- Case folding: `case=False` folds case by Unicode rules. The model folds
  ASCII letters only. Every dataset is ASCII.
- `na=False`: `beta/python/app.py` omits `na=False`. This only matters for
  a missing title or author, and no record has one. The model has no
  missing values.
- Display fields: every field of a record except id, title, author,
  category and description is only displayed, so it is not modelled. Each
  record keeps its `description` verbatim, which the filter never reads.
- `create_book_card` and the layouts: a card is modelled as the book it
  shows (`Catalog.Card`). In `beta/python/app.py` a column is modelled as its
  width and card (`BetaApp.Column`), and the row as its list of columns.
  The Dash component trees, navbars, stylesheets and `app.run_server` are
  not modelled.
- `stable/python/No.1/main.py` and `beta/python/No.1/main.py` only start
  the server. They are not part of this model.
- The global `df_books` of `beta/python/app.py` is a constant
  (`BetaApp.BooksData`), so nothing can change it. The model has no
  frame objects to alias, and `.copy()` shows up only as the absence of
  any update.
- The callback's inputs come from the browser. Here they are parameters:
  `Option<string>` for the text and the dropdown, and `Option<int>` for
  `n_clicks`, which is never read.
- Descriptions are never used as evidence in the concrete lemmas. For
  example, "quranic" also occurs in the Tafsir's description; the model
  shows it is not searched by the general `Catalog.MatchIgnoresOtherFields`.
