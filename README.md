# mangadex-ranker, modelled in Dafny

`mangadex.py` crawls the MangaDex search pages, sorted by views, and collects one
record per manga: path, title, rating, votes, views and follows. It then ranks
the collection by an adjusted rating and prints the manga above a minimum.

This project models the parts of that pipeline that compute something and proves
what they promise:

- **Tag dictionary** (`Tags`). This is the loop of `get_mangadex_tags` that fills the
  tag dictionary from the genre filter's options. It also covers `select_tags`, which
  maps the tag names given on the command line to tag ids.
- **Search parameters** (`Search`). This is the parameter dictionary of
  `__search_mangadex`, including `format_tag_list`.
- **Row parsing** (`RowParse`). This is the text handling of one result row in
  `__parse_manga_from_html`:
  - `parse_int`;
  - the vote count taken from the rating label;
  - the title cleaning loop;
  - the `None` / `ValueError` outcomes of a row.
- **Crawl** (`Catalog`). This is `get_manga`: the page loop with its early stop, the
  test-entry filter, and the path-keyed dictionary with Python's insertion order.
- **Ranking** (`Ranking`). This is the expression
  `filter(score > min, reversed(sorted(items, key=score)))` in `main`.
- **URL** (`Model`). This is the `Manga` record and `Manga.url`.
- **Python string behaviour** (`PyText`). This defines the Python string behaviour the
  code relies on: `strip`, `rstrip(chars)`, `in`, `lower`, `replace`, `split`, `join`,
  `str(int)`, `int(str)`, and `sorted` on strings.

HTTP and HTML navigation are outside the model. A result page arrives as a value:

- a search page is a function `fetch` from page number to the parsed rows of that page;
- a row is the `RawRow` of texts that the BeautifulSoup navigation would find;
- the tag filter is a sequence of option groups.

The adjusted rating is a floating-point formula. For ranking it is an arbitrary function
`score` from manga to reals.

In several places the code behaves differently from what a reader might expect. The
model follows the code:

- **Duplicate paths.** `collection[manga.path] = manga` keeps the last row seen for a
  path, at the position where the path was first inserted. It is not the first row
  that wins.
- **Rating cut-off.** The cut-off is strict (`>`), not `>=`.
- **Equal ratings.** Manga with equal adjusted ratings come out in the reverse of the
  order they were collected in, because the sort is stable and is then reversed. They
  do not keep their collection order.
- **Title cleaning.** Cleaning tests each decoration only as written and in lower case.
  It is not case-insensitive.
- **Idempotence.** Cleaning is not idempotent: `"Foo (Doujinshi) "` cleans to
  `"Foo (Doujinshi)"`, and that cleans to `"Foo"` (`RowParse.CleanedNotIdempotent`).
- **Page numbers.** Pages are numbered from 0 (`range(0, number_of_pages)`), although
  `__search_mangadex` defaults its page to 1. The model keeps 0-based pages.

## Model

| member | source | states |
|---|---|---|
| `Model.Url` | mangadex.py:34-35 | definition: the site origin followed by the path; see `Model.PathOfUrl` and `Model.UrlRoundTrip` |
| `Model.PathOfUrl` | mangadex.py:34-35 | the inverse of `url`: an address yields a path exactly when it starts with the site origin, and the origin followed by that path is the address |
| `Model.UrlRoundTrip` | mangadex.py:34-35 | the path is recovered from the URL |
| `Model.UrlDeterminesPath` | mangadex.py:34-35 | two manga have the same URL if and only if they have the same path |
| `Tags.TagsOf` | mangadex.py:119-125 | definition: every option assigned in document order; see `Tags.TagsOfKeys` and `Tags.TagsOfLastWins` |
| `Tags.GetTags` | mangadex.py:118-125 | the nested loops leave the dictionary obtained by assigning every option in document order, later options overwriting earlier ones |
| `Tags.TagsOfKeys` | mangadex.py:119-125 | a name is a key if and only if it is the lower-cased text of some option |
| `Tags.TagsOfKeysLowercase` | mangadex.py:111-112 | every key is lower case, as the docstring promises |
| `Tags.TagsOfLastWins` | mangadex.py:124 | a key maps to the value of the last option with that lower-cased text |
| `Tags.LookupAll` | mangadex.py:279 | the set comprehension succeeds if and only if every lower-cased name is a key, and its ids are exactly those of the names; otherwise it fails with the first missing lower-cased name (`KeyError`) |
| `Tags.SelectTags` | mangadex.py:278-279 | an absent or empty name list gives `None`; a lookup failure happens exactly when some lower-cased name is missing; otherwise the result is a non-empty set holding exactly the ids of the names |
| `Tags.SelectKnownNames` | mangadex.py:64-72 | names drawn from the dictionary's own keys, which are the only choices the command line accepts, never make the lookup fail |
| `Search.SearchParams` | mangadex.py:141-152 | the keys are `s` and `p`, plus `tags_inc` and `tags_exc` exactly when the included or excluded set is present and non-empty; `s` is `7`, `p` is the decimal text of the page, and each tag key holds the formatted tag list |
| `Search.FormatTagList` | mangadex.py:146-147 | definition: the sorted ids joined by commas; see `Search.TagListRoundTrip` and `Search.TagListInjective` |
| `Search.TagListRoundTrip` | mangadex.py:146-147 | splitting a tag list at its commas gives the ids in ascending order, and exactly the ids of the set |
| `Search.TagListInjective` | mangadex.py:146-147 | two non-empty id sets give the same tag list if and only if they are equal |
| `PyText.PyIntOfIntToStr` | mangadex.py:143 | `int(str(page))` is `page` for every integer, negative ones included |
| `PyText.Sorted` | mangadex.py:147 | `sorted` of a set of strings holds each element once, in strictly ascending code-point order |
| `PyText.SplitJoin` | mangadex.py:147 | joining strings without the separator and splitting again gives the strings back |
| `PyText.StripSpec` | mangadex.py:173 | `strip()` returns a contiguous block of its input with no whitespace at either end |
| `RowParse.ParseInt` | mangadex.py:182-183 | definition: `int()` of the stripped text with its commas deleted; see `RowParse.ParseIntGrouped` and `RowParse.ParseIntOfIntToStr` |
| `RowParse.ParseIntGrouped` | mangadex.py:182-183 | `parse_int` of a whitespace-padded number of digits and commas is the value of its digits in order |
| `RowParse.ParseIntOfGrouped` | mangadex.py:182-183 | `parse_int` of digits and commas, without padding, is the value of its digits in order |
| `RowParse.ParseIntOfIntToStr` | mangadex.py:182-183 | `parse_int` reads back every integer printed in decimal |
| `RowParse.VotesToken` | mangadex.py:186 | the votes token is the prefix of the label up to, but excluding, the first space, or the whole label when it has no space |
| `RowParse.VotesTokenBeforeSpace` | mangadex.py:186 | for a label `core + " " + rest` with no space in `core`, the token is `core` |
| `RowParse.ParseVotesOfLabel` | mangadex.py:185-186 | a label `"<n> Votes"`, with `n` comma-grouped, gives the value of `n` |
| `RowParse.StripPass` | mangadex.py:169-172 | one guarded pair of `rstrip` calls only ever removes a tail of the title |
| `RowParse.StripPassRemovesOnlyDecorationChars` | mangadex.py:169-172 | every character a pass removes belongs to the character set of the decoration or of its lower-case form |
| `RowParse.StripPassUnchanged` | mangadex.py:169-172 | a pass changes nothing when neither form of the decoration occurs in the title, or when the title does not end in a character of either form |
| `RowParse.PassSkips` | mangadex.py:169-172 | a pass changes nothing when the title lacks a character of each form of the decoration |
| `RowParse.PassStrips` | mangadex.py:169-172 | when the decoration occurs in the title, the pass cuts exactly the longest tail made of its characters, provided the lower-case form does not occur in what is left |
| `RowParse.StripPasses` | mangadex.py:168-172 | the whole loop only ever removes a tail of the title |
| `RowParse.Cleaned` | mangadex.py:168-173 | definition: the five passes in order, then `strip()`; see `RowParse.CleanedIsTrimmedInfix` and `RowParse.CleanTitle` |
| `RowParse.CleanedIsTrimmedInfix` | mangadex.py:168-173 | the cleaned title has no whitespace at either end and is a contiguous piece of the raw title |
| `RowParse.CleanTitle` | mangadex.py:168-173 | the loop that reassigns `title` computes the cleaned title, which is trimmed and a contiguous piece of the raw title |
| `RowParse.NoblesseLosesLetter` | mangadex.py:168-173 | as written, `"Noblesse (Web Comic)"` cleans to `"Nobless"` |
| `RowParse.PaddedDoujinshiKept` | mangadex.py:168-173 | a decoration followed by a space survives cleaning: `"Foo (Doujinshi) "` cleans to `"Foo (Doujinshi)"` |
| `RowParse.DoujinshiRemoved` | mangadex.py:168-173 | `"Foo (Doujinshi)"` cleans to `"Foo"` |
| `RowParse.CleanedNotIdempotent` | mangadex.py:168-173 | cleaning twice differs from cleaning once, for `"Foo (Doujinshi) "` |
| `RowParse.RemoveSuffix` | mangadex.py:170-172 | the corrected step removes the decoration exactly when the title ends with it, and otherwise returns the title unchanged |
| `RowParse.IntendedRemovesWholeDecorations` | mangadex.py:168-172 | with the correction, the title is what is kept followed by the removed pieces |
| `RowParse.RemovedPiecesAreDecorations` | mangadex.py:168-172 | with the correction, every removed piece is a whole decoration, as written or in lower case |
| `RowParse.IntendedPassSkips` | mangadex.py:169-172 | with the correction, a title that ends with neither form of the decoration is unchanged |
| `RowParse.IntendedPassCuts` | mangadex.py:169-172 | with the correction, a title `w + s` loses exactly `s`, for every `w` that does not end with the lower-case form (the empty `w` included) |
| `RowParse.NoblesseKeptWhenIntended` | mangadex.py:168-173 | with the correction, `"Noblesse (Web Comic)"` cleans to `"Noblesse"` |
| `RowParse.CleanedIntendedIsTrimmedInfix` | mangadex.py:168-173 | the corrected cleaning also yields a contiguous piece of the raw title with no whitespace at either end |
| `RowParse.ParseRow` | mangadex.py:159-197 | an empty title gives `None`; a `ValueError` happens exactly when the votes, follows or views text is not an integer, and it carries a text that `int()` rejects; a manga carries the row's link as its path, the title cleaned as written (`Cleaned`) as its name, which is a trimmed contiguous piece of the title, the row's rating, and the parsed votes, views and follows |
| `RowParse.ParseRowWellFormed` | mangadex.py:159-197 | a row with counters made of digits and commas, the follows and views text possibly padded with whitespace, gives the manga named by the cleaning as written (`Cleaned`), with the rating and the counters' values in the source's field order; the corrected parser gives the same manga named by `CleanedIntended` |
| `RowParse.ParseRowIntended` | mangadex.py:159-197 | with the correction, a row has the same outcome as under `ParseRow` and the same path, rating and counters; only the name differs, and it is again a trimmed contiguous piece of the title |
| `Catalog.Requested` | mangadex.py:215-227 | definition: the pages from 0 up to the budget, ending after the first page without rows; see `Catalog.RequestedShape` |
| `Catalog.Put` | mangadex.py:236 | definition: `collection[manga.path] = manga`; see `Catalog.GatherLastWins` and `Catalog.GatherFirstSeenOrder` |
| `Catalog.Gather` | mangadex.py:232-236 | definition: every kept row stored in turn; see `Catalog.GatherValid`, `Catalog.GatherKeys`, `Catalog.GatherLastWins` and `Catalog.GatherFirstSeenOrder` |
| `Catalog.GetManga` | mangadex.py:200-238 | the page loop requests exactly the pages of `Requested` and returns the values of the dictionary that the kept rows of those pages build |
| `Catalog.StoreRows` | mangadex.py:232-236 | the row loop stores every kept row of a page in turn |
| `Catalog.Values` | mangadex.py:238 | definition of `collection.values()`; see `Catalog.ValuesOfGather` |
| `Catalog.RequestedShape` | mangadex.py:215-227 | pages are requested in increasing order from 0, at most `number_of_pages` of them; the crawl goes past a page only when it had rows, and stops early only after a page without rows |
| `Catalog.RowsOfRequested` | mangadex.py:215-229 | the rows processed are exactly the rows of the requested pages, in order |
| `Catalog.GatherValid` | mangadex.py:232-236 | the dictionary's keys are distinct, and every manga is stored under its own path |
| `Catalog.GatherKeys` | mangadex.py:232-236 | a path is stored if and only if some row that is not `None` and not named `Test` has it |
| `Catalog.GatherLastWins` | mangadex.py:236 | a path holds the last kept row with that path |
| `Catalog.GatherFirstSeenOrder` | mangadex.py:236 | keys are ordered by first appearance: every occurrence of a later key is preceded by an occurrence of each earlier key |
| `Catalog.ValuesOfGather` | mangadex.py:232-238 | the yielded manga have distinct paths, none is named `Test`, and each is the last kept row for its path |
| `Ranking.Insert` | mangadex.py:300-303 | an insertion step keeps the elements and adds one more |
| `Ranking.SortByScore` | mangadex.py:300-303 | `sorted` is a permutation of its input |
| `Ranking.SortAscending` | mangadex.py:300-303 | `sorted` orders by ascending score |
| `Ranking.SortStable` | mangadex.py:300-303 | `sorted` keeps the input order among manga with equal scores |
| `Ranking.Filter` | mangadex.py:297-298 | `filter` keeps exactly the elements that meet the condition |
| `Ranking.FilterReverse` | mangadex.py:297-305 | filtering and reversing commute |
| `Ranking.Rank` | mangadex.py:297-305 | definition: sorted, reversed and filtered by the cut; see `Ranking.RankDescending`, `Ranking.RankContents` and `Ranking.RankTies` |
| `Ranking.RankDescending` | mangadex.py:297-305 | the ranking is in non-increasing order of score |
| `Ranking.RankContents` | mangadex.py:297-305 | the ranking is a permutation of the collected manga whose score is strictly above the minimum |
| `Ranking.RankTies` | mangadex.py:297-305 | manga with equal scores above the minimum come out in the reverse of their collection order; none at or below the minimum come out |

## Left out

- HTTP: the session, `login`, `raise_for_status` and the requests themselves.
  - `Catalog.GetManga` returns the page numbers it would request.
  - `Search.SearchParams` gives the parameters of each request.
- BeautifulSoup navigation: the `find` / `find_all` calls and the `next_element` chain.
  - Rows arrive as `RowParse.RawRow` values, options as `Tags.TagOption` values, and pages as the `fetch` parameter.
- Missing elements or attributes: an element that is missing, or an option without text, makes Python raise `AttributeError` or `TypeError`; a missing attribute (`href` at mangadex.py:175, `title` at mangadex.py:186, `value` at mangadex.py:124) raises `KeyError`. This is not modelled.
- Floating point:
  - `adjusted_rating` (`math.log`, `math.e`, `round`) is replaced by the abstract `score`.
  - `float(rating_span.text)` and its `ValueError` are left out; the rating arrives as a real.
- Output: `parse_args`, `--list-tags`, every print format, `to_dict` and `__str__`.
  - The command line's `choices` restriction appears only as the precondition of `Tags.SelectKnownNames`.
- Catalog.GetManga: `get_manga` is a generator and `__parse_manga_from_html` can raise; both are simplified.
  - The model returns the whole list at once.
  - Its rows are already parsed, so a `ValueError` raised part-way through a crawl is not modelled here; `RowParse.ParseRow` models that error on its own.
- PyText.Lower: `lower()` is modelled for ASCII letters only; other characters are unchanged.
- PyText.PyInt: `int()` accepts only ASCII digits, with an optional sign and single underscores between digits.
  - Other Unicode decimal digits, and the limit on the number of digits, are left out.
- PyText.StrLt: `sorted` compares code points. Dafny's `char` is a Unicode scalar value, so lone surrogates cannot be represented.

## Findings

| source | as written | input that shows it | evidently intended | confidence | as-written member | corrected member |
|---|---|---|---|---|---|---|
| mangadex.py:169-172 | `title.rstrip(s)` removes every trailing character that belongs to the character set of `s` | `"Noblesse (Web Comic)"` cleans to `"Nobless"`: the final `e` belongs to `"(Web Comic)"` | remove the decoration as a whole suffix (`removesuffix`), giving `"Noblesse"`, and never cut into the title itself | high, not executed | `RowParse.NoblesseLosesLetter` | `RowParse.NoblesseKeptWhenIntended`, `RowParse.IntendedRemovesWholeDecorations`, `RowParse.ParseRowIntended` |

`RowParse.Cleaned`, `RowParse.CleanTitle` and `RowParse.ParseRow` model the cleaning as
written. `RowParse.CleanedIntended` is the corrected cleaning, and
`RowParse.ParseRowIntended` is the row parser that uses it.
Three lemmas are proved about the corrected cleaning:

- `RowParse.IntendedRemovesWholeDecorations`: the title is what is kept followed by the
  removed pieces;
- `RowParse.RemovedPiecesAreDecorations`: each removed piece is a whole decoration;
- `RowParse.CleanedIntendedIsTrimmedInfix`: the result is trimmed and is a contiguous
  piece of the raw title.
