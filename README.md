# E-Perpustakaan catalog, modelled in Dafny

E-Perpustakaan is a small digital library. Its catalog is one JSON list of
book records in `books.json`. The pages of `app.py` read that list and
write it back:

- The homepage filters the list by category. It then sorts it in one of
  five orders and filters it by a search keyword.
- Above that list the homepage shows the five most viewed books.
- The statistics page counts the books of each category.
- The reader counts one view per reading session.
- The admin pages add, edit and delete records.

This project models that catalog logic. It proves what each operation
selects, orders, counts and changes.

Files and modules:

- `text.dfy` (`Text`): lower-casing, string order, substring search and the
  file name derived from a title.
- `books.dfy` (`Books`): the record, the defaults for absent keys, and
  order-keeping selection (a list comprehension).
- `sorting.dfy` (`Sorting`): the five sort modes as one stable insertion
  sort, proved to be the unique stable sort.
- `query.dfy` (`Query`): the keyword and category filters, the homepage
  pipeline and the most-popular list.
- `stats.dfy` (`Stats`): the counting loop of the statistics page and the
  category choices of the homepage.
- `catalog.dfy` (`CatalogStore`): the class `Catalog`, whose `books` field
  is the stored list, with the reader's view count, add, edit and delete.

Behaviour of `app.py` that a reader may not expect, which the model
follows:

- The category filter compares the `category` key itself
  (`b.get("category") == selected`). A record without that key is therefore
  never listed under "Lainnya", although the choice list and the statistics
  show it as "Lainnya".
- The keyword filter runs after the sort, not before it.
  `HomeListIsSortedSelection` proves the result is the same either way.
- The reader writes the selected record's own count plus one into the
  first stored record with the same title and author. It does not add one
  to the stored count. The two differ when that stored record is not the
  selected one (`ViewOfDuplicateCopiesCount`).
- Saving an edit indexes the list with the record's position. The source
  reports no "not found" error. The position always comes from the page's
  own loop over the list.
- The management page stops drawing at the first record whose category is
  not one of the eight the edit form offers (app.py:246-248 raise
  `ValueError`). That record and every later one can be neither edited nor
  deleted. `UpdateBook` and `DeleteBook` therefore require `FormShown`.
- File names replace only the space character `' '` with `_`. Other
  whitespace is kept.

## Model

| member | source | states |
|---|---|---|
| Text.Lower | app.py:77 | `s.lower()` for ASCII letters, one output character per input character, so the length is kept |
| Text.StrLess | app.py:129 | Python's `<` on strings: code-point lexicographic order, a proper prefix first |
| Text.Contains | app.py:77 | Python's `needle in hay` on strings, as a scan from the left |
| Text.FileBase | app.py:206 | `title.replace(" ", "_").lower()`, which has the title's length |
| Text.LowerAt | app.py:77 | `lower()` works character by character: position `i` of the result is character `i` lowered |
| Text.SpacesToUnderscores | app.py:206 | `s.replace(" ", "_")`: every space becomes `_`, every other character stays, the length is kept |
| Text.LowerIsLower | app.py:77 | after `lower()` no upper-case ASCII letter remains, and lowering twice is lowering once |
| Text.StrLessTotal | app.py:129 | Python string comparison puts any two different strings in one order or the other |
| Text.StrLessTransitive | app.py:129 | Python string comparison is transitive |
| Text.ContainsIff | app.py:77 | `needle in hay` holds exactly when the needle occurs at some position of `hay` |
| Text.ContainsLower | app.py:77 | a substring is still a substring after both strings are lowered |
| Text.FileBaseShape | app.py:206 | the file name base has the title's length, maps each character on its own, holds no space, and is unchanged by a second application |
| Text.FileBaseCollides | app.py:206-208 | two titles that differ only in case ("Dune" and "dune") get the same file names |
| Books.Views | app.py:135 | `get("view_count", 0)`: the stored count, or 0 when the key is absent (also app.py:150 and app.py:309) |
| Books.CategoryOr | app.py:137 | `get("category", default)`: the stored category, or the default when the key is absent |
| Books.Filter | app.py:75-78 | the list comprehension `[b for b in s if p(b)]`: no longer than the input, and every kept record is from the input and passes the test |
| Books.FilterSelects | app.py:75-78 | a list comprehension keeps the input order and holds each accepted record exactly as often as the input, and no other record |
| Books.FilterCommute | app.py:118-119 | two comprehension filters give the same list in either order |
| Sorting.KeyOf | app.py:128-137 | the `key=` function of each sort option: lowered title, lowered author, `get("view_count", 0)` or lowered `get("category", "")`; only "Populer" has a number key |
| Sorting.KeyLess | app.py:128-137 | Python's `<` on two sort keys: string order on words, integer order on numbers |
| Sorting.KeyBeforeOrder | app.py:128-137 | each mode's "comes before" relation on keys is irreflexive, transitive and total on different keys |
| Sorting.Sort | app.py:128-137 | sorting rearranges the records without adding or losing any |
| Sorting.SortIsStableSort | app.py:128-137 | the sorted list is ordered by the mode's key in the mode's direction, and records with equal keys keep their input order |
| Sorting.SortUnique | app.py:128-137 | any list that is a stable sort of the input is the sorted list |
| Sorting.SortIdempotent | app.py:128-137 | sorting a sorted list changes nothing |
| Sorting.FilterSortCommute | app.py:119-139 | filtering after sorting gives the same list as sorting after filtering |
| Sorting.TitleDescIsReverse | app.py:128-131 | when titles are distinct ignoring case, "Judul (Z-A)" is "Judul (A-Z)" reversed |
| Sorting.TiedTitlesNotReversed | app.py:128-131 | with two records whose titles tie, both title orders keep input order, so Z-A is not the reverse of A-Z |
| Query.MatchesKeyword | app.py:77 | the lowered keyword occurs in the lowered title or in the lowered author |
| Query.KeywordFilter | app.py:74-78 | every listed record comes from the input and contains the keyword in its title or author, ignoring case |
| Query.KeywordFilterIsFilter | app.py:74-78 | the `if keyword:` guard makes no difference, because the empty keyword matches every record |
| Query.KeywordFilterSelects | app.py:74-78 | the search keeps the input order and holds exactly the matching records, each as often as the input |
| Query.TitleFindsRecord | app.py:77 | a record is found by any substring of its title as written |
| Query.CategoryFilter | app.py:118-119 | "Semua" keeps the list; any other choice keeps only records whose category key equals it |
| Query.CategoryFilterSelects | app.py:118-119 | the category filter keeps order and multiplicity of the chosen records; a record without a category key is dropped by every choice but "Semua" |
| Query.HomeList | app.py:114-139 | the homepage list: category filter, sort, keyword filter; no longer than the catalog, and every listed record is in the catalog and passes both filters |
| Query.HomeListIsSortedSelection | app.py:114-139 | the homepage list is the stable sort of the records passing both filters, and holds each such record as often as the catalog does |
| Query.HomeListUnfiltered | app.py:118-139 | with "Semua" and an empty search the homepage lists the whole catalog sorted |
| Query.PrefixUpTo | app.py:309 | `[:n]` is a prefix of length `min(n, len)` for non-negative `n` |
| Query.MostPopular | app.py:307-309 | `sorted(..., key=view_count, reverse=True)[:top_n]`: no longer than the catalog, and every record shown is in it |
| Query.MostPopularIsTop | app.py:307-309 | the popular list has `min(top_n, len(books))` records from the catalog, with non-increasing views, and no record left out has more views than a record shown |
| Query.MostPopularOfTwo | app.py:309 | of two records with different views the more viewed is listed first and is the top-1 list |
| Stats.Labels | app.py:43 | one category label per record |
| Stats.Label | app.py:43 | `book.get('category', 'Lainnya')`, the label the statistics, the choices (app.py:114) and the edit form (app.py:248) read |
| Stats.Distinct | app.py:47 | the dictionary's keys hold exactly the labels, each once |
| Stats.SortedDistinct | app.py:114 | `sorted(set(...))` holds exactly the labels |
| Stats.CountByCategory | app.py:41-44 | the keys are exactly the catalog's labels, each count is that label's number of records and at least 1, the key order is first appearance with each label once, and the counts add up to the number of records |
| Stats.CategoryChoices | app.py:114 | `["Semua"] + sorted(set(labels))`: "Semua" first, then exactly the catalog's labels |
| Stats.CategoryChoicesSpec | app.py:114 | the choices are "Semua" then the labels in strictly increasing order, and these are exactly the keys the statistics page counts |
| Stats.SortedDistinctUnique | app.py:114 | `sorted(set(ls))` is the only strictly increasing list holding exactly the elements of `ls` |
| Stats.IncreasingUnique | app.py:114 | two strictly increasing lists with the same elements are equal |
| CatalogStore.HasIdentity | app.py:157 | the record's title and author both equal the given ones |
| CatalogStore.FirstMatch | app.py:156-159 | the index found holds the title and author and no earlier record does; no index means no record does |
| CatalogStore.Viewed | app.py:150 | the reader's copy after a view: one more view than before, nothing else changed |
| CatalogStore.AfterView | app.py:153-161 | the list the reader saves, with as many records as before; its full effect is stated by the next row |
| CatalogStore.AfterViewChangesOnlyFirstMatch | app.py:149-161 | counting a view changes only the view count of the first record with the selected title and author, setting it to the selected count plus one; without such a record nothing changes |
| CatalogStore.TotalViewsUpdate | app.py:158 | replacing one record changes the catalog's total views by the difference of the two counts |
| CatalogStore.ViewOfStoredRecordAddsOne | app.py:149-161 | viewing the first stored record of its title and author adds exactly one view to it and to the catalog |
| CatalogStore.ViewOfDuplicateCopiesCount | app.py:150-159 | viewing a later duplicate overwrites the earlier record's count with the duplicate's count plus one |
| CatalogStore.AfterViewKeepsCategories | app.py:156-159 | counting a view leaves the category labels and the category choices unchanged |
| CatalogStore.Catalog.OpenReader | app.py:143-162 | an already counted session changes nothing; otherwise the reader's copy gains one view and the stored list becomes the view-counted list |
| CatalogStore.NewRecord | app.py:206-225 | the record the add page appends: the given title, author and category, and no view count (0 views) |
| CatalogStore.NewRecordFiles | app.py:206-225 | a new record's PDF and cover share one space-free base of the title's length, differ only in extension, and start with zero views |
| CatalogStore.AddedRecordIsFound | app.py:114-139 | after adding, searching the new title under "Semua" or under its category lists the new record, in every sort mode |
| CatalogStore.AddedRecordFirstView | app.py:156-159 | a new record with a fresh title and author is found at the end of the list, and its first view sets its count to 1 |
| CatalogStore.FirstMatchAppend | app.py:156-159 | appending a record keeps an existing first match; with none, the appended record is the first match exactly when it has the title and author |
| CatalogStore.Catalog.AddBook | app.py:201-227 | with a title, an author, a PDF and a cover, the new record is appended; otherwise the list is unchanged |
| CatalogStore.Edited | app.py:256-277 | the record after "Simpan Perubahan": the form's title, author and category, the view count kept |
| CatalogStore.EditedRelatesToNewRecord | app.py:256-277 | an edit keeps the view count; for every choice of uploads, the cover moves to the add page's cover name exactly when a new cover was uploaded and the PDF exactly when a new PDF was, each otherwise unchanged; with both uploads it is the add page's record |
| CatalogStore.EditedIdempotent | app.py:256-277 | saving the same form twice changes nothing the second time |
| CatalogStore.EditedUnchangedIff | app.py:274-277 | saving the form unchanged and without uploads leaves the record equal exactly when it already had that category key |
| CatalogStore.FormShown | app.py:239-248 | the edit and delete buttons of record `idx` are drawn: `idx` is in the list and every record up to and including it has a label among the eight categories of the edit form (`EditCategories`, app.py:246-247) |
| CatalogStore.StrayCategoryHidesLaterForms | app.py:239-248 | a record with a category outside the eight hides its own edit and delete buttons and those of every later record |
| CatalogStore.AddedRecordsKeepFormsShown | app.py:199-225 | records added with the add page's eight categories keep every form of the management page shown |
| CatalogStore.Catalog.UpdateBook | app.py:255-281 | for a record whose form is shown, only the record at `idx` changes, and it becomes the edited record |
| CatalogStore.Without | app.py:299 | `books.pop(idx)`: one record fewer |
| CatalogStore.WithoutSpec | app.py:299 | `pop(idx)` removes exactly that record: earlier records stay in place, later ones move one place up |
| CatalogStore.WithoutReinsert | app.py:299 | putting the removed record back at `idx` restores the list |
| CatalogStore.Catalog.DeleteBook | app.py:287-304 | for a record whose form is shown: without confirmation nothing changes; with it the record is removed, and a failed file removal is only a warning |
| CatalogStore.Catalog.Load | app.py:11-19 | a missing or unparsable file loads as the empty catalog; otherwise the parsed records load |

## Left out

- The Streamlit pages themselves are not modelled: widgets, columns, images, messages, `st.rerun` and session state. The session's `view_tracked` flag is a parameter of `OpenReader`, and the selected record is its argument.
- JSON encoding and decoding are not modelled. `StoredFile` stands for what `load_books` finds. The reader opens the file with `json.load` directly (app.py:153-154). That raises on a missing file and raises `JSONDecodeError` on an unparsable one, where `load_books` (app.py:18-19) would give `[]`. The model reads the loaded list instead.
- Writing uploads to disk, checking files with `os.path.exists` and removing them are not modelled. Whether removal failed is the `cleanupFails` parameter. In the source, a failure removing the PDF also skips removing the cover; the model keeps only the warning.
- Lower: models Python's `str.lower` for ASCII letters only. Full Unicode case mapping is not modelled.
- The statistics charts (Plotly), the one-second pause after an edit and the admin login are not modelled.
- The management page's `ValueError` is modelled only as which forms are shown (`FormShown`). The error message itself is not modelled.
- Records are assumed to have `title`, `author`, `file` and `cover`. In the source a record without `cover` only loses its picture (app.py:87-92) and its cover removal (app.py:290-297), and a record without `file` crashes the reader (app.py:146). The model does not represent records lacking those keys.
- The add and edit pages only offer eight categories. The model accepts any category string.
- The edit page changes the same dictionary object it then stores back. The model replaces the record by value.
- Python sorts with Timsort. The model uses an insertion sort with the same result, since `SortUnique` proves the stable sort is unique.
- KeyLess: keys of one kind are compared as Python does. A string key and a number key are given a fixed order, because no mode compares the two.
