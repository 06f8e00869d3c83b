/** What the homepage shows: the category filter, one of the five sorts,
    then the keyword filter; and the "most popular" list above it. */
module Query {
  import opened Text
  import opened Books
  import opened Sorting

  /** The category choice that stands for every category. */
  const AllCategories := "Semua"

  /** `keyword.lower() in title.lower() or keyword.lower() in author.lower()` */
  predicate MatchesKeyword(b: Book, keyword: string) {
    Contains(Lower(keyword), Lower(b.title)) || Contains(Lower(keyword), Lower(b.author))
  }

  function KeywordTest(keyword: string): Book -> bool {
    b => MatchesKeyword(b, keyword)
  }

  /** The search box: an empty keyword leaves the list alone, any other
      keeps the records that match it. */
  function KeywordFilter(books: seq<Book>, keyword: string): (r: seq<Book>)
    ensures forall b :: b in r ==> b in books && MatchesKeyword(b, keyword)
  {
    if keyword == "" then
      EmptyKeywordMatches(books);
      books
    else Filter(books, KeywordTest(keyword))
  }

  lemma EmptyKeywordMatches(books: seq<Book>)
    ensures forall b :: b in books ==> MatchesKeyword(b, "")
  {
    forall b | b in books
      ensures MatchesKeyword(b, "")
    {
      ContainsSelfAndEmpty("", Lower(b.title));
    }
  }

  /** The `if keyword:` guard changes nothing: the empty keyword matches
      every record, so the search box is always the plain filter. */
  lemma KeywordFilterIsFilter(books: seq<Book>, keyword: string)
    ensures KeywordFilter(books, keyword) == Filter(books, KeywordTest(keyword))
  {
    if keyword == "" {
      EmptyKeywordMatches(books);
      FilterKeepsAll(books, KeywordTest(keyword));
    }
  }

  /** The search keeps, in their order, exactly the records that match:
      each as often as it occurs, no other record. */
  lemma KeywordFilterSelects(books: seq<Book>, keyword: string)
    ensures IsSubsequence(KeywordFilter(books, keyword), books)
    ensures forall x :: multiset(KeywordFilter(books, keyword))[x] ==
                        (if MatchesKeyword(x, keyword) then multiset(books)[x] else 0)
  {
    KeywordFilterIsFilter(books, keyword);
    FilterSelects(books, KeywordTest(keyword));
  }

  /** A record is found by any part of its title as written. */
  lemma TitleFindsRecord(b: Book, keyword: string)
    requires Contains(keyword, b.title)
    ensures MatchesKeyword(b, keyword)
  {
    ContainsLower(keyword, b.title);
  }

  function InCategory(selected: string): Book -> bool {
    (b: Book) => b.category == Some(selected)
  }

  /** The category box: "Semua" keeps everything, any other choice keeps
      the records whose `category` key holds exactly that value. */
  function CategoryFilter(books: seq<Book>, selected: string): (r: seq<Book>)
    ensures selected == AllCategories ==> r == books
    ensures selected != AllCategories ==>
      forall b :: b in r ==> b in books && b.category == Some(selected)
  {
    if selected == AllCategories then books
    else Filter(books, InCategory(selected))
  }

  /** The category box keeps the order and exactly the records of the
      chosen category; a record without a category key is dropped by every
      choice but "Semua", "Lainnya" included. */
  lemma CategoryFilterSelects(books: seq<Book>, selected: string)
    ensures IsSubsequence(CategoryFilter(books, selected), books)
    ensures forall x: Book :: multiset(CategoryFilter(books, selected))[x] ==
                              (if selected == AllCategories || x.category == Some(selected)
                               then multiset(books)[x] else 0)
    ensures selected != AllCategories ==>
              forall x: Book :: x.category == None ==> x !in CategoryFilter(books, selected)
  {
    if selected == AllCategories {
      FilterKeepsAll(books, _ => true);
      FilterSelects(books, _ => true);
    } else {
      FilterSelects(books, InCategory(selected));
    }
  }

  /** Whether a record is listed for a category choice and a keyword. */
  predicate Listed(b: Book, selected: string, keyword: string) {
    (selected == AllCategories || b.category == Some(selected)) && MatchesKeyword(b, keyword)
  }

  /** The homepage list: category filter, then the chosen sort, then the
      keyword filter. */
  function HomeList(books: seq<Book>, selected: string, mode: SortMode, keyword: string): (r: seq<Book>)
    ensures |r| <= |books|
    ensures forall b :: b in r ==> b in books && Listed(b, selected, keyword)
  {
    SortMembers(mode, CategoryFilter(books, selected));
    KeywordFilter(Sort(mode, CategoryFilter(books, selected)), keyword)
  }

  /** The homepage list is the stable sort of the records that pass both
      filters: it is ordered by the mode's key, holds each listed record as
      often as the catalog does and no other, and filtering after sorting
      gives what sorting the filtered records would. */
  lemma HomeListIsSortedSelection(books: seq<Book>, selected: string, mode: SortMode, keyword: string)
    ensures HomeList(books, selected, mode, keyword) ==
      Sort(mode, Filter(CategoryFilter(books, selected), KeywordTest(keyword)))
    ensures Sorted(mode, HomeList(books, selected, mode, keyword))
    ensures forall x :: multiset(HomeList(books, selected, mode, keyword))[x] ==
                        (if Listed(x, selected, keyword) then multiset(books)[x] else 0)
  {
    var c := CategoryFilter(books, selected);
    var q := Filter(c, KeywordTest(keyword));
    KeywordFilterIsFilter(Sort(mode, c), keyword);
    FilterSortCommute(mode, c, KeywordTest(keyword));
    SortIsStableSort(mode, q);
    CategoryFilterSelects(books, selected);
    FilterSelects(c, KeywordTest(keyword));
  }

  /** With "Semua" and an empty search box the homepage lists the whole
      catalog in the chosen order. */
  lemma HomeListUnfiltered(books: seq<Book>, mode: SortMode)
    ensures HomeList(books, AllCategories, mode, "") == Sort(mode, books)
  {
  }

  /** Python's `s[:n]`: a negative `n` drops the last `-n` elements. */
  function PrefixUpTo(s: seq<Book>, n: int): (r: seq<Book>)
    ensures n >= 0 ==> |r| == if n < |s| then n else |s|
    ensures |r| <= |s| && r == s[..|r|]
  {
    if n >= 0 then (if n < |s| then s[..n] else s)
    else (if |s| + n > 0 then s[..|s| + n] else [])
  }

  /** `sorted(books, key=view_count, reverse=True)[:top_n]` */
  function MostPopular(books: seq<Book>, topN: int): (r: seq<Book>)
    ensures |r| <= |books|
    ensures forall b :: b in r ==> b in books
  {
    SortMembers(ViewsDesc, books);
    PrefixUpTo(Sort(ViewsDesc, books), topN)
  }

  /** The most popular list has `min(top_n, len(books))` records, drawn
      from the catalog, with non-increasing view counts, and no record left
      out has more views than any record shown. */
  lemma MostPopularIsTop(books: seq<Book>, topN: int)
    ensures topN >= 0 ==> |MostPopular(books, topN)| == if topN < |books| then topN else |books|
    ensures multiset(MostPopular(books, topN)) <= multiset(books)
    ensures forall i, j :: 0 <= i < j < |MostPopular(books, topN)| ==>
                           Views(MostPopular(books, topN)[i]) >= Views(MostPopular(books, topN)[j])
    ensures forall x, y ::
              (x in MostPopular(books, topN) &&
               y in multiset(books) - multiset(MostPopular(books, topN))) ==> Views(x) >= Views(y)
  {
    var s := Sort(ViewsDesc, books);
    var r := MostPopular(books, topN);
    SortIsStableSort(ViewsDesc, books);
    PrefixSplit(s, |r|);
    SortedByViews(s);
    PrefixOutranksRest(s, |r|);
  }

  /** A prefix and the rest make up the whole sequence. */
  lemma PrefixSplit(s: seq<Book>, n: nat)
    requires n <= |s|
    ensures multiset(s[..n]) <= multiset(s)
    ensures multiset(s) - multiset(s[..n]) == multiset(s[n..])
  {
    assert s == s[..n] + s[n..];
  }

  /** Sorted for "Populer" means non-increasing view counts. */
  lemma SortedByViews(s: seq<Book>)
    requires Sorted(ViewsDesc, s)
    ensures forall i, j :: 0 <= i < j < |s| ==> Views(s[i]) >= Views(s[j])
  {
    forall i, j | 0 <= i < j < |s|
      ensures Views(s[i]) >= Views(s[j])
    {
      assert !Before(ViewsDesc, s[j], s[i]);
    }
  }

  lemma PrefixOutranksRest(s: seq<Book>, n: nat)
    requires n <= |s|
    requires forall i, j :: 0 <= i < j < |s| ==> Views(s[i]) >= Views(s[j])
    ensures forall x, y :: x in s[..n] && y in multiset(s[n..]) ==> Views(x) >= Views(y)
  {
    forall x, y | x in s[..n] && y in multiset(s[n..])
      ensures Views(x) >= Views(y)
    {
      var i :| 0 <= i < n && s[..n][i] == x;
      assert y in s[n..];
      var j :| 0 <= j < |s| - n && s[n..][j] == y;
      assert s[i] == x && s[n + j] == y;
    }
  }

  /** Two records with different view counts: the popular sort puts the
      more viewed first, and the top-1 list is that record. */
  lemma MostPopularOfTwo(a: Book, b: Book)
    requires Views(a) < Views(b)
    ensures Sort(ViewsDesc, [a, b]) == [b, a]
    ensures MostPopular([a, b], 1) == [b]
  {
    assert [a, b][1..] == [b];
    assert Sort(ViewsDesc, [b]) == [b];
    assert Insert(ViewsDesc, a, [b]) == [b] + Insert(ViewsDesc, a, []);
  }
}
