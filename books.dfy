/** The book record as it is stored in the catalog file, the defaults the
    application reads absent keys with, and order-preserving selection. */
module Books {

  datatype Option<T> = None | Some(value: T)

  /** One entry of the catalog. `title`, `author`, `file` and `cover` are
      taken to be present; `category` and `viewCount` are keys a record may lack
      (a record made by the add page has no view count, and records written
      by hand may have no category). */
  datatype Book = Book(
    title: string,
    author: string,
    file: string,
    cover: string,
    category: Option<string>,
    viewCount: Option<int>)

  /** `b.get("view_count", 0)` */
  function Views(b: Book): int {
    match b.viewCount
    case Some(n) => n
    case None => 0
  }

  /** `b.get("category", default)` */
  function CategoryOr(b: Book, default: string): string {
    match b.category
    case Some(c) => c
    case None => default
  }

  /** The records of `s` that satisfy `p`, in their order in `s`: what a
      Python list comprehension `[b for b in s if p(b)]` builds. */
  function Filter(s: seq<Book>, p: Book -> bool): (r: seq<Book>)
    ensures |r| <= |s|
    ensures forall x :: x in r ==> x in s && p(x)
  {
    if s == [] then []
    else if p(s[0]) then [s[0]] + Filter(s[1..], p)
    else Filter(s[1..], p)
  }

  /** `r` can be obtained from `s` by deleting elements. */
  predicate IsSubsequence(r: seq<Book>, s: seq<Book>)
    decreases |s|
  {
    if r == [] then true
    else if s == [] then false
    else if r[0] == s[0] then IsSubsequence(r[1..], s[1..])
    else IsSubsequence(r, s[1..])
  }

  /** The filter keeps the order of `s` and exactly the occurrences of the
      records that satisfy `p`: each such record as often as in `s`, every
      other record never. */
  lemma {:induction false} FilterSelects(s: seq<Book>, p: Book -> bool)
    ensures IsSubsequence(Filter(s, p), s)
    ensures forall x :: multiset(Filter(s, p))[x] == if p(x) then multiset(s)[x] else 0
  {
    if s != [] {
      FilterSelects(s[1..], p);
      assert s == [s[0]] + s[1..];
      assert multiset(s) == multiset{s[0]} + multiset(s[1..]);
      if p(s[0]) {
        var r := Filter(s, p);
        assert r[0] == s[0] && r[1..] == Filter(s[1..], p);
        assert multiset(r) == multiset{s[0]} + multiset(Filter(s[1..], p));
      } else {
        SubsequenceSkip(Filter(s[1..], p), s);
      }
    }
  }

  /** A subsequence of the tail of `s` is a subsequence of `s`. */
  lemma {:induction false} SubsequenceSkip(r: seq<Book>, s: seq<Book>)
    requires s != [] && IsSubsequence(r, s[1..])
    ensures IsSubsequence(r, s)
    decreases |s|, 0
  {
    if r != [] && r[0] == s[0] {
      SubsequenceTail(r, s[1..]);
    }
  }

  /** Dropping the first element of a subsequence keeps it a subsequence. */
  lemma {:induction false} SubsequenceTail(r: seq<Book>, s: seq<Book>)
    requires r != [] && IsSubsequence(r, s)
    ensures IsSubsequence(r[1..], s)
    decreases |s|, 1
  {
    if r[0] == s[0] {
      SubsequenceSkip(r[1..], s);
    } else {
      SubsequenceTail(r, s[1..]);
      SubsequenceSkip(r[1..], s);
    }
  }

  /** A filter that every record passes keeps the whole sequence. */
  lemma {:induction false} FilterKeepsAll(s: seq<Book>, p: Book -> bool)
    requires forall i :: 0 <= i < |s| ==> p(s[i])
    ensures Filter(s, p) == s
  {
    if s != [] {
      FilterKeepsAll(s[1..], p);
    }
  }

  /** Two filters applied one after the other select the same records in
      either order. */
  lemma {:induction false} FilterCommute(s: seq<Book>, p: Book -> bool, q: Book -> bool)
    ensures Filter(Filter(s, p), q) == Filter(Filter(s, q), p)
  {
    if s != [] {
      FilterCommute(s[1..], p, q);
    }
  }
}
