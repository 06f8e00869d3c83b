/** The five orders the homepage offers, each a call of Python's `sorted`
    with a `key=` function and, for two of them, `reverse=True`. Python's
    sort is stable, and `reverse=True` keeps records with equal keys in their
    original order too, so every mode is a stable sort on its key in the
    mode's direction. `Sort` below is an insertion sort with exactly that
    behaviour; `SortIsStableSort` and `SortUnique` show that it is the only
    sequence that is ordered and keeps equal keys in input order. */
module Sorting {
  import opened Text
  import opened Books

  datatype SortMode =
    | TitleAsc      // "Judul (A-Z)": key title.lower()
    | TitleDesc     // "Judul (Z-A)": key title.lower(), reverse=True
    | AuthorAsc     // "Penulis": key author.lower()
    | ViewsDesc     // "Populer": key get("view_count", 0), reverse=True
    | CategoryAsc   // "Kategori": key get("category", "").lower()

  /** What a mode's `key=` function returns. */
  datatype Key = Word(s: string) | Number(n: int)

  function KeyOf(mode: SortMode, b: Book): (k: Key)
    ensures k.Number? <==> mode == ViewsDesc
  {
    match mode
    case TitleAsc => Word(Lower(b.title))
    case TitleDesc => Word(Lower(b.title))
    case AuthorAsc => Word(Lower(b.author))
    case ViewsDesc => Number(Views(b))
    case CategoryAsc => Word(Lower(CategoryOr(b, "")))
  }

  /** Python's `<` on keys. A mode only ever compares keys of one kind; the
      order between a word and a number is fixed arbitrarily to make this a
      total order. */
  predicate KeyLess(k1: Key, k2: Key) {
    match (k1, k2)
    case (Word(a), Word(b)) => StrLess(a, b)
    case (Number(m), Number(n)) => m < n
    case (Word(_), Number(_)) => true
    case (Number(_), Word(_)) => false
  }

  /** The modes sorted with `reverse=True`. */
  predicate Reversed(mode: SortMode) {
    mode == TitleDesc || mode == ViewsDesc
  }

  /** A record with key `k1` must come before one with key `k2`. */
  predicate KeyBefore(mode: SortMode, k1: Key, k2: Key) {
    if Reversed(mode) then KeyLess(k2, k1) else KeyLess(k1, k2)
  }

  predicate Before(mode: SortMode, a: Book, b: Book) {
    KeyBefore(mode, KeyOf(mode, a), KeyOf(mode, b))
  }

  lemma KeyLessIrreflexive(k: Key)
    ensures !KeyLess(k, k)
  {
    if k.Word? {
      StrLessIrreflexive(k.s);
    }
  }

  lemma KeyLessTransitive(k1: Key, k2: Key, k3: Key)
    requires KeyLess(k1, k2) && KeyLess(k2, k3)
    ensures KeyLess(k1, k3)
  {
    if k1.Word? && k2.Word? && k3.Word? {
      StrLessTransitive(k1.s, k2.s, k3.s);
    }
  }

  lemma KeyLessTotal(k1: Key, k2: Key)
    ensures k1 == k2 || KeyLess(k1, k2) || KeyLess(k2, k1)
  {
    if k1.Word? && k2.Word? {
      StrLessTotal(k1.s, k2.s);
    }
  }

  /** `KeyBefore` is a strict total order on keys, in every mode. */
  lemma KeyBeforeOrder(mode: SortMode, k1: Key, k2: Key, k3: Key)
    ensures !KeyBefore(mode, k1, k1)
    ensures KeyBefore(mode, k1, k2) && KeyBefore(mode, k2, k3) ==> KeyBefore(mode, k1, k3)
    ensures k1 == k2 || KeyBefore(mode, k1, k2) || KeyBefore(mode, k2, k1)
  {
    KeyLessIrreflexive(k1);
    KeyLessTotal(k1, k2);
    if KeyBefore(mode, k1, k2) && KeyBefore(mode, k2, k3) {
      if Reversed(mode) {
        KeyLessTransitive(k3, k2, k1);
      } else {
        KeyLessTransitive(k1, k2, k3);
      }
    }
  }

  /** Records with keys in order stay in order through a third record. */
  lemma BeforeSplit(mode: SortMode, a: Book, b: Book, c: Book)
    requires Before(mode, c, a)
    ensures Before(mode, c, b) || Before(mode, b, a)
  {
    var ka, kb, kc := KeyOf(mode, a), KeyOf(mode, b), KeyOf(mode, c);
    KeyBeforeOrder(mode, kb, ka, kc);
    KeyBeforeOrder(mode, kc, ka, kb);
  }

  /** "need not come before" is transitive. */
  lemma NotBeforeTransitive(mode: SortMode, a: Book, b: Book, c: Book)
    ensures !Before(mode, a, b) && !Before(mode, b, c) ==> !Before(mode, a, c)
  {
    if Before(mode, a, c) {
      BeforeSplit(mode, c, b, a);
    }
  }

  lemma BeforeAsymmetric(mode: SortMode, a: Book, b: Book)
    requires Before(mode, a, b)
    ensures !Before(mode, b, a)
  {
    KeyBeforeOrder(mode, KeyOf(mode, a), KeyOf(mode, b), KeyOf(mode, a));
  }

  /** No record must come after a later one. */
  ghost predicate Sorted(mode: SortMode, r: seq<Book>) {
    forall i, j :: 0 <= i < j < |r| ==> !Before(mode, r[j], r[i])
  }

  /** The records of `s` whose key is `k`, in their order in `s`. */
  function WithKey(mode: SortMode, s: seq<Book>, k: Key): (r: seq<Book>)
    ensures forall x :: x in r ==> x in s && KeyOf(mode, x) == k
  {
    if s == [] then []
    else (if KeyOf(mode, s[0]) == k then [s[0]] else []) + WithKey(mode, s[1..], k)
  }

  /** Records with the same key are in the same relative order in `r` and
      in `s`: the stability of a sort that turns `s` into `r`. */
  ghost predicate SameKeyOrder(mode: SortMode, r: seq<Book>, s: seq<Book>) {
    forall k :: WithKey(mode, r, k) == WithKey(mode, s, k)
  }

  lemma WithKeyCons(mode: SortMode, s: seq<Book>, k: Key)
    requires s != []
    ensures WithKey(mode, s, k) ==
      (if KeyOf(mode, s[0]) == k then [s[0]] else []) + WithKey(mode, s[1..], k)
  {
  }

  /** Put `x` in front of the first record of `r` that need not come before
      it. */
  function Insert(mode: SortMode, x: Book, r: seq<Book>): (q: seq<Book>)
    ensures multiset(q) == multiset(r) + multiset{x}
  {
    if r == [] then [x]
    else if Before(mode, r[0], x) then
      assert r == [r[0]] + r[1..];
      [r[0]] + Insert(mode, x, r[1..])
    else [x] + r
  }

  /** `sorted(s, key=..., reverse=...)` for the given mode. */
  function Sort(mode: SortMode, s: seq<Book>): (r: seq<Book>)
    ensures multiset(r) == multiset(s)
  {
    if s == [] then []
    else
      assert s == [s[0]] + s[1..];
      Insert(mode, s[0], Sort(mode, s[1..]))
  }

  /** Sorting keeps the length and draws every record from the input. */
  lemma SortMembers(mode: SortMode, s: seq<Book>)
    ensures |Sort(mode, s)| == |s|
    ensures forall b :: b in Sort(mode, s) ==> b in s
  {
    var r := Sort(mode, s);
    assert |r| == |multiset(r)| == |multiset(s)| == |s|;
    forall b | b in r
      ensures b in s
    {
      assert b in multiset(r);
    }
  }

  lemma SortedCons(mode: SortMode, x: Book, r: seq<Book>)
    requires Sorted(mode, r)
    requires forall y :: y in r ==> !Before(mode, y, x)
    ensures Sorted(mode, [x] + r)
  {
    var q := [x] + r;
    forall i, j | 0 <= i < j < |q|
      ensures !Before(mode, q[j], q[i])
    {
      if i > 0 {
        assert q[i] == r[i - 1] && q[j] == r[j - 1];
      } else {
        assert q[j] == r[j - 1] && q[j] in r;
      }
    }
  }

  lemma SortedTail(mode: SortMode, r: seq<Book>)
    requires r != [] && Sorted(mode, r)
    ensures Sorted(mode, r[1..])
    ensures forall y :: y in r[1..] ==> !Before(mode, y, r[0])
  {
    forall y | y in r[1..]
      ensures !Before(mode, y, r[0])
    {
      var j :| 0 <= j < |r[1..]| && r[1..][j] == y;
      assert r[j + 1] == y;
    }
  }

  lemma {:induction false} InsertSorted(mode: SortMode, x: Book, r: seq<Book>)
    requires Sorted(mode, r)
    ensures Sorted(mode, Insert(mode, x, r))
  {
    if r == [] {
    } else if Before(mode, r[0], x) {
      SortedTail(mode, r);
      InsertSorted(mode, x, r[1..]);
      var q := Insert(mode, x, r[1..]);
      forall y | y in q
        ensures !Before(mode, y, r[0])
      {
        assert y in multiset(q);
        if y == x {
          BeforeAsymmetric(mode, r[0], x);
        } else {
          assert y in r[1..];
        }
      }
      SortedCons(mode, r[0], q);
    } else {
      SortedTail(mode, r);
      forall y | y in r
        ensures !Before(mode, y, x)
      {
        if y != r[0] {
          assert y in r[1..];
          NotBeforeTransitive(mode, y, r[0], x);
        }
      }
      SortedCons(mode, x, r);
    }
  }

  /** Inserting `x` moves it only past records whose keys differ from its
      own, so records that share a key keep `x` first. */
  lemma {:induction false} InsertStable(mode: SortMode, x: Book, r: seq<Book>, k: Key)
    ensures WithKey(mode, Insert(mode, x, r), k) == WithKey(mode, [x] + r, k)
  {
    if r != [] && Before(mode, r[0], x) {
      InsertStable(mode, x, r[1..], k);
      InsertPast(mode, x, r);
      KeyBeforeOrder(mode, KeyOf(mode, x), KeyOf(mode, x), KeyOf(mode, x));
      SwapStable(mode, r[0], x, Insert(mode, x, r[1..]), r[1..], k);
    } else if r != [] {
      assert Insert(mode, x, r) == [x] + r;
    }
  }

  lemma InsertPast(mode: SortMode, x: Book, r: seq<Book>)
    requires r != [] && Before(mode, r[0], x)
    ensures Insert(mode, x, r) == [r[0]] + Insert(mode, x, r[1..])
    ensures [x] + r == [x] + ([r[0]] + r[1..])
  {
    assert r == [r[0]] + r[1..];
  }

  /** A record with another key can pass `b` without changing the order of
      the records with key `k`. */
  lemma SwapStable(mode: SortMode, a: Book, b: Book, q: seq<Book>, t: seq<Book>, k: Key)
    requires KeyOf(mode, a) != KeyOf(mode, b)
    requires WithKey(mode, q, k) == WithKey(mode, [b] + t, k)
    ensures WithKey(mode, [a] + q, k) == WithKey(mode, [b] + ([a] + t), k)
  {
    WithKeyCons(mode, [a] + q, k);
    WithKeyCons(mode, [b] + t, k);
    WithKeyCons(mode, [b] + ([a] + t), k);
    WithKeyCons(mode, [a] + t, k);
    if KeyOf(mode, a) == k {
      assert WithKey(mode, [b] + t, k) == WithKey(mode, t, k);
      assert WithKey(mode, [b] + ([a] + t), k) == WithKey(mode, [a] + t, k);
    } else {
      assert WithKey(mode, [a] + q, k) == WithKey(mode, q, k);
      assert WithKey(mode, [a] + t, k) == WithKey(mode, t, k);
    }
  }

  /** `Sort` orders its input and keeps records with equal keys in input
      order. */
  lemma {:induction false} SortIsStableSort(mode: SortMode, s: seq<Book>)
    ensures Sorted(mode, Sort(mode, s))
    ensures SameKeyOrder(mode, Sort(mode, s), s)
  {
    if s != [] {
      SortIsStableSort(mode, s[1..]);
      var t := Sort(mode, s[1..]);
      InsertSorted(mode, s[0], t);
      forall k
        ensures WithKey(mode, Sort(mode, s), k) == WithKey(mode, s, k)
      {
        InsertStable(mode, s[0], t, k);
        WithKeyCons(mode, [s[0]] + t, k);
        WithKeyCons(mode, s, k);
        assert ([s[0]] + t)[1..] == t;
      }
    }
  }

  /** Two ordered sequences that agree on the order of each key's records
      are equal. */
  lemma {:induction false} SortedSameKeyOrderEqual(mode: SortMode, r: seq<Book>, t: seq<Book>)
    requires Sorted(mode, r) && Sorted(mode, t)
    requires SameKeyOrder(mode, r, t)
    ensures r == t
    decreases |r|
  {
    if r == [] || t == [] {
      SameKeyOrderEmpty(mode, r, t);
    } else {
      SortedHeadsEqual(mode, r, t);
      SameKeyOrderTail(mode, r, t);
      SortedTail(mode, r);
      SortedTail(mode, t);
      SortedSameKeyOrderEqual(mode, r[1..], t[1..]);
      assert r == [r[0]] + r[1..] && t == [t[0]] + t[1..];
    }
  }

  /** Only the empty sequence agrees with the empty sequence on every key. */
  lemma SameKeyOrderEmpty(mode: SortMode, r: seq<Book>, t: seq<Book>)
    requires SameKeyOrder(mode, r, t)
    requires r == [] || t == []
    ensures r == t
  {
    if r != [] {
      WithKeyCons(mode, r, KeyOf(mode, r[0]));
    } else if t != [] {
      WithKeyCons(mode, t, KeyOf(mode, t[0]));
    }
  }

  /** Two ordered sequences that agree on every key's order start with the
      same record. */
  lemma SortedHeadsEqual(mode: SortMode, r: seq<Book>, t: seq<Book>)
    requires r != [] && t != []
    requires Sorted(mode, r) && Sorted(mode, t)
    requires SameKeyOrder(mode, r, t)
    ensures r[0] == t[0]
  {
    var k0, k1 := KeyOf(mode, r[0]), KeyOf(mode, t[0]);
    WithKeyCons(mode, r, k0);
    WithKeyCons(mode, t, k1);
    assert r[0] in WithKey(mode, t, k0);
    var j :| 0 <= j < |t| && t[j] == r[0];
    assert t[0] in WithKey(mode, r, k1);
    var i :| 0 <= i < |r| && r[i] == t[0];
    assert j > 0 ==> !Before(mode, t[j], t[0]);
    assert i > 0 ==> !Before(mode, r[i], r[0]);
    KeyBeforeOrder(mode, k0, k1, k0);
    assert k0 == k1;
    assert r[0] == WithKey(mode, r, k0)[0] == t[0];
  }

  /** Agreement on every key's order survives dropping a common first
      record. */
  lemma SameKeyOrderTail(mode: SortMode, r: seq<Book>, t: seq<Book>)
    requires r != [] && t != [] && r[0] == t[0]
    requires SameKeyOrder(mode, r, t)
    ensures SameKeyOrder(mode, r[1..], t[1..])
  {
    forall k
      ensures WithKey(mode, r[1..], k) == WithKey(mode, t[1..], k)
    {
      WithKeyCons(mode, r, k);
      WithKeyCons(mode, t, k);
      var head := if KeyOf(mode, r[0]) == k then [r[0]] else [];
      assert WithKey(mode, r[1..], k) == WithKey(mode, r, k)[|head|..];
      assert WithKey(mode, t[1..], k) == WithKey(mode, t, k)[|head|..];
    }
  }

  /** `Sort` is the only stable sort: whatever is ordered and keeps equal
      keys in input order is `Sort`'s result. */
  lemma SortUnique(mode: SortMode, s: seq<Book>, r: seq<Book>)
    requires Sorted(mode, r) && SameKeyOrder(mode, r, s)
    ensures r == Sort(mode, s)
  {
    SortIsStableSort(mode, s);
    SortedSameKeyOrderEqual(mode, r, Sort(mode, s));
  }

  /** Sorting an already sorted list changes nothing. */
  lemma SortIdempotent(mode: SortMode, s: seq<Book>)
    ensures Sort(mode, Sort(mode, s)) == Sort(mode, s)
  {
    SortIsStableSort(mode, s);
    SortUnique(mode, Sort(mode, s), Sort(mode, s));
  }

  lemma {:induction false} FilterSorted(mode: SortMode, r: seq<Book>, p: Book -> bool)
    requires Sorted(mode, r)
    ensures Sorted(mode, Filter(r, p))
  {
    if r != [] {
      SortedTail(mode, r);
      FilterSorted(mode, r[1..], p);
      if p(r[0]) {
        SortedCons(mode, r[0], Filter(r[1..], p));
      }
    }
  }

  lemma {:induction false} WithKeyFilter(mode: SortMode, s: seq<Book>, p: Book -> bool, k: Key)
    ensures WithKey(mode, Filter(s, p), k) == Filter(WithKey(mode, s, k), p)
  {
    if s != [] {
      WithKeyFilter(mode, s[1..], p, k);
      var x := s[0];
      if KeyOf(mode, x) == k {
        assert WithKey(mode, s, k) == [x] + WithKey(mode, s[1..], k);
        assert WithKey(mode, s, k)[1..] == WithKey(mode, s[1..], k);
      } else {
        assert WithKey(mode, s, k) == WithKey(mode, s[1..], k);
      }
      if p(x) {
        assert Filter(s, p) == [x] + Filter(s[1..], p);
        assert Filter(s, p)[1..] == Filter(s[1..], p);
      }
    }
  }

  /** Filtering and stable sorting commute: selecting records from the
      sorted list gives the sorted list of the selected records. */
  lemma FilterSortCommute(mode: SortMode, s: seq<Book>, p: Book -> bool)
    ensures Filter(Sort(mode, s), p) == Sort(mode, Filter(s, p))
  {
    var r := Filter(Sort(mode, s), p);
    SortIsStableSort(mode, s);
    FilterSorted(mode, Sort(mode, s), p);
    forall k
      ensures WithKey(mode, r, k) == WithKey(mode, Filter(s, p), k)
    {
      WithKeyFilter(mode, Sort(mode, s), p, k);
      WithKeyFilter(mode, s, p, k);
    }
    SortUnique(mode, Filter(s, p), r);
  }

  function Reverse(s: seq<Book>): (r: seq<Book>)
    ensures |r| == |s|
  {
    if s == [] then [] else Reverse(s[1..]) + [s[0]]
  }

  lemma {:induction false} ReverseAt(s: seq<Book>, i: nat)
    requires i < |s|
    ensures Reverse(s)[i] == s[|s| - 1 - i]
  {
    if i < |s| - 1 {
      ReverseAt(s[1..], i);
    }
  }

  lemma {:induction false} WithKeyAppend(mode: SortMode, a: seq<Book>, b: seq<Book>, k: Key)
    ensures WithKey(mode, a + b, k) == WithKey(mode, a, k) + WithKey(mode, b, k)
  {
    if a == [] {
      assert a + b == b;
    } else {
      WithKeyAppend(mode, a[1..], b, k);
      WithKeyAppendStep(mode, a[0], a[1..], b, k);
      assert a == [a[0]] + a[1..];
    }
  }

  lemma WithKeyAppendStep(mode: SortMode, x: Book, t: seq<Book>, b: seq<Book>, k: Key)
    requires WithKey(mode, t + b, k) == WithKey(mode, t, k) + WithKey(mode, b, k)
    ensures WithKey(mode, [x] + t + b, k) == WithKey(mode, [x] + t, k) + WithKey(mode, b, k)
  {
    assert [x] + t + b == [x] + (t + b);
    WithKeyCons(mode, [x] + (t + b), k);
    WithKeyCons(mode, [x] + t, k);
    var head := if KeyOf(mode, x) == k then [x] else [];
    ConcatAssoc(head, WithKey(mode, t, k), WithKey(mode, b, k));
  }

  lemma ConcatAssoc(x: seq<Book>, y: seq<Book>, z: seq<Book>)
    ensures x + (y + z) == (x + y) + z
  {
  }


  lemma {:induction false} WithKeyReverse(mode: SortMode, s: seq<Book>, k: Key)
    ensures WithKey(mode, Reverse(s), k) == Reverse(WithKey(mode, s, k))
  {
    if s != [] {
      WithKeyReverse(mode, s[1..], k);
      WithKeyAppend(mode, Reverse(s[1..]), [s[0]], k);
      assert [s[0]][1..] == [];
      if KeyOf(mode, s[0]) == k {
        assert WithKey(mode, [s[0]], k) == [s[0]];
        assert WithKey(mode, s, k) == [s[0]] + WithKey(mode, s[1..], k);
        assert WithKey(mode, s, k)[1..] == WithKey(mode, s[1..], k);
      } else {
        assert WithKey(mode, [s[0]], k) == [];
        assert WithKey(mode, s, k) == WithKey(mode, s[1..], k);
      }
    }
  }

  /** No two records have the same title once lower-cased. */
  ghost predicate DistinctTitles(s: seq<Book>) {
    forall i, j :: 0 <= i < j < |s| ==> Lower(s[i].title) != Lower(s[j].title)
  }

  lemma {:induction false} TitleModesSameGroups(s: seq<Book>, k: Key)
    ensures WithKey(TitleDesc, s, k) == WithKey(TitleAsc, s, k)
  {
    if s != [] {
      TitleModesSameGroups(s[1..], k);
      WithKeyCons(TitleDesc, s, k);
      WithKeyCons(TitleAsc, s, k);
    }
  }

  lemma {:induction false} NoneWithKey(mode: SortMode, s: seq<Book>, k: Key)
    requires forall i :: 0 <= i < |s| ==> KeyOf(mode, s[i]) != k
    ensures WithKey(mode, s, k) == []
  {
    if s != [] {
      WithKeyCons(mode, s, k);
      NoneWithKey(mode, s[1..], k);
    }
  }

  lemma {:induction false} DistinctTitlesGroups(s: seq<Book>, k: Key)
    requires DistinctTitles(s)
    ensures |WithKey(TitleAsc, s, k)| <= 1
  {
    if s != [] {
      assert DistinctTitles(s[1..]) by {
        forall i, j | 0 <= i < j < |s[1..]|
          ensures Lower(s[1..][i].title) != Lower(s[1..][j].title)
        {
          assert s[1..][i] == s[i + 1] && s[1..][j] == s[j + 1];
        }
      }
      DistinctTitlesGroups(s[1..], k);
      WithKeyCons(TitleAsc, s, k);
      if KeyOf(TitleAsc, s[0]) == k {
        NoneWithKey(TitleAsc, s[1..], k);
      }
    }
  }

  /** With no two equal titles, "Judul (Z-A)" is exactly "Judul (A-Z)"
      read backwards. */
  lemma TitleDescIsReverse(s: seq<Book>)
    requires DistinctTitles(s)
    ensures Sort(TitleDesc, s) == Reverse(Sort(TitleAsc, s))
  {
    var r := Sort(TitleAsc, s);
    var q := Reverse(r);
    var n := |r|;
    SortIsStableSort(TitleAsc, s);
    forall i, j | 0 <= i < j < n
      ensures !Before(TitleDesc, q[j], q[i])
    {
      ReverseAt(r, i);
      ReverseAt(r, j);
    }
    forall k
      ensures WithKey(TitleDesc, q, k) == WithKey(TitleDesc, s, k)
    {
      TitleModesSameGroups(q, k);
      TitleModesSameGroups(s, k);
      WithKeyReverse(TitleAsc, r, k);
      DistinctTitlesGroups(s, k);
      var g := WithKey(TitleAsc, s, k);
      assert |g| == 0 || g == [g[0]];
    }
    SortUnique(TitleDesc, s, q);
  }

  /** With two records of the same title, "Judul (Z-A)" keeps them in input
      order like "Judul (A-Z)" does, so it is not the reverse of it. */
  lemma TiedTitlesNotReversed(a: Book, b: Book)
    requires a != b && a.title == b.title
    ensures Sort(TitleAsc, [a, b]) == [a, b]
    ensures Sort(TitleDesc, [a, b]) == [a, b]
    ensures Sort(TitleDesc, [a, b]) != Reverse(Sort(TitleAsc, [a, b]))
  {
    var k := KeyOf(TitleAsc, a);
    KeyBeforeOrder(TitleAsc, k, k, k);
    KeyBeforeOrder(TitleDesc, k, k, k);
    assert [a, b][1..] == [b];
    assert Sort(TitleAsc, [b]) == [b];
    assert Sort(TitleDesc, [b]) == [b];
    assert Reverse([a, b]) == [b, a] by {
      assert [a, b][1..] == [b];
      assert Reverse([b]) == [b];
    }
  }
}
