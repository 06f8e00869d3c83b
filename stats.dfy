/** The statistics page's count of books per category, and the category
    choices offered on the homepage. Both read a missing category as
    "Lainnya". */
module Stats {
  import opened Text
  import opened Books
  import Query

  const DefaultCategory := "Lainnya"

  /** `book.get('category', 'Lainnya')` */
  function Label(b: Book): string {
    CategoryOr(b, DefaultCategory)
  }

  /** The label of every book, in catalog order. */
  function Labels(books: seq<Book>): (r: seq<string>)
    ensures |r| == |books|
  {
    if books == [] then []
    else Labels(books[..|books| - 1]) + [Label(books[|books| - 1])]
  }

  lemma {:induction false} LabelsAt(books: seq<Book>, i: nat)
    requires i < |books|
    ensures Labels(books)[i] == Label(books[i])
  {
    if i < |books| - 1 {
      LabelsAt(books[..|books| - 1], i);
    }
  }

  /** The labels in order of first appearance, each once: the key order of
      the dictionary the statistics page builds. */
  function Distinct(ls: seq<string>): (r: seq<string>)
    ensures forall c :: c in r <==> c in ls
    ensures NoDuplicates(r)
  {
    if ls == [] then []
    else
      var d := Distinct(ls[..|ls| - 1]);
      assert ls == ls[..|ls| - 1] + [ls[|ls| - 1]];
      if ls[|ls| - 1] in d then d else d + [ls[|ls| - 1]]
  }

  predicate NoDuplicates(ls: seq<string>) {
    forall i, j :: 0 <= i < j < |ls| ==> ls[i] != ls[j]
  }

  /** The sum of the counts of the given keys; a key without a count adds
      nothing. */
  function SumCounts(keys: seq<string>, counts: map<string, nat>): nat {
    if keys == [] then 0
    else SumCounts(keys[..|keys| - 1], counts)
         + (if keys[|keys| - 1] in counts then counts[keys[|keys| - 1]] else 0)
  }

  /** Counts of keys outside the list do not enter the sum. */
  lemma {:induction false} SumCountsOther(keys: seq<string>, counts: map<string, nat>, c: string, n: nat)
    requires c !in keys
    ensures SumCounts(keys, counts[c := n]) == SumCounts(keys, counts)
  {
    if keys != [] {
      SumCountsOther(keys[..|keys| - 1], counts, c, n);
    }
  }

  /** Adding one to the count of a key that the list holds once adds one to
      the sum. */
  lemma {:induction false} SumCountsBump(keys: seq<string>, counts: map<string, nat>, c: string)
    requires NoDuplicates(keys) && c in keys && c in counts
    ensures SumCounts(keys, counts[c := counts[c] + 1]) == SumCounts(keys, counts) + 1
  {
    var init, last := keys[..|keys| - 1], keys[|keys| - 1];
    assert keys == init + [last];
    if last == c {
      assert c !in init;
      SumCountsOther(init, counts, c, counts[c] + 1);
    } else {
      assert c in init;
      SumCountsBump(init, counts, c);
    }
  }

  /** What the counting loop keeps true after reading the labels `seen`:
      the keys are the labels seen, each count is its label's number of
      occurrences, the key order is first appearance, and the counts add up
      to the number of labels seen. */
  ghost predicate Counted(seen: seq<string>, counts: map<string, nat>, order: seq<string>) {
    (forall c :: c in counts <==> c in seen) &&
    (forall c :: c in counts ==> counts[c] == multiset(seen)[c] && counts[c] >= 1) &&
    order == Distinct(seen) && NoDuplicates(order) &&
    SumCounts(order, counts) == |seen|
  }

  /** The loop of `render_stats`: one pass over the catalog that adds one
      to the count of each book's category, creating the key on first
      sight. Every category of the catalog gets a key, every key counts the
      books of its category, no count is zero, and the counts add up to the
      number of books. */
  method CountByCategory(books: seq<Book>) returns (counts: map<string, nat>, order: seq<string>)
    ensures forall c :: c in counts <==> c in Labels(books)
    ensures forall c :: c in counts ==> counts[c] == multiset(Labels(books))[c] && counts[c] >= 1
    ensures order == Distinct(Labels(books)) && NoDuplicates(order)
    ensures SumCounts(order, counts) == |books|
  {
    counts, order := map[], [];
    ghost var seen: seq<string> := [];
    var i := 0;
    while i < |books|
      invariant 0 <= i <= |books|
      invariant seen == Labels(books[..i])
      invariant Counted(seen, counts, order)
    {
      var category := Label(books[i]);
      ghost var counts0, order0 := counts, order;
      if category in counts {
        counts := counts[category := counts[category] + 1];
      } else {
        order := order + [category];
        counts := counts[category := 1];
      }
      CountStep(seen, category, counts0, order0, counts, order);
      LabelsSnoc(books, i);
      seen := seen + [category];
      i := i + 1;
    }
    assert books[..i] == books;
  }

  /** What one turn of the counting loop keeps true. */
  lemma CountStep(seen: seq<string>, x: string,
                  counts: map<string, nat>, order: seq<string>,
                  counts': map<string, nat>, order': seq<string>)
    requires Counted(seen, counts, order)
    requires counts' == counts[x := if x in counts then counts[x] + 1 else 1]
    requires order' == if x in counts then order else order + [x]
    ensures Counted(seen + [x], counts', order')
  {
    CountStepCounts(seen, x, counts);
    CountStepOrder(seen, x, order);
    CountStepSum(order, counts, x);
    assert SumCounts(order', counts') == |seen + [x]|;
  }

  lemma CountStepSum(order: seq<string>, counts: map<string, nat>, x: string)
    requires NoDuplicates(order) && forall c :: c in counts <==> c in order
    ensures SumCounts(if x in counts then order else order + [x],
                      counts[x := if x in counts then counts[x] + 1 else 1])
            == SumCounts(order, counts) + 1
  {
    if x in counts {
      SumCountsBump(order, counts, x);
    } else {
      SumCountsOther(order, counts, x, 1);
    }
  }

  lemma CountStepOrder(seen: seq<string>, x: string, order: seq<string>)
    requires order == Distinct(seen) && NoDuplicates(order)
    ensures var order' := if x in seen then order else order + [x];
      order' == Distinct(seen + [x]) && NoDuplicates(order')
  {
    DistinctSnoc(seen, x);
  }

  lemma CountStepCounts(seen: seq<string>, x: string, counts: map<string, nat>)
    requires forall c :: c in counts <==> c in seen
    requires forall c :: c in counts ==> counts[c] == multiset(seen)[c] && counts[c] >= 1
    ensures var counts' := counts[x := if x in counts then counts[x] + 1 else 1];
      (forall c :: c in counts' <==> c in seen + [x]) &&
      (forall c :: c in counts' ==> counts'[c] == multiset(seen + [x])[c] && counts'[c] >= 1)
  {
    assert multiset(seen + [x]) == multiset(seen) + multiset{x};
  }

  lemma LabelsSnoc(books: seq<Book>, i: nat)
    requires i < |books|
    ensures Labels(books[..i + 1]) == Labels(books[..i]) + [Label(books[i])]
  {
    assert books[..i + 1][..i] == books[..i];
  }

  lemma DistinctSnoc(ls: seq<string>, x: string)
    ensures Distinct(ls + [x]) == if x in ls then Distinct(ls) else Distinct(ls) + [x]
  {
    assert (ls + [x])[..|ls|] == ls;
  }

  /** `x` is placed in the strictly increasing list `r`, unless it is
      already there. */
  function InsertUnique(x: string, r: seq<string>): (q: seq<string>)
    ensures forall c :: c in q <==> c == x || c in r
  {
    if r == [] then [x]
    else if x == r[0] then r
    else if StrLess(x, r[0]) then [x] + r
    else [r[0]] + InsertUnique(x, r[1..])
  }

  /** `sorted(set(ls))` */
  function SortedDistinct(ls: seq<string>): (r: seq<string>)
    ensures forall c :: c in r <==> c in ls
  {
    if ls == [] then [] else InsertUnique(ls[0], SortedDistinct(ls[1..]))
  }

  predicate Increasing(r: seq<string>) {
    forall i, j :: 0 <= i < j < |r| ==> StrLess(r[i], r[j])
  }

  lemma {:induction false} InsertUniqueIncreasing(x: string, r: seq<string>)
    requires Increasing(r)
    ensures Increasing(InsertUnique(x, r))
  {
    if r != [] && x != r[0] {
      if StrLess(x, r[0]) {
        var q := [x] + r;
        forall i, j | 0 <= i < j < |q|
          ensures StrLess(q[i], q[j])
        {
          if i == 0 && j > 1 {
            StrLessTransitive(x, r[0], r[j - 1]);
          }
        }
      } else {
        StrLessTotal(x, r[0]);
        InsertUniqueIncreasing(x, r[1..]);
        var q := [r[0]] + InsertUnique(x, r[1..]);
        forall i, j | 0 <= i < j < |q|
          ensures StrLess(q[i], q[j])
        {
          if i == 0 {
            assert q[j] in InsertUnique(x, r[1..]);
            if q[j] != x {
              var k :| 0 <= k < |r[1..]| && r[1..][k] == q[j];
              assert r[k + 1] == q[j];
            }
          }
        }
      }
    }
  }

  /** The category choices: "Semua", then every category label of the
      catalog once, in increasing order. */
  function CategoryChoices(books: seq<Book>): (r: seq<string>)
    ensures |r| >= 1 && r[0] == Query.AllCategories
    ensures forall c :: c in r[1..] <==> c in Labels(books)
  {
    [Query.AllCategories] + SortedDistinct(Labels(books))
  }

  /** The choices after "Semua" are increasing, hence free of duplicates,
      and are exactly the catalog's labels; those are exactly the keys the
      statistics page counts. */
  lemma {:induction false} CategoryChoicesSpec(books: seq<Book>)
    ensures CategoryChoices(books)[0] == Query.AllCategories
    ensures Increasing(CategoryChoices(books)[1..])
    ensures forall c :: c in CategoryChoices(books)[1..] <==> c in Labels(books)
    ensures forall c :: c in CategoryChoices(books)[1..] <==> c in Distinct(Labels(books))
  {
    SortedDistinctIncreasing(Labels(books));
    assert CategoryChoices(books)[1..] == SortedDistinct(Labels(books));
  }

  lemma {:induction false} SortedDistinctIncreasing(ls: seq<string>)
    ensures Increasing(SortedDistinct(ls))
  {
    if ls != [] {
      SortedDistinctIncreasing(ls[1..]);
      InsertUniqueIncreasing(ls[0], SortedDistinct(ls[1..]));
    }
  }

  /** Two increasing lists with the same elements are equal. */
  lemma {:induction false} IncreasingUnique(r: seq<string>, t: seq<string>)
    requires Increasing(r) && Increasing(t)
    requires forall c :: c in r <==> c in t
    ensures r == t
  {
    assert r != [] ==> r[0] in t;
    assert t != [] ==> t[0] in r;
    if r != [] && t != [] {
      assert r[0] in r && t[0] in t;
      var j :| 0 <= j < |t| && t[j] == r[0];
      var i :| 0 <= i < |r| && r[i] == t[0];
      StrLessIrreflexive(r[0]);
      if i > 0 && j > 0 {
        StrLessAsymmetric(r[0], r[i]);
      }
      assert j == 0;
      IncreasingTail(r);
      IncreasingTail(t);
      IncreasingUnique(r[1..], t[1..]);
      assert r == [r[0]] + r[1..] && t == [t[0]] + t[1..];
    }
  }

  /** The tail of an increasing list holds the other elements. */
  lemma IncreasingTail(r: seq<string>)
    requires Increasing(r) && r != []
    ensures forall c :: c in r[1..] <==> c in r && c != r[0]
  {
    StrLessIrreflexive(r[0]);
    forall c | c in r[1..]
      ensures c != r[0]
    {
      var k :| 0 <= k < |r| - 1 && r[1..][k] == c;
      assert StrLess(r[0], r[k + 1]);
    }
    assert r == [r[0]] + r[1..];
  }

  /** `sorted(set(ls))` is the one increasing list holding exactly the
      elements of `ls`. */
  lemma SortedDistinctUnique(ls: seq<string>, r: seq<string>)
    requires Increasing(r) && forall c :: c in r <==> c in ls
    ensures r == SortedDistinct(ls)
  {
    SortedDistinctIncreasing(ls);
    IncreasingUnique(r, SortedDistinct(ls));
  }
}
