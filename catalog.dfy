/** The catalog file and the pages that change it: the reader (which
    counts a view), the add page, and the edit and delete buttons of the
    management page. Each page loads the whole list, changes it, and writes
    the whole list back; the class `Catalog` holds that list. */
module CatalogStore {
  import opened Text
  import opened Books
  import opened Sorting
  import opened Query
  import Stats

  /** What `load_books` can find on disk. */
  datatype StoredFile = Missing | Unparsable | Parsed(records: seq<Book>)

  /** The result of pressing the delete button. */
  datatype DeleteOutcome = NotConfirmed | Deleted(cleanupWarning: bool)

  // ---------------------------------------------------------------------
  // Viewing a book

  predicate HasIdentity(b: Book, title: string, author: string) {
    b.title == title && b.author == author
  }

  /** The index of the first record with this title and author, if any. */
  function FirstMatch(books: seq<Book>, title: string, author: string): (r: Option<nat>)
    ensures r.Some? ==> r.value < |books| && HasIdentity(books[r.value], title, author)
    ensures r.Some? ==> forall j :: 0 <= j < r.value ==> !HasIdentity(books[j], title, author)
    ensures r.None? ==> forall j :: 0 <= j < |books| ==> !HasIdentity(books[j], title, author)
  {
    if books == [] then None
    else if HasIdentity(books[0], title, author) then Some(0)
    else
      match FirstMatch(books[1..], title, author)
      case None => None
      case Some(i) => Some(i + 1)
  }

  /** The reader's copy of the selected record after it counted a view:
      `book.get("view_count", 0) + 1`. */
  function Viewed(selected: Book): (r: Book)
    ensures Views(r) == Views(selected) + 1
    ensures r.(viewCount := selected.viewCount) == selected
  {
    selected.(viewCount := Some(Views(selected) + 1))
  }

  /** The catalog the reader writes back: the first record with the
      selected record's title and author takes the reader's new count. */
  function AfterView(books: seq<Book>, selected: Book): (r: seq<Book>)
    ensures |r| == |books|
  {
    var m := FirstMatch(books, selected.title, selected.author);
    if m.None? then books
    else books[m.value := books[m.value].(viewCount := Viewed(selected).viewCount)]
  }

  /** Counting a view changes at most one record, the first with the
      selected title and author, and in it only the view count, which
      becomes the selected record's count plus one; with no such record the
      catalog is written back unchanged. */
  lemma AfterViewChangesOnlyFirstMatch(books: seq<Book>, selected: Book)
    ensures |AfterView(books, selected)| == |books|
    ensures forall j :: 0 <= j < |books| && AfterView(books, selected)[j] != books[j] ==>
                          FirstMatch(books, selected.title, selected.author) == Some(j)
    ensures forall j :: 0 <= j < |books| ==>
                          AfterView(books, selected)[j].(viewCount := books[j].viewCount) == books[j]
    ensures FirstMatch(books, selected.title, selected.author).Some? ==>
              Views(AfterView(books, selected)[FirstMatch(books, selected.title, selected.author).value])
              == Views(selected) + 1
    ensures FirstMatch(books, selected.title, selected.author).None? ==> AfterView(books, selected) == books
  {
  }

  /** The sum of the view counts of a catalog. */
  function TotalViews(books: seq<Book>): int {
    if books == [] then 0 else Views(books[0]) + TotalViews(books[1..])
  }

  lemma {:induction false} TotalViewsUpdate(books: seq<Book>, i: nat, b: Book)
    requires i < |books|
    ensures TotalViews(books[i := b]) == TotalViews(books) - Views(books[i]) + Views(b)
  {
    if i > 0 {
      TotalViewsUpdate(books[1..], i - 1, b);
      assert books[i := b][1..] == books[1..][i - 1 := b];
    } else {
      assert books[i := b][1..] == books[1..];
    }
  }

  /** When the reader shows the record the catalog holds first under its
      title and author, the catalog gains exactly one view. */
  lemma ViewOfStoredRecordAddsOne(books: seq<Book>, i: nat)
    requires i < |books|
    requires FirstMatch(books, books[i].title, books[i].author) == Some(i)
    ensures TotalViews(AfterView(books, books[i])) == TotalViews(books) + 1
    ensures Views(AfterView(books, books[i])[i]) == Views(books[i]) + 1
  {
    AfterViewOfStored(books, i);
    TotalViewsUpdate(books, i, Viewed(books[i]));
  }

  lemma AfterViewOfStored(books: seq<Book>, i: nat)
    requires i < |books|
    requires FirstMatch(books, books[i].title, books[i].author) == Some(i)
    ensures AfterView(books, books[i]) == books[i := Viewed(books[i])]
  {
  }

  /** The reader copies its own count: when the selected record is a later
      duplicate of an earlier one, the earlier record's count is replaced
      by the selected record's count plus one, and the selected record
      keeps its own count. */
  lemma ViewOfDuplicateCopiesCount(a: Book, b: Book)
    requires HasIdentity(a, b.title, b.author)
    ensures AfterView([a, b], b) == [a.(viewCount := Some(Views(b) + 1)), b]
  {
  }

  /** Counting a view touches no title, author, category or file, so the
      category choices and the statistics are unchanged. */
  lemma AfterViewKeepsCategories(books: seq<Book>, selected: Book)
    ensures Stats.Labels(AfterView(books, selected)) == Stats.Labels(books)
    ensures Stats.CategoryChoices(AfterView(books, selected)) == Stats.CategoryChoices(books)
  {
    var r := AfterView(books, selected);
    AfterViewChangesOnlyFirstMatch(books, selected);
    assert |Stats.Labels(r)| == |Stats.Labels(books)|;
    forall j | 0 <= j < |books|
      ensures Stats.Labels(r)[j] == Stats.Labels(books)[j]
    {
      Stats.LabelsAt(r, j);
      Stats.LabelsAt(books, j);
      assert r[j].category == books[j].category;
    }
  }

  // ---------------------------------------------------------------------
  // Adding a book

  /** The record the add page appends: files named after the title, the
      chosen category, and no view count key. */
  function NewRecord(title: string, author: string, category: string): (r: Book)
    ensures HasIdentity(r, title, author) && r.category == Some(category)
    ensures r.viewCount == None && Views(r) == 0
  {
    var base := FileBase(title);
    Book(title, author, base + ".pdf", base + ".jpg", Some(category), None)
  }

  /** Both files of a new record are stored under one name without spaces,
      distinguished only by the extension, and the record starts unread. */
  lemma NewRecordFiles(title: string, author: string, category: string)
    ensures var r := NewRecord(title, author, category);
      |r.file| == |r.cover| == |title| + 4 &&
      r.file[..|title|] == r.cover[..|title|] &&
      r.file[|title|..] == ".pdf" && r.cover[|title|..] == ".jpg" &&
      ' ' !in r.file && ' ' !in r.cover && Views(r) == 0
  {
    FileBaseShape(title);
    var base := FileBase(title);
    assert (base + ".pdf")[..|title|] == base;
    assert (base + ".jpg")[..|title|] == base;
  }

  /** After adding a book, searching its title under "Semua" or under its
      own category, in any order, lists it. */
  lemma AddedRecordIsFound(books: seq<Book>, title: string, author: string, category: string, mode: SortMode)
    ensures NewRecord(title, author, category) in
              HomeList(books + [NewRecord(title, author, category)], AllCategories, mode, title)
    ensures NewRecord(title, author, category) in
              HomeList(books + [NewRecord(title, author, category)], category, mode, title)
  {
    var rec := NewRecord(title, author, category);
    var s := books + [rec];
    ContainsSelfAndEmpty(title, title);
    TitleFindsRecord(rec, title);
    assert rec in multiset(s);
    HomeListIsSortedSelection(s, AllCategories, mode, title);
    HomeListIsSortedSelection(s, category, mode, title);
    assert Listed(rec, category, title);
    assert multiset(HomeList(s, category, mode, title))[rec] > 0;
    assert multiset(HomeList(s, AllCategories, mode, title))[rec] > 0;
  }

  /** A new record whose title and author no earlier record has is found
      by the reader at the end of the catalog, and its first view sets its
      count to 1. */
  lemma AddedRecordFirstView(books: seq<Book>, title: string, author: string, category: string)
    requires FirstMatch(books, title, author) == None
    ensures FirstMatch(books + [NewRecord(title, author, category)], title, author) == Some(|books|)
    ensures AfterView(books + [NewRecord(title, author, category)], NewRecord(title, author, category))[|books|].viewCount
            == Some(1)
  {
    FirstMatchAppend(books, NewRecord(title, author, category), title, author);
  }

  /** Appending a record keeps an existing first match; otherwise the
      appended record is the first match if it has the title and author. */
  lemma {:induction false} FirstMatchAppend(books: seq<Book>, x: Book, title: string, author: string)
    ensures FirstMatch(books + [x], title, author) ==
              if FirstMatch(books, title, author).Some? then FirstMatch(books, title, author)
              else if HasIdentity(x, title, author) then Some(|books|)
              else None
  {
    if books != [] {
      assert (books + [x])[1..] == books[1..] + [x];
      FirstMatchAppend(books[1..], x, title, author);
    } else {
      assert [] + [x] == [x];
    }
  }

  // ---------------------------------------------------------------------
  // Editing a book

  /** The record after "Simpan Perubahan": title, author and category are
      overwritten; cover and file move to the new title's name only when a
      new one was uploaded; the view count is kept. */
  function Edited(b: Book, title: string, author: string, category: string,
                  newCover: bool, newFile: bool): (r: Book)
    ensures HasIdentity(r, title, author) && r.category == Some(category)
    ensures r.viewCount == b.viewCount
  {
    var base := FileBase(title);
    b.(title := title, author := author, category := Some(category),
       cover := if newCover then base + ".jpg" else b.cover,
       file := if newFile then base + ".pdf" else b.file)
  }

  /** An edit keeps the view count; each of cover and PDF moves to the name
      the add page would give it exactly when a new one was uploaded, and
      otherwise stays where it was; with both uploaded the record is the add
      page's, apart from the count. */
  lemma EditedRelatesToNewRecord(b: Book, title: string, author: string, category: string)
    ensures Edited(b, title, author, category, true, true)
            == NewRecord(title, author, category).(viewCount := b.viewCount)
    ensures Edited(b, title, author, category, false, false).(title := b.title, author := b.author,
              category := b.category) == b
    ensures forall nc: bool, nf: bool :: Views(Edited(b, title, author, category, nc, nf)) == Views(b)
    ensures forall nc: bool, nf: bool ::
              Edited(b, title, author, category, nc, nf).cover ==
                (if nc then NewRecord(title, author, category).cover else b.cover) &&
              Edited(b, title, author, category, nc, nf).file ==
                (if nf then NewRecord(title, author, category).file else b.file)
  {
  }

  /** Saving the same form twice changes nothing the second time. */
  lemma EditedIdempotent(b: Book, title: string, author: string, category: string, newCover: bool, newFile: bool)
    ensures var e := Edited(b, title, author, category, newCover, newFile);
      Edited(e, title, author, category, newCover, newFile) == e
  {
  }

  /** Saving the form as shown, without uploads, leaves the record alone
      exactly when it already had that category key. */
  lemma EditedUnchangedIff(b: Book, category: string)
    ensures Edited(b, b.title, b.author, category, false, false) == b <==> b.category == Some(category)
  {
    if b.category != Some(category) {
      assert Edited(b, b.title, b.author, category, false, false).category != b.category;
    }
  }

  // ---------------------------------------------------------------------
  // The management page

  /** The eight categories the edit form offers. */
  const EditCategories := ["Fiksi", "Non-Fiksi", "Sains", "Teknologi", "Biografi", "Sejarah", "Religi", "Lainnya"]

  /** The management page draws one form per record, in catalog order. The
      form preselects the record's category with `list.index`, which raises
      for a category outside the eight and ends the page there. So the edit
      and delete buttons of the record at `idx` exist exactly when no record
      up to and including it has such a category. */
  predicate FormShown(books: seq<Book>, idx: nat) {
    idx < |books| && forall j :: 0 <= j <= idx ==> Stats.Label(books[j]) in EditCategories
  }

  /** One record with a category outside the eight hides its own form and
      every later one. */
  lemma StrayCategoryHidesLaterForms(books: seq<Book>, j: nat, idx: nat)
    requires j <= idx < |books| && Stats.Label(books[j]) !in EditCategories
    ensures !FormShown(books, idx)
  {
  }

  /** A catalog built by the add page, whose category box offers the same
      eight categories, has every form shown, and stays so after one more
      record is added. */
  lemma AddedRecordsKeepFormsShown(books: seq<Book>, title: string, author: string, category: string)
    requires forall idx :: 0 <= idx < |books| ==> FormShown(books, idx)
    requires category in EditCategories
    ensures forall idx :: 0 <= idx <= |books| ==>
              FormShown(books + [NewRecord(title, author, category)], idx)
  {
    var s := books + [NewRecord(title, author, category)];
    forall idx | 0 <= idx <= |books|
      ensures FormShown(s, idx)
    {
      forall j | 0 <= j <= idx
        ensures Stats.Label(s[j]) in EditCategories
      {
        if j < |books| {
          assert FormShown(books, j);
          assert s[j] == books[j];
        }
      }
    }
  }

  // ---------------------------------------------------------------------
  // Deleting a book

  /** `books.pop(idx)` */
  function Without(books: seq<Book>, idx: nat): (r: seq<Book>)
    requires idx < |books|
    ensures |r| == |books| - 1
  {
    books[..idx] + books[idx + 1..]
  }

  /** Deleting removes exactly the record at `idx`: one record fewer, the
      records before it in place, the records after it one place earlier. */
  lemma WithoutSpec(books: seq<Book>, idx: nat)
    requires idx < |books|
    ensures |Without(books, idx)| == |books| - 1
    ensures forall j :: 0 <= j < idx ==> Without(books, idx)[j] == books[j]
    ensures forall j :: idx <= j < |books| - 1 ==> Without(books, idx)[j] == books[j + 1]
    ensures multiset(Without(books, idx)) + multiset{books[idx]} == multiset(books)
  {
    assert books == books[..idx] + [books[idx]] + books[idx + 1..];
  }

  /** Putting the deleted record back where it was restores the catalog. */
  lemma WithoutReinsert(books: seq<Book>, idx: nat)
    requires idx < |books|
    ensures Without(books, idx)[..idx] + [books[idx]] + Without(books, idx)[idx..] == books
  {
    var w := Without(books, idx);
    assert w[..idx] == books[..idx];
    assert w[idx..] == books[idx + 1..];
  }

  // ---------------------------------------------------------------------
  // The catalog file

  class Catalog {
    /** The list of records `books.json` holds. */
    var books: seq<Book>

    /** `load_books()`: a missing or unreadable file is an empty catalog. */
    constructor Load(stored: StoredFile)
      ensures books == if stored.Parsed? then stored.records else []
    {
      match stored
      case Parsed(records) => books := records;
      case _ => books := [];
    }

    /** `show_book_reader`: unless this reading session already counted a
        view, the selected record's count goes up by one, the first stored
        record with its title and author takes that count, and the list is
        saved. Returns the reader's copy and the session flag. */
    method OpenReader(selected: Book, viewTracked: bool) returns (shown: Book, tracked: bool)
      modifies this
      ensures tracked
      ensures viewTracked ==> shown == selected && books == old(books)
      ensures !viewTracked ==> shown == Viewed(selected) && books == AfterView(old(books), selected)
    {
      if viewTracked {
        return selected, true;
      }
      shown := Viewed(selected);
      var loaded := books;
      var i := 0;
      while i < |loaded|
        invariant 0 <= i <= |loaded|
        invariant loaded == old(books)
        invariant forall j :: 0 <= j < i ==> !HasIdentity(loaded[j], shown.title, shown.author)
      {
        if loaded[i].title == shown.title && loaded[i].author == shown.author {
          assert FirstMatch(loaded, selected.title, selected.author) == Some(i) by {
            var m := FirstMatch(loaded, selected.title, selected.author);
            assert m.Some? && m.value <= i;
          }
          loaded := loaded[i := loaded[i].(viewCount := shown.viewCount)];
          break;
        }
        i := i + 1;
      }
      books := loaded;
      tracked := true;
    }

    /** `add_book_page`, "Simpan Buku": with a title, an author, a PDF and a
        cover the new record is appended and the list saved; otherwise
        nothing changes. */
    method AddBook(title: string, author: string, pdfUploaded: bool, coverUploaded: bool,
                   category: string) returns (added: bool)
      modifies this
      ensures added == (title != "" && author != "" && pdfUploaded && coverUploaded)
      ensures books == if added then old(books) + [NewRecord(title, author, category)] else old(books)
    {
      if !(title != "" && author != "" && pdfUploaded && coverUploaded) {
        return false;
      }
      var base := FileBase(title);
      books := books + [Book(title, author, base + ".pdf", base + ".jpg", Some(category), None)];
      added := true;
    }

    /** `kelola_buku_page`, "Simpan Perubahan" on the record at `idx`. */
    method UpdateBook(idx: nat, title: string, author: string, category: string,
                      newCover: bool, newFile: bool)
      requires FormShown(books, idx)
      modifies this
      ensures books == old(books)[idx := Edited(old(books)[idx], title, author, category, newCover, newFile)]
    {
      var book := books[idx];
      var base := FileBase(title);
      if newCover {
        book := book.(cover := base + ".jpg");
      }
      if newFile {
        book := book.(file := base + ".pdf");
      }
      book := book.(title := title, author := author, category := Some(category));
      books := books[idx := book];
    }

    /** `kelola_buku_page`, "Hapus Buku" on the record at `idx`: nothing
        without the confirmation box; with it, the record is removed and the
        list saved even when removing its files failed, which is reported
        as a warning. */
    method DeleteBook(idx: nat, confirmed: bool, cleanupFails: bool) returns (outcome: DeleteOutcome)
      requires FormShown(books, idx)
      modifies this
      ensures !confirmed ==> outcome == NotConfirmed && books == old(books)
      ensures confirmed ==> outcome == Deleted(cleanupFails) && books == Without(old(books), idx)
    {
      if !confirmed {
        return NotConfirmed;
      }
      books := books[..idx] + books[idx + 1..];
      outcome := Deleted(cleanupFails);
    }
  }
}
