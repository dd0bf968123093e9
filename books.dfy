/** The books service: an in-memory, process-lifetime list of book records
    (`BOOKS`) behind CRUD endpoints, with no authentication. Every handler
    scans the list linearly; `create_book`, `update_book` and
    `delete_book_by_id` change it in place. */
module Books {

  import opened Http
  import opened Validation

  /** A stored book. Ids in the list are always integers: the seed data has
      them, `create_book` assigns one, and `update_book` only stores a request
      whose id equals the id it replaces. */
  datatype Book = Book(
    id: int,
    title: string,
    author: string,
    description: string,
    rating: int,
    publishedDate: Option<int>)

  /** The request body of `create_book` and `update_book`; its id is optional
      (`None` by default) and is ignored on create. */
  datatype BookRequest = BookRequest(
    id: Option<int>,
    title: string,
    author: string,
    description: string,
    rating: int,
    publishedDate: Option<int>)

  const TitleRule := LengthRule(3, None)
  const AuthorRule := LengthRule(3, None)
  const DescriptionRule := LengthRule(1, Some(100))

  /** The `Field` constraints of `BookRequest`, checked before any handler runs. */
  predicate ValidBookRequest(req: BookRequest)
  {
    && FitsLength(req.title, TitleRule)
    && FitsLength(req.author, AuthorRule)
    && FitsLength(req.description, DescriptionRule)
    && FitsRange(req.rating, OneToFive)
  }

  lemma BookRequestConstraints(req: BookRequest)
    ensures ValidBookRequest(req) <==>
      && |req.title| >= 3
      && |req.author| >= 3
      && 1 <= |req.description| <= 100
      && 1 <= req.rating <= 5
  {
  }

  /** `Book(**request.model_dump())` with the id then set to `id`. */
  function FromRequest(req: BookRequest, id: int): (b: Book)
  {
    Book(id, req.title, req.author, req.description, req.rating, req.publishedDate)
  }

  // ---------------------------------------------------------------------------
  // Specification of lookups

  predicate HasId(books: seq<Book>, id: int)
  {
    exists k :: 0 <= k < |books| && books[k].id == id
  }

  /** `k` is the position a front-to-back scan for `id` stops at. */
  predicate IsFirstIndex(books: seq<Book>, id: int, k: int)
  {
    && 0 <= k < |books|
    && books[k].id == id
    && forall j :: 0 <= j < k ==> books[j].id != id
  }

  /** Every id is positive and ids strictly increase along the list. The seed
      list (ids 1 to 10) has this shape and every handler keeps it. */
  ghost predicate IdsIncreasing(books: seq<Book>)
  {
    && (forall i :: 0 <= i < |books| ==> books[i].id > 0)
    && (forall i, j :: 0 <= i < j < |books| ==> books[i].id < books[j].id)
  }

  /** With increasing ids a book's id identifies its position: the first
      match of a scan is the only match. */
  lemma FirstIndexIsOnlyIndex(books: seq<Book>, id: int, k: int)
    requires IdsIncreasing(books)
    requires 0 <= k < |books| && books[k].id == id
    ensures IsFirstIndex(books, id, k)
    ensures forall j :: 0 <= j < |books| && j != k ==> books[j].id != id
  {
  }

  /** The id `find_id_book` hands out: one more than the last book's, or 1 for
      an empty list. On a list with increasing ids this is the maximum id plus
      one, so it is fresh. */
  function NextId(books: seq<Book>): (id: int)
    ensures IdsIncreasing(books) ==> id > 0
    ensures IdsIncreasing(books) ==> forall j :: 0 <= j < |books| ==> books[j].id < id
    ensures IdsIncreasing(books) ==> !HasId(books, id)
    ensures books != [] ==> HasId(books, id - 1)
  {
    if |books| == 0 then 1 else books[|books| - 1].id + 1
  }

  lemma AppendNextIdKeepsIdsIncreasing(books: seq<Book>, b: Book)
    requires IdsIncreasing(books)
    requires b.id == NextId(books)
    ensures IdsIncreasing(books + [b])
  {
  }

  lemma RemoveKeepsIdsIncreasing(books: seq<Book>, k: int)
    requires IdsIncreasing(books)
    requires 0 <= k < |books|
    ensures IdsIncreasing(books[..k] + books[k + 1..])
  {
  }

  lemma ReplaceKeepsIdsIncreasing(books: seq<Book>, k: int, b: Book)
    requires IdsIncreasing(books)
    requires 0 <= k < |books| && b.id == books[k].id
    ensures IdsIncreasing(books[k := b])
  {
  }

  // ---------------------------------------------------------------------------
  // Specification of the filters

  /** The two filter endpoints: rating equal to the query, or published date
      equal to the path value (a book with no date matches no year). */
  datatype Criterion = RatingIs(rating: int) | PublishedIn(year: int)

  predicate Satisfies(b: Book, c: Criterion)
  {
    match c
    case RatingIs(r) => b.rating == r
    case PublishedIn(y) => b.publishedDate == Some(y)
  }

  /** The books of `s` that satisfy `c`, in the order of `s`: what an append
      loop over the list builds. */
  function Select(s: seq<Book>, c: Criterion): (r: seq<Book>)
  {
    if s == [] then []
    else Select(s[..|s| - 1], c) + (if Satisfies(s[|s| - 1], c) then [s[|s| - 1]] else [])
  }

  /** A book is selected exactly when it is in the list and satisfies the criterion. */
  lemma {:induction false} SelectMembership(s: seq<Book>, c: Criterion, b: Book)
    ensures b in Select(s, c) <==> b in s && Satisfies(b, c)
  {
    if s != [] {
      var init := s[..|s| - 1];
      SelectMembership(init, c, b);
      assert s == init + [s[|s| - 1]];
    }
  }

  /** Selecting distributes over concatenation: the filter keeps list order. */
  lemma {:induction false} SelectAppend(a: seq<Book>, b: seq<Book>, c: Criterion)
    ensures Select(a + b, c) == Select(a, c) + Select(b, c)
  {
    if b == [] {
      assert a + b == a;
    } else {
      var init := b[..|b| - 1];
      assert (a + b)[..|a + b| - 1] == a + init;
      SelectAppend(a, init, c);
    }
  }

  /** Each satisfying book is kept as many times as it occurs; no other book is kept. */
  lemma {:induction false} SelectCount(s: seq<Book>, c: Criterion, b: Book)
    ensures multiset(Select(s, c))[b] == if Satisfies(b, c) then multiset(s)[b] else 0
  {
    if s != [] {
      var init := s[..|s| - 1];
      SelectCount(init, c, b);
      assert s == init + [s[|s| - 1]];
    }
  }

  // ---------------------------------------------------------------------------
  // The seed list

  /** Title, author, description and rating of the `n`-th seed book (ids 1 to 10). */
  function SeedEntry(n: int): (entry: (string, string, string, int))
  {
    match n
    case 1 => ("To Kill a Mockingbird", "Harper Lee",
      "A novel set in the American South during the 1930s, focusing on the Finch family and the moral challenges they face.", 5)
    case 2 => ("1984", "George Orwell",
      "A dystopian novel exploring themes of totalitarianism, surveillance, and individual freedom.", 5)
    case 3 => ("The Great Gatsby", "F. Scott Fitzgerald",
      "A story about the mysterious millionaire Jay Gatsby and his obsession with Daisy Buchanan during the Roaring Twenties.", 4)
    case 4 => ("Moby-Dick", "Herman Melville",
      "A tale of obsession and revenge as Captain Ahab pursues the elusive white whale, Moby-Dick.", 4)
    case 5 => ("Pride and Prejudice", "Jane Austen",
      "A romantic novel that deals with issues of class, marriage, and social expectations in 19th-century England.", 3)
    case 6 => ("The Catcher in the Rye", "J.D. Salinger",
      "The story of Holden Caulfield, a teenager dealing with themes of alienation, rebellion, and identity.", 4)
    case 7 => ("The Hobbit", "J.R.R. Tolkien",
      "A fantasy novel that follows Bilbo Baggins on an adventure to help a group of dwarves reclaim their treasure from a dragon.", 5)
    case 8 => ("Brave New World", "Aldous Huxley",
      "A dystopian novel set in a future world where technology controls every aspect of life, and individualism is discouraged.", 4)
    case 9 => ("War and Peace", "Leo Tolstoy",
      "An epic novel that explores Russian society during the Napoleonic Wars, with a focus on love, fate, and family.", 5)
    case 10 => ("The Brothers Karamazov", "Fyodor Dostoevsky",
      "A philosophical and psychological novel that delves into themes of faith, doubt, and morality.", 5)
    case _ => ("", "", "", 0)
  }

  /** The list the service starts with: ten books, ids 1 to 10, none with a published date. */
  function SeedBooks(): (s: seq<Book>)
    ensures |s| == 10
    ensures forall i :: 0 <= i < |s| ==> s[i].id == i + 1
  {
    seq(10, i =>
      var (title, author, description, rating) := SeedEntry(i + 1);
      Book(i + 1, title, author, description, rating, None))
  }

  // ---------------------------------------------------------------------------
  // `update_book` as written

  /** The loop of `update_book` exactly as it stands, one iteration per call:
      the not-found test sits inside the loop, after the id test, so it fires
      on the first book that does not match. */
  function UpdateLoopAsWritten(books: seq<Book>, req: BookRequest, i: nat, changed: bool): (res: (Outcome, seq<Book>))
    requires i <= |books|
    decreases |books| - i
  {
    if i == |books| then (Done, books)
    else if req.id == Some(books[i].id) then (Done, books[i := FromRequest(req, books[i].id)])
    else if !changed then (Failed(NotFound), books)
    else UpdateLoopAsWritten(books, req, i + 1, changed)
  }

  /** `update_book` as written, on the list it starts from; the result is the
      answer and the list afterwards. Only element 0 is ever examined. */
  function UpdateBookAsWritten(books: seq<Book>, req: BookRequest): (res: (Outcome, seq<Book>))
    ensures books == [] ==> res == (Done, books)
    ensures books != [] && req.id == Some(books[0].id) ==>
      res == (Done, books[0 := FromRequest(req, books[0].id)])
    ensures books != [] && req.id != Some(books[0].id) ==> res == (Failed(NotFound), books)
  {
    UpdateLoopAsWritten(books, req, 0, false)
  }

  /** The defect: on a list with increasing ids, updating any book other than
      the first answers 404 although the book is there, and changes nothing. */
  lemma UpdateBookAsWrittenMissesLaterBooks(books: seq<Book>, req: BookRequest, k: int)
    requires IdsIncreasing(books)
    requires 0 < k < |books| && req.id == Some(books[k].id)
    ensures HasId(books, books[k].id)
    ensures UpdateBookAsWritten(books, req) == (Failed(NotFound), books)
  {
  }

  // ---------------------------------------------------------------------------
  // The catalog

  class Catalog {
    /** `BOOKS`. */
    var books: seq<Book>

    ghost predicate Valid()
      reads this
    {
      IdsIncreasing(books)
    }

    /** The module-level list as the program starts with it. */
    constructor ()
      ensures books == SeedBooks()
      ensures Valid()
    {
      books := SeedBooks();
    }

    /** `read_all_books` (served at both `/` and `/books`). */
    method ReadAllBooks() returns (all: seq<Book>)
      ensures all == books
    {
      all := books;
    }

    /** `find_book_id`: the first book with that id, or 404 when none has it. */
    method FindBookId(bookId: int) returns (r: Result<Book>)
      requires bookId > 0
      ensures r.Ok? ==> exists k :: IsFirstIndex(books, bookId, k) && r.value == books[k]
      ensures r.Err? ==> r.error == NotFound && !HasId(books, bookId)
    {
      var i := 0;
      while i < |books|
        invariant 0 <= i <= |books|
        invariant forall j :: 0 <= j < i ==> books[j].id != bookId
      {
        if books[i].id == bookId {
          assert IsFirstIndex(books, bookId, i);
          return Ok(books[i]);
        }
        i := i + 1;
      }
      return Err(NotFound);
    }

    /** `find_book_by_published_date`: the books published in `year`, in list order. */
    method FindBookByPublishedDate(year: int) returns (found: seq<Book>)
      ensures found == Select(books, PublishedIn(year))
    {
      found := [];
      var i := 0;
      while i < |books|
        invariant 0 <= i <= |books|
        invariant found == Select(books[..i], PublishedIn(year))
      {
        assert books[..i + 1][..i] == books[..i];
        if books[i].publishedDate == Some(year) {
          found := found + [books[i]];
        }
        i := i + 1;
      }
      assert books[..|books|] == books;
    }

    /** `find_book_by_rating`: the books with that rating, in list order. */
    method FindBookByRating(rating: int) returns (found: seq<Book>)
      requires FitsRange(rating, OneToFive)
      ensures found == Select(books, RatingIs(rating))
    {
      found := [];
      var i := 0;
      while i < |books|
        invariant 0 <= i <= |books|
        invariant found == Select(books[..i], RatingIs(rating))
      {
        var book := books[i];
        assert books[..i + 1][..i] == books[..i];
        if book.rating == rating {
          found := found + [book];
        }
        i := i + 1;
      }
      assert books[..|books|] == books;
    }

    /** `find_id_book`: the request turned into a book whose id follows the last one. */
    method FindIdBook(req: BookRequest) returns (book: Book)
      ensures book == FromRequest(req, NextId(books))
      ensures Valid() ==> book.id > 0 && !HasId(books, book.id)
    {
      book := FromRequest(req, NextId(books));
    }

    /** `create_book`: appends the request as a new book with a fresh id.
        The source appends the result of `find_id_book` without awaiting it,
        so it literally appends a coroutine object; this models the book that
        call was meant to produce. */
    method CreateBook(req: BookRequest)
      requires Valid() && ValidBookRequest(req)
      modifies this
      ensures Valid()
      ensures books == old(books) + [FromRequest(req, NextId(old(books)))]
      ensures |books| == |old(books)| + 1 && books[..|old(books)|] == old(books)
    {
      var book := FindIdBook(req);
      AppendNextIdKeepsIdsIncreasing(books, book);
      books := books + [book];
    }

    /** `update_book` with the not-found test where it was evidently meant to be,
        after the loop: the first book with the request's id is replaced and no
        other position changes; 404, with nothing changed, when no book has that id. */
    method UpdateBook(req: BookRequest) returns (r: Outcome)
      requires Valid() && ValidBookRequest(req)
      modifies this
      ensures Valid()
      ensures r == Done <==> req.id.Some? && HasId(old(books), req.id.value)
      ensures r.Failed? ==> r.error == NotFound && books == old(books)
      ensures r == Done ==>
        exists k :: IsFirstIndex(old(books), req.id.value, k) &&
                    books == old(books)[k := FromRequest(req, old(books)[k].id)]
    {
      var changed := false;
      var i := 0;
      while i < |books|
        invariant 0 <= i <= |books|
        invariant books == old(books) && !changed
        invariant forall j :: 0 <= j < i ==> req.id != Some(books[j].id)
      {
        if req.id == Some(books[i].id) {
          assert IsFirstIndex(books, req.id.value, i);
          ReplaceKeepsIdsIncreasing(books, i, FromRequest(req, books[i].id));
          books := books[i := FromRequest(req, books[i].id)];
          changed := true;
          break;
        }
        i := i + 1;
      }
      if !changed {
        return Failed(NotFound);
      }
      return Done;
    }

    /** `delete_book_by_id`: removes the first book with that id and keeps the
        rest in order; nothing happens when no book has it. */
    method DeleteBookById(bookId: int)
      requires Valid() && bookId > 0
      modifies this
      ensures Valid()
      ensures HasId(old(books), bookId) ==> |books| == |old(books)| - 1
      ensures HasId(old(books), bookId) ==>
        exists k :: IsFirstIndex(old(books), bookId, k) && books == old(books)[..k] + old(books)[k + 1..]
      ensures !HasId(old(books), bookId) ==> books == old(books)
    {
      var i := 0;
      while i < |books|
        invariant 0 <= i <= |books|
        invariant books == old(books)
        invariant forall j :: 0 <= j < i ==> books[j].id != bookId
      {
        if books[i].id == bookId {
          assert IsFirstIndex(books, bookId, i);
          RemoveKeepsIdsIncreasing(books, i);
          books := books[..i] + books[i + 1..];
          break;
        }
        i := i + 1;
      }
    }
  }
}
