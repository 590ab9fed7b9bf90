/**
 * The in-memory book store behind the REST API of the book catalogue:
 * a list of book records kept in insertion order, a linear search by id,
 * and the create / read / update / delete operations over that list.
 * HTTP failures are modelled as values of `Result`, carrying the status code
 * and the detail message the server answers with.
 */
module Backend {

  datatype Option<T> = None | Some(value: T)

  /** A book record. `description` is optional and defaults to none. */
  datatype Book = Book(id: int, title: string, author: string, description: Option<string>)

  /** An HTTP error raised by an operation: status code and detail message. */
  datatype HttpError = HttpError(statusCode: nat, detail: string)

  const DuplicateId: HttpError := HttpError(400, "Book with this ID already exists.")
  const NotFound: HttpError := HttpError(404, "Book not found.")

  datatype Result<T> = Ok(value: T) | Err(error: HttpError)

  // ---------------------------------------------------------------------
  // Specification functions over the list of records
  // ---------------------------------------------------------------------

  /** Some record of `s` carries the id `k`. */
  predicate HasId(s: seq<Book>, k: int) {
    exists j :: 0 <= j < |s| && s[j].id == k
  }

  /** No two records of `s` share an id. */
  predicate UniqueIds(s: seq<Book>) {
    forall i, j :: 0 <= i < j < |s| ==> s[i].id != s[j].id
  }

  /**
   * The position of the first record of `s`, in list order, whose id is `k`;
   * `None` exactly when no record has that id.
   */
  function FirstIndex(s: seq<Book>, k: int): (r: Option<nat>)
    ensures r.Some? ==> r.value < |s| && s[r.value].id == k
    ensures r.Some? ==> forall j :: 0 <= j < r.value ==> s[j].id != k
    ensures r.None? <==> !HasId(s, k)
  {
    if s == [] then None
    else if s[0].id == k then Some(0)
    else match FirstIndex(s[1..], k)
      case None =>
        assert forall j :: 1 <= j < |s| ==> s[j] == s[1..][j - 1];
        None
      case Some(i) => Some(i + 1)
  }

  /**
   * The position of the first record of `s` EQUAL to `x` (every field compared),
   * which is the element that removing `x` from a list by value takes out.
   */
  function IndexOf(s: seq<Book>, x: Book): (r: nat)
    requires x in s
    ensures r < |s| && s[r] == x
    ensures forall j :: 0 <= j < r ==> s[j] != x
  {
    if s[0] == x then 0 else 1 + IndexOf(s[1..], x)
  }

  /** `s` without its element at position `i`, the others in their order. */
  function RemoveAt(s: seq<Book>, i: nat): (r: seq<Book>)
    requires i < |s|
    ensures |r| == |s| - 1
    ensures forall j :: 0 <= j < i ==> r[j] == s[j]
    ensures forall j :: i <= j < |r| ==> r[j] == s[j + 1]
  {
    s[..i] + s[i + 1..]
  }

  /** The five records the server starts with. */
  function SeedBooks(): (r: seq<Book>)
    ensures |r| == 5 && UniqueIds(r)
  {
    [ Book(1, "To Kill a Mockingbird", "Harper Lee",
           Some("A novel about the serious issues of rape and racial inequality told through the eyes of a child.")),
      Book(2, "1984", "George Orwell",
           Some("A dystopian social science fiction novel and cautionary tale about the dangers of totalitarianism.")),
      Book(3, "Pride and Prejudice", "Jane Austen",
           Some("A romantic novel that critiques the British landed gentry at the end of the 18th century.")),
      Book(4, "The Great Gatsby", "F. Scott Fitzgerald",
           Some("A novel that explores themes of wealth, love, and the American Dream in 1920s America.")),
      Book(5, "Moby Dick", "Herman Melville",
           Some("A story of obsession and revenge as Captain Ahab hunts the white whale, Moby Dick.")) ]
  }

  // ---------------------------------------------------------------------
  // The store
  // ---------------------------------------------------------------------

  class BookStore {
    var books: seq<Book>

    /** The store as the server starts it, holding the seed records. */
    constructor ()
      ensures books == SeedBooks()
      ensures UniqueIds(books)
    {
      books := SeedBooks();
    }

    /**
     * Linear search for the first record whose id is `bookId`. The position
     * returned designates the record that updates and deletes act on.
     */
    method FindBook(bookId: int) returns (found: Option<nat>)
      ensures found == FirstIndex(books, bookId)
    {
      var i := 0;
      while i < |books|
        invariant 0 <= i <= |books|
        invariant forall j :: 0 <= j < i ==> books[j].id != bookId
      {
        if books[i].id == bookId {
          return Some(i);
        }
        i := i + 1;
      }
      return None;
    }

    /** Appends `book` unless a record with its id is already stored. */
    method CreateBook(book: Book) returns (r: Result<Book>)
      modifies this
      ensures HasId(old(books), book.id) ==> r == Err(DuplicateId) && books == old(books)
      ensures !HasId(old(books), book.id) ==> r == Ok(book) && books == old(books) + [book]
      ensures UniqueIds(old(books)) ==> UniqueIds(books)
      ensures r.Ok? ==> FirstIndex(books, book.id) == Some(|old(books)|)
    {
      var found := FindBook(book.id);
      if found.Some? {
        return Err(DuplicateId);
      }
      AppendFreshKeepsUnique(books, book);
      CreatedIsFound(books, book);
      books := books + [book];
      return Ok(book);
    }

    /** The whole list of records, in store order. */
    method GetBooks() returns (r: seq<Book>)
      ensures r == books
    {
      return books;
    }

    /** The record `FindBook` finds for `bookId`, or 404 when there is none. */
    method GetBook(bookId: int) returns (r: Result<Book>)
      ensures r.Err? <==> !HasId(books, bookId)
      ensures r.Err? ==> r.error == NotFound
      ensures r.Ok? ==> r.value.id == bookId && r.value in books
      ensures r.Ok? ==> r.value == books[FirstIndex(books, bookId).value]
    {
      var found := FindBook(bookId);
      if found.None? {
        return Err(NotFound);
      }
      return Ok(books[found.value]);
    }

    /**
     * Overwrites every field of the first record with id `bookId`, the id
     * included, with the fields of `updated`; 404 when there is no such record.
     */
    method UpdateBook(bookId: int, updated: Book) returns (r: Result<Book>)
      modifies this
      ensures !HasId(old(books), bookId) ==> r == Err(NotFound) && books == old(books)
      ensures HasId(old(books), bookId) ==>
        var i := FirstIndex(old(books), bookId).value;
        r == Ok(updated) && books == old(books)[i := updated]
      ensures |books| == |old(books)|
      ensures UniqueIds(old(books)) ==>
        (UniqueIds(books) <==> r.Err? || updated.id == bookId || !HasId(old(books), updated.id))
    {
      var found := FindBook(bookId);
      if found.None? {
        return Err(NotFound);
      }
      if UniqueIds(books) {
        UpdateKeepsUniqueIff(books, bookId, updated);
      }
      books := books[found.value := updated];
      return Ok(updated);
    }

    /**
     * Removes the first record with id `bookId` and returns it; 404 when
     * there is no such record. The record is taken out by value, as removing
     * it from the list does, which takes out the element that was found.
     */
    method DeleteBook(bookId: int) returns (r: Result<Book>)
      modifies this
      ensures !HasId(old(books), bookId) ==> r == Err(NotFound) && books == old(books)
      ensures HasId(old(books), bookId) ==>
        var i := FirstIndex(old(books), bookId).value;
        r == Ok(old(books)[i]) && books == RemoveAt(old(books), i)
      ensures UniqueIds(old(books)) ==> UniqueIds(books)
      ensures UniqueIds(old(books)) ==> !HasId(books, bookId)
      ensures r.Ok? ==> multiset(old(books)) == multiset(books) + multiset{r.value}
    {
      var found := FindBook(bookId);
      if found.None? {
        return Err(NotFound);
      }
      var book := books[found.value];
      RemoveTakesFoundRecord(books, bookId);
      RemoveAtMultiset(books, found.value);
      if UniqueIds(books) {
        DeletedIsGone(books, bookId);
      }
      var at := IndexOf(books, book);
      RemoveAtKeepsUnique(books, at);
      books := RemoveAt(books, at);
      return Ok(book);
    }
  }

  // ---------------------------------------------------------------------
  // Properties of the operations
  // ---------------------------------------------------------------------

  /** Appending a record whose id is absent keeps the ids pairwise distinct. */
  lemma AppendFreshKeepsUnique(s: seq<Book>, b: Book)
    requires !HasId(s, b.id)
    ensures UniqueIds(s) ==> UniqueIds(s + [b])
  {
  }

  /** A record appended with a fresh id is the one a search for that id finds. */
  lemma {:induction false} CreatedIsFound(s: seq<Book>, b: Book)
    requires !HasId(s, b.id)
    ensures FirstIndex(s + [b], b.id) == Some(|s|)
  {
    var t := s + [b];
    assert t[|s|].id == b.id;
    assert forall j :: 0 <= j < |s| ==> t[j] == s[j];
  }

  /** Removing by value the record found for `k` removes exactly that position. */
  lemma RemoveTakesFoundRecord(s: seq<Book>, k: int)
    requires HasId(s, k)
    ensures s[FirstIndex(s, k).value] in s
    ensures IndexOf(s, s[FirstIndex(s, k).value]) == FirstIndex(s, k).value
  {
  }

  /** Dropping one record keeps the ids pairwise distinct. */
  lemma RemoveAtKeepsUnique(s: seq<Book>, i: nat)
    requires i < |s|
    ensures UniqueIds(s) ==> UniqueIds(RemoveAt(s, i))
  {
  }

  /** Removing a record loses only that record: the multiset shrinks by it. */
  lemma {:induction false} RemoveAtMultiset(s: seq<Book>, i: nat)
    requires i < |s|
    ensures multiset(s) == multiset(RemoveAt(s, i)) + multiset{s[i]}
  {
    assert s == s[..i] + [s[i]] + s[i + 1..];
  }

  /** After deleting the record found for `k` from unique ids, `k` is gone. */
  lemma DeletedIsGone(s: seq<Book>, k: int)
    requires UniqueIds(s) && HasId(s, k)
    ensures FirstIndex(RemoveAt(s, FirstIndex(s, k).value), k) == None
  {
  }

  /**
   * Overwriting the record found for `k` with `b` keeps unique ids unique
   * exactly when `b` keeps the id `k` or brings an id no record carries.
   */
  lemma {:induction false} UpdateKeepsUniqueIff(s: seq<Book>, k: int, b: Book)
    requires UniqueIds(s) && HasId(s, k)
    ensures UniqueIds(s[FirstIndex(s, k).value := b]) <==> (b.id == k || !HasId(s, b.id))
  {
    var i := FirstIndex(s, k).value;
    var t := s[i := b];
    if b.id == k || !HasId(s, b.id) {
      forall x, y | 0 <= x < y < |t| ensures t[x].id != t[y].id {
        if x == i {
          assert s[y].id != k;
        } else if y == i {
          assert s[x].id != k;
        }
      }
    } else {
      var j :| 0 <= j < |s| && s[j].id == b.id;
      assert j != i;
      if j < i {
        assert t[j].id == t[i].id;
      } else {
        assert t[i].id == t[j].id;
      }
    }
  }

  /** An update that keeps the id leaves the updated record findable at its place. */
  lemma {:induction false} UpdateSameIdIsFound(s: seq<Book>, k: int, b: Book)
    requires HasId(s, k) && b.id == k
    ensures FirstIndex(s[FirstIndex(s, k).value := b], k) == FirstIndex(s, k)
  {
    var i := FirstIndex(s, k).value;
    var t := s[i := b];
    assert t[i].id == k;
    assert forall j :: 0 <= j < i ==> t[j] == s[j];
  }

  /** An update that changes the id re-keys the record: with unique ids, `k` is gone. */
  lemma UpdateRekeyHidesOldId(s: seq<Book>, k: int, b: Book)
    requires UniqueIds(s) && HasId(s, k) && b.id != k
    ensures FirstIndex(s[FirstIndex(s, k).value := b], k) == None
  {
  }

  /**
   * On the seed records, putting to id 1 a body with id 2 leaves two
   * records with id 2.
   */
  lemma UpdateCanDuplicateIds()
    ensures var s := SeedBooks();
      var t := s[FirstIndex(s, 1).value := Book(2, "Dune", "Frank Herbert", None)];
      UniqueIds(s) && !UniqueIds(t)
  {
    var s := SeedBooks();
    assert s[0].id == 1;
    var t := s[FirstIndex(s, 1).value := Book(2, "Dune", "Frank Herbert", None)];
    assert t[0].id == t[1].id;
  }
}
