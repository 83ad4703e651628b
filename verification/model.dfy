/** The catalogue's entities, its request/response shapes, and the store
    they live in. */
module Model {
  import opened Common

  /** Java `int`. */
  newtype Int32 = x: int | -0x8000_0000 <= x < 0x8000_0000

  /** A LocalDate, kept opaque: the catalogue only copies it. */
  datatype Date = Date(epochDay: int)

  /** Author ids are generated by the database (identity column). */
  type AuthorId = nat

  /** The Author entity. Its `books` back-reference is derived from the
      books' author sets and is not stored. */
  datatype Author = Author(id: AuthorId, name: string)

  /** The Book entity, parametric in how it refers to its authors: a stored
      row holds author ids (the join table), a loaded entity holds the
      Author values those ids resolve to. The ISBN is the natural key. */
  datatype Book<A> = Book(
    isbn: string,
    title: Option<string>,
    authors: set<A>,
    publicationDate: Option<Date>,
    summary: Option<string>,
    pageCount: Int32)

  type BookRow = Book<AuthorId>
  type BookEntity = Book<Author>

  /** The book request/response body: authors travel as a list of names,
      and the list itself may be absent. */
  datatype BookDto = BookDto(
    isbn: string,
    title: Option<string>,
    authors: Option<seq<string>>,
    publicationDate: Option<Date>,
    summary: Option<string>,
    pageCount: Int32)

  /** The author request/response body: the id is not exposed. */
  datatype AuthorDto = AuthorDto(name: string)

  /** Both tables, plus the next value of the author identity column. */
  datatype Store = Store(
    books: map<string, BookRow>,
    authors: map<AuthorId, Author>,
    nextId: AuthorId)

  const EmptyStore: Store := Store(map[], map[], 1)

  /** What the database guarantees of every state: each row is stored under
      its own key, and every author id (live or still referenced by a book
      after the author was deleted) was handed out before `nextId`. */
  predicate Valid(s: Store) {
    && (forall k :: k in s.books ==> s.books[k].isbn == k)
    && (forall k, id :: k in s.books && id in s.books[k].authors ==> id < s.nextId)
    && (forall id :: id in s.authors ==> s.authors[id].id == id && id < s.nextId)
  }

  /** Loading a row resolves its author ids; an id whose author row has
      been deleted resolves to nothing. */
  function Load(s: Store, row: BookRow): (e: BookEntity) {
    Book(row.isbn, row.title,
         set id | id in row.authors && id in s.authors :: s.authors[id],
         row.publicationDate, row.summary, row.pageCount)
  }

  /** The row that saving an entity writes: its author references become ids. */
  function Row(e: BookEntity): BookRow {
    Book(e.isbn, e.title, set a | a in e.authors :: a.id,
         e.publicationDate, e.summary, e.pageCount)
  }

  /** Every author of `e` is the stored author under its own id. */
  ghost predicate AuthorsStored(s: Store, e: BookEntity) {
    forall a :: a in e.authors ==> a.id in s.authors && s.authors[a.id] == a
  }

  /** Saving an entity whose authors are all stored, then loading it back,
      gives the same entity. */
  lemma LoadRow(s: Store, e: BookEntity)
    requires AuthorsStored(s, e)
    ensures Load(s, Row(e)) == e
  {
    var loaded := Load(s, Row(e)).authors;
    forall a | a in e.authors
      ensures a in loaded
    {
      assert a.id in Row(e).authors;
    }
    forall a | a in loaded
      ensures a in e.authors
    {
      var id :| id in Row(e).authors && id in s.authors && s.authors[id] == a;
      var b :| b in e.authors && b.id == id;
    }
  }
}
