/** The persistence layer the services call, over the immutable store: the
    book and author repositories' lookups, saves and deletes, and the derived
    queries. Query results are lists in an unspecified order. */
module Repository {
  import opened Common
  import opened Text
  import opened Model

  // ---- books ----

  predicate ExistsByIsbn(s: Store, isbn: string) {
    isbn in s.books
  }

  function FindByIsbn(s: Store, isbn: string): Option<BookEntity> {
    if isbn in s.books then Some(Load(s, s.books[isbn])) else None
  }

  /** Insert or overwrite the row keyed by the entity's ISBN. */
  function SaveBook(s: Store, e: BookEntity): Store {
    s.(books := s.books[e.isbn := Row(e)])
  }

  function DeleteByIsbn(s: Store, isbn: string): Store {
    s.(books := s.books - {isbn})
  }

  /** Every stored book, loaded. */
  ghost function Books(s: Store): set<BookEntity> {
    set k | k in s.books :: Load(s, s.books[k])
  }

  /** The derived queries of the book repository. */
  datatype Criterion =
    | All                                  // findAll
    | TitleContaining(needle: string)      // findByTitleContainingIgnoreCase
    | AuthorsNameContaining(needle: string) // findByAuthorsNameContainingIgnoreCase

  predicate Matches(e: BookEntity, c: Criterion) {
    match c
    case All => true
    case TitleContaining(n) => e.title.Some? && ContainsIgnoringCase(e.title.value, n)
    case AuthorsNameContaining(n) => exists a :: a in e.authors && ContainsIgnoringCase(a.name, n)
  }

  /** The books a query selects, each once, in an unspecified order. */
  ghost function FindBy(s: Store, c: Criterion): seq<BookEntity> {
    Enumerate(set e | e in Books(s) && Matches(e, c))
  }

  // ---- authors ----

  function FindAuthorById(s: Store, id: AuthorId): Option<Author> {
    if id in s.authors then Some(s.authors[id]) else None
  }

  /** The ids of the authors whose name folds to `key`. */
  ghost function NameMatches(s: Store, key: string): set<AuthorId> {
    set id | id in s.authors && Fold(s.authors[id].name) == key
  }

  /** Some author whose name equals `name` ignoring case. The name column is
      unique only case-sensitively, so several authors may match; the choice
      among them is unspecified but depends only on which ids match. */
  ghost function FindByNameIgnoreCase(s: Store, name: string): (r: Option<Author>)
    ensures r.Some? <==> NameMatches(s, Fold(name)) != {}
    ensures r.Some? ==> exists id :: id in NameMatches(s, Fold(name)) && s.authors[id] == r.value
    ensures r.None? ==> forall id :: id in s.authors ==> Fold(s.authors[id].name) != Fold(name)
  {
    var m := NameMatches(s, Fold(name));
    assert forall id :: id in s.authors && Fold(s.authors[id].name) == Fold(name) ==> id in m;
    if m == {} then None else Some(s.authors[Pick(m)])
  }

  ghost function Pick(m: set<AuthorId>): (id: AuthorId)
    requires m != {}
    ensures id in m
  {
    var id :| id in m; id
  }

  /** save(new Author(name)): the identity column supplies a fresh id. */
  function InsertAuthor(s: Store, name: string): (r: (Author, Store)) {
    var a := Author(s.nextId, name);
    (a, s.(authors := s.authors[a.id := a], nextId := s.nextId + 1))
  }

  /** save(author) of an author that already has an id. */
  function SaveAuthor(s: Store, a: Author): Store {
    s.(authors := s.authors[a.id := a])
  }

  /** deleteById: silently does nothing when the id is absent. */
  function DeleteAuthorById(s: Store, id: AuthorId): Store {
    s.(authors := s.authors - {id})
  }

  /** Every stored author, in an unspecified order. */
  ghost function FindAllAuthors(s: Store): seq<Author> {
    Enumerate(s.authors.Values)
  }
}
