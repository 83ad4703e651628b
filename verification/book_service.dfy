/** The book service: lookups, the three-way search, and the two writes that
    rebuild a book's author set from the names in the request body. The
    whole service is transactional, so a call that fails leaves no trace: a
    failing call returns no store. */
module BookService {
  import opened Common
  import opened Text
  import opened Model
  import opened Repository
  import opened BookMapper
  import opened AuthorService

  // ---- vocabulary of the contracts ----

  /** The case-folded names of a set of authors. */
  ghost function FoldedNames(authors: set<Author>): set<string> {
    set a | a in authors :: Fold(a.name)
  }

  /** The case-folded names of a list. */
  ghost function FoldedList(names: seq<string>): set<string> {
    set i | 0 <= i < |names| :: Fold(names[i])
  }

  /** The case-folded names a request body supplies; an absent list
      supplies none. */
  ghost function FoldedInputs(names: Option<seq<string>>): set<string> {
    match names
    case None => {}
    case Some(ns) => FoldedList(ns)
  }

  /** The ISBNs occurring in a list of bodies. */
  ghost function IsbnsOf(ds: seq<BookDto>): set<string> {
    set i | 0 <= i < |ds| :: ds[i].isbn
  }

  /** `d` is the body describing the stored row: the scalar fields copied,
      one name per author the row's ids still resolve to. */
  ghost predicate Describes(d: BookDto, s: Store, row: BookRow) {
    && CopiesScalars(row, d)
    && d.authors.Some?
    && |d.authors.value| == |Load(s, row).authors|
    && NameSet(d.authors.value) == set id | id in row.authors && id in s.authors :: s.authors[id].name
  }

  /** `ds` lists the books stored under `keys`, each once, each exactly as
      getBookByIsbn would return it. */
  ghost predicate Lists(s: Store, ds: seq<BookDto>, keys: set<string>) {
    && IsbnsOf(ds) == keys
    && (forall i, j :: 0 <= i < j < |ds| ==> ds[i].isbn != ds[j].isbn)
    && (forall i :: 0 <= i < |ds| ==> GetBookByIsbn(s, ds[i].isbn) == Ok(ds[i]))
  }

  /** The ISBNs of the stored books whose title contains `needle`, ignoring case. */
  ghost function TitleHits(s: Store, needle: string): set<string> {
    set k | k in s.books && s.books[k].title.Some? && ContainsIgnoringCase(s.books[k].title.value, needle)
  }

  /** The ISBNs of the stored books one of whose (still existing) authors has
      a name containing `needle`, ignoring case. */
  ghost function AuthorHits(s: Store, needle: string): set<string> {
    set k | k in s.books && exists id :: id in s.books[k].authors && id in s.authors
                                        && ContainsIgnoringCase(s.authors[id].name, needle)
  }

  /** The effect of one write on the author table: existing authors are
      untouched, and every author added carries one of the supplied names;
      an absent or empty list adds none. */
  ghost predicate AuthorsReconciled(s: Store, t: Store, names: Option<seq<string>>) {
    && (forall id :: id in s.authors ==> id in t.authors && t.authors[id] == s.authors[id])
    && (forall id :: id in t.authors && id !in s.authors ==> names.Some? && t.authors[id].name in names.value)
    && (names.None? || names == Some([]) ==> t.authors == s.authors)
  }

  /** Every author `t` holds and `s` did not is one of `linked`, under an id
      `s` had not handed out yet, so no row stored in `s` refers to it. */
  ghost predicate AddsOnly(s: Store, t: Store, linked: set<Author>) {
    && s.nextId <= t.nextId
    && (forall id :: id in t.authors && id !in s.authors ==> s.nextId <= id && t.authors[id] in linked)
  }

  /** No two authors of the set have names equal ignoring case. */
  ghost predicate OnePerFold(authors: set<Author>) {
    forall a, b :: a in authors && b in authors && Fold(a.name) == Fold(b.name) ==> a == b
  }

  /** Every author of the set whose name `s` already knew ignoring case is
      the author that looking the name up in `s` returns. */
  ghost predicate ReusesKnown(s: Store, authors: set<Author>) {
    forall a :: a in authors && NameTaken(s, a.name) ==> FindByNameIgnoreCase(s, a.name) == Some(a)
  }

  /** The outcome shared by both book writes: `t` is valid, holds the
      body's scalars under its ISBN together with authors whose names are
      the supplied ones up to case, one author per name up to case and the
      already known author wherever there is one; its author table is `s`'s
      reconciled with the supplied names, without a new author for a name
      `s` knew, and every author it adds is linked to the book under a fresh
      id and named as the first spelling of its class in the list; and `d`
      is what fetching the ISBN returns. */
  ghost predicate WroteBook(s: Store, t: Store, dto: BookDto, d: BookDto) {
    && Valid(t)
    && dto.isbn in t.books
    && CopiesScalars(t.books[dto.isbn], dto)
    && LinksSupplied(s, Load(t, t.books[dto.isbn]).authors, dto.authors)
    && TableReconciled(s, t, Load(t, t.books[dto.isbn]).authors, dto.authors)
    && GetBookByIsbn(t, dto.isbn) == Ok(d)
  }

  /** The linked authors carry the supplied names up to case, one per
      name up to case, and the author `s` already knew wherever it knew one. */
  ghost predicate LinksSupplied(s: Store, linked: set<Author>, names: Option<seq<string>>) {
    && FoldedNames(linked) == FoldedInputs(names)
    && OnePerFold(linked)
    && ReusesKnown(s, linked)
  }

  /** `t`'s author table is `s`'s reconciled with the supplied names: no
      new author for a known name, known authors kept, and every added
      author linked, under a fresh id, spelled as the first of its class. */
  ghost predicate TableReconciled(s: Store, t: Store, linked: set<Author>, names: Option<seq<string>>) {
    && AuthorsReconciled(s, t, names)
    && AuthorsStable(s, t)
    && AddsOnly(s, t, linked)
    && (names.Some? ==> NewNamesFirst(s, t, names.value))
  }

  // ---- author reconciliation for book writes ----

  /** The names of the list are reconciled one after another, each
      find-or-create seeing the authors the earlier ones added; the results
      are collected into a set, so case variants collapse. */
  ghost function FindOrCreateEach(s: Store, names: seq<string>): (r: (set<Author>, Store))
    requires Valid(s)
    ensures Valid(r.1) && r.1.books == s.books && AuthorsStable(s, r.1)
    ensures forall a :: a in r.0 ==> a.id in r.1.authors && r.1.authors[a.id] == a
    ensures forall id :: id in r.1.authors && id !in s.authors ==> r.1.authors[id].name in names
    ensures OnePerFold(r.0) && ReusesKnown(s, r.0)
    ensures Extends(s, r.1) && AddsOnly(s, r.1, r.0)
    decreases |names|
  {
    if names == [] then ({}, s)
    else
      var (a, s1) := FindOrCreateAuthor(s, names[0]);
      var (rest, s2) := FindOrCreateEach(s1, names[1..]);
      AuthorsStableTransitive(s, s1, s2);
      CollapseStep(s, names[0], rest);
      assert forall id :: id in s2.authors && id !in s.authors ==> s2.authors[id].name in names by {
        forall id | id in s2.authors && id !in s.authors
          ensures s2.authors[id].name in names
        {
          if id !in s1.authors {
            assert s2.authors[id].name in names[1..];
          }
        }
      }
      ({a} + rest, s2)
  }

  /** One step of the collapse: adding the author found or created for
      `name` to a set already collapsed against the resulting store keeps it
      collapsed, and reusing against the store before the step. */
  lemma CollapseStep(s: Store, name: string, rest: set<Author>)
    requires Valid(s)
    requires var s1 := FindOrCreateAuthor(s, name).1;
      OnePerFold(rest) && ReusesKnown(s1, rest)
    ensures var a := FindOrCreateAuthor(s, name).0;
      OnePerFold({a} + rest) && ReusesKnown(s, {a} + rest)
  {
    CollapseOne(s, name, rest);
    CollapseKnown(s, name, rest);
  }

  /** The author found or created for the name, and every author the rest
      reused after the step, is what a lookup before the step finds. */
  lemma CollapseKnown(s: Store, name: string, rest: set<Author>)
    requires Valid(s)
    requires ReusesKnown(FindOrCreateAuthor(s, name).1, rest)
    ensures ReusesKnown(s, {FindOrCreateAuthor(s, name).0} + rest)
  {
    var (a, s1) := FindOrCreateAuthor(s, name);
    forall c | c in {a} + rest && NameTaken(s, c.name)
      ensures FindByNameIgnoreCase(s, c.name) == Some(c)
    {
      if c == a {
        var id :| id in s.authors && SameIgnoringCase(s.authors[id].name, a.name);
        assert SameIgnoringCase(s.authors[id].name, name);
        assert NameTaken(s, name);
        FindByFold(s, a.name, name);
      } else {
        var id :| id in s.authors && SameIgnoringCase(s.authors[id].name, c.name);
        assert id in s1.authors && s1.authors[id] == s.authors[id];
        assert NameTaken(s1, c.name);
        FindStable(s, s1, c.name);
      }
    }
  }

  /** An author the rest already reused under the same fold is the one
      found for the name. */
  lemma CollapseOne(s: Store, name: string, rest: set<Author>)
    requires Valid(s)
    requires ReusesKnown(FindOrCreateAuthor(s, name).1, rest)
    ensures var a := FindOrCreateAuthor(s, name).0;
      forall b :: b in rest && Fold(b.name) == Fold(a.name) ==> b == a
  {
    var (a, s1) := FindOrCreateAuthor(s, name);
    forall b | b in rest && Fold(b.name) == Fold(a.name)
      ensures b == a
    {
      assert SameIgnoringCase(s1.authors[a.id].name, b.name);
      assert NameTaken(s1, b.name);
      FindByFold(s1, b.name, name);
    }
  }

  lemma FoldedListCons(names: seq<string>)
    requires names != []
    ensures FoldedList(names) == {Fold(names[0])} + FoldedList(names[1..])
  {
    forall x | x in FoldedList(names)
      ensures x in {Fold(names[0])} + FoldedList(names[1..])
    {
      var i :| 0 <= i < |names| && Fold(names[i]) == x;
      if i > 0 {
        assert names[1..][i - 1] == names[i];
      }
    }
    forall x | x in FoldedList(names[1..])
      ensures x in FoldedList(names)
    {
      var i :| 0 <= i < |names[1..]| && Fold(names[1..][i]) == x;
      assert names[i + 1] == names[1..][i];
    }
  }

  /** The reconciled authors' names are the supplied names, up to case:
      every author returned matches some name, every name some author. */
  lemma {:induction false} EachFoldedNames(s: Store, names: seq<string>)
    requires Valid(s)
    ensures FoldedNames(FindOrCreateEach(s, names).0) == FoldedList(names)
    decreases |names|
  {
    if names != [] {
      var a := FindOrCreateAuthor(s, names[0]).0;
      var s1 := FindOrCreateAuthor(s, names[0]).1;
      EachFoldedNames(s1, names[1..]);
      EachStep(s, names);
      FoldedNamesAdd(a, FindOrCreateEach(s1, names[1..]).0);
      FoldedListCons(names);
    }
  }

  /** One step of reconciliation links the author found or created for
      the first name, whose name folds like it, to those of the rest. */
  lemma EachStep(s: Store, names: seq<string>)
    requires Valid(s) && names != []
    ensures var (a, s1) := FindOrCreateAuthor(s, names[0]);
      && FindOrCreateEach(s, names).0 == {a} + FindOrCreateEach(s1, names[1..]).0
      && Fold(a.name) == Fold(names[0])
  {
    var (a, s1) := FindOrCreateAuthor(s, names[0]);
    assert FindByNameIgnoreCase(s1, names[0]) == Some(a);
  }

  lemma FoldedNamesAdd(a: Author, rest: set<Author>)
    ensures FoldedNames({a} + rest) == {Fold(a.name)} + FoldedNames(rest)
  {
  }

  /** When every supplied name is already known ignoring case, reconciliation
      creates nothing. */
  lemma {:induction false} EachAllKnown(s: Store, names: seq<string>)
    requires Valid(s)
    requires forall i :: 0 <= i < |names| ==> NameTaken(s, names[i])
    ensures FindOrCreateEach(s, names).1 == s
    decreases |names|
  {
    if names != [] {
      assert NameTaken(s, names[0]);
      assert forall i :: 0 <= i < |names[1..]| ==> NameTaken(s, names[1..][i]) by {
        forall i | 0 <= i < |names[1..]|
          ensures NameTaken(s, names[1..][i])
        {
          assert NameTaken(s, names[i + 1]);
        }
      }
      EachAllKnown(s, names[1..]);
    }
  }

  /** The first name of the list whose case folding is `key`, if any. */
  function FirstOfClass(names: seq<string>, key: string): Option<string> {
    if names == [] then None
    else if Fold(names[0]) == key then Some(names[0])
    else FirstOfClass(names[1..], key)
  }

  /** Every author `t` holds and `s` did not is named as the first name of
      its case-folding class in `names`. */
  ghost predicate NewNamesFirst(s: Store, t: Store, names: seq<string>) {
    forall id :: id in t.authors && id !in s.authors ==>
      FirstOfClass(names, Fold(t.authors[id].name)) == Some(t.authors[id].name)
  }

  /** An author that reconciliation adds is named as the first name of its
      case-folding class in the list: later case variants find it instead. */
  lemma {:induction false} EachFirstSpelling(s: Store, names: seq<string>)
    requires Valid(s)
    ensures NewNamesFirst(s, FindOrCreateEach(s, names).1, names)
    decreases |names|
  {
    if names != [] {
      var (a, s1) := FindOrCreateAuthor(s, names[0]);
      var s2 := FindOrCreateEach(s1, names[1..]).1;
      assert FindOrCreateEach(s, names).1 == s2;
      EachFirstSpelling(s1, names[1..]);
      assert forall id :: id in s1.authors && id !in s.authors ==> id == a.id && a.name == names[0];
      FirstSpellingStep(s, s1, s2, a, names);
    }
  }

  /** One step of EachFirstSpelling: the author added for the head carries
      the head itself, and one added for the tail is of another class than
      the head, so its first spelling in the tail is its first in the list. */
  lemma FirstSpellingStep(s: Store, s1: Store, s2: Store, a: Author, names: seq<string>)
    requires names != []
    requires a.id in s1.authors && s1.authors[a.id] == a
    requires forall id :: id in s1.authors && id !in s.authors ==> id == a.id && a.name == names[0]
    requires AuthorsStable(s1, s2)
    requires SameIgnoringCase(a.name, names[0])
    requires NewNamesFirst(s1, s2, names[1..])
    ensures NewNamesFirst(s, s2, names)
  {
    forall id | id in s2.authors && id !in s.authors
      ensures FirstOfClass(names, Fold(s2.authors[id].name)) == Some(s2.authors[id].name)
    {
      if id in s1.authors {
        assert s2.authors[id] == a && names[0] == a.name;
      } else {
        NewAfterStep(s1, s2, a, id);
      }
    }
  }

  /** An author added after `a` was stored, without disturbing the matches
      of stored names, is not a case variant of `a`. */
  lemma NewAfterStep(s1: Store, s2: Store, a: Author, id: AuthorId)
    requires AuthorsStable(s1, s2)
    requires a.id in s1.authors && s1.authors[a.id] == a
    requires id in s2.authors && id !in s1.authors
    ensures Fold(s2.authors[id].name) != Fold(a.name)
  {
    var key := Fold(a.name);
    assert a.id in NameMatches(s1, key);
    assert id !in NameMatches(s2, key);
  }

  /** The author set a write assigns: the reconciled names, or the empty
      set when the body has no list. */
  ghost function ResolveAuthors(s: Store, names: Option<seq<string>>): (r: (set<Author>, Store))
    requires Valid(s)
    ensures Valid(r.1) && r.1.books == s.books && AuthorsStable(s, r.1)
    ensures forall a :: a in r.0 ==> a.id in r.1.authors && r.1.authors[a.id] == a
    ensures FoldedNames(r.0) == FoldedInputs(names)
    ensures OnePerFold(r.0) && ReusesKnown(s, r.0)
    ensures Extends(s, r.1) && AddsOnly(s, r.1, r.0)
    ensures AuthorsReconciled(s, r.1, names)
    ensures names.Some? ==> NewNamesFirst(s, r.1, names.value)
  {
    match names
    case None => ({}, s)
    case Some(ns) =>
      EachFoldedNames(s, ns);
      EachFirstSpelling(s, ns);
      FindOrCreateEach(s, ns)
  }

  // ---- the service operations ----

  /** getBookByIsbn: the stored book's body, or NotFound. */
  ghost function GetBookByIsbn(s: Store, isbn: string): (r: Result<BookDto>)
    ensures r.Ok? <==> isbn in s.books
    ensures r.Err? ==> r.error == NotFound("Unable to find the book with ISBN: " + isbn)
    ensures r.Ok? ==> Describes(r.value, s, s.books[isbn])
  {
    match FindByIsbn(s, isbn)
    case Some(b) => Ok(BookToDto(b))
    case None => Err(NotFound("Unable to find the book with ISBN: " + isbn))
  }

  /** getAllBooks: every stored book, once. */
  ghost function GetAllBooks(s: Store): (r: seq<BookDto>)
    requires Valid(s)
    ensures Lists(s, r, s.books.Keys)
  {
    FindByLists(s, All);
    assert MatchingKeys(s, All) == s.books.Keys;
    BooksToBookDtos(FindBy(s, All))
  }

  /** findByTitleContainingIgnoreCase, mapped to bodies. */
  ghost function SearchByTitle(s: Store, needle: string): (r: seq<BookDto>)
    requires Valid(s)
    ensures Lists(s, r, TitleHits(s, needle))
  {
    var c := TitleContaining(needle);
    FindByLists(s, c);
    assert MatchingKeys(s, c) == TitleHits(s, needle);
    BooksToBookDtos(FindBy(s, c))
  }

  /** findByAuthorsNameContainingIgnoreCase, mapped to bodies. */
  ghost function SearchByAuthor(s: Store, needle: string): (r: seq<BookDto>)
    requires Valid(s)
    ensures Lists(s, r, AuthorHits(s, needle))
  {
    var c := AuthorsNameContaining(needle);
    FindByLists(s, c);
    AuthorMatchingKeys(s, needle);
    BooksToBookDtos(FindBy(s, c))
  }

  /** searchBooks: a present, non-blank title selects by title whatever the
      author parameter says; otherwise a present, non-blank author selects
      by author name; otherwise every book is returned. */
  ghost function SearchBooks(s: Store, title: Option<string>, author: Option<string>): (r: seq<BookDto>)
    requires Valid(s)
    ensures HasText(title) ==> Lists(s, r, TitleHits(s, title.value))
    ensures !HasText(title) && HasText(author) ==> Lists(s, r, AuthorHits(s, author.value))
    ensures !HasText(title) && !HasText(author) ==> Lists(s, r, s.books.Keys)
  {
    if HasText(title) then SearchByTitle(s, title.value)
    else if HasText(author) then SearchByAuthor(s, author.value)
    else GetAllBooks(s)
  }

  /** createBook: the body's scalars and the reconciled author set are saved
      under the body's ISBN. A second row with an ISBN already stored is
      refused by the storage layer, and the transaction (including any
      author it created) is rolled back. */
  ghost function CreateBook(s: Store, dto: BookDto): (r: Result<(BookDto, Store)>)
    requires Valid(s)
    ensures r.Err? <==> dto.isbn in s.books
    ensures r.Err? ==> r.error == Conflict(dto.isbn)
    ensures r.Ok? ==>
      var t := r.value.1;
      && t.books.Keys == s.books.Keys + {dto.isbn}
      && (forall k :: k in s.books ==> t.books[k] == s.books[k])
      && WroteBook(s, t, dto, r.value.0)
  {
    var book := DtoToBook(dto);
    var (authors, s1) := ResolveAuthors(s, dto.authors);
    if ExistsByIsbn(s1, book.isbn) then Err(Conflict(dto.isbn))
    else
      var created := book.(authors := authors);
      var t := SaveBook(s1, created);
      SaveTouchesOne(s1, created);
      WriteThrough(s, dto, created);
      Ok((BookToDto(created), t))
  }

  /** updateBook: NotFound when no book has the body's ISBN; otherwise the
      title, page count, summary and publication date are overwritten from
      the body unconditionally, the ISBN is kept, and the author set is
      replaced (never merged) by the reconciled names. No other book changes. */
  ghost function UpdateBook(s: Store, dto: BookDto): (r: Result<(BookDto, Store)>)
    requires Valid(s)
    ensures r.Err? <==> dto.isbn !in s.books
    ensures r.Err? ==> r.error == NotFound("Book not found with ISBN: " + dto.isbn)
    ensures r.Ok? ==>
      var t := r.value.1;
      && t.books.Keys == s.books.Keys
      && (forall k :: k in s.books && k != dto.isbn ==> t.books[k] == s.books[k])
      && WroteBook(s, t, dto, r.value.0)
  {
    match FindByIsbn(s, dto.isbn)
    case None => Err(NotFound("Book not found with ISBN: " + dto.isbn))
    case Some(existing) =>
      var patched := existing.(title := dto.title, pageCount := dto.pageCount,
                               summary := dto.summary, publicationDate := dto.publicationDate);
      var (authors, s1) := ResolveAuthors(s, dto.authors);
      var updated := patched.(authors := authors);
      var t := SaveBook(s1, updated);
      PatchCopies(s, dto, authors);
      SaveTouchesOne(s1, updated);
      WriteThrough(s, dto, updated);
      Ok((BookToDto(updated), t))
  }

  /** deleteBook: NotFound when no book has the ISBN; otherwise exactly that
      book is removed. Author rows are left alone. */
  function DeleteBook(s: Store, isbn: string): (r: Result<Store>)
    requires Valid(s)
    ensures r.Ok? <==> isbn in s.books
    ensures r.Err? ==> r.error == NotFound("Book not found with ISBN: " + isbn)
    ensures r.Ok? ==>
      && Valid(r.value)
      && r.value.books.Keys == s.books.Keys - {isbn}
      && (forall k :: k in r.value.books ==> r.value.books[k] == s.books[k])
      && r.value.authors == s.authors
      && r.value.nextId == s.nextId
  {
    if !ExistsByIsbn(s, isbn) then Err(NotFound("Book not found with ISBN: " + isbn))
    else Ok(DeleteByIsbn(s, isbn))
  }

  /** Saving an entity whose authors are stored keeps the store valid, and
      fetching it back by ISBN returns the body the write returned. */
  lemma SaveThenGet(s: Store, e: BookEntity, dto: BookDto)
    requires Valid(s) && AuthorsStored(s, e)
    requires CopiesScalars(e, dto)
    ensures var t := SaveBook(s, e);
      && Valid(t)
      && CopiesScalars(t.books[e.isbn], dto)
      && Load(t, t.books[e.isbn]) == e
      && GetBookByIsbn(t, e.isbn) == Ok(BookToDto(e))
  {
    var t := SaveBook(s, e);
    LoadRow(t, e);
  }

  /** Overwriting the four scalars of the stored book with a body's, and its
      authors with any set, gives an entity carrying the body's scalars. */
  lemma PatchCopies(s: Store, dto: BookDto, authors: set<Author>)
    requires Valid(s)
    requires dto.isbn in s.books
    ensures var existing := FindByIsbn(s, dto.isbn).value;
      CopiesScalars(existing.(title := dto.title, pageCount := dto.pageCount,
                              summary := dto.summary, publicationDate := dto.publicationDate)
                            .(authors := authors), dto)
  {
  }

  /** Saving a book adds its ISBN to the stored ones and leaves every other
      row as it was. */
  lemma SaveTouchesOne(s: Store, e: BookEntity)
    ensures SaveBook(s, e).books.Keys == s.books.Keys + {e.isbn}
    ensures forall k :: k in s.books && k != e.isbn ==> SaveBook(s, e).books[k] == s.books[k]
  {
  }

  /** Saving a book that carries the body's scalars and the authors the
      body's names reconcile to produces the shared outcome of a write. */
  lemma WriteThrough(s: Store, dto: BookDto, e: BookEntity)
    requires Valid(s)
    requires CopiesScalars(e, dto)
    requires e.authors == ResolveAuthors(s, dto.authors).0
    ensures WroteBook(s, SaveBook(ResolveAuthors(s, dto.authors).1, e), dto, BookToDto(e))
  {
    var s1 := ResolveAuthors(s, dto.authors).1;
    SaveThenGet(s1, e, dto);
    SameAuthorsStable(s1, SaveBook(s1, e));
    AuthorsStableTransitive(s, s1, SaveBook(s1, e));
  }

  // ---- query results ----

  /** The ISBNs of the stored books a criterion selects. */
  ghost function MatchingKeys(s: Store, c: Criterion): set<string> {
    set k | k in s.books && Matches(Load(s, s.books[k]), c)
  }

  /** Every book a query returns is a stored book it selects, loaded. */
  lemma FindByElements(s: Store, c: Criterion)
    requires Valid(s)
    ensures forall e :: e in FindBy(s, c) ==>
      e.isbn in MatchingKeys(s, c) && e == Load(s, s.books[e.isbn])
  {
    forall e | e in FindBy(s, c)
      ensures e.isbn in MatchingKeys(s, c) && e == Load(s, s.books[e.isbn])
    {
      assert e in Books(s);
    }
  }

  /** A repository query, mapped to bodies, lists exactly the books it
      selects. */
  lemma FindByLists(s: Store, c: Criterion)
    requires Valid(s)
    ensures Lists(s, BooksToBookDtos(FindBy(s, c)), MatchingKeys(s, c))
  {
    FindByIsbns(s, c);
    FindByOnce(s, c);
    FindByReadsBack(s, c);
  }

  /** A query's result carries exactly the ISBNs of the books it selects. */
  lemma FindByIsbns(s: Store, c: Criterion)
    requires Valid(s)
    ensures IsbnsOf(BooksToBookDtos(FindBy(s, c))) == MatchingKeys(s, c)
  {
    FindByCovers(s, c);
    FindByWithin(s, c);
  }

  /** No book appears twice in a query's result. */
  lemma FindByOnce(s: Store, c: Criterion)
    requires Valid(s)
    ensures var ds := BooksToBookDtos(FindBy(s, c));
      forall i, j :: 0 <= i < j < |ds| ==> ds[i].isbn != ds[j].isbn
  {
    var es := FindBy(s, c);
    FindByElements(s, c);
    forall i, j | 0 <= i < j < |es|
      ensures es[i].isbn != es[j].isbn
    {
      assert es[i] in es && es[j] in es;
    }
  }

  /** Every body a query returns is what fetching its ISBN returns. */
  lemma FindByReadsBack(s: Store, c: Criterion)
    requires Valid(s)
    ensures var ds := BooksToBookDtos(FindBy(s, c));
      forall i :: 0 <= i < |ds| ==> GetBookByIsbn(s, ds[i].isbn) == Ok(ds[i])
  {
    var es := FindBy(s, c);
    FindByElements(s, c);
    forall i | 0 <= i < |es|
      ensures GetBookByIsbn(s, es[i].isbn) == Ok(BookToDto(es[i]))
    {
      assert es[i] in es;
    }
  }

  /** Every book a query selects is in its result. */
  lemma FindByCovers(s: Store, c: Criterion)
    requires Valid(s)
    ensures MatchingKeys(s, c) <= IsbnsOf(BooksToBookDtos(FindBy(s, c)))
  {
    var es := FindBy(s, c);
    var ds := BooksToBookDtos(es);
    forall k | k in MatchingKeys(s, c)
      ensures k in IsbnsOf(ds)
    {
      var e := Load(s, s.books[k]);
      assert e.isbn == k;
      assert e in Books(s);
      assert Matches(e, c);
      assert e in es;
      var i :| 0 <= i < |es| && es[i] == e;
      assert ds[i] == BookToDto(e);
    }
  }

  /** Every book in a query's result is one it selects. */
  lemma FindByWithin(s: Store, c: Criterion)
    requires Valid(s)
    ensures IsbnsOf(BooksToBookDtos(FindBy(s, c))) <= MatchingKeys(s, c)
  {
    var es := FindBy(s, c);
    var ds := BooksToBookDtos(es);
    FindByElements(s, c);
    forall k | k in IsbnsOf(ds)
      ensures k in MatchingKeys(s, c)
    {
      var i :| 0 <= i < |ds| && ds[i].isbn == k;
      assert es[i] in es;
    }
  }

  /** Selecting by author name through loaded entities agrees with the
      row-level description. */
  lemma AuthorMatchingKeys(s: Store, needle: string)
    ensures MatchingKeys(s, AuthorsNameContaining(needle)) == AuthorHits(s, needle)
  {
    forall k | k in AuthorHits(s, needle)
      ensures k in MatchingKeys(s, AuthorsNameContaining(needle))
    {
      var id :| id in s.books[k].authors && id in s.authors
                && ContainsIgnoringCase(s.authors[id].name, needle);
      assert s.authors[id] in Load(s, s.books[k]).authors;
    }
  }
}
