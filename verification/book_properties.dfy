/** Properties relating several calls of the book service: the precedence
    of the search criteria, reading back what a write stored, replacement
    of the author set, idempotence of update, and deletion. */
module BookProperties {
  import opened Common
  import opened Text
  import opened Model
  import opened Repository
  import opened BookMapper
  import opened AuthorService
  import opened BookService

  // ---- search ----

  /** A title with text decides the search alone: the author parameter is
      not consulted. */
  lemma SearchTitleWins(s: Store, title: Option<string>, a1: Option<string>, a2: Option<string>)
    requires Valid(s)
    requires HasText(title)
    ensures SearchBooks(s, title, a1) == SearchBooks(s, title, a2) == SearchByTitle(s, title.value)
  {
  }

  /** Without a title with text, an author with text selects by author name,
      whether the title was absent, empty or blank. */
  lemma SearchAuthorWithoutTitle(s: Store, title: Option<string>, author: Option<string>)
    requires Valid(s)
    requires !HasText(title) && HasText(author)
    ensures SearchBooks(s, title, author) == SearchBooks(s, None, author) == SearchByAuthor(s, author.value)
  {
  }

  /** With neither criterion carrying text, search is getAllBooks. */
  lemma SearchWithoutCriteria(s: Store, title: Option<string>, author: Option<string>)
    requires Valid(s)
    requires !HasText(title) && !HasText(author)
    ensures SearchBooks(s, title, author) == GetAllBooks(s)
  {
  }

  // ---- reading back a write ----

  /** The names listed in a body describing a row, folded, are the folded
      names of the authors the row loads to. */
  lemma ListedNamesFold(s: Store, row: BookRow, d: BookDto)
    requires Describes(d, s, row)
    ensures FoldedList(d.authors.value) == FoldedNames(Load(s, row).authors)
  {
    var ns := d.authors.value;
    var loaded := Load(s, row).authors;
    forall x | x in FoldedList(ns)
      ensures x in FoldedNames(loaded)
    {
      var i :| 0 <= i < |ns| && Fold(ns[i]) == x;
      assert ns[i] in NameSet(ns);
      var id :| id in row.authors && id in s.authors && s.authors[id].name == ns[i];
      assert s.authors[id] in loaded;
    }
    forall x | x in FoldedNames(loaded)
      ensures x in FoldedList(ns)
    {
      var a :| a in loaded && Fold(a.name) == x;
      var id :| id in row.authors && id in s.authors && s.authors[id] == a;
      assert a.name in NameSet(ns);
      var i :| 0 <= i < |ns| && ns[i] == a.name;
    }
  }

  /** A set of authors with one author per name up to case has as many
      folded names as authors. */
  lemma {:induction false} FoldedCount(authors: set<Author>)
    requires OnePerFold(authors)
    ensures |FoldedNames(authors)| == |authors|
    decreases |authors|
  {
    if authors != {} {
      var a :| a in authors;
      var rest := authors - {a};
      assert OnePerFold(rest);
      FoldedCount(rest);
      assert Fold(a.name) !in FoldedNames(rest);
      assert FoldedNames(authors) == FoldedNames(rest) + {Fold(a.name)};
    }
  }

  /** How a name comes back when a book is fetched after a write: a name the
      store already knew ignoring case is listed with the known author's
      casing, and any other name as its first spelling in the supplied list. */
  ghost predicate ListedAsStored(s: Store, dto: BookDto, n: string) {
    && (NameTaken(s, n) ==> FindByNameIgnoreCase(s, n).Some? && FindByNameIgnoreCase(s, n).value.name == n)
    && (!NameTaken(s, n) ==> dto.authors.Some? && FirstOfClass(dto.authors.value, Fold(n)) == Some(n))
  }

  /** After a write, fetching its ISBN returns the body that was sent, except
      that the author list holds the supplied names up to case (a known
      author keeps its stored casing), each once, in some order: names that
      differ only in case yield a single entry. */
  lemma WriteReadsBack(s: Store, t: Store, dto: BookDto, d: BookDto)
    requires WroteBook(s, t, dto, d)
    ensures GetBookByIsbn(t, dto.isbn) == Ok(d)
    ensures d.(authors := dto.authors) == dto
    ensures FoldedList(d.authors.value) == FoldedInputs(dto.authors)
    ensures |d.authors.value| == |FoldedInputs(dto.authors)|
    ensures forall i :: 0 <= i < |d.authors.value| ==> ListedAsStored(s, dto, d.authors.value[i])
  {
    ListedNamesFold(t, t.books[dto.isbn], d);
    FoldedCount(Load(t, t.books[dto.isbn]).authors);
    var linked := Load(t, t.books[dto.isbn]).authors;
    forall i | 0 <= i < |d.authors.value|
      ensures ListedAsStored(s, dto, d.authors.value[i])
    {
      var n := d.authors.value[i];
      assert n in NameSet(d.authors.value);
      var id :| id in t.books[dto.isbn].authors && id in t.authors && t.authors[id].name == n;
      var a := t.authors[id];
      assert a in linked;
      if NameTaken(s, n) {
        assert FindByNameIgnoreCase(s, a.name) == Some(a);
      }
    }
  }

  /** createBook followed by getBookByIsbn returns the created book. */
  lemma CreateThenGet(s: Store, dto: BookDto)
    requires Valid(s)
    requires dto.isbn !in s.books
    ensures CreateBook(s, dto).Ok?
    ensures var (d, t) := CreateBook(s, dto).value;
      && GetBookByIsbn(t, dto.isbn) == Ok(d)
      && d.(authors := dto.authors) == dto
      && FoldedList(d.authors.value) == FoldedInputs(dto.authors)
      && |d.authors.value| == |FoldedInputs(dto.authors)|
      && (forall i :: 0 <= i < |d.authors.value| ==> ListedAsStored(s, dto, d.authors.value[i]))
  {
    var (d, t) := CreateBook(s, dto).value;
    WriteReadsBack(s, t, dto, d);
  }

  /** updateBook followed by getBookByIsbn returns the updated book. */
  lemma UpdateThenGet(s: Store, dto: BookDto)
    requires Valid(s)
    requires dto.isbn in s.books
    ensures UpdateBook(s, dto).Ok?
    ensures var (d, t) := UpdateBook(s, dto).value;
      && GetBookByIsbn(t, dto.isbn) == Ok(d)
      && d.(authors := dto.authors) == dto
      && FoldedList(d.authors.value) == FoldedInputs(dto.authors)
      && |d.authors.value| == |FoldedInputs(dto.authors)|
      && (forall i :: 0 <= i < |d.authors.value| ==> ListedAsStored(s, dto, d.authors.value[i]))
  {
    var (d, t) := UpdateBook(s, dto).value;
    WriteReadsBack(s, t, dto, d);
  }

  /** A row stored before a write loads to the same entity after it: the
      write keeps every author and adds authors only under ids no stored row
      refers to. */
  lemma LoadKept(s: Store, t: Store, linked: set<Author>, row: BookRow)
    requires Valid(s) && AuthorsStable(s, t) && AddsOnly(s, t, linked)
    requires forall id :: id in row.authors ==> id < s.nextId
    ensures Load(t, row) == Load(s, row)
  {
    forall a | a in Load(t, row).authors
      ensures a in Load(s, row).authors
    {
      var id :| id in row.authors && id in t.authors && t.authors[id] == a;
      assert id in s.authors;
    }
  }

  /** After a write, every other ISBN reads exactly as before. */
  lemma WriteKeepsOthers(s: Store, t: Store, dto: BookDto, d: BookDto)
    requires Valid(s)
    requires WroteBook(s, t, dto, d)
    requires t.books.Keys <= s.books.Keys + {dto.isbn}
    requires forall k :: k in s.books && k != dto.isbn ==> k in t.books && t.books[k] == s.books[k]
    ensures forall k :: k != dto.isbn ==> GetBookByIsbn(t, k) == GetBookByIsbn(s, k)
  {
    forall k | k != dto.isbn
      ensures GetBookByIsbn(t, k) == GetBookByIsbn(s, k)
    {
      if k in s.books {
        LoadKept(s, t, Load(t, t.books[dto.isbn]).authors, s.books[k]);
        assert FindByIsbn(t, k) == FindByIsbn(s, k);
      }
    }
  }

  /** createBook leaves every other book reading as before. */
  lemma CreateKeepsOthers(s: Store, dto: BookDto)
    requires Valid(s)
    ensures CreateBook(s, dto).Ok? ==>
      var t := CreateBook(s, dto).value.1;
      forall k :: k != dto.isbn ==> GetBookByIsbn(t, k) == GetBookByIsbn(s, k)
  {
    if CreateBook(s, dto).Ok? {
      var (d, t) := CreateBook(s, dto).value;
      WriteKeepsOthers(s, t, dto, d);
    }
  }

  /** updateBook leaves every other book reading as before. */
  lemma UpdateKeepsOthers(s: Store, dto: BookDto)
    requires Valid(s)
    ensures UpdateBook(s, dto).Ok? ==>
      var t := UpdateBook(s, dto).value.1;
      forall k :: k != dto.isbn ==> GetBookByIsbn(t, k) == GetBookByIsbn(s, k)
  {
    if UpdateBook(s, dto).Ok? {
      var (d, t) := UpdateBook(s, dto).value;
      WriteKeepsOthers(s, t, dto, d);
    }
  }

  /** The authors a lookup of the names finds. */
  ghost function Lookups(s: Store, names: seq<string>): set<Author> {
    set i | 0 <= i < |names| && FindByNameIgnoreCase(s, names[i]).Some? :: FindByNameIgnoreCase(s, names[i]).value
  }

  /** A name equal ignoring case to a known one is known. */
  lemma TakenByFold(s: Store, x: string, y: string)
    requires NameTaken(s, x) && Fold(x) == Fold(y)
    ensures NameTaken(s, y)
  {
    var id :| id in s.authors && SameIgnoringCase(s.authors[id].name, x);
    assert SameIgnoringCase(s.authors[id].name, y);
  }

  /** When every supplied name is known ignoring case, a write links exactly
      the authors a lookup of the names finds in the store before it. */
  lemma LinksLookups(s: Store, t: Store, dto: BookDto, d: BookDto)
    requires WroteBook(s, t, dto, d)
    requires dto.authors.Some?
    requires forall i :: 0 <= i < |dto.authors.value| ==> NameTaken(s, dto.authors.value[i])
    ensures Load(t, t.books[dto.isbn]).authors == Lookups(s, dto.authors.value)
  {
    var ns := dto.authors.value;
    var linked := Load(t, t.books[dto.isbn]).authors;
    forall a | a in linked
      ensures a in Lookups(s, ns)
    {
      assert Fold(a.name) in FoldedNames(linked);
      var i :| 0 <= i < |ns| && Fold(ns[i]) == Fold(a.name);
      TakenByFold(s, ns[i], a.name);
      FindByFold(s, a.name, ns[i]);
    }
    forall a | a in Lookups(s, ns)
      ensures a in linked
    {
      var i :| 0 <= i < |ns| && FindByNameIgnoreCase(s, ns[i]) == Some(a);
      assert Fold(ns[i]) in FoldedList(ns);
      var b :| b in linked && Fold(b.name) == Fold(ns[i]);
      TakenByFold(s, ns[i], b.name);
      FindByFold(s, b.name, ns[i]);
    }
  }

  /** A book created with names that are all known ignoring case adds no
      author: it links exactly the authors a lookup of the names finds. */
  lemma CreateReusesKnownAuthors(s: Store, dto: BookDto)
    requires Valid(s)
    requires dto.isbn !in s.books
    requires dto.authors.Some?
    requires forall i :: 0 <= i < |dto.authors.value| ==> NameTaken(s, dto.authors.value[i])
    ensures CreateBook(s, dto).Ok?
    ensures var t := CreateBook(s, dto).value.1;
      && t.authors == s.authors
      && Load(t, t.books[dto.isbn]).authors == Lookups(s, dto.authors.value)
  {
    EachAllKnown(s, dto.authors.value);
    var (d, t) := CreateBook(s, dto).value;
    LinksLookups(s, t, dto, d);
  }

  // ---- update ----

  /** An update naming only authors known ignoring case adds no author: it
      links the existing ones, the very authors a lookup of each name finds. */
  lemma UpdateReusesKnownAuthors(s: Store, dto: BookDto)
    requires Valid(s)
    requires dto.isbn in s.books
    requires dto.authors.Some?
    requires forall i :: 0 <= i < |dto.authors.value| ==> NameTaken(s, dto.authors.value[i])
    ensures UpdateBook(s, dto).Ok?
    ensures var t := UpdateBook(s, dto).value.1;
      && t.authors == s.authors
      && Load(t, t.books[dto.isbn]).authors == Lookups(s, dto.authors.value)
  {
    EachAllKnown(s, dto.authors.value);
    var (d, t) := UpdateBook(s, dto).value;
    LinksLookups(s, t, dto, d);
  }

  /** Update replaces the author set rather than merging into it: an author
      the book had whose name matches none of the supplied names is no longer
      among its authors, and a body without names leaves none. */
  lemma UpdateReplacesAuthors(s: Store, dto: BookDto)
    requires Valid(s)
    requires dto.isbn in s.books
    ensures var t := UpdateBook(s, dto).value.1;
      && (forall a :: a in Load(s, s.books[dto.isbn]).authors && Fold(a.name) !in FoldedInputs(dto.authors)
            ==> a !in Load(t, t.books[dto.isbn]).authors)
      && (dto.authors.None? || dto.authors == Some([]) ==> Load(t, t.books[dto.isbn]).authors == {})
  {
    var t := UpdateBook(s, dto).value.1;
    var after := Load(t, t.books[dto.isbn]).authors;
    forall a | a in after
      ensures Fold(a.name) in FoldedInputs(dto.authors)
    {
      assert Fold(a.name) in FoldedNames(after);
    }
  }

  /** A name found in one store is found again, as the same author and with
      no change, in any store that keeps that store's authors stable. */
  lemma FindAgain(s: Store, name: string, a: Author, u: Store)
    requires Valid(u)
    requires FindByNameIgnoreCase(s, name) == Some(a)
    requires AuthorsStable(s, u)
    ensures FindOrCreateAuthor(u, name) == (a, u)
  {
    var key := Fold(name);
    var m := NameMatches(s, key);
    assert m != {};
    assert NameMatches(u, key) == m;
    var id := Pick(m);
    assert FindByNameIgnoreCase(s, name) == Some(s.authors[id]);
    assert FindByNameIgnoreCase(u, name) == Some(u.authors[id]);
  }

  /** Reconciling the same list again, in a store that keeps the first
      reconciliation's result stable, returns the same authors and changes
      nothing. */
  lemma {:induction false} EachAgain(s: Store, names: seq<string>, u: Store)
    requires Valid(s) && Valid(u)
    requires AuthorsStable(FindOrCreateEach(s, names).1, u)
    ensures FindOrCreateEach(u, names) == (FindOrCreateEach(s, names).0, u)
    decreases |names|
  {
    if names != [] {
      var (a, s1) := FindOrCreateAuthor(s, names[0]);
      var s2 := FindOrCreateEach(s1, names[1..]).1;
      AuthorsStableTransitive(s1, s2, u);
      FindAgain(s1, names[0], a, u);
      EachAgain(s1, names[1..], u);
    }
  }

  /** The same, for the optional list of a body. */
  lemma ResolveAgain(s: Store, names: Option<seq<string>>, u: Store)
    requires Valid(s) && Valid(u)
    requires AuthorsStable(ResolveAuthors(s, names).1, u)
    ensures ResolveAuthors(u, names) == (ResolveAuthors(s, names).0, u)
  {
    if names.Some? {
      EachAgain(s, names.value, u);
    }
  }

  /** Sending the same update twice has the effect of sending it once. */
  lemma UpdateIdempotent(s: Store, dto: BookDto)
    requires Valid(s)
    requires dto.isbn in s.books
    ensures var r := UpdateBook(s, dto);
      r.Ok? && UpdateBook(r.value.1, dto) == r
  {
    var existing := Load(s, s.books[dto.isbn]);
    var patched := existing.(title := dto.title, pageCount := dto.pageCount,
                             summary := dto.summary, publicationDate := dto.publicationDate);
    var (authors, s1) := ResolveAuthors(s, dto.authors);
    var updated := patched.(authors := authors);
    var t := SaveBook(s1, updated);
    assert UpdateBook(s, dto) == Ok((BookToDto(updated), t));
    SaveThenGet(s1, updated, dto);
    SameAuthorsStable(s1, t);
    ResolveAgain(s, dto.authors, t);
    assert FindByIsbn(t, dto.isbn) == Some(updated);
    assert SaveBook(t, updated) == t;
  }

  // ---- delete ----

  /** After a delete, the ISBN is no longer found, a second delete fails
      with NotFound, and every other book reads exactly as before. */
  lemma DeleteThenGet(s: Store, isbn: string)
    requires Valid(s)
    requires isbn in s.books
    ensures var t := DeleteBook(s, isbn).value;
      && GetBookByIsbn(t, isbn).Err?
      && DeleteBook(t, isbn) == Err(NotFound("Book not found with ISBN: " + isbn))
      && (forall k :: k != isbn ==> GetBookByIsbn(t, k) == GetBookByIsbn(s, k))
  {
  }
}
