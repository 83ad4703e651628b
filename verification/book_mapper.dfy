/** The mapping between Book entities and book bodies: scalar fields are
    copied, the author set is flattened to a list of names on the way out
    and dropped on the way in. */
module BookMapper {
  import opened Common
  import opened Model

  /** The five scalar fields of a book and of a body agree. */
  predicate CopiesScalars<A>(b: Book<A>, d: BookDto) {
    && b.isbn == d.isbn
    && b.title == d.title
    && b.publicationDate == d.publicationDate
    && b.summary == d.summary
    && b.pageCount == d.pageCount
  }

  /** The names occurring in a list. */
  ghost function NameSet(names: seq<string>): set<string> {
    set i | 0 <= i < |names| :: names[i]
  }

  /** The names of a set of authors. */
  ghost function AuthorNames(authors: set<Author>): set<string> {
    set a | a in authors :: a.name
  }

  /** The authors of a set that carry exactly the name `n`. */
  ghost function WithName(authors: set<Author>, n: string): set<Author> {
    set a | a in authors && a.name == n
  }

  function NamesOf(order: seq<Author>): seq<string> {
    seq(|order|, i requires 0 <= i < |order| => order[i].name)
  }

  /** Listing the names of an enumeration of a set of authors gives each
      name as many times as authors carry it. */
  lemma {:induction false} NamesCount(order: seq<Author>, authors: set<Author>, n: string)
    requires Distinct(order)
    requires forall a :: a in order <==> a in authors
    ensures multiset(NamesOf(order))[n] == |WithName(authors, n)|
    decreases |order|
  {
    if order == [] {
      assert WithName(authors, n) == {};
    } else {
      var x := order[0];
      var rest := order[1..];
      assert Distinct(rest) by {
        forall i, j | 0 <= i < j < |rest|
          ensures rest[i] != rest[j]
        {
          assert rest[i] == order[i + 1] && rest[j] == order[j + 1];
        }
      }
      assert x !in rest by {
        forall i | 0 <= i < |rest|
          ensures rest[i] != x
        {
          assert rest[i] == order[i + 1];
        }
      }
      forall a
        ensures a in rest <==> a in authors - {x}
      {
        if a in authors - {x} {
          var i :| 0 <= i < |order| && order[i] == a;
          assert rest[i - 1] == a;
        }
      }
      NamesCount(rest, authors - {x}, n);
      assert NamesOf(order) == [x.name] + NamesOf(rest);
      if x.name == n {
        assert WithName(authors, n) == WithName(authors - {x}, n) + {x};
      } else {
        assert WithName(authors, n) == WithName(authors - {x}, n);
      }
    }
  }

  /** mapAuthorsToNames: null gives the empty list; otherwise one name per
      author, in the set's (unspecified) iteration order. */
  ghost function MapAuthorsToNames(authors: Option<set<Author>>): (names: seq<string>)
    ensures authors.None? ==> names == []
    ensures authors.Some? ==> |names| == |authors.value|
    ensures authors.Some? ==> NameSet(names) == AuthorNames(authors.value)
    ensures authors.Some? ==> forall n :: multiset(names)[n] == |WithName(authors.value, n)|
  {
    match authors
    case None => []
    case Some(authorSet) =>
      var order := Enumerate(authorSet);
      var names := NamesOf(order);
      assert NameSet(names) == AuthorNames(authorSet) by {
        forall n | n in AuthorNames(authorSet)
          ensures n in NameSet(names)
        {
          var a :| a in authorSet && a.name == n;
          var i :| 0 <= i < |order| && order[i] == a;
          assert names[i] == n;
        }
      }
      forall n
        ensures multiset(names)[n] == |WithName(authorSet, n)|
      {
        NamesCount(order, authorSet, n);
      }
      names
  }

  /** bookToBookDTO. */
  ghost function BookToDto(e: BookEntity): (d: BookDto)
    ensures CopiesScalars(e, d)
    ensures d.authors.Some?
    ensures |d.authors.value| == |e.authors|
    ensures NameSet(d.authors.value) == AuthorNames(e.authors)
    ensures forall n :: multiset(d.authors.value)[n] == |WithName(e.authors, n)|
  {
    BookDto(e.isbn, e.title, Some(MapAuthorsToNames(Some(e.authors))),
            e.publicationDate, e.summary, e.pageCount)
  }

  /** bookDTOToBook: the `authors` target is ignored, so the entity keeps its
      initial empty author set whatever names the body carried. */
  function DtoToBook(d: BookDto): (e: BookEntity)
    ensures CopiesScalars(e, d)
    ensures e.authors == {}
  {
    Book(d.isbn, d.title, {}, d.publicationDate, d.summary, d.pageCount)
  }

  /** booksToBookDTOs: the generated loop appends the mapping of each
      element in turn. */
  ghost function BooksToBookDtos(bs: seq<BookEntity>): (ds: seq<BookDto>)
    ensures |ds| == |bs|
    ensures forall i :: 0 <= i < |bs| ==> ds[i] == BookToDto(bs[i])
  {
    if bs == [] then [] else [BookToDto(bs[0])] + BooksToBookDtos(bs[1..])
  }

  /** Mapping a body to an entity and back loses exactly the author list,
      which comes back empty. */
  lemma DtoRoundTrip(d: BookDto)
    ensures BookToDto(DtoToBook(d)) == d.(authors := Some([]))
  {
  }

  /** Mapping an entity to a body and back loses exactly the author set. */
  lemma EntityRoundTrip(e: BookEntity)
    ensures DtoToBook(BookToDto(e)) == e.(authors := {})
  {
  }

  /** Authors with pairwise different names give a list without repeats. */
  lemma {:induction false} NamesDistinct(authors: set<Author>)
    requires forall a, b :: a in authors && b in authors && a.name == b.name ==> a == b
    ensures Distinct(MapAuthorsToNames(Some(authors)))
  {
    var order := Enumerate(authors);
    var names := MapAuthorsToNames(Some(authors));
    assert names == NamesOf(order);
    forall i, j | 0 <= i < j < |names|
      ensures names[i] != names[j]
    {
      assert order[i] != order[j];
    }
  }
}
