/** The author service: lookups by id, renaming, deletion, and the
    case-insensitive find-or-create that both author creation and every book
    write go through. */
module AuthorService {
  import opened Common
  import opened Text
  import opened Model
  import opened Repository
  import opened BookMapper

  /** Some stored author's name equals `name` ignoring case. */
  ghost predicate NameTaken(s: Store, name: string) {
    exists id :: id in s.authors && SameIgnoringCase(s.authors[id].name, name)
  }

  /** `t` differs from `s` at most by authors added under ids `s` never
      handed out: books and existing authors are untouched. */
  ghost predicate Extends(s: Store, t: Store) {
    && t.books == s.books
    && s.nextId <= t.nextId
    && (forall id :: id in s.authors ==> id in t.authors && t.authors[id] == s.authors[id])
    && (forall id :: id in t.authors && id !in s.authors ==> s.nextId <= id)
  }

  /** Going from `s` to `t` keeps every author and adds none to a name that
      was already matched ignoring case. */
  ghost predicate AuthorsStable(s: Store, t: Store) {
    && (forall id :: id in s.authors ==> id in t.authors && t.authors[id] == s.authors[id])
    && (forall key :: NameMatches(s, key) != {} ==> NameMatches(t, key) == NameMatches(s, key))
  }

  lemma AuthorsStableTransitive(s: Store, t: Store, u: Store)
    requires AuthorsStable(s, t) && AuthorsStable(t, u)
    ensures AuthorsStable(s, u)
  {
  }

  /** Two stores with the same author table relate by AuthorsStable. */
  lemma SameAuthorsStable(s: Store, t: Store)
    requires s.authors == t.authors
    ensures AuthorsStable(s, t)
  {
    forall key | NameMatches(s, key) != {}
      ensures NameMatches(t, key) == NameMatches(s, key)
    {
    }
  }

  /** The lookup sees a name only through its case folding. */
  lemma FindByFold(s: Store, x: string, y: string)
    requires SameIgnoringCase(x, y)
    ensures FindByNameIgnoreCase(s, x) == FindByNameIgnoreCase(s, y)
  {
  }

  /** A name known in `s` is looked up to the same author in any store that
      keeps `s`'s authors stable. */
  lemma FindStable(s: Store, t: Store, name: string)
    requires AuthorsStable(s, t)
    requires NameTaken(s, name)
    ensures FindByNameIgnoreCase(t, name) == FindByNameIgnoreCase(s, name)
  {
    var key := Fold(name);
    var id0 :| id0 in s.authors && SameIgnoringCase(s.authors[id0].name, name);
    assert id0 in NameMatches(s, key);
    var m := NameMatches(s, key);
    assert NameMatches(t, key) == m;
    var id := Pick(m);
    assert FindByNameIgnoreCase(s, name) == Some(s.authors[id]);
    assert FindByNameIgnoreCase(t, name) == Some(t.authors[id]);
  }

  function NotFoundMessage(id: AuthorId): string {
    "Unable to find author with id : " + NatToString(id)
  }

  function NatToString(n: nat): string
    decreases n
  {
    var digit := ['0' + (n % 10) as char];
    if n < 10 then digit else NatToString(n / 10) + digit
  }

  /** getAllAuthors: one body per stored author. */
  ghost function GetAllAuthors(s: Store): (r: seq<AuthorDto>)
    ensures |r| == |s.authors.Values|
    ensures forall a :: a in s.authors.Values ==> AuthorDto(a.name) in r
    ensures forall i :: 0 <= i < |r| ==> exists a :: a in s.authors.Values && r[i] == AuthorDto(a.name)
    ensures forall n :: multiset(r)[AuthorDto(n)] == |WithName(s.authors.Values, n)|
  {
    var all := FindAllAuthors(s);
    AuthorsToDtosCovers(all);
    forall n
      ensures multiset(AuthorsToDtos(all))[AuthorDto(n)] == |WithName(s.authors.Values, n)|
    {
      DtosCount(all, n);
      NamesCount(all, s.authors.Values, n);
    }
    AuthorsToDtos(all)
  }

  /** authorsToAuthorDTOs: one body per author, in order. */
  function AuthorsToDtos(authors: seq<Author>): (r: seq<AuthorDto>)
    ensures |r| == |authors|
    ensures forall i :: 0 <= i < |authors| ==> r[i] == AuthorDto(authors[i].name)
  {
    if authors == [] then [] else [AuthorDto(authors[0].name)] + AuthorsToDtos(authors[1..])
  }

  /** A body appears in the list as often as its name among the authors. */
  lemma {:induction false} DtosCount(authors: seq<Author>, n: string)
    ensures multiset(AuthorsToDtos(authors))[AuthorDto(n)] == multiset(NamesOf(authors))[n]
    decreases |authors|
  {
    if authors != [] {
      DtosCount(authors[1..], n);
      assert NamesOf(authors) == [authors[0].name] + NamesOf(authors[1..]);
    }
  }

  lemma AuthorsToDtosCovers(authors: seq<Author>)
    ensures forall a :: a in authors ==> AuthorDto(a.name) in AuthorsToDtos(authors)
  {
    var r := AuthorsToDtos(authors);
    forall a | a in authors
      ensures AuthorDto(a.name) in r
    {
      var i :| 0 <= i < |authors| && authors[i] == a;
      assert r[i] == AuthorDto(a.name);
    }
  }

  /** getAuthorById: the stored author's name, or NotFound. */
  function GetAuthorById(s: Store, id: AuthorId): (r: Result<AuthorDto>)
    ensures r.Ok? <==> id in s.authors
    ensures r.Ok? ==> r.value.name == s.authors[id].name
    ensures r.Err? ==> r.error == NotFound(NotFoundMessage(id))
  {
    match FindAuthorById(s, id)
    case Some(a) => Ok(AuthorDto(a.name))
    case None => Err(NotFound(NotFoundMessage(id)))
  }

  /** findOrCreateAuthor: an author whose name equals `name` ignoring case
      is returned as is; otherwise exactly one author, carrying `name` with
      its own casing and a fresh id, is added and returned. */
  ghost function FindOrCreateAuthor(s: Store, name: string): (r: (Author, Store))
    requires Valid(s)
    ensures Valid(r.1) && Extends(s, r.1)
    ensures SameIgnoringCase(r.0.name, name)
    ensures r.0.id in r.1.authors && r.1.authors[r.0.id] == r.0
    ensures FindByNameIgnoreCase(r.1, name) == Some(r.0)
    ensures AuthorsStable(s, r.1)
    ensures NameTaken(s, name) ==> r.1 == s
    ensures !NameTaken(s, name) ==>
      && r.0.name == name
      && r.0.id !in s.authors
      && r.1.authors == s.authors[r.0.id := r.0]
      && |r.1.authors| == |s.authors| + 1
  {
    match FindByNameIgnoreCase(s, name)
    case Some(a) =>
      assert NameTaken(s, name);
      (a, s)
    case None =>
      assert !NameTaken(s, name);
      var (a, t) := InsertAuthor(s, name);
      assert NameMatches(t, Fold(name)) == {a.id} by {
        forall id | id in NameMatches(t, Fold(name))
          ensures id == a.id
        {
        }
      }
      assert AuthorsStable(s, t) by {
        forall key | NameMatches(s, key) != {}
          ensures NameMatches(t, key) == NameMatches(s, key)
        {
          assert key != Fold(name);
        }
      }
      (a, t)
  }

  /** createAuthor: find-or-create on the body's name; the returned body
      names the author found or created. */
  ghost function CreateAuthor(s: Store, dto: AuthorDto): (r: (AuthorDto, Store))
    requires Valid(s)
    ensures r.1 == FindOrCreateAuthor(s, dto.name).1
    ensures SameIgnoringCase(r.0.name, dto.name)
    ensures exists id :: id in r.1.authors && r.1.authors[id].name == r.0.name
    ensures !NameTaken(s, dto.name) ==> r.0 == dto
  {
    var (a, t) := FindOrCreateAuthor(s, dto.name);
    (AuthorDto(a.name), t)
  }

  /** updateAuthor: renames the author with that id and nothing else, or
      fails with NotFound and saves nothing. */
  function UpdateAuthor(s: Store, id: AuthorId, dto: AuthorDto): (r: Result<(AuthorDto, Store)>)
    requires Valid(s)
    ensures r.Ok? <==> id in s.authors
    ensures r.Err? ==> r.error == NotFound(NotFoundMessage(id))
    ensures r.Ok? ==>
      && r.value.0 == dto
      && r.value.1 == s.(authors := s.authors[id := Author(id, dto.name)])
      && Valid(r.value.1)
  {
    match FindAuthorById(s, id)
    case None => Err(NotFound(NotFoundMessage(id)))
    case Some(existing) =>
      var renamed := existing.(name := dto.name);
      var t := SaveAuthor(s, renamed);
      Ok((AuthorDto(renamed.name), t))
  }

  /** deleteAuthor: never fails; removes the id if present. Books keep
      their references, which no longer resolve. */
  function DeleteAuthor(s: Store, id: AuthorId): (t: Store)
    requires Valid(s)
    ensures Valid(t)
    ensures t.authors.Keys == s.authors.Keys - {id}
    ensures forall k :: k in t.authors ==> t.authors[k] == s.authors[k]
    ensures t.books == s.books && t.nextId == s.nextId
    ensures id !in s.authors ==> t == s
  {
    DeleteAuthorById(s, id)
  }

  /** Reconciliation is idempotent: once `n1` has been found or created, any
      case variant `n2` finds the same author and changes nothing. */
  lemma {:induction false} FindOrCreateIdempotent(s: Store, n1: string, n2: string)
    requires Valid(s)
    requires SameIgnoringCase(n1, n2)
    ensures FindOrCreateAuthor(FindOrCreateAuthor(s, n1).1, n2) == FindOrCreateAuthor(s, n1)
  {
    var (a1, s1) := FindOrCreateAuthor(s, n1);
    var key := Fold(n1);
    assert SameIgnoringCase(a1.name, n2);
    if NameTaken(s, n1) {
      assert s1 == s;
      assert FindByNameIgnoreCase(s, n2) == FindByNameIgnoreCase(s, n1);
    } else {
      assert NameMatches(s1, key) == {a1.id} by {
        forall id | id in NameMatches(s1, key)
          ensures id == a1.id
        {
        }
      }
      assert FindByNameIgnoreCase(s1, n2) == Some(a1);
    }
  }

  /** Deleting an author twice is the same as deleting it once. */
  lemma DeleteAuthorIdempotent(s: Store, id: AuthorId)
    requires Valid(s)
    ensures DeleteAuthor(DeleteAuthor(s, id), id) == DeleteAuthor(s, id)
  {
  }

  /** After a rename, fetching the id returns the new name, and every other
      id reads as before. */
  lemma RenameThenGet(s: Store, id: AuthorId, dto: AuthorDto)
    requires Valid(s)
    requires id in s.authors
    ensures var t := UpdateAuthor(s, id, dto).value.1;
      && GetAuthorById(t, id) == Ok(dto)
      && (forall k :: k != id ==> GetAuthorById(t, k) == GetAuthorById(s, k))
  {
  }

  /** After a delete, fetching the id fails with NotFound, and every other
      id reads as before. */
  lemma DeleteThenGetAuthor(s: Store, id: AuthorId)
    requires Valid(s)
    ensures var t := DeleteAuthor(s, id);
      && GetAuthorById(t, id) == Err(NotFound(NotFoundMessage(id)))
      && (forall k :: k != id ==> GetAuthorById(t, k) == GetAuthorById(s, k))
  {
  }

  /** The body createAuthor returns is what fetching some stored id returns. */
  lemma CreateThenGetAuthor(s: Store, dto: AuthorDto)
    requires Valid(s)
    ensures var (d, t) := CreateAuthor(s, dto);
      exists id :: GetAuthorById(t, id) == Ok(d)
  {
    var (a, t) := FindOrCreateAuthor(s, dto.name);
    assert CreateAuthor(s, dto) == (AuthorDto(a.name), t);
    assert GetAuthorById(t, a.id) == Ok(AuthorDto(a.name));
  }
}
