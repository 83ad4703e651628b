/** A worked example on the empty catalogue: a book is created with one
    author, fetched back unchanged, then updated with an empty author list,
    after which it lists no author while the author row stays. */
module Scenario {
  import opened Common
  import opened Text
  import opened Model
  import opened Repository
  import opened BookMapper
  import opened AuthorService
  import opened BookService
  import opened BookProperties
  import opened Validation

  const Saint: string := "A. de Saint-Exup\U{00E9}ry"

  const Prince: BookDto :=
    BookDto("1234567890123", Some("Le Petit Prince"), Some([Saint]), None, None, 96)

  /** The example's ISBN passes every creation check on the empty catalogue. */
  lemma PrinceIsbnValid()
    ensures IsbnViolations(EmptyStore, Some(Prince.isbn)) == {}
  {
    assert AllWord(Prince.isbn);
  }

  /** Reconciling the one name on the empty catalogue adds it under the
      first id. */
  lemma PrinceAuthors()
    ensures ResolveAuthors(EmptyStore, Prince.authors)
         == ({Author(1, Saint)}, Store(map[], map[1 := Author(1, Saint)], 2))
  {
    var s := EmptyStore;
    assert NameMatches(s, Fold(Saint)) == {};
    var (a, s1) := FindOrCreateAuthor(s, Saint);
    assert (a, s1) == (Author(1, Saint), Store(map[], map[1 := Author(1, Saint)], 2));
    assert FindOrCreateEach(s1, [Saint][1..]) == ({}, s1);
  }

  /** The one author of the example carries the one name. */
  lemma PrinceNames()
    ensures AuthorNames({Author(1, Saint)}) == {Saint}
  {
    assert Author(1, Saint) in {Author(1, Saint)};
  }

  /** Two case variants of a new name on the empty catalogue: every author
      reconciliation adds carries the first spelling. */
  lemma CaseVariantsKeepFirst()
    ensures var t := ResolveAuthors(EmptyStore, Some(["camus", "Camus"])).1;
      forall id :: id in t.authors ==> t.authors[id].name == "camus"
  {
    var t := ResolveAuthors(EmptyStore, Some(["camus", "Camus"])).1;
    forall id | id in t.authors
      ensures t.authors[id].name == "camus"
    {
      FirstOfCamus(t.authors[id].name);
    }
  }

  /** The only name that is the first spelling of its class in the list is
      its first entry. */
  lemma FirstOfCamus(n: string)
    requires FirstOfClass(["camus", "Camus"], Fold(n)) == Some(n)
    ensures n == "camus"
  {
    var names := ["camus", "Camus"];
    var k := Fold(n);
    var rest := names[1..];
    assert names[0] == "camus" && rest[0] == "Camus" && rest[1..] == [];
    assert Fold("camus") == "camus";
    assert Fold("Camus") == "camus";
    assert FirstOfClass(rest, k) == if k == "camus" then Some("Camus") else None;
    assert FirstOfClass(names, k) == if k == "camus" then Some("camus") else None;
  }

  /** A one-element list naming only `n` is `[n]`. */
  lemma SingleName(ns: seq<string>, n: string)
    requires |ns| == 1 && NameSet(ns) == {n}
    ensures ns == [n]
  {
    assert ns[0] in NameSet(ns);
  }

  /** Creating the book in the empty catalogue adds the one author under the
      first id, and fetching the ISBN returns exactly the body that was sent. */
  lemma CreatePrince()
    ensures CreateBook(EmptyStore, Prince).Ok?
    ensures var (d, t) := CreateBook(EmptyStore, Prince).value;
      && t.authors == map[1 := Author(1, Saint)]
      && GetBookByIsbn(t, Prince.isbn) == Ok(Prince)
      && d == Prince
  {
    PrinceAuthors();
    var s1 := Store(map[], map[1 := Author(1, Saint)], 2);
    var created := DtoToBook(Prince).(authors := {Author(1, Saint)});
    var t := SaveBook(s1, created);
    assert CreateBook(EmptyStore, Prince) == Ok((BookToDto(created), t));
    var d := BookToDto(created);
    PrinceNames();
    SingleName(d.authors.value, Saint);
  }

  /** Updating the created book with an empty author list leaves it with
      none, keeps the author row, and keeps every other field. */
  lemma UpdatePrinceWithoutAuthors()
    ensures var t := CreateBook(EmptyStore, Prince).value.1;
      var dto := Prince.(authors := Some([]));
      && UpdateBook(t, dto).Ok?
      && var u := UpdateBook(t, dto).value.1;
      && u.authors == t.authors
      && GetBookByIsbn(u, Prince.isbn) == Ok(dto)
  {
    CreatePrince();
    var t := CreateBook(EmptyStore, Prince).value.1;
    var dto := Prince.(authors := Some([]));
    UpdateThenGet(t, dto);
    UpdateReplacesAuthors(t, dto);
    var d := UpdateBook(t, dto).value.0;
    assert |d.authors.value| == 0;
  }
}
