# Catalogue: books, authors and ISBN checks, in Dafny

This project models the service layer of a small library catalogue. It is
a REST service that stores books and their authors. A book is identified
by its ISBN. It carries a title, a publication date, a summary, a page
count and a set of authors. An author is an id and a name.

The model covers:

- **Book service.** Listing, fetching by ISBN and the three-way search:
  by title, else by author name, else everything. It also covers create,
  update and delete. Both writes rebuild the book's author set from the
  names in the request body.
- **Author reconciliation.** `findOrCreateAuthor` returns the author whose
  name equals the given one ignoring case, or adds one new author with that
  exact name.
- **Other author operations.** Lookup by id, rename and delete.
- **Book mapper.** Copies a book entity to and from its request/response
  body (`BookDTO`).
- **ISBN checks on a creation request.** The ISBN is mandatory, it must
  match `^\w{10}(\w{3})?$`, and no stored book may already have it.

The database is an immutable `Store`:

- books keyed by ISBN, each holding the ids of its authors (the join
  table);
- authors keyed by id;
- the next id the identity column will hand out.

Every operation is a pure function of the store:

- A read returns a `Result`.
- A write returns a `Result` of its value paired with the new store.
- A failing write returns no store. This models the rollback of the
  surrounding transaction, including any author it created. The ids that
  author would have taken are handed out again (see Left out).

The predicate `Model.Valid` is the store invariant. Every write is proved
to preserve it.

Files:

- `common.dfy`: `Option`, `Result`, `Error`, `Violation`, and `Enumerate`, the unspecified order in which a set is listed.
- `text.dfy`: the two notions of blankness (Java's `isBlank`, and `trim` leaving nothing), ASCII case folding, substring search.
- `model.dfy`: `Author`, `Book`, `BookDto`, `AuthorDto`, `Store`, `Valid`, and the loading of a stored row into an entity.
- `repository.dfy`: the repository queries, including `findByNameIgnoreCase` and the derived substring searches.
- `book_mapper.dfy`: `BookMapper`.
- `author_service.dfy`: `AuthorService`.
- `book_service.dfy`: `BookService`.
- `validation.dfy`: the ISBN constraints on `BookDTO`, `UniqueISBNValidator`, and the validated `POST /api/books`.
- `book_properties.dfy`: lemmas relating several calls (search precedence, read-back after a write, replacement of authors, update idempotence, delete).
- `scenario.dfy`: a worked example on the empty catalogue.

Modelling choices:

- Lists built from a `HashSet` or from a query come in an unspecified order.
  `Enumerate` models that order, so the functions that return lists are
  ghost. Their contracts say which elements occur, and that each occurs
  once. `Enumerate` is a function of the set, so two calls listing the same
  set give the same order. The code's `HashSet<Author>` hashes authors by
  identity (`Author` defines no `equals` or `hashCode`), so its order may
  differ from one request to the next. Equalities between two responses,
  such as `BookProperties.UpdateIdempotent` returning the same body twice or
  `BookProperties.SearchTitleWins`, hold in the code only up to the order of
  each book's author list.
- The author name column is unique only case-sensitively, while
  `findByNameIgnoreCase` ignores case, so several stored authors may match
  one name. `Repository.FindByNameIgnoreCase` returns some match. The choice
  depends only on the set of matching ids, so every case variant of a name
  finds the same author.
- Case folding is ASCII lower-casing. `isBlank` uses Java's whitespace set.
  The `@NotBlank` constraint tests instead that `trim` leaves nothing, i.e.
  that every character is at most U+0020; the two differ on ASCII control
  characters and on Unicode spaces, and `Validation.IsbnViolations` keeps
  them apart.
- Two behaviours of the code that a reader might not expect:
  - Reading back a created book does not return the input author list
    verbatim. A name that matched an existing author comes back with that
    author's stored casing, and any other name as its first spelling in
    the list. Names equal up
    to case collapse to one entry, so the list has one entry per distinct
    name up to case. The list is in an unspecified order.
    `BookProperties.CreateThenGet` states exactly this.
  - A duplicate ISBN that reaches `createBook` is refused by the storage
    layer (`Conflict`). The validated endpoint never lets one through.

## Model

| member | source | states |
|---|---|---|
| Model.LoadRow | src/main/java/com/librairie/catalogue/model/Author.java:24-27 | A book saved with stored authors loads back with exactly those authors: the join rows are the inverse of loading |
| Repository.FindByNameIgnoreCase | src/main/java/com/librairie/catalogue/model/Author.java:21-22 | The lookup finds an author exactly when some stored name equals the given one ignoring case, and what it finds is such an author; several may match because the column is unique only case-sensitively |
| AuthorService.GetAllAuthors | src/main/java/com/librairie/catalogue/service/AuthorService.java:23-26 | One body per stored author: each name appears exactly as many times as stored authors carry it, and no other name appears |
| AuthorService.AuthorsToDtos | src/main/java/com/librairie/catalogue/service/AuthorService.java:25 | Each author becomes the body carrying its name, in the same order and number |
| AuthorService.DtosCount | src/main/java/com/librairie/catalogue/service/AuthorService.java:25 | A body occurs in the mapped list as often as its name occurs among the authors' names |
| AuthorService.GetAuthorById | src/main/java/com/librairie/catalogue/service/AuthorService.java:28-32 | Succeeds exactly when the id is stored, with that author's name; otherwise NotFound with the id in the message |
| AuthorService.FindOrCreateAuthor | src/main/java/com/librairie/catalogue/service/AuthorService.java:39-42 | Returns an author equal to the name ignoring case, afterwards found by that name; a known name leaves the store as it was; an unknown one adds exactly one author, with the exact input name and a fresh id, and touches nothing else |
| AuthorService.CreateAuthor | src/main/java/com/librairie/catalogue/service/AuthorService.java:34-37 | Has exactly find-or-create's effect on the store and returns a stored name equal to the input ignoring case; the input itself when the name was new |
| AuthorService.UpdateAuthor | src/main/java/com/librairie/catalogue/service/AuthorService.java:44-52 | Fails with NotFound (saving nothing) exactly when the id is missing; otherwise only that author's name changes, its id and every other author and book are kept (a clash with the unique name column is not modelled) |
| AuthorService.DeleteAuthor | src/main/java/com/librairie/catalogue/service/AuthorService.java:54-56 | Never fails; removes exactly that id when present, is a no-op when absent, and leaves books alone |
| AuthorService.FindOrCreateIdempotent | src/main/java/com/librairie/catalogue/service/AuthorService.java:39-42 | After finding or creating a name, any case variant of it finds the same author and changes nothing |
| AuthorService.FindByFold | src/main/java/com/librairie/catalogue/model/Author.java:21-22 | Two names equal ignoring case look up the same author |
| AuthorService.FindStable | src/main/java/com/librairie/catalogue/service/AuthorService.java:39-42 | A known name looks up the same author in any later store that kept the earlier authors and their matches |
| AuthorService.SameAuthorsStable | src/main/java/com/librairie/catalogue/service/BookService.java:59 | A write that leaves the author table alone keeps every author and every name's matches |
| AuthorService.DeleteAuthorIdempotent | src/main/java/com/librairie/catalogue/service/AuthorService.java:54-56 | Deleting an author twice equals deleting it once |
| AuthorService.RenameThenGet | src/main/java/com/librairie/catalogue/service/AuthorService.java:44-52 | After a rename, fetching the id returns the new name and every other id reads as before |
| AuthorService.DeleteThenGetAuthor | src/main/java/com/librairie/catalogue/service/AuthorService.java:54-56 | After a delete, fetching the id fails with NotFound and every other id reads as before |
| AuthorService.CreateThenGetAuthor | src/main/java/com/librairie/catalogue/service/AuthorService.java:34-37 | The body createAuthor returns is what fetching some stored id returns |
| BookMapper.MapAuthorsToNames | src/main/java/com/librairie/catalogue/mapper/BookMapper.java:24-32 | Null gives the empty list; otherwise one entry per author: each name is listed exactly as many times as authors carry it, and no other name is listed |
| BookMapper.BookToDto | src/main/java/com/librairie/catalogue/mapper/BookMapper.java:16-17 | The five scalar fields are copied and the author set becomes a list of its names, each listed as many times as authors carry it |
| BookMapper.NamesCount | src/main/java/com/librairie/catalogue/mapper/BookMapper.java:29-31 | Listing the names of an enumeration of a set of authors gives each name as many times as authors of the set carry it |
| BookMapper.DtoToBook | src/main/java/com/librairie/catalogue/mapper/BookMapper.java:19-20 | The scalar fields are copied and the entity has no author, whatever names the body held |
| BookMapper.BooksToBookDtos | src/main/java/com/librairie/catalogue/mapper/BookMapper.java:22 | Same length, and each element is mapped as a single book is |
| BookMapper.DtoRoundTrip | src/main/java/com/librairie/catalogue/mapper/BookMapper.java:16-20 | Body to entity to body returns the body with an empty author list and nothing else changed |
| BookMapper.EntityRoundTrip | src/main/java/com/librairie/catalogue/mapper/BookMapper.java:16-20 | Entity to body to entity returns the entity without authors and nothing else changed |
| BookMapper.NamesDistinct | src/main/java/com/librairie/catalogue/mapper/BookMapper.java:29-31 | Authors with pairwise different names give a list without repeated names |
| BookService.FindOrCreateEach | src/main/java/com/librairie/catalogue/service/BookService.java:52-54 | Reconciling a list keeps the store valid, leaves books alone, keeps every author and their matches, and returns stored authors, one per name up to case (the `toSet` collapse), each known name resolving to the author a lookup finds; the only authors it adds are ones it returns, each under a fresh id and carrying one of the names |
| BookService.EachFoldedNames | src/main/java/com/librairie/catalogue/service/BookService.java:52-54 | The authors a list reconciles to have, up to case, exactly the names of the list |
| BookService.EachFirstSpelling | src/main/java/com/librairie/catalogue/service/BookService.java:52-54 | Every author reconciling a list adds carries the first spelling in the list of its name up to case, since later variants find it |
| BookService.EachAllKnown | src/main/java/com/librairie/catalogue/service/BookService.java:52-54 | A list of names all known ignoring case creates no author |
| BookService.ResolveAuthors | src/main/java/com/librairie/catalogue/service/BookService.java:51-58 | The author set a write assigns: the reconciled names up to case, one author per name up to case, the already known author wherever there is one, and none (with no author created) for a null or empty list; the only authors added are ones assigned, each under a fresh id and spelled as the first name of the list equal to it up to case |
| BookService.GetBookByIsbn | src/main/java/com/librairie/catalogue/service/BookService.java:34-37 | Succeeds exactly when the ISBN is stored, describing that row (scalars, and the names of the authors it still refers to); otherwise NotFound with the ISBN in the message |
| BookService.GetAllBooks | src/main/java/com/librairie/catalogue/service/BookService.java:30-32 | Lists every stored book once, each as fetching its ISBN returns it |
| BookService.FindByLists | src/main/java/com/librairie/catalogue/service/BookService.java:31 | A repository query mapped to bodies lists exactly the books it selects, once each |
| BookService.FindByOnce | src/main/java/com/librairie/catalogue/service/BookService.java:31 | No book appears twice in a query's result |
| BookService.FindByReadsBack | src/main/java/com/librairie/catalogue/service/BookService.java:31 | Every body a query returns is what fetching its ISBN returns |
| BookService.SearchByTitle | src/main/java/com/librairie/catalogue/service/BookService.java:41 | Lists exactly the books whose title contains the needle ignoring case |
| BookService.SearchByAuthor | src/main/java/com/librairie/catalogue/service/BookService.java:44 | Lists exactly the books with a still-existing author whose name contains the needle ignoring case |
| BookService.AuthorMatchingKeys | src/main/java/com/librairie/catalogue/service/BookService.java:44 | The author-name query over loaded books selects the same ISBNs as the description over stored rows |
| BookService.SearchBooks | src/main/java/com/librairie/catalogue/service/BookService.java:39-47 | A title with text selects by title; else an author with text selects by author; else every book is listed |
| BookService.CreateBook | src/main/java/com/librairie/catalogue/service/BookService.java:49-61 | Fails (saving nothing) exactly when the ISBN is stored; otherwise adds exactly that book, with the body's scalars and one author per supplied name up to case (the known one where there is one); keeps every other book and author, adds only authors the book links, under fresh ids and with the first supplied spelling of each name; returns what a later fetch returns |
| BookService.UpdateBook | src/main/java/com/librairie/catalogue/service/BookService.java:63-83 | NotFound (saving nothing) exactly when the ISBN is absent; otherwise overwrites all four scalars from the body, keeps the ISBN, replaces the author set by one author per supplied name up to case (the known one where there is one); keeps every other book and author, adds only authors the book links, under fresh ids and with the first supplied spelling of each name |
| BookService.DeleteBook | src/main/java/com/librairie/catalogue/service/BookService.java:85-90 | NotFound exactly when the ISBN is absent; otherwise removes exactly that book and leaves authors alone |
| BookService.SaveThenGet | src/main/java/com/librairie/catalogue/service/BookService.java:81-82 | Saving an entity with stored authors keeps the store valid, and fetching its ISBN returns the body the write returns |
| BookService.WriteThrough | src/main/java/com/librairie/catalogue/service/BookService.java:59-60 | Saving the body's scalars with the reconciled authors gives the outcome both writes promise, including that the earlier authors and their matches are kept |
| BookService.SaveTouchesOne | src/main/java/com/librairie/catalogue/service/BookService.java:59 | Saving a book adds its ISBN and leaves every other row unchanged |
| BookService.CollapseStep | src/main/java/com/librairie/catalogue/service/BookService.java:52-54 | Adding the author found or created for one name to a set collapsed by name up to case keeps it collapsed and keeps reusing known authors |
| BookProperties.SearchTitleWins | src/main/java/com/librairie/catalogue/service/BookService.java:40-42 | With a title that has text, the author parameter does not affect the result |
| BookProperties.SearchAuthorWithoutTitle | src/main/java/com/librairie/catalogue/service/BookService.java:43-45 | Without a title that has text, an absent, empty or blank title behaves alike and the author criterion applies |
| BookProperties.SearchWithoutCriteria | src/test/java/com/librairie/catalogue/service/BookServiceTest.java:165-172 | With neither criterion carrying text, search returns what getAllBooks returns |
| BookProperties.ListedNamesFold | src/main/java/com/librairie/catalogue/mapper/BookMapper.java:29-31 | The listed names of a fetched book, folded, are the folded names of its authors |
| BookProperties.WriteReadsBack | src/main/java/com/librairie/catalogue/service/BookService.java:52-60 | After a write, fetching the ISBN returns the body sent, except that the author list holds the supplied names up to case, as many entries as distinct names up to case, each known name in the stored author's casing and any other as its first spelling in the list |
| BookProperties.CreateThenGet | src/main/java/com/librairie/catalogue/service/BookService.java:49-61 | Creating a book with a new ISBN succeeds, and fetching it back returns the body sent with its author names up to case and order, case variants collapsed to one entry, known names in their stored casing and new ones as first supplied |
| BookProperties.UpdateThenGet | src/main/java/com/librairie/catalogue/service/BookService.java:63-83 | Updating a stored book succeeds, and fetching it back returns the body sent with its author names up to case and order, case variants collapsed to one entry, known names in their stored casing and new ones as first supplied |
| BookProperties.LoadKept | src/main/java/com/librairie/catalogue/model/Author.java:24-27 | A stored row loads to the same authors after a write that keeps every author and adds authors only under ids no stored row refers to |
| BookProperties.WriteKeepsOthers | src/main/java/com/librairie/catalogue/service/BookService.java:52-60 | After a write, every other ISBN reads exactly as before, authors included |
| BookProperties.CreateKeepsOthers | src/main/java/com/librairie/catalogue/service/BookService.java:49-61 | A successful createBook leaves every other book reading as before |
| BookProperties.UpdateKeepsOthers | src/main/java/com/librairie/catalogue/service/BookService.java:63-83 | A successful updateBook leaves every other book reading as before |
| BookProperties.CreateReusesKnownAuthors | src/main/java/com/librairie/catalogue/service/BookService.java:52-54 | Creating a book whose author names are all known ignoring case adds no author, and links exactly the authors a lookup of the names finds |
| BookProperties.UpdateReusesKnownAuthors | src/main/java/com/librairie/catalogue/service/BookService.java:72-79 | Updating a book with author names all known ignoring case adds no author, and links exactly the authors a lookup of the names finds |
| BookProperties.LinksLookups | src/main/java/com/librairie/catalogue/service/BookService.java:52-58 | When every supplied name is known, the authors a write links are exactly those a lookup of the names finds |
| BookProperties.FoldedCount | src/main/java/com/librairie/catalogue/service/BookService.java:52-54 | A set with one author per name up to case has as many distinct folded names as authors |
| BookProperties.UpdateReplacesAuthors | src/main/java/com/librairie/catalogue/service/BookService.java:72-79 | Update replaces rather than merges: a former author matching none of the supplied names is dropped, and a null or empty list leaves the book without authors |
| BookProperties.FindAgain | src/main/java/com/librairie/catalogue/service/AuthorService.java:39-42 | A name found in one store is found again, as the same author and with no change, in any later store that kept the earlier authors and their matches |
| BookProperties.EachAgain | src/main/java/com/librairie/catalogue/service/BookService.java:73-75 | Reconciling a list again after it was reconciled returns the same authors and changes nothing |
| BookProperties.ResolveAgain | src/main/java/com/librairie/catalogue/service/BookService.java:72-79 | The same for the optional list of a body |
| BookProperties.UpdateIdempotent | src/main/java/com/librairie/catalogue/service/BookService.java:63-83 | Sending the same update twice returns the same body and leaves the same store as sending it once |
| BookProperties.DeleteThenGet | src/main/java/com/librairie/catalogue/service/BookService.java:85-90 | After a delete the ISBN is not found, a second delete fails with NotFound, and every other book reads as before |
| Validation.IsbnViolations | src/main/java/com/librairie/catalogue/model/dto/BookDTO.java:19-25 | The ISBN has no violation exactly when it is present, is 10 or 13 word characters, and is not stored; a null ISBN is both mandatory and not unique; a stored one is reported as already used; the empty string breaks all three; a string `trim` empties but `isBlank` does not is mandatory and malformed only, and the reverse is malformed and not unique only |
| Validation.ValidatedCreateBook | src/main/java/com/librairie/catalogue/controller/BookController.java:35-38 | A creation request succeeds exactly when its ISBN has the right shape and is new; otherwise it is refused as invalid, a duplicate being reported as already used and never reaching the store |
| Validation.MatchesIsbnPattern | src/main/java/com/librairie/catalogue/model/dto/BookDTO.java:20-23 | The pattern accepts exactly the strings of 10 or 13 word characters |
| Validation.PatternShape | src/main/java/com/librairie/catalogue/model/dto/BookDTO.java:20-23 | Ten word characters followed by nothing or by three more word characters is the same as 10 or 13 word characters |
| Validation.PatternRejects | src/main/java/com/librairie/catalogue/model/dto/BookDTO.java:20-23 | Strings of length 11 or 12, or holding a hyphen or a space, are refused |
| Validation.PatternNotBlank | src/main/java/com/librairie/catalogue/model/dto/BookDTO.java:19-23 | A string the pattern accepts is blank in neither sense, so it never triggers the mandatory-field violation |
| Validation.BlankIsbnIgnoresStore | src/main/java/com/librairie/catalogue/validation/UniqueISBNValidator.java:16-19 | A null or blank ISBN is invalid whatever the store holds |
| Validation.IsUniqueIsbn | src/main/java/com/librairie/catalogue/validation/UniqueISBNValidator.java:16-21 | Valid exactly when the ISBN is present, not blank, and not the ISBN of a stored book |
| Validation.UniqueIsbnFollowsWrites | src/main/java/com/librairie/catalogue/validation/UniqueISBNValidator.java:16-21 | An ISBN a validated creation stored is unique before and no longer unique after; one a delete removed is unique again unless blank |
| Validation.BlankNotionsDiffer | src/main/java/com/librairie/catalogue/model/dto/BookDTO.java:19-25 | U+0001 is refused as mandatory and malformed but not as already used; U+3000 as malformed and already used but not as mandatory |
| Validation.ValidBodyIsNoUpdate | src/main/java/com/librairie/catalogue/controller/BookController.java:40-43 | A body passing creation validation makes update fail with NotFound, so update cannot be given creation's checks |
| Scenario.PrinceIsbnValid | src/main/java/com/librairie/catalogue/model/dto/BookDTO.java:19-25 | The example ISBN passes every creation check on the empty catalogue |
| Scenario.PrinceAuthors | src/main/java/com/librairie/catalogue/service/AuthorService.java:39-42 | On the empty catalogue, the example's one name becomes the author with the first id |
| Scenario.CreatePrince | src/main/java/com/librairie/catalogue/service/BookService.java:49-61 | Creating the example book adds its author, and fetching it returns exactly the body sent |
| Scenario.CaseVariantsKeepFirst | src/main/java/com/librairie/catalogue/service/BookService.java:52-54 | Reconciling "camus" then "Camus" on the empty catalogue adds only authors named "camus" |
| Scenario.UpdatePrinceWithoutAuthors | src/test/java/com/librairie/catalogue/service/BookServiceTest.java:238-253 | Updating the example with an empty author list leaves it without authors, keeps the author row, and keeps every other field |

## Left out

- `BookController` and `AuthorController` are left out: they only route HTTP and bind JSON. The exception is the `@Valid` on book creation, which `Validation.ValidatedCreateBook` models.
- `GlobalExceptionHandler` is left out. It maps `NotFound` to 404 and anything else to 500 with a fixed message. An invalid body gets 400, with the messages collected in a map keyed by field (`GlobalExceptionHandler.java:38-41`), so only one message per field is reported, whichever one the map keeps last; the model's `Invalid` holds every violation of the ISBN field. A storage `Conflict` falls in that last group. Timestamps and request paths are not modelled.
- AuthorService.UpdateAuthor: renaming an author to another author's exact name makes `save` break the unique name column (`Author.java:21`), which ends in a 500; the model lets the rename through, since its store does not enforce that column.
- `AuthorMapper` is folded into `AuthorService`: it copies one field (the name).
- The validation of `AuthorDTO` is left out.
- The message texts of the ISBN violations are left out: `Violation` names the failed constraint only.
- The author name column's case-sensitive uniqueness is not enforced by the store. The model allows any names and lets the lookup pick among several matches.
- `Book.java` and `BookRepository`'s JPA mapping are not part of this model:
  - the surrogate `Book.id` is left out;
  - the unique ISBN column is modelled as the store being keyed by ISBN, which refuses a second row on create (`Conflict`).
- AuthorService.DeleteAuthor: in the code, deleting an author still linked to a book depends on the join table's foreign key (the `Book` side of the mapping is not part of this model); with the key in place the database refuses the delete and the request ends in a 500. The model enforces no such key: the delete always succeeds, book rows keep referring to the id, and loading a book drops such ids.
- Null handling in the mappers is simplified. A null entity maps to a null body, and a null list to a null list. The model has no null entity or list: the services never pass one.
- Null author names inside a supplied list are not modelled.
- A PUT body without an ISBN is not modelled: the body's ISBN is a string, whereas the code looks up `null`, finds nothing and answers NotFound with "Book not found with ISBN: null".
- Negative author ids are not modelled: ids are natural numbers, whereas a negative id in the path matches no author and gets NotFound with "Unable to find author with id : -1".
- The identity counter is not rolled back in the database when a write fails, so the ids a failed write drew are skipped there. The model returns no store on failure and hands those ids out again.
- The author-name search can return a book twice in SQL, once per matching join row. The model returns each book once.
- `@Transactional` and concurrency are left out. This includes the race between the uniqueness check and the insert. The model is sequential; a failing call simply returns no store.
- Case folding is ASCII only. The database collation's Unicode folding is not modelled.
- `publicationDate` is an opaque day number. `pageCount` is a 32-bit integer range that is never computed on.
- `Repository.FindByNameIgnoreCase`: with several case-insensitive matches, Spring Data's single-result query throws `IncorrectResultSizeDataAccessException`, which ends the request with a 500 and rolls it back. The model instead returns one of the matches, fixing only that the choice depends on the set of matching ids. The model is therefore more permissive than the code in a store holding case variants of one name.
- `BookService.GetAllBooks`: the order of the returned list is not modelled. The contract states which books occur, once each. The same holds for `SearchBooks`, `GetAllAuthors` and `MapAuthorsToNames`.
