/** The constraints a book creation request must satisfy before it reaches
    the service: the ISBN is mandatory, has the ISBN-10 or ISBN-13 shape
    (word characters only; check digits are not verified), and is not the
    ISBN of a stored book. */
module Validation {
  import opened Common
  import opened Text
  import opened Model
  import opened Repository
  import opened BookService

  /** `\w` without the UNICODE_CHARACTER_CLASS flag: [a-zA-Z_0-9]. */
  predicate IsWordChar(c: char) {
    ('a' <= c <= 'z') || ('A' <= c <= 'Z') || ('0' <= c <= '9') || c == '_'
  }

  predicate AllWord(s: string) {
    forall i :: 0 <= i < |s| ==> IsWordChar(s[i])
  }

  /** The whole string matches `^\w{10}(\w{3})?$`: ten word characters,
      then an optional group of three more, then the end of the input. The
      pattern therefore accepts exactly the strings of ten or thirteen word
      characters. */
  function MatchesIsbnPattern(s: string): (ok: bool)
    ensures ok <==> (|s| == 10 || |s| == 13) && AllWord(s)
  {
    PatternShape(s);
    |s| >= 10 && AllWord(s[..10]) && (s[10..] == [] || (|s[10..]| == 3 && AllWord(s[10..])))
  }

  /** UniqueISBNValidator.isValid: a null or blank ISBN is refused without
      consulting the store; otherwise the ISBN must not be stored yet. */
  function IsUniqueIsbn(s: Store, isbn: Option<string>): (valid: bool)
    ensures valid <==> isbn.Some? && !IsBlank(isbn.value) && isbn.value !in s.books
  {
    if isbn.None? || IsBlank(isbn.value) then false
    else !ExistsByIsbn(s, isbn.value)
  }

  /** The constraint violations Bean Validation reports for the ISBN field:
      @NotBlank fails on null or on a string `trim` empties, @Pattern accepts
      null and otherwise needs the pattern, @UniqueISBN fails whenever isValid
      is false. The two notions of blank part ways on a string of ASCII
      control characters, which only @NotBlank refuses, and on one of Unicode
      spaces, which only @UniqueISBN refuses. */
  function IsbnViolations(s: Store, isbn: Option<string>): (v: set<Violation>)
    ensures v == {} <==>
      isbn.Some? && (|isbn.value| == 10 || |isbn.value| == 13) && AllWord(isbn.value)
      && isbn.value !in s.books
    ensures isbn.None? ==> v == {IsbnMandatory, IsbnAlreadyUsed}
    ensures isbn.Some? && isbn.value in s.books ==> IsbnAlreadyUsed in v
    ensures isbn.Some? && isbn.value == [] ==> v == {IsbnMandatory, IsbnFormat, IsbnAlreadyUsed}
    ensures isbn.Some? && isbn.value != [] && IsBlank(isbn.value) && !IsTrimBlank(isbn.value)
      ==> v == {IsbnFormat, IsbnAlreadyUsed}
    ensures isbn.Some? && IsTrimBlank(isbn.value) && !IsBlank(isbn.value) && isbn.value !in s.books
      ==> v == {IsbnMandatory, IsbnFormat}
  {
    match isbn
    case None =>
      // @NotBlank and @UniqueISBN refuse null; @Pattern accepts it.
      {IsbnMandatory, IsbnAlreadyUsed}
    case Some(x) =>
      PatternNotBlank(x);
      (if IsTrimBlank(x) then {IsbnMandatory} else {})
      + (if !MatchesIsbnPattern(x) then {IsbnFormat} else {})
      + (if !IsUniqueIsbn(s, isbn) then {IsbnAlreadyUsed} else {})
  }

  /** POST /api/books: the body is validated, and only a body without
      violations reaches createBook. A duplicate ISBN is therefore refused
      as invalid input before the store is written, never as a conflict. */
  ghost function ValidatedCreateBook(s: Store, dto: BookDto): (r: Result<(BookDto, Store)>)
    requires Valid(s)
    ensures r.Ok? <==>
      (|dto.isbn| == 10 || |dto.isbn| == 13) && AllWord(dto.isbn) && dto.isbn !in s.books
    ensures r.Err? ==> r.error.Invalid? && r.error.violations != {}
    ensures dto.isbn in s.books ==> r.Err? && IsbnAlreadyUsed in r.error.violations
  {
    var v := IsbnViolations(s, Some(dto.isbn));
    if v != {} then Err(Invalid(v)) else CreateBook(s, dto)
  }

  /** The regular expression, read position by position, is the length and
      character-class condition. */
  lemma PatternShape(x: string)
    ensures (|x| >= 10 && AllWord(x[..10]) && (x[10..] == [] || (|x[10..]| == 3 && AllWord(x[10..]))))
        <==> (|x| == 10 || |x| == 13) && AllWord(x)
  {
    if (|x| == 10 || |x| == 13) && AllWord(x) {
      assert AllWord(x[..10]);
      assert AllWord(x[10..]) by {
        forall i | 0 <= i < |x[10..]|
          ensures IsWordChar(x[10..][i])
        {
          assert x[10..][i] == x[10 + i];
        }
      }
    }
    if |x| >= 10 && AllWord(x[..10]) && (x[10..] == [] || (|x[10..]| == 3 && AllWord(x[10..]))) {
      forall i | 0 <= i < |x|
        ensures IsWordChar(x[i])
      {
        if i < 10 {
          assert x[i] == x[..10][i];
        } else {
          assert x[i] == x[10..][i - 10];
        }
      }
    }
  }

  /** Strings of eleven or twelve characters, and strings holding a hyphen
      or a space, are refused whatever else they contain. */
  lemma PatternRejects(x: string)
    requires |x| == 11 || |x| == 12 || '-' in x || ' ' in x
    ensures !MatchesIsbnPattern(x)
  {
    if '-' in x || ' ' in x {
      var i :| 0 <= i < |x| && (x[i] == '-' || x[i] == ' ');
      assert !IsWordChar(x[i]);
    }
  }

  /** A string the pattern accepts is blank in neither sense. */
  lemma PatternNotBlank(x: string)
    ensures MatchesIsbnPattern(x) ==> !IsBlank(x) && !IsTrimBlank(x)
  {
    if MatchesIsbnPattern(x) {
      assert IsWordChar(x[0]) && !IsWhitespace(x[0]) && !(x[0] <= ' ');
    }
  }

  /** A null or blank ISBN is refused whatever the store holds: the
      validator decides without consulting it. */
  lemma BlankIsbnIgnoresStore(s1: Store, s2: Store, isbn: Option<string>)
    requires isbn.None? || IsBlank(isbn.value)
    ensures !IsUniqueIsbn(s1, isbn) && !IsUniqueIsbn(s2, isbn)
  {
  }

  /** The validator follows the catalogue's writes: an ISBN a successful
      creation stored is no longer unique, and one a delete removed is
      unique again unless it is blank. */
  lemma UniqueIsbnFollowsWrites(s: Store, dto: BookDto, isbn: string)
    requires Valid(s)
    ensures ValidatedCreateBook(s, dto).Ok? ==>
      IsUniqueIsbn(s, Some(dto.isbn)) && !IsUniqueIsbn(ValidatedCreateBook(s, dto).value.1, Some(dto.isbn))
    ensures DeleteBook(s, isbn).Ok? ==>
      (IsUniqueIsbn(DeleteBook(s, isbn).value, Some(isbn)) <==> !IsBlank(isbn))
  {
    PatternNotBlank(dto.isbn);
  }

  /** Two blank-looking strings on which the two notions disagree: U+0001 is
      trimmed but is not whitespace, U+3000 is whitespace but is not
      trimmed. */
  lemma BlankNotionsDiffer(s: Store)
    requires "\U{1}" !in s.books
    ensures IsbnViolations(s, Some("\U{1}")) == {IsbnMandatory, IsbnFormat}
    ensures IsbnViolations(s, Some("\U{3000}")) == {IsbnFormat, IsbnAlreadyUsed}
  {
    var control, space := "\U{1}", "\U{3000}";
    assert control[0] == '\U{1}' && space[0] == '\U{3000}';
    assert IsTrimBlank(control) && !IsBlank(control);
    assert IsBlank(space) && !IsTrimBlank(space);
  }

  /** A body that passes creation validation names no stored book, so an
      update with it can only fail with NotFound: this is why the update
      endpoint does not validate its body. */
  lemma ValidBodyIsNoUpdate(s: Store, dto: BookDto)
    requires Valid(s)
    requires IsbnViolations(s, Some(dto.isbn)) == {}
    ensures UpdateBook(s, dto).Err? && UpdateBook(s, dto).error.NotFound?
  {
  }
}
