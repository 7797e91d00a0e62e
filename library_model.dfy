/**
 * The library's records (authors, books, users), the errors its resolvers
 * throw, and the read-only resolvers: `allBooks`, `bookCount`, `authorCount`
 * and the derived `Author.bookCount`.
 */
module LibraryModel {
  import opened Wrappers
  import opened StoreAdapter

  /** A document id. Ids are compared by value only. */
  type Id = nat

  /** An author; `born` stays unset until `editAuthor` sets it. */
  datatype Author = Author(id: Id, name: string, born: Option<int>)

  /** A book; `author` holds the id of its author, not the author itself. */
  datatype Book = Book(id: Id, title: string, published: int, genres: seq<string>, author: Id)

  /** A user; the password is kept only as its hash. */
  datatype User = User(id: Id, username: string, favoriteGenre: string, passwordHash: string)

  /** What a resolver throws. */
  datatype LibraryError =
    | AuthenticationError(message: string)  // the request carries no logged-in user
    | UserInputError(message: string)       // a rejected argument, with the resolver's own message
    | ValidationError                       // the store refused a save; the message is the store's
    | NullDereference                       // a lookup returned null and the resolver read a field of it
    | UndefinedReference                    // a resolver read a variable that does not exist
    | InvalidToken                          // token verification threw

  /** JavaScript truthiness of an optional string argument: missing and "" are both false. */
  predicate Given(arg: Option<string>)
  {
    arg.Some? && arg.value != ""
  }

  /** The filter document `{ name }` on authors. */
  function Named(name: string): Author -> bool
  {
    (a: Author) => a.name == name
  }

  /** The filter document `{ title }` on books. */
  function Titled(title: string): Book -> bool
  {
    (b: Book) => b.title == title
  }

  /** `Author.findOne({ name })`. */
  function FindAuthor(authors: seq<Author>, name: string): (r: Option<Author>)
    ensures r.Some? ==> r.value in authors && r.value.name == name
    ensures r.None? <==> forall a :: a in authors ==> a.name != name
  {
    match FindFirst(authors, Named(name))
    case None => None
    case Some(i) => Some(authors[i])
  }

  /** The filter document `{ author: id, genres: genre }`, either field optional. */
  function Matching(author: Option<Id>, genre: Option<string>): Book -> bool
  {
    (b: Book) => (author.None? || b.author == author.value) && (genre.None? || genre.value in b.genres)
  }

  /** `Query.allBooks(author?, genre?)`; the `populate` projection of each book's author is not modelled. */
  function AllBooks(authors: seq<Author>, books: seq<Book>, author: Option<string>, genre: Option<string>)
    : (r: Result<seq<Book>, LibraryError>)
    ensures r.Failure? <==> Given(author) && FindAuthor(authors, author.value).None?
    ensures r.Failure? ==> r.error == NullDereference
    ensures r.Success? ==> forall b :: b in r.value ==> b in books
  {
    if Given(author) && Given(genre) then
      match FindAuthor(authors, author.value)
      case None => Failure(NullDereference)
      case Some(a) => Success(Find(books, Matching(Some(a.id), Some(genre.value))))
    else if Given(author) then
      match FindAuthor(authors, author.value)
      case None => Failure(NullDereference)
      case Some(a) => Success(Find(books, Matching(Some(a.id), None)))
    else if Given(genre) then
      Success(Find(books, Matching(None, Some(genre.value))))
    else
      Success(Find(books, Matching(None, None)))
  }

  /** The empty filter `{}`, which every book matches. */
  function AnyBook(): Book -> bool
  {
    (b: Book) => true
  }

  /** The empty filter `{}`, which every author matches. */
  function AnyAuthor(): Author -> bool
  {
    (a: Author) => true
  }

  /** `Query.bookCount`: `countDocuments` over the book collection with no filter. */
  function BookCount(books: seq<Book>): (n: nat)
    ensures n == |books|
  {
    FindEverything(books, AnyBook());
    CountDocuments(books, AnyBook())
  }

  /** `Query.authorCount`: `countDocuments` over the author collection with no filter. */
  function AuthorCount(authors: seq<Author>): (n: nat)
    ensures n == |authors|
  {
    FindEverything(authors, AnyAuthor());
    CountDocuments(authors, AnyAuthor())
  }

  /** `Author.bookCount({ name })`: look the author up again by name, then count its books. */
  function AuthorBookCount(authors: seq<Author>, books: seq<Book>, name: string): (r: Result<nat, LibraryError>)
    ensures r.Failure? <==> FindAuthor(authors, name).None?
    ensures r.Failure? ==> r.error == NullDereference
    ensures r.Success? ==> r.value == |Find(books, Matching(Some(FindAuthor(authors, name).value.id), None))|
  {
    match FindAuthor(authors, name)
    case None => Failure(NullDereference)
    case Some(a) => Success(CountDocuments(books, Matching(Some(a.id), None)))
  }

  // ---------------------------------------------------------------------------
  // Table invariants that the mutations keep

  /** No two authors share an id. */
  ghost predicate DistinctAuthorIds(authors: seq<Author>)
  {
    forall i, j :: 0 <= i < j < |authors| ==> authors[i].id != authors[j].id
  }

  /** No two authors share a name: `name` is the lookup key. */
  ghost predicate DistinctAuthorNames(authors: seq<Author>)
  {
    forall i, j :: 0 <= i < j < |authors| ==> authors[i].name != authors[j].name
  }

  /** No two books share a title. */
  ghost predicate DistinctTitles(books: seq<Book>)
  {
    forall i, j :: 0 <= i < j < |books| ==> books[i].title != books[j].title
  }

  /** The ids of the stored authors. */
  ghost function AuthorIds(authors: seq<Author>): set<Id>
  {
    set a | a in authors :: a.id
  }

  /** Every book refers to a stored author. */
  ghost predicate ReferencesResolve(authors: seq<Author>, books: seq<Book>)
  {
    forall b :: b in books ==> b.author in AuthorIds(authors)
  }

  // ---------------------------------------------------------------------------
  // allBooks, branch by branch

  /** Both filters: the author's books that list the genre. */
  lemma AllBooksByAuthorAndGenre(authors: seq<Author>, books: seq<Book>, author: string, genre: string, b: Book)
    requires author != "" && genre != ""
    requires FindAuthor(authors, author).Some?
    ensures AllBooks(authors, books, Some(author), Some(genre)).Success?
    ensures b in AllBooks(authors, books, Some(author), Some(genre)).value <==>
              b in books && b.author == FindAuthor(authors, author).value.id && genre in b.genres
  {
  }

  /** Author filter only: every book of that author. */
  lemma AllBooksByAuthor(authors: seq<Author>, books: seq<Book>, author: string, genre: Option<string>, b: Book)
    requires author != "" && !Given(genre)
    requires FindAuthor(authors, author).Some?
    ensures AllBooks(authors, books, Some(author), genre).Success?
    ensures b in AllBooks(authors, books, Some(author), genre).value <==>
              b in books && b.author == FindAuthor(authors, author).value.id
  {
  }

  /** Genre filter only: every book listing the genre, whatever the author store holds. */
  lemma AllBooksByGenre(authors: seq<Author>, books: seq<Book>, author: Option<string>, genre: string, b: Book)
    requires !Given(author) && genre != ""
    ensures AllBooks(authors, books, author, Some(genre)).Success?
    ensures b in AllBooks(authors, books, author, Some(genre)).value <==> b in books && genre in b.genres
  {
  }

  /** No filter: the whole collection, in its own order. */
  lemma AllBooksUnfiltered(authors: seq<Author>, books: seq<Book>, author: Option<string>, genre: Option<string>)
    requires !Given(author) && !Given(genre)
    ensures AllBooks(authors, books, author, genre) == Success(books)
  {
    FindEverything(books, Matching(None, None));
  }

  /** Both filters give the intersection of the author-only listing with the genre. */
  lemma AllBooksIsIntersection(authors: seq<Author>, books: seq<Book>, author: string, genre: string, b: Book)
    requires author != "" && genre != ""
    ensures AllBooks(authors, books, Some(author), Some(genre)).Success? ==
            AllBooks(authors, books, Some(author), None).Success?
    ensures AllBooks(authors, books, Some(author), Some(genre)).Success? ==>
              (b in AllBooks(authors, books, Some(author), Some(genre)).value <==>
               b in AllBooks(authors, books, Some(author), None).value && genre in b.genres)
  {
  }

  // ---------------------------------------------------------------------------
  // Author.bookCount against the listings and against bookCount

  /** `Author.bookCount` is the length of `allBooks(author: name)` for a stored author. */
  lemma AuthorBookCountMatchesAllBooks(authors: seq<Author>, books: seq<Book>, name: string)
    requires name != ""
    ensures AuthorBookCount(authors, books, name).Success? == AllBooks(authors, books, Some(name), None).Success?
    ensures AuthorBookCount(authors, books, name).Success? ==>
              AuthorBookCount(authors, books, name).value == |AllBooks(authors, books, Some(name), None).value|
  {
  }

  /** With unique names, looking up a stored author by its own name finds that author. */
  lemma {:induction false} FindAuthorByOwnName(authors: seq<Author>, i: nat)
    requires DistinctAuthorNames(authors)
    requires i < |authors|
    ensures FindAuthor(authors, authors[i].name) == Some(authors[i])
  {
    var named := Named(authors[i].name);
    assert named(authors[i]);
    var k := FindFirst(authors, named);
    assert !(k.value < i) && !(i < k.value);
  }

  /** The sum of the per-author book counts, each by author id. */
  function SumOfBookCounts(authors: seq<Author>, books: seq<Book>): nat
  {
    if authors == [] then 0
    else CountDocuments(books, Matching(Some(authors[0].id), None)) + SumOfBookCounts(authors[1..], books)
  }

  /** How many authors carry the id. */
  function AuthorsWithId(authors: seq<Author>, id: Id): nat
  {
    if authors == [] then 0
    else (if authors[0].id == id then 1 else 0) + AuthorsWithId(authors[1..], id)
  }

  lemma {:induction false} AuthorsWithIdOfStoredId(authors: seq<Author>, id: Id)
    requires DistinctAuthorIds(authors)
    ensures AuthorsWithId(authors, id) == if id in AuthorIds(authors) then 1 else 0
  {
    if authors != [] {
      var rest := authors[1..];
      assert DistinctAuthorIds(rest) by {
        forall i, j | 0 <= i < j < |rest| ensures rest[i].id != rest[j].id {
          assert rest[i] == authors[i + 1] && rest[j] == authors[j + 1];
        }
      }
      AuthorsWithIdOfStoredId(rest, id);
      assert AuthorIds(authors) == {authors[0].id} + AuthorIds(rest) by {
        forall x ensures x in AuthorIds(authors) <==> x in {authors[0].id} + AuthorIds(rest) {
          if x in AuthorIds(authors) {
            var a :| a in authors && a.id == x;
            if a != authors[0] {
              assert a in rest;
            }
          }
          if x in AuthorIds(rest) {
            var a :| a in rest && a.id == x;
            assert a in authors;
          }
        }
      }
      if authors[0].id == id {
        assert id !in AuthorIds(rest) by {
          forall j | 0 <= j < |rest| ensures rest[j].id != id {
            assert rest[j] == authors[j + 1];
          }
        }
      }
    }
  }

  lemma {:induction false} SumOfBookCountsAfterInsert(authors: seq<Author>, books: seq<Book>, b: Book)
    ensures SumOfBookCounts(authors, books + [b]) == SumOfBookCounts(authors, books) + AuthorsWithId(authors, b.author)
  {
    if authors != [] {
      FindAfterInsert(books, b, Matching(Some(authors[0].id), None));
      SumOfBookCountsAfterInsert(authors[1..], books, b);
    }
  }

  lemma {:induction false} SumOfBookCountsOfNoBooks(authors: seq<Author>)
    ensures SumOfBookCounts(authors, []) == 0
  {
    if authors != [] {
      SumOfBookCountsOfNoBooks(authors[1..]);
    }
  }

  /**
   * `bookCount` equals the sum of the per-author-id book counts, as long as
   * every book refers to exactly one stored author.
   */
  lemma {:induction false} BookCountIsSumOfIdCounts(authors: seq<Author>, books: seq<Book>)
    requires DistinctAuthorIds(authors)
    requires ReferencesResolve(authors, books)
    ensures BookCount(books) == SumOfBookCounts(authors, books)
    decreases |books|
  {
    if books == [] {
      SumOfBookCountsOfNoBooks(authors);
    } else {
      var front, last := books[..|books| - 1], books[|books| - 1];
      assert books == front + [last];
      assert ReferencesResolve(authors, front) by {
        forall b | b in front ensures b.author in AuthorIds(authors) {
          assert b in books;
        }
      }
      BookCountIsSumOfIdCounts(authors, front);
      SumOfBookCountsAfterInsert(authors, front, last);
      AuthorsWithIdOfStoredId(authors, last.author);
    }
  }

  /**
   * The sum of what the `Author.bookCount` resolver answers for each author of
   * `part`, each looked up by name in `all` (a failed lookup adds nothing).
   */
  function ResolvedBookCounts(all: seq<Author>, part: seq<Author>, books: seq<Book>): nat
  {
    if part == [] then 0
    else
      var here := AuthorBookCount(all, books, part[0].name);
      (if here.Success? then here.value else 0) + ResolvedBookCounts(all, part[1..], books)
  }

  /** With unique names, the resolver finds each stored author by its own name, so it counts by that author's id. */
  lemma {:induction false} ResolvedCountsAreIdCounts(all: seq<Author>, part: seq<Author>, books: seq<Book>)
    requires DistinctAuthorNames(all)
    requires forall a :: a in part ==> a in all
    ensures ResolvedBookCounts(all, part, books) == SumOfBookCounts(part, books)
  {
    if part != [] {
      assert part[0] in all;
      var i :| 0 <= i < |all| && all[i] == part[0];
      FindAuthorByOwnName(all, i);
      ResolvedCountsAreIdCounts(all, part[1..], books);
    }
  }

  /**
   * `bookCount` equals the sum of the `Author.bookCount` resolver over the
   * stored authors, when ids and names are unique and every book refers to a
   * stored author.
   */
  lemma BookCountIsSumOfAuthorBookCounts(authors: seq<Author>, books: seq<Book>)
    requires DistinctAuthorIds(authors) && DistinctAuthorNames(authors)
    requires ReferencesResolve(authors, books)
    ensures BookCount(books) == ResolvedBookCounts(authors, authors, books)
  {
    BookCountIsSumOfIdCounts(authors, books);
    ResolvedCountsAreIdCounts(authors, authors, books);
  }

  /** The names of the stored authors. */
  ghost function AuthorNames(authors: seq<Author>): set<string>
  {
    set a | a in authors :: a.name
  }

  /** With unique names, `authorCount` is the number of distinct author names in use. */
  lemma {:induction false} AuthorCountIsNumberOfNames(authors: seq<Author>)
    requires DistinctAuthorNames(authors)
    ensures AuthorCount(authors) == |AuthorNames(authors)|
    decreases |authors|
  {
    if authors != [] {
      var front, last := authors[..|authors| - 1], authors[|authors| - 1];
      assert authors == front + [last];
      assert DistinctAuthorNames(front) by {
        forall i, j | 0 <= i < j < |front| ensures front[i].name != front[j].name {
          assert front[i] == authors[i] && front[j] == authors[j];
        }
      }
      AuthorCountIsNumberOfNames(front);
      assert AuthorNames(authors) == AuthorNames(front) + {last.name};
      assert last.name !in AuthorNames(front) by {
        forall k | 0 <= k < |front| ensures front[k].name != last.name {
          assert front[k] == authors[k];
        }
      }
    }
  }
}
