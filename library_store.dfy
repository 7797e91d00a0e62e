/**
 * The library's mutations over the store: `addBook`, `editAuthor`,
 * `createUser`, and `login`. The store holds the author, book and user
 * collections and a journal of the writes and publications, in the order
 * they happen. The store's schema validators, password hashing and token
 * signing are not visible here and are passed in.
 */
module LibraryStore {
  import opened Wrappers
  import opened StoreAdapter
  import opened LibraryModel
  import opened LibraryContext

  /** The topic new books are published on. */
  const BookAddedTopic: string := "BOOK_ADDED"

  /** The message both gated mutations throw for an anonymous request. */
  const NotLoggedInMessage: string := "you need to be logged in to add a book"
  const DuplicateBookMessage: string := "book already exists"
  const UnknownAuthorMessage: string := "author not found"
  const InvalidLoginMessage: string := "invalid username or password"

  /** The work factor passed to the password hash. */
  const SaltRounds: nat := 10

  /** One effect of a mutation, in the order the journal records them. */
  datatype Effect =
    | SavedAuthor(author: Author)
    | SavedBook(book: Book)
    | SavedUser(user: User)
    | Published(topic: string, book: Book)

  /** The store's validators: whether a save of the record into the given collection succeeds. */
  datatype Schema = Schema(
    acceptsAuthor: (Author, seq<Author>) -> bool,
    acceptsBook: (Book, seq<Book>) -> bool,
    acceptsUser: (User, seq<User>) -> bool)

  /** The signed token `login` answers with. */
  datatype Token = Token(value: string)

  /** A title is taken when `Book.findOne({ title })` finds a book. */
  predicate TitleTaken(books: seq<Book>, title: string)
    ensures !TitleTaken(books, title) <==> forall b :: b in books ==> b.title != title
  {
    FindFirst(books, Titled(title)).Some?
  }

  class Store {
    var authors: seq<Author>
    var books: seq<Book>
    var users: seq<User>
    var journal: seq<Effect>
    var nextId: nat  // every id handed out so far is below this one

    /** The collections' invariant: fresh ids, unique author names and titles, resolvable book authors. */
    ghost predicate Valid()
      reads this
    {
      && (forall a :: a in authors ==> a.id < nextId)
      && (forall b :: b in books ==> b.id < nextId)
      && (forall u :: u in users ==> u.id < nextId)
      && DistinctAuthorIds(authors)
      && DistinctAuthorNames(authors)
      && DistinctTitles(books)
      && ReferencesResolve(authors, books)
    }

    /** The published `BOOK_ADDED` payloads, oldest first. */
    ghost function BookAddedEvents(): seq<Book>
      reads this
    {
      PublishedBooks(journal)
    }

    constructor ()
      ensures Valid()
      ensures authors == [] && books == [] && users == [] && journal == []
    {
      authors, books, users, journal, nextId := [], [], [], [], 0;
    }

    /**
     * `Mutation.addBook`: gated on a logged-in user; a taken title is rejected
     * before anything is created; the author is found by name, or created with
     * only its name and saved before the book; the saved book is then
     * published on `BOOK_ADDED` and returned.
     */
    method AddBook(context: Context, title: string, authorName: string, published: int,
                   genres: seq<string>, schema: Schema)
      returns (r: Result<Book, LibraryError>)
      requires Valid()
      modifies this
      ensures Valid()
      ensures users == old(users)
      ensures context.loggedUser.None? ==>
                r == Failure(AuthenticationError(NotLoggedInMessage)) && unchanged(this)
      ensures context.loggedUser.Some? && TitleTaken(old(books), title) ==>
                r == Failure(UserInputError(DuplicateBookMessage)) && unchanged(this)
      // the author exists: the book refers to it and no author is created
      ensures context.loggedUser.Some? && !TitleTaken(old(books), title) && FindAuthor(old(authors), authorName).Some? ==>
                var b := Book(old(nextId), title, published, genres, FindAuthor(old(authors), authorName).value.id);
                && authors == old(authors)
                && (schema.acceptsBook(b, old(books)) ==>
                      r == Success(b) && books == old(books) + [b]
                      && journal == old(journal) + [SavedBook(b), Published(BookAddedTopic, b)])
                && (!schema.acceptsBook(b, old(books)) ==>
                      r == Failure(ValidationError) && books == old(books) && journal == old(journal))
      // first use of the name: exactly one author is created, with `born` unset, and saved first
      ensures context.loggedUser.Some? && !TitleTaken(old(books), title) && FindAuthor(old(authors), authorName).None? ==>
                var a := Author(old(nextId), authorName, None);
                var b := Book(old(nextId) + 1, title, published, genres, a.id);
                && (!schema.acceptsAuthor(a, old(authors)) ==>
                      r == Failure(ValidationError)
                      && authors == old(authors) && books == old(books) && journal == old(journal))
                && (schema.acceptsAuthor(a, old(authors)) && !schema.acceptsBook(b, old(books)) ==>
                      r == Failure(ValidationError)
                      && authors == old(authors) + [a] && books == old(books)
                      && journal == old(journal) + [SavedAuthor(a)])
                && (schema.acceptsAuthor(a, old(authors)) && schema.acceptsBook(b, old(books)) ==>
                      r == Success(b)
                      && authors == old(authors) + [a] && books == old(books) + [b]
                      && journal == old(journal) + [SavedAuthor(a), SavedBook(b), Published(BookAddedTopic, b)])
      // what every call guarantees
      ensures FindAuthor(old(authors), authorName).Some? ==> authors == old(authors)
      ensures |authors| <= |old(authors)| + 1
      ensures r.Success? ==>
                && r.value.title == title && r.value.published == published && r.value.genres == genres
                && books == old(books) + [r.value]
                && FindAuthor(authors, authorName).Some?
                && FindAuthor(authors, authorName).value.id == r.value.author
                && BookAddedEvents() == old(BookAddedEvents()) + [r.value]
    {
      if context.loggedUser.None? {
        return Failure(AuthenticationError(NotLoggedInMessage));
      }
      var existing := FindAuthor(authors, authorName);
      var duplicate := FindFirst(books, Titled(title));
      if duplicate.Some? {
        return Failure(UserInputError(DuplicateBookMessage));
      }
      if existing.None? {
        r := AddBookByNewAuthor(title, authorName, published, genres, schema);
      } else {
        r := AddBookByExistingAuthor(title, existing.value, published, genres, schema);
      }
    }

    /** The branch of `addBook` where no author has the name yet. */
    method AddBookByNewAuthor(title: string, authorName: string, published: int,
                              genres: seq<string>, schema: Schema)
      returns (r: Result<Book, LibraryError>)
      requires Valid()
      requires !TitleTaken(books, title) && FindAuthor(authors, authorName).None?
      modifies this
      ensures Valid()
      ensures users == old(users)
      ensures var a := Author(old(nextId), authorName, None);
              var b := Book(old(nextId) + 1, title, published, genres, a.id);
              && (!schema.acceptsAuthor(a, old(authors)) ==>
                    r == Failure(ValidationError)
                    && authors == old(authors) && books == old(books) && journal == old(journal))
              && (schema.acceptsAuthor(a, old(authors)) && !schema.acceptsBook(b, old(books)) ==>
                    r == Failure(ValidationError)
                    && authors == old(authors) + [a] && books == old(books)
                    && journal == old(journal) + [SavedAuthor(a)])
              && (schema.acceptsAuthor(a, old(authors)) && schema.acceptsBook(b, old(books)) ==>
                    r == Success(b)
                    && authors == old(authors) + [a] && books == old(books) + [b]
                    && journal == old(journal) + [SavedAuthor(a), SavedBook(b), Published(BookAddedTopic, b)])
      ensures r.Success? ==>
                && FindAuthor(authors, authorName).Some?
                && FindAuthor(authors, authorName).value.id == r.value.author
                && BookAddedEvents() == old(BookAddedEvents()) + [r.value]
    {
      var author := Author(nextId, authorName, None);
      var book := Book(nextId + 1, title, published, genres, author.id);
      nextId := nextId + 2;
      if !schema.acceptsAuthor(author, authors) {
        return Failure(ValidationError);
      }
      assert author.id !in AuthorIds(authors);
      SaveNewAuthor(author);
      FindAuthorAfterInsert(old(authors), author);
      if !schema.acceptsBook(book, books) {
        return Failure(ValidationError);
      }
      SaveNewBook(book);
      Publish(book);
      r := Success(book);
    }

    /** The branch of `addBook` where the author is already stored. */
    method AddBookByExistingAuthor(title: string, author: Author, published: int,
                                   genres: seq<string>, schema: Schema)
      returns (r: Result<Book, LibraryError>)
      requires Valid()
      requires !TitleTaken(books, title) && author in authors
      modifies this
      ensures Valid()
      ensures users == old(users) && authors == old(authors)
      ensures var b := Book(old(nextId), title, published, genres, author.id);
              && (schema.acceptsBook(b, old(books)) ==>
                    r == Success(b) && books == old(books) + [b]
                    && journal == old(journal) + [SavedBook(b), Published(BookAddedTopic, b)])
              && (!schema.acceptsBook(b, old(books)) ==>
                    r == Failure(ValidationError) && books == old(books) && journal == old(journal))
      ensures r.Success? ==> BookAddedEvents() == old(BookAddedEvents()) + [r.value]
    {
      var book := Book(nextId, title, published, genres, author.id);
      nextId := nextId + 1;
      if !schema.acceptsBook(book, books) {
        return Failure(ValidationError);
      }
      SaveNewBook(book);
      Publish(book);
      r := Success(book);
    }

    /** `author.save()` for an author not stored yet. */
    method SaveNewAuthor(a: Author)
      requires Valid()
      requires a.id < nextId && a.id !in AuthorIds(authors)
      requires forall b :: b in books ==> b.id != a.id
      requires FindAuthor(authors, a.name).None?
      modifies this
      ensures Valid()
      ensures authors == old(authors) + [a] && journal == old(journal) + [SavedAuthor(a)]
      ensures AuthorIds(authors) == AuthorIds(old(authors)) + {a.id}
      ensures books == old(books) && users == old(users) && nextId == old(nextId)
      ensures BookAddedEvents() == old(BookAddedEvents())
    {
      AuthorIdsAfterInsert(authors, a);
      PublishedBooksAfterInsert(journal, SavedAuthor(a));
      authors := authors + [a];
      journal := journal + [SavedAuthor(a)];
    }

    /** `book.save()` for a book whose title is free and whose author is stored. */
    method SaveNewBook(b: Book)
      requires Valid()
      requires b.id < nextId && b.author in AuthorIds(authors)
      requires !TitleTaken(books, b.title)
      modifies this
      ensures Valid()
      ensures books == old(books) + [b] && journal == old(journal) + [SavedBook(b)]
      ensures authors == old(authors) && users == old(users) && nextId == old(nextId)
      ensures BookAddedEvents() == old(BookAddedEvents())
    {
      TitlesAfterInsert(books, b);
      PublishedBooksAfterInsert(journal, SavedBook(b));
      books := books + [b];
      journal := journal + [SavedBook(b)];
    }

    /** `pubsub.publish('BOOK_ADDED', { bookAdded: book })`. */
    method Publish(b: Book)
      modifies this`journal
      ensures journal == old(journal) + [Published(BookAddedTopic, b)]
      ensures BookAddedEvents() == old(BookAddedEvents()) + [b]
    {
      PublishedBooksAfterInsert(journal, Published(BookAddedTopic, b));
      journal := journal + [Published(BookAddedTopic, b)];
    }

    /**
     * `Mutation.editAuthor`: gated on a logged-in user; an unknown name is
     * rejected; otherwise only the author's `born` changes, and the edited
     * author is returned once the store has saved it.
     */
    method EditAuthor(context: Context, name: string, setBornTo: int, schema: Schema)
      returns (r: Result<Author, LibraryError>)
      requires Valid()
      modifies this
      ensures Valid()
      ensures books == old(books) && users == old(users) && nextId == old(nextId)
      ensures context.loggedUser.None? ==>
                r == Failure(AuthenticationError(NotLoggedInMessage)) && unchanged(this)
      ensures context.loggedUser.Some? && FindAuthor(old(authors), name).None? ==>
                r == Failure(UserInputError(UnknownAuthorMessage)) && unchanged(this)
      ensures context.loggedUser.Some? && FindAuthor(old(authors), name).Some? ==>
                var i := FindFirst(old(authors), Named(name)).value;
                var edited := old(authors)[i].(born := Some(setBornTo));
                && (schema.acceptsAuthor(edited, old(authors)) ==>
                      r == Success(edited) && authors == old(authors)[i := edited]
                      && journal == old(journal) + [SavedAuthor(edited)])
                && (!schema.acceptsAuthor(edited, old(authors)) ==>
                      r == Failure(ValidationError) && authors == old(authors) && journal == old(journal))
      ensures r.Success? ==> r.value.name == name && r.value.born == Some(setBornTo)
    {
      if context.loggedUser.None? {
        return Failure(AuthenticationError(NotLoggedInMessage));
      }
      var found := FindFirst(authors, Named(name));
      if found.None? {
        return Failure(UserInputError(UnknownAuthorMessage));
      }
      var i := found.value;
      var edited := authors[i].(born := Some(setBornTo));
      if !schema.acceptsAuthor(edited, authors) {
        return Failure(ValidationError);
      }
      EditedAuthorsKeepKeys(authors, i, Some(setBornTo));
      authors := authors[i := edited];
      journal := journal + [SavedAuthor(edited)];
      r := Success(edited);
    }

    /**
     * `Mutation.createUser`: hash the password, save a new user. A refused
     * save throws a ReferenceError (the handler reads an undefined `args`).
     */
    method CreateUser(username: string, password: string, favoriteGenre: string,
                      hash: (string, nat) -> string, schema: Schema)
      returns (r: Result<User, LibraryError>)
      requires Valid()
      modifies this
      ensures Valid()
      ensures authors == old(authors) && books == old(books)
      ensures var u := User(old(nextId), username, favoriteGenre, hash(password, SaltRounds));
              && (schema.acceptsUser(u, old(users)) ==>
                    r == Success(u) && users == old(users) + [u] && journal == old(journal) + [SavedUser(u)])
              && (!schema.acceptsUser(u, old(users)) ==>
                    r == Failure(UndefinedReference) && users == old(users) && journal == old(journal))
    {
      var user := User(nextId, username, favoriteGenre, hash(password, SaltRounds));
      nextId := nextId + 1;
      if !schema.acceptsUser(user, users) {
        return Failure(UndefinedReference);
      }
      users := users + [user];
      journal := journal + [SavedUser(user)];
      r := Success(user);
    }
  }

  /** The payloads published on `BOOK_ADDED`, oldest first. */
  function PublishedBooks(journal: seq<Effect>): seq<Book>
  {
    if journal == [] then []
    else (if journal[0].Published? && journal[0].topic == BookAddedTopic then [journal[0].book] else [])
         + PublishedBooks(journal[1..])
  }

  lemma {:induction false} PublishedBooksAfterInsert(journal: seq<Effect>, e: Effect)
    ensures PublishedBooks(journal + [e]) ==
            PublishedBooks(journal) + (if e.Published? && e.topic == BookAddedTopic then [e.book] else [])
  {
    if journal == [] {
      assert journal + [e] == [e];
    } else {
      assert (journal + [e])[1..] == journal[1..] + [e];
      PublishedBooksAfterInsert(journal[1..], e);
    }
  }

  /** Adding a book under a free title keeps titles unique. */
  lemma TitlesAfterInsert(books: seq<Book>, b: Book)
    requires DistinctTitles(books)
    requires !TitleTaken(books, b.title)
    ensures DistinctTitles(books + [b])
  {
    var s := books + [b];
    forall i, j | 0 <= i < j < |s| ensures s[i].title != s[j].title {
      if j == |books| {
        assert s[i] in books;
      }
    }
  }

  /** Adding an author with a fresh id and a free name keeps ids and names unique. */
  lemma AuthorIdsAfterInsert(authors: seq<Author>, a: Author)
    requires DistinctAuthorIds(authors) && DistinctAuthorNames(authors)
    requires a.id !in AuthorIds(authors)
    requires FindAuthor(authors, a.name).None?
    ensures DistinctAuthorIds(authors + [a]) && DistinctAuthorNames(authors + [a])
    ensures AuthorIds(authors + [a]) == AuthorIds(authors) + {a.id}
  {
    var s := authors + [a];
    forall i, j | 0 <= i < j < |s| ensures s[i].id != s[j].id && s[i].name != s[j].name {
      if j == |authors| {
        assert s[i] in authors;
      }
    }
  }

  /** Setting one author's `born` keeps every id and name where it was. */
  lemma EditedAuthorsKeepKeys(authors: seq<Author>, i: nat, born: Option<int>)
    requires i < |authors|
    requires DistinctAuthorIds(authors) && DistinctAuthorNames(authors)
    ensures DistinctAuthorIds(authors[i := authors[i].(born := born)])
    ensures DistinctAuthorNames(authors[i := authors[i].(born := born)])
    ensures AuthorIds(authors[i := authors[i].(born := born)]) == AuthorIds(authors)
  {
    var s := authors[i := authors[i].(born := born)];
    assert forall k :: 0 <= k < |s| ==> s[k].id == authors[k].id && s[k].name == authors[k].name;
    forall x ensures x in AuthorIds(s) <==> x in AuthorIds(authors) {
      if x in AuthorIds(s) {
        var a :| a in s && a.id == x;
        var k :| 0 <= k < |s| && s[k] == a;
        assert authors[k] in authors;
      }
      if x in AuthorIds(authors) {
        var a :| a in authors && a.id == x;
        var k :| 0 <= k < |authors| && authors[k] == a;
        assert s[k] in s;
      }
    }
  }

  /** Looking a name up after an author is appended: the old answer stands, or else the new author answers. */
  lemma FindAuthorAfterInsert(authors: seq<Author>, a: Author)
    ensures FindAuthor(authors, a.name).Some? ==> FindAuthor(authors + [a], a.name) == FindAuthor(authors, a.name)
    ensures FindAuthor(authors, a.name).None? ==> FindAuthor(authors + [a], a.name) == Some(a)
  {
    var named := Named(a.name);
    var after := authors + [a];
    assert named(after[|authors|]);
    var k' := FindFirst(after, named).value;
    match FindFirst(authors, named)
    case Some(k) =>
      assert after[k] == authors[k];
      assert k' == k;
    case None =>
      assert forall j :: 0 <= j < |authors| ==> after[j] == authors[j];
      assert k' == |authors|;
  }

  // ---------------------------------------------------------------------------
  // login

  /** `User.findOne({ username })`. */
  function FindUserByName(users: seq<User>, username: string): Option<User>
  {
    FindUser(users, UserNamed(username))
  }

  /**
   * `Mutation.login` as written: an unknown username throws a TypeError when
   * the password hash of the missing user is read, and a wrong password throws
   * a ReferenceError when the handler reads an undefined `args`; the intended
   * 'invalid username or password' error is never thrown.
   */
  function Login(users: seq<User>, username: string, password: string,
                 compare: (string, string) -> bool, sign: Claims -> string)
    : (r: Result<Token, LibraryError>)
    ensures r != Failure(UserInputError(InvalidLoginMessage))
    ensures FindUserByName(users, username).None? ==> r == Failure(NullDereference)
    ensures FindUserByName(users, username).Some? ==>
              var u := FindUserByName(users, username).value;
              if compare(password, u.passwordHash) then r == Success(Token(sign(Claims(u.username, u.id))))
              else r == Failure(UndefinedReference)
  {
    match FindUserByName(users, username)
    case None => Failure(NullDereference)
    case Some(u) =>
      if !compare(password, u.passwordHash) then Failure(UndefinedReference)
      else Success(Token(sign(Claims(u.username, u.id))))
  }

  /** The two failures of `Login` can be told apart, and neither is the intended error. */
  lemma LoginFailuresDiffer()
    ensures var users := [User(0, "root", "fiction", "secret")];
            var compare := (p: string, h: string) => p == h;
            var sign := (c: Claims) => c.username;
            && Login(users, "nobody", "secret", compare, sign) == Failure(NullDereference)
            && Login(users, "root", "guess", compare, sign) == Failure(UndefinedReference)
            && Login(users, "nobody", "secret", compare, sign) != Login(users, "root", "guess", compare, sign)
            && Login(users, "root", "guess", compare, sign) != Failure(UserInputError(InvalidLoginMessage))
  {
    var users := [User(0, "root", "fiction", "secret")];
    assert FindUserByName(users, "nobody").None?;
    assert FindUserByName(users, "root") == Some(users[0]);
  }

  /**
   * `Mutation.login` as intended: an unknown username and a wrong password
   * both give 'invalid username or password', so the caller cannot tell which
   * check failed; otherwise a token over the user's name and id.
   */
  function LoginChecked(users: seq<User>, username: string, password: string,
                        compare: (string, string) -> bool, sign: Claims -> string)
    : (r: Result<Token, LibraryError>)
    ensures r.Failure? ==> r.error == UserInputError(InvalidLoginMessage)
    ensures r.Success? <==>
              FindUserByName(users, username).Some? &&
              compare(password, FindUserByName(users, username).value.passwordHash)
    ensures r.Success? ==>
              r.value == Token(sign(Claims(username, FindUserByName(users, username).value.id)))
  {
    match FindUserByName(users, username)
    case None => Failure(UserInputError(InvalidLoginMessage))
    case Some(u) =>
      if compare(password, u.passwordHash) then Success(Token(sign(Claims(u.username, u.id))))
      else Failure(UserInputError(InvalidLoginMessage))
  }

  /**
   * A user created with a password can log in with it and gets a token over
   * its own name and id, both as written and as intended. A password the hash
   * comparison refuses is the `args` reference error as written, and the
   * single 'invalid username or password' error as intended.
   */
  lemma LoginAfterCreateUser(users: seq<User>, u: User, password: string, wrong: string,
                             hash: (string, nat) -> string, compare: (string, string) -> bool,
                             sign: Claims -> string)
    requires forall x :: compare(x, hash(x, SaltRounds))
    requires FindUserByName(users, u.username).None?
    requires u.passwordHash == hash(password, SaltRounds)
    requires !compare(wrong, u.passwordHash)
    ensures Login(users + [u], u.username, password, compare, sign) == Success(Token(sign(Claims(u.username, u.id))))
    ensures Login(users + [u], u.username, wrong, compare, sign) == Failure(UndefinedReference)
    ensures LoginChecked(users + [u], u.username, password, compare, sign) == Success(Token(sign(Claims(u.username, u.id))))
    ensures LoginChecked(users + [u], u.username, wrong, compare, sign) == Failure(UserInputError(InvalidLoginMessage))
  {
    var named := UserNamed(u.username);
    var after := users + [u];
    assert named(after[|users|]);
    assert forall j :: 0 <= j < |users| ==> after[j] == users[j];
    assert FindFirst(after, named).value == |users|;
    assert FindUserByName(after, u.username) == Some(u);
  }

  // ---------------------------------------------------------------------------
  // addBook against the queries

  /** After a book is added under a free title, listing all books shows that title exactly once. */
  lemma ListedOnceAfterAdd(authors: seq<Author>, books: seq<Book>, b: Book)
    requires !TitleTaken(books, b.title)
    ensures AllBooks(authors, books + [b], None, None) == Success(books + [b])
    ensures CountDocuments(AllBooks(authors, books + [b], None, None).value, Titled(b.title)) == 1
  {
    AllBooksUnfiltered(authors, books + [b], None, None);
    FindAfterInsert(books, b, Titled(b.title));
  }

  /** A book added for a stored author raises that author's `bookCount` by one. */
  lemma BookCountOfExistingAuthorGrows(authors: seq<Author>, books: seq<Book>, name: string, b: Book)
    requires FindAuthor(authors, name).Some? && b.author == FindAuthor(authors, name).value.id
    ensures AuthorBookCount(authors, books, name).Success?
    ensures AuthorBookCount(authors, books + [b], name) == Success(AuthorBookCount(authors, books, name).value + 1)
  {
    var m := Matching(Some(b.author), None);
    assert m(b);
    var before := CountDocuments(books, m);
    var after := CountDocuments(books + [b], m);
    assert after == before + 1 by {
      FindAfterInsert(books, b, m);
    }
    assert AuthorBookCount(authors, books, name) == Success(before);
    assert AuthorBookCount(authors, books + [b], name) == Success(after);
    assert AuthorBookCount(authors, books, name).value + 1 == after;
  }

  /** A book added with a newly created author gives that author a `bookCount` of one. */
  lemma BookCountOfNewAuthorIsOne(authors: seq<Author>, books: seq<Book>, a: Author, b: Book)
    requires ReferencesResolve(authors, books)
    requires a.id !in AuthorIds(authors) && FindAuthor(authors, a.name).None?
    requires b.author == a.id
    ensures AuthorBookCount(authors + [a], books + [b], a.name) == Success(1)
  {
    FindAuthorAfterInsert(authors, a);
    FindAfterInsert(books, b, Matching(Some(a.id), None));
    assert forall x :: x in books ==> !Matching(Some(a.id), None)(x);
  }

  /** With unique names, a stored name is carried by exactly one author. */
  lemma {:induction false} OneAuthorPerName(authors: seq<Author>, name: string)
    requires DistinctAuthorNames(authors)
    requires FindAuthor(authors, name).Some?
    ensures CountDocuments(authors, Named(name)) == 1
  {
    var rest := authors[1..];
    assert DistinctAuthorNames(rest) by {
      forall i, j | 0 <= i < j < |rest| ensures rest[i].name != rest[j].name {
        assert rest[i] == authors[i + 1] && rest[j] == authors[j + 1];
      }
    }
    if authors[0].name == name {
      forall x | x in rest ensures !Named(name)(x) {
        var j :| 0 <= j < |rest| && rest[j] == x;
        assert x == authors[j + 1];
      }
    } else {
      var a := FindAuthor(authors, name).value;
      assert a in rest;
      OneAuthorPerName(rest, name);
    }
  }

  /** Setting an author's `born` changes no listing and no count. */
  lemma EditBornKeepsQueries(authors: seq<Author>, books: seq<Book>, i: nat, born: Option<int>,
                             author: Option<string>, genre: Option<string>, name: string)
    requires i < |authors|
    ensures AllBooks(authors[i := authors[i].(born := born)], books, author, genre) == AllBooks(authors, books, author, genre)
    ensures AuthorBookCount(authors[i := authors[i].(born := born)], books, name) == AuthorBookCount(authors, books, name)
  {
    var edited := authors[i := authors[i].(born := born)];
    forall n: string ensures FindFirst(edited, Named(n)) == FindFirst(authors, Named(n))
                          && (FindAuthor(edited, n).Some? ==> FindAuthor(edited, n).value.id == FindAuthor(authors, n).value.id) {
      FindFirstPointwise(edited, Named(n), authors, Named(n));
    }
  }

  /**
   * Two successful `addBook` calls naming the same author leave exactly one
   * author of that name, referenced by both books.
   */
  method AddTwiceBySameAuthor(store: Store, context: Context, title1: string, title2: string,
                              authorName: string, published: int, genres: seq<string>, schema: Schema)
    returns (r1: Result<Book, LibraryError>, r2: Result<Book, LibraryError>)
    requires store.Valid()
    modifies store
    ensures store.Valid()
    ensures r1.Success? && r2.Success? ==>
              && r1.value.author == r2.value.author
              && FindAuthor(store.authors, authorName).Some?
              && FindAuthor(store.authors, authorName).value.id == r1.value.author
              && |store.authors| <= |old(store.authors)| + 1
              && CountDocuments(store.authors, Named(authorName)) == 1
              && store.books == old(store.books) + [r1.value, r2.value]
  {
    r1 := store.AddBook(context, title1, authorName, published, genres, schema);
    ghost var between := store.authors;
    r2 := store.AddBook(context, title2, authorName, published, genres, schema);
    if r1.Success? && r2.Success? {
      assert FindAuthor(between, authorName).Some?;
      assert store.authors == between;
      OneAuthorPerName(store.authors, authorName);
    }
  }
}
