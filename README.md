# Library and blog-list back ends, modelled in Dafny

This project models two small back ends.

- **Library server.** This is a GraphQL server over three collections: authors, books and users. The model covers:
  - the queries `allBooks`, `bookCount`, `authorCount`, `me` and `Author.bookCount`;
  - the mutations `addBook`, `editAuthor`, `createUser` and `login`;
  - the per-request context, which reads a `bearer ` token from the `Authorization` header and resolves it to a user.
- **Blog-list router.** This is a REST router over blog posts and the users that own them. It handles:
  - GET `/:id`;
  - POST `/`;
  - PUT `/:id/comments`;
  - PUT `/:id/like`;
  - DELETE `/:id`.

The document store is modelled as sequences in insertion order. The files are:

- `store_adapter.dfy` holds `FindFirst` (`findOne`, `findById`), `Find` (`find`) and `CountDocuments` over a filter.
- `library_model.dfy` holds the queries. They are pure functions over the collections.
- `library_context.dfy` holds the context builder and `me`.
- `library_store.dfy` holds the mutations.
  - The mutations are methods of a `Store` class whose fields are the collections and a journal.
  - The journal records each save and each `BOOK_ADDED` publication in the order they happen.
  - `Store.Valid()` is the invariant every mutation keeps:
    - ids are fresh;
    - author ids are unique;
    - author names are unique;
    - titles are unique;
    - every book's author is stored.
- `blog_router.dfy` holds the router.
  - The router is a `BlogStore` class.
  - Each handler answers `Reply(status, body)`, or `Thrown` when the JavaScript handler throws.
  - Its invariant `PostsListed` says that each user's `blogPosts` lists exactly the posts whose `user` is that user, and that every post's owner is stored.

JavaScript details are modelled explicitly.

- **Truthiness.** An empty string counts as a missing argument.
- **Runtime errors.** Reading a field of a `null` document is a `NullDereference` error. Reading `args`, which the `createUser` and `login` resolvers never define, is an `UndefinedReference` error.
- **External code.** Token signing and verification, password hashing and comparison, and the store's schema validators are parameters of the operations that use them.

## Model

| member | source | states |
|---|---|---|
| `StoreAdapter.FindFirst` | part8/library/library-backend.js:121-122 | The index found is the first record that matches the filter. There is no index exactly when no record matches. |
| `StoreAdapter.Find` | part8/library/library-backend.js:90-106 | The result holds exactly the stored records that match the filter, and is no longer than the collection. |
| `StoreAdapter.CountDocuments` | part8/library/library-backend.js:221 | The count is the number of matching records, and it is zero exactly when nothing matches. |
| `StoreAdapter.FindConcat` | part8/library/library-backend.js:90-106 | Filtering two collections joined together gives the two filtered collections joined together. |
| `StoreAdapter.FindAfterInsert` | part8/library/library-backend.js:221 | Inserting a record grows a query's result, and its count, by that record exactly when it matches. |
| `StoreAdapter.FindEverything` | part8/library/library-backend.js:106 | A filter that every record matches, such as `{}`, returns the whole collection in order. |
| `StoreAdapter.FindFirstPointwise` | part8/library/library-backend.js:168 | Two collections whose records match their filters at the same positions give the same `findOne` result. |
| `LibraryModel.FindAuthor` | part8/library/library-backend.js:89 | `Author.findOne({ name })` returns a stored author with that name, and returns none exactly when no author has the name. |
| `LibraryModel.AllBooks` | part8/library/library-backend.js:87-107 | The query fails exactly when an author argument is given and names no author; that failure is the null dereference of `author._id`. Otherwise every book listed is stored. |
| `LibraryModel.AllBooksByAuthorAndGenre` | part8/library/library-backend.js:88-93 | With both arguments given and the author stored, a book is listed exactly when it is stored, is by that author and has that genre. |
| `LibraryModel.AllBooksByAuthor` | part8/library/library-backend.js:94-99 | With only the author given and stored, a book is listed exactly when it is stored and is by that author. |
| `LibraryModel.AllBooksByGenre` | part8/library/library-backend.js:100-104 | With only the genre given, a book is listed exactly when it is stored and has that genre. The author argument is ignored. |
| `LibraryModel.AllBooksUnfiltered` | part8/library/library-backend.js:105-106 | With neither argument given, including empty strings, every book is listed in store order. |
| `LibraryModel.BookCount` | part8/library/library-backend.js:85 | `countDocuments` with no filter over the books is the number of stored books. |
| `LibraryModel.AuthorCount` | part8/library/library-backend.js:86 | `countDocuments` with no filter over the authors is the number of stored authors. |
| `LibraryModel.AllBooksIsIntersection` | part8/library/library-backend.js:88-104 | The query with both arguments succeeds exactly when the author-only query succeeds. It lists exactly the books both single-argument queries list. |
| `LibraryModel.AuthorBookCount` | part8/library/library-backend.js:219-222 | `Author.bookCount` fails exactly when the name is not stored. Otherwise it is the number of books referencing that author's id. |
| `LibraryModel.AuthorBookCountMatchesAllBooks` | part8/library/library-backend.js:219-222 | An author's `bookCount` is the length of `allBooks(author: name)`, and the two fail together. |
| `LibraryModel.FindAuthorByOwnName` | part8/library/library-backend.js:220 | When names are unique, looking an author up by its own name finds that author. |
| `LibraryModel.AuthorsWithIdOfStoredId` | part8/library/library-backend.js:221 | When ids are unique, an id is carried by one author if it is stored and by none otherwise. |
| `LibraryModel.SumOfBookCountsAfterInsert` | part8/library/library-backend.js:221 | Adding a book raises the sum of the per-author-id book counts by the number of authors with the book's author id. |
| `LibraryModel.SumOfBookCountsOfNoBooks` | part8/library/library-backend.js:221 | With no books, the sum of the per-author-id book counts is zero. |
| `LibraryModel.BookCountIsSumOfIdCounts` | part8/library/library-backend.js:85 | When author ids are unique and every book's author is stored, `bookCount` equals the sum of the per-author-id book counts. |
| `LibraryModel.ResolvedCountsAreIdCounts` | part8/library/library-backend.js:219-222 | When names are unique, the `Author.bookCount` resolver finds each stored author by its own name, so its answers sum to the per-author-id book counts. |
| `LibraryModel.BookCountIsSumOfAuthorBookCounts` | part8/library/library-backend.js:85-86 | When author ids and names are unique and every book's author is stored, `bookCount` equals the sum, over the stored authors, of what the `Author.bookCount` resolver answers when it looks each author up by name. |
| `LibraryModel.AuthorCountIsNumberOfNames` | part8/library/library-backend.js:86 | When names are unique, `authorCount` equals the number of distinct author names. |
| `LibraryContext.ToLower` | part8/library/library-backend.js:231 | Lower-casing keeps the length and lower-cases each character in place. |
| `LibraryContext.IsBearer` | part8/library/library-backend.js:231 | A header is a bearer header exactly when it is at least seven characters long and its first seven characters lower-case to `bearer `. |
| `LibraryContext.TokenOf` | part8/library/library-backend.js:232 | `substring(7)`: the header is its first seven characters followed by the token, and a shorter header gives an empty token. |
| `LibraryContext.FindUser` | part8/library/library-backend.js:197-233 | `User.findOne` and `User.findById`: the user found is stored and matches the filter. There is no user exactly when no stored user matches. |
| `LibraryContext.BuildContext` | part8/library/library-backend.js:229-237 | A missing header, an empty header or a header not starting with `bearer ` (in any case) gives an anonymous context. A bearer token that fails verification throws. A verified bearer token gives exactly the stored user with the token's id, or none when no user has it. |
| `LibraryContext.SchemeAccepted` | part8/library/library-backend.js:231-232 | Any seven-character scheme that lower-cases to `bearer ` is accepted, and `substring(7)` gives back the token that follows. |
| `LibraryContext.BearerHeaderRoundTrip` | part8/library/library-backend.js:231-232 | A header of the shape `bearer <token>` is accepted, and `substring(7)` gives back exactly that token. |
| `LibraryContext.CapitalisedBearerAccepted` | part8/library/library-backend.js:231-232 | `Bearer ` and `BEARER ` headers are accepted and give back their token. |
| `LibraryContext.BasicSchemeIsAnonymous` | part8/library/library-backend.js:231 | A `Basic` header leaves the request anonymous. |
| `LibraryContext.MeIsTokenUser` | part8/library/library-backend.js:112 | With a verified bearer token, whatever the case of the scheme, `me` is the stored user the token's id names, or none. |
| `LibraryContext.MeIsAnonymousWithoutBearer` | part8/library/library-backend.js:112 | Without a bearer header, `me` answers nothing. |
| `LibraryStore.Store.AddBook` | part8/library/library-backend.js:116-162 | An anonymous request is refused, and a taken title is rejected; in both cases nothing changes. An existing author is reused. Otherwise an author with only its name is saved before the book, and stays saved if the book is refused. A saved book is published on `BOOK_ADDED` and returned. The invariant is kept. |
| `LibraryStore.Store.AddBookByNewAuthor` | part8/library/library-backend.js:128-145 | The new author's save decides whether anything happens. A refused book leaves the author saved. A saved book is journalled and published. |
| `LibraryStore.Store.AddBookByExistingAuthor` | part8/library/library-backend.js:146-161 | The book refers to the found author. It is saved and published, or refused with nothing changed. |
| `LibraryStore.Store.SaveNewAuthor` | part8/library/library-backend.js:133 | The author is appended and journalled. The invariant is kept. |
| `LibraryStore.Store.SaveNewBook` | part8/library/library-backend.js:134 | The book is appended and journalled. The invariant is kept. |
| `LibraryStore.Store.Publish` | part8/library/library-backend.js:139-141 | Publishing appends the book to the `BOOK_ADDED` events and changes nothing else. |
| `LibraryStore.Store.EditAuthor` | part8/library/library-backend.js:164-179 | An anonymous request is refused, and an unknown name is rejected; in both cases nothing changes. Otherwise only that author's `born` changes, once the save is accepted, and the edited author is returned. |
| `LibraryStore.Store.CreateUser` | part8/library/library-backend.js:181-194 | The user is stored with the password hashed at 10 rounds. A refused save throws the `args` reference error and stores nothing. |
| `LibraryStore.TitleTaken` | part8/library/library-backend.js:122-124 | A title is taken exactly when some stored book has it. |
| `LibraryStore.PublishedBooksAfterInsert` | part8/library/library-backend.js:139-141 | Journalling a `BOOK_ADDED` publication adds exactly its book to the published events. |
| `LibraryStore.TitlesAfterInsert` | part8/library/library-backend.js:122-126 | Adding a book under a title not yet taken keeps titles unique. |
| `LibraryStore.AuthorIdsAfterInsert` | part8/library/library-backend.js:129 | Adding an author with a fresh id and an unused name keeps ids and names unique, and adds exactly that id to the stored ids. |
| `LibraryStore.EditedAuthorsKeepKeys` | part8/library/library-backend.js:172 | Changing `born` keeps ids, names and the set of ids. |
| `LibraryStore.FindAuthorAfterInsert` | part8/library/library-backend.js:128-133 | Adding an author leaves the lookup of a name already stored unchanged. For a new name, the lookup finds the added author. |
| `LibraryStore.Login` | part8/library/library-backend.js:196-211 | As written: an unknown username dereferences `null`, and a wrong password throws the `args` reference error, so 'invalid username or password' is never the answer. The right password gives a token over the user's name and id. |
| `LibraryStore.LoginFailuresDiffer` | part8/library/library-backend.js:196-204 | On a concrete store, the two failures of `login` differ, and neither is 'invalid username or password'. |
| `LibraryStore.LoginChecked` | part8/library/library-backend.js:196-211 | As intended: every failure is 'invalid username or password'. Success happens exactly when the user exists and the password matches, and gives a token over the user's name and id. |
| `LibraryStore.LoginAfterCreateUser` | part8/library/library-backend.js:181-211 | For a user appended with `hash(password, 10)` under a username no stored user has: `Login` and `LoginChecked` both give a token over its own name and id for that password. A password the comparison refuses is the `args` reference error in `Login` (as written) and the single 'invalid username or password' error in `LoginChecked` (as intended). |
| `LibraryStore.ListedOnceAfterAdd` | part8/library/library-backend.js:122-157 | After a book is added under a free title, `allBooks` lists the store with that title exactly once. |
| `LibraryStore.BookCountOfExistingAuthorGrows` | part8/library/library-backend.js:146-149 | A book added for a stored author raises that author's `bookCount` by one. |
| `LibraryStore.BookCountOfNewAuthorIsOne` | part8/library/library-backend.js:128-134 | A book added with a newly created author gives that author a `bookCount` of one. |
| `LibraryStore.OneAuthorPerName` | part8/library/library-backend.js:121-129 | When names are unique, a stored name belongs to exactly one author. |
| `LibraryStore.EditBornKeepsQueries` | part8/library/library-backend.js:172 | Setting `born` changes no `allBooks` result and no `bookCount`. |
| `LibraryStore.AddTwiceBySameAuthor` | part8/library/library-backend.js:121-157 | Two successful `addBook` calls naming the same author create at most one author. Exactly one author has the name, `findOne` by that name finds it, both books carry its id, and both books are appended in order. |
| `BlogRouter.GetBlog` | part4/bloglist/controllers/blogRouter.js:11-22 | The stored post with the id is answered with 200; with no such post, 404 with no body. |
| `BlogRouter.InitialLikes` | part4/bloglist/controllers/blogRouter.js:36 | A post saved without `likes` starts at 0; one saved with `likes` keeps the given count. |
| `BlogRouter.WithoutPost` | part4/bloglist/controllers/blogRouter.js:110-112 | The filtered list holds exactly the ids of the list other than the deleted one. |
| `BlogRouter.WithoutPostKeepsOrder` | part4/bloglist/controllers/blogRouter.js:110-112 | The filter works entry by entry: it splits over concatenation, keeps a single other id and drops the deleted one, so the other ids keep their order and repeats. A list without the id comes back whole. |
| `BlogRouter.BlogStore.Post` | part4/bloglist/controllers/blogRouter.js:24-53 | As written: the poster is read before any check, so a missing or unstored poster throws, even where a 401 is promised; then missing fields get 401, then a missing token gets 401; in these cases nothing changes. Otherwise the post is saved with the poster as `user` and `likes` defaulting to 0. Its id is appended to the poster's list, 201 answers with the post, and the invariant is kept. |
| `BlogRouter.BlogStore.PostChecked` | part4/bloglist/controllers/blogRouter.js:24-53 | As intended: the handler never throws. Missing fields get 401 'missing parameters'; then a missing token, a missing user or an unstored user gets 401 'token missing or invalid'; in these cases nothing changes. Otherwise the post is saved, listed under the poster and answered with 201, as in `Post`, and the invariant is kept. |
| `BlogRouter.BlogStore.Comment` | part4/bloglist/controllers/blogRouter.js:55-70 | The comment is appended to that post's comments only, and the updated post is answered. A missing post throws. |
| `BlogRouter.BlogStore.Like` | part4/bloglist/controllers/blogRouter.js:72-88 | As written: the stored posts stay exactly as they were, because `blog.likes++` yields the old count. A missing post throws. |
| `BlogRouter.BlogStore.LikeIncrement` | part4/bloglist/controllers/blogRouter.js:72-88 | As intended: that post's `likes` goes up by one, and nothing else changes. |
| `BlogRouter.BlogStore.Delete` | part4/bloglist/controllers/blogRouter.js:90-119 | A request without token or user gets 401, a missing post 404, and another user's post 401; in these cases nothing changes. Otherwise the post is removed and its id leaves the requester's list, with 204. An unstored requester throws after the removal. The invariant is kept. |
| `BlogRouter.OwnedByAfterInsert` | part4/bloglist/controllers/blogRouter.js:47-48 | A new post adds its id to exactly its owner's posts. |
| `BlogRouter.PostKeepsLinks` | part4/bloglist/controllers/blogRouter.js:47-49 | Saving a post with a fresh id and appending that id to the poster's list keeps every list equal to the posts it owns. |
| `BlogRouter.EditKeepsLinks` | part4/bloglist/controllers/blogRouter.js:60-67 | Updating a post in place without changing its id or owner keeps the invariant. |
| `BlogRouter.OwnedByAfterRemove` | part4/bloglist/controllers/blogRouter.js:109 | Removing a post removes exactly its id from its owner's posts. |
| `BlogRouter.RemovedStaysOwned` | part4/bloglist/controllers/blogRouter.js:109 | A post owned after a removal was owned before, and is not the removed post. |
| `BlogRouter.KeptStaysOwned` | part4/bloglist/controllers/blogRouter.js:109 | A post owned before a removal, other than the removed one, is still owned. |
| `BlogRouter.OwnedOnlyByItsUser` | part4/bloglist/controllers/blogRouter.js:108 | A post is not among the posts of any user other than its own. |
| `BlogRouter.AccountIdsAfterListChange` | part4/bloglist/controllers/blogRouter.js:110-113 | Replacing a user's list keeps user ids unique and the same. |
| `BlogRouter.DeleteKeepsLinks` | part4/bloglist/controllers/blogRouter.js:108-113 | Deleting an unowned post, or one of the requester's, and filtering the requester's list keeps the invariant. |
| `BlogRouter.GetAfterPost` | part4/bloglist/controllers/blogRouter.js:11-53 | A post saved under a fresh id is then answered 200 by GET `/:id`. |
| `BlogRouter.GetAfterDelete` | part4/bloglist/controllers/blogRouter.js:11-22 | When ids are unique, a deleted post is then answered 404. |
| `BlogRouter.WithoutPostUndoesAppend` | part4/bloglist/controllers/blogRouter.js:48-112 | Filtering out an id just appended to a list that lacked it gives the list back, so posting then deleting restores the user's list. |

## Left out

- **Population.** `populate` of a book's author or a post's user is not modelled. Books refer to their author, and posts to their user, by id.
- **Other resolvers and routes.** `Query.allAuthors`, the `bookAdded` subscription's iterator and GET `/` are not modelled. Publication is recorded in the store's journal.
- **External code.** Token signing and verification, `bcrypt` hashing and comparison, and the secret are function parameters. The store's schemas and their validation messages are the `Schema` predicates. A refused save is `ValidationError` rather than the validator's message.
- **Undefined context.** When the header is not a bearer header, the context function returns `undefined`. The model takes this to be an anonymous request, `Context(None)`.
- **Token failures.** A token that fails `jwt.verify` throws out of the context (`InvalidToken`). The request is not treated as anonymous in that case. The model follows the code here.
- **Concurrency.** The store's operations are taken to be atomic and sequential. Interleaved requests are not modelled; this includes two `addBook` calls racing on the same new author or title.
- **Un-awaited calls.** The un-awaited `populate` in `addBook` is not modelled; the saved book itself is returned and published. The un-awaited `user.save()` in DELETE is taken to complete.
- **Blog saves.** The blog router's saves are taken to succeed. Its schema is not modelled.
- **Error handling.** The token and user extractor middleware and the error middleware are not part of this model. Their results are the `Credentials` given to a handler, and a thrown error is `Thrown`.
- **Id comparison.** DELETE filters `blogPosts` with `a.id.toString() !== request.params.id.toString()`. The model takes `a.id.toString()` to be the entry's own id and compares ids by value. `post[0].user.equals(request.user)` is id equality too.
- `BlogRouter.BlogStore.Delete`: models the code as written. When the token and user id are present but the user is not stored, the post is removed and the handler then throws at `user.blogPosts`. The promised 204 with the requester's list filtered does not happen. No corrected handler is modelled for this case.
- `BlogRouter.BlogStore.Comment`: a missing `comment` field is stored as `undefined` in JavaScript. The model takes a string.
- `LibraryStore.Store.AddBook`: `published` and `genres` are taken as given. GraphQL's own argument checks happen before the resolver runs.
- **Initial state.** The `Store` starts empty and the `BlogStore` starts with users that list no posts. Other initial states are reached only through the modelled operations.
- **Character case.** `toLowerCase` is modelled for ASCII letters only. Other characters never lower-case to one of the letters of `bearer `.

## Findings

| source | as written | input that shows it | evidently intended | confidence | as-written member | corrected member |
|---|---|---|---|---|---|---|
| part4/bloglist/controllers/blogRouter.js:80 | `{ likes: blog.likes++ }` stores the value of the post-increment, which is the old count, so a like changes nothing | any stored post, e.g. one with `likes: 3`; after PUT `/:id/like` it still has 3 | the count goes up by one (`blog.likes + 1`) | not executed | `BlogRouter.BlogStore.Like` | `BlogRouter.BlogStore.LikeIncrement` |
| part8/library/library-backend.js:196-204 | `user.passwordHash` is read before `user` is checked, and the intended throw reads `args`, which is not defined in the resolver | users `[root/"secret"]`: `login("nobody", …)` dereferences `null`; `login("root", "guess")` throws a ReferenceError; neither answers 'invalid username or password' | both failures answer 'invalid username or password' | not executed | `LibraryStore.Login` | `LibraryStore.LoginChecked` |
| part4/bloglist/controllers/blogRouter.js:30-45 | `user._id` is read at line 35, before the checks at lines 39-45, so a request without a stored user throws instead of getting a 401 | `Credentials(None, None)` with a complete body, or a token and user id 7 with an empty body, on a store without user 7: both throw | missing fields get 401 'missing parameters', and a missing token or user gets 401 'token missing or invalid' | not executed | `BlogRouter.BlogStore.Post` | `BlogRouter.BlogStore.PostChecked` |
