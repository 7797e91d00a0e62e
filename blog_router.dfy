/**
 * The blog-post REST handlers: GET `/:id`, POST `/`, PUT `/:id/comments`,
 * PUT `/:id/like` and DELETE `/:id`, over the blog and user collections.
 * Each handler answers with a status and a body, or throws; a thrown error
 * goes to the application's error middleware, which is not part of this model.
 */
module BlogRouter {
  import opened Wrappers
  import opened StoreAdapter

  /** A document id. Ids are compared by value only. */
  type Id = nat

  /** A blog post; `user` is the id of the poster, absent on posts created without one. */
  datatype Blog = Blog(id: Id, title: string, author: string, url: string,
                       user: Option<Id>, likes: int, comments: seq<string>)

  /** A user and the ids of the posts listed under it. */
  datatype Account = Account(id: Id, username: string, name: string, blogPosts: seq<Id>)

  /** A response body. */
  datatype Body = NoBody | BlogJson(blog: Blog) | ErrorJson(error: string)

  /** What a handler does: respond, or throw. */
  datatype Outcome = Reply(status: nat, body: Body) | Thrown

  /** The fields of a POST body; a missing field is `None`. */
  datatype NewBlog = NewBlog(title: Option<string>, author: Option<string>, url: Option<string>, likes: Option<int>)

  /** What the token and user extractor middleware leave on the request. */
  datatype Credentials = Credentials(token: Option<string>, user: Option<Id>)

  const MissingParametersError: string := "missing parameters"
  const TokenMissingError: string := "token missing or invalid"
  const AlreadyDeletedError: string := "blog post already deleted or doesn't exist"
  const InvalidUserTokenError: string := "invalid user token"

  /** JavaScript truthiness of an optional string: missing and "" are both false. */
  predicate Truthy(s: Option<string>)
  {
    s.Some? && s.value != ""
  }

  /** The request is authenticated when both the token and the user are present. */
  predicate Authenticated(credentials: Credentials)
  {
    Truthy(credentials.token) && credentials.user.Some?
  }

  /** The filter `{ _id: id }` on blogs. */
  function BlogWithId(id: Id): Blog -> bool
  {
    (b: Blog) => b.id == id
  }

  /** The filter `{ _id: id }` on users. */
  function AccountWithId(id: Id): Account -> bool
  {
    (u: Account) => u.id == id
  }

  /** `likes: body.likes === undefined ? 0 : body.likes`. */
  function InitialLikes(likes: Option<int>): (n: int)
    ensures likes.None? ==> n == 0
    ensures likes.Some? ==> n == likes.value
  {
    if likes.None? then 0 else likes.value
  }

  /** GET `/:id`: the blog with that id, or 404 with no body. */
  function GetBlog(blogs: seq<Blog>, id: Id): (r: Outcome)
    ensures r.Reply?
    ensures r.status == 404 <==> forall b :: b in blogs ==> b.id != id
    ensures r.status == 404 ==> r.body == NoBody
    ensures r.status != 404 ==> r.status == 200 && r.body.BlogJson? && r.body.blog in blogs && r.body.blog.id == id
  {
    match FindFirst(blogs, BlogWithId(id))
    case None => Reply(404, NoBody)
    case Some(i) => Reply(200, BlogJson(blogs[i]))
  }

  /** `user.blogPosts.filter(...)`: the list without the deleted id, ids compared by value. */
  function WithoutPost(posts: seq<Id>, id: Id): (r: seq<Id>)
    ensures forall x :: x in r <==> x in posts && x != id
  {
    Find(posts, OtherThan(id))
  }

  /** The filter callback `a => a !== id`. */
  function OtherThan(id: Id): Id -> bool
  {
    (x: Id) => x != id
  }

  // ---------------------------------------------------------------------------
  // The link between posts and users

  /** No two blogs share an id. */
  ghost predicate DistinctBlogIds(blogs: seq<Blog>)
  {
    forall i, j :: 0 <= i < j < |blogs| ==> blogs[i].id != blogs[j].id
  }

  /** No two users share an id. */
  ghost predicate DistinctAccountIds(users: seq<Account>)
  {
    forall i, j :: 0 <= i < j < |users| ==> users[i].id != users[j].id
  }

  /** The ids listed under a user. */
  ghost function Listed(u: Account): set<Id>
  {
    set x | x in u.blogPosts
  }

  /** The ids of the blogs whose `user` is the given user. */
  ghost function OwnedBy(blogs: seq<Blog>, uid: Id): set<Id>
  {
    set b | b in blogs && b.user == Some(uid) :: b.id
  }

  /** The ids of the stored users. */
  ghost function AccountIds(users: seq<Account>): set<Id>
  {
    set u | u in users :: u.id
  }

  /** Every user lists exactly the posts it owns, and every owned post has a stored owner. */
  ghost predicate PostsListed(blogs: seq<Blog>, users: seq<Account>)
  {
    && (forall u :: u in users ==> Listed(u) == OwnedBy(blogs, u.id))
    && (forall b :: b in blogs && b.user.Some? ==> b.user.value in AccountIds(users))
  }

  class BlogStore {
    var blogs: seq<Blog>
    var users: seq<Account>
    var nextId: nat  // every blog id handed out so far is below this one

    ghost predicate Valid()
      reads this
    {
      && (forall b :: b in blogs ==> b.id < nextId)
      && DistinctBlogIds(blogs)
      && DistinctAccountIds(users)
      && PostsListed(blogs, users)
    }

    /** A store with no posts over users that list none. */
    constructor (accounts: seq<Account>)
      requires DistinctAccountIds(accounts)
      requires forall u :: u in accounts ==> u.blogPosts == []
      ensures Valid()
      ensures blogs == [] && users == accounts
    {
      blogs, users, nextId := [], accounts, 0;
    }

    /**
     * POST `/`: the poster is looked up first (a missing one throws when its
     * id is read); then missing title, author or url, then a missing token,
     * answer 401; otherwise the post is saved with the poster as its user and
     * its id appended to the poster's list, and 201 answers with it.
     */
    method Post(credentials: Credentials, body: NewBlog) returns (r: Outcome)
      requires Valid()
      modifies this
      ensures Valid()
      ensures credentials.user.None? || FindFirst(old(users), AccountWithId(credentials.user.value)).None? ==>
                r == Thrown && unchanged(this)
      ensures credentials.user.Some? && FindFirst(old(users), AccountWithId(credentials.user.value)).Some? ==>
                var i := FindFirst(old(users), AccountWithId(credentials.user.value)).value;
                && (!(Truthy(body.title) && Truthy(body.author) && Truthy(body.url)) ==>
                      r == Reply(401, ErrorJson(MissingParametersError)) && unchanged(this))
                && (Truthy(body.title) && Truthy(body.author) && Truthy(body.url) && !Truthy(credentials.token) ==>
                      r == Reply(401, ErrorJson(TokenMissingError)) && unchanged(this))
                && (Truthy(body.title) && Truthy(body.author) && Truthy(body.url) && Truthy(credentials.token) ==>
                      var blog := Blog(old(nextId), body.title.value, body.author.value, body.url.value,
                                       Some(old(users)[i].id), InitialLikes(body.likes), []);
                      && r == Reply(201, BlogJson(blog))
                      && blogs == old(blogs) + [blog]
                      && users == old(users)[i := old(users)[i].(blogPosts := old(users)[i].blogPosts + [blog.id])])
    {
      if credentials.user.None? {
        return Thrown;
      }
      var found := FindFirst(users, AccountWithId(credentials.user.value));
      if found.None? {
        return Thrown;
      }
      var i := found.value;
      var user := users[i];
      if !(Truthy(body.title) && Truthy(body.author) && Truthy(body.url)) {
        return Reply(401, ErrorJson(MissingParametersError));
      }
      if !Truthy(credentials.token) {
        return Reply(401, ErrorJson(TokenMissingError));
      }
      var blog := Blog(nextId, body.title.value, body.author.value, body.url.value,
                       Some(user.id), InitialLikes(body.likes), []);
      var saved := user.(blogPosts := user.blogPosts + [blog.id]);
      PostKeepsLinks(blogs, users, i, blog);
      blogs := blogs + [blog];
      users := users[i := saved];
      nextId := nextId + 1;
      r := Reply(201, BlogJson(blog));
    }

    /**
     * POST `/` as evidently intended: the request is checked before the poster
     * is read, so a missing title, author or url, and then a missing token or
     * a poster who is not stored, answer 401 and never throw.
     */
    method PostChecked(credentials: Credentials, body: NewBlog) returns (r: Outcome)
      requires Valid()
      modifies this
      ensures Valid()
      ensures r != Thrown
      ensures !(Truthy(body.title) && Truthy(body.author) && Truthy(body.url)) ==>
                r == Reply(401, ErrorJson(MissingParametersError)) && unchanged(this)
      ensures Truthy(body.title) && Truthy(body.author) && Truthy(body.url) &&
              (!Authenticated(credentials) || FindFirst(old(users), AccountWithId(credentials.user.value)).None?) ==>
                r == Reply(401, ErrorJson(TokenMissingError)) && unchanged(this)
      ensures Truthy(body.title) && Truthy(body.author) && Truthy(body.url) &&
              Authenticated(credentials) && FindFirst(old(users), AccountWithId(credentials.user.value)).Some? ==>
                var i := FindFirst(old(users), AccountWithId(credentials.user.value)).value;
                var blog := Blog(old(nextId), body.title.value, body.author.value, body.url.value,
                                 Some(old(users)[i].id), InitialLikes(body.likes), []);
                && r == Reply(201, BlogJson(blog))
                && blogs == old(blogs) + [blog]
                && users == old(users)[i := old(users)[i].(blogPosts := old(users)[i].blogPosts + [blog.id])]
    {
      if !(Truthy(body.title) && Truthy(body.author) && Truthy(body.url)) {
        return Reply(401, ErrorJson(MissingParametersError));
      }
      if !Authenticated(credentials) {
        return Reply(401, ErrorJson(TokenMissingError));
      }
      var found := FindFirst(users, AccountWithId(credentials.user.value));
      if found.None? {
        return Reply(401, ErrorJson(TokenMissingError));
      }
      var i := found.value;
      var user := users[i];
      var blog := Blog(nextId, body.title.value, body.author.value, body.url.value,
                       Some(user.id), InitialLikes(body.likes), []);
      var saved := user.(blogPosts := user.blogPosts + [blog.id]);
      PostKeepsLinks(blogs, users, i, blog);
      blogs := blogs + [blog];
      users := users[i := saved];
      nextId := nextId + 1;
      r := Reply(201, BlogJson(blog));
    }

    /**
     * PUT `/:id/comments`: the comment is appended to the post's comments and
     * the updated post is answered; nothing else changes. A missing post throws.
     */
    method Comment(id: Id, comment: string) returns (r: Outcome)
      requires Valid()
      modifies this
      ensures Valid()
      ensures users == old(users) && nextId == old(nextId)
      ensures FindFirst(old(blogs), BlogWithId(id)).None? ==> r == Thrown && blogs == old(blogs)
      ensures FindFirst(old(blogs), BlogWithId(id)).Some? ==>
                var i := FindFirst(old(blogs), BlogWithId(id)).value;
                var updated := old(blogs)[i].(comments := old(blogs)[i].comments + [comment]);
                r == Reply(200, BlogJson(updated)) && blogs == old(blogs)[i := updated]
    {
      var found := FindFirst(blogs, BlogWithId(id));
      if found.None? {
        return Thrown;
      }
      var i := found.value;
      var updated := blogs[i].(comments := blogs[i].comments + [comment]);
      EditKeepsLinks(blogs, users, i, updated);
      blogs := blogs[i := updated];
      r := Reply(200, BlogJson(updated));
    }

    /**
     * PUT `/:id/like` as written: the update stores the value of `blog.likes++`,
     * which is the count before the increment, so the stored post is unchanged.
     * A missing post throws.
     */
    method Like(id: Id) returns (r: Outcome)
      requires Valid()
      modifies this
      ensures Valid()
      ensures blogs == old(blogs) && users == old(users) && nextId == old(nextId)
      ensures FindFirst(old(blogs), BlogWithId(id)).None? ==> r == Thrown
      ensures FindFirst(old(blogs), BlogWithId(id)).Some? ==>
                r == Reply(200, BlogJson(old(blogs)[FindFirst(old(blogs), BlogWithId(id)).value]))
    {
      var found := FindFirst(blogs, BlogWithId(id));
      if found.None? {
        return Thrown;
      }
      var i := found.value;
      var written := blogs[i].likes;  // the value of the post-increment expression
      var updated := blogs[i].(likes := written);
      EditKeepsLinks(blogs, users, i, updated);
      blogs := blogs[i := updated];
      r := Reply(200, BlogJson(updated));
    }

    /** PUT `/:id/like` as evidently intended: the stored count goes up by one. */
    method LikeIncrement(id: Id) returns (r: Outcome)
      requires Valid()
      modifies this
      ensures Valid()
      ensures users == old(users) && nextId == old(nextId)
      ensures FindFirst(old(blogs), BlogWithId(id)).None? ==> r == Thrown && blogs == old(blogs)
      ensures FindFirst(old(blogs), BlogWithId(id)).Some? ==>
                var i := FindFirst(old(blogs), BlogWithId(id)).value;
                var liked := old(blogs)[i].(likes := old(blogs)[i].likes + 1);
                r == Reply(200, BlogJson(liked)) && blogs == old(blogs)[i := liked]
    {
      var found := FindFirst(blogs, BlogWithId(id));
      if found.None? {
        return Thrown;
      }
      var i := found.value;
      var liked := blogs[i].(likes := blogs[i].likes + 1);
      EditKeepsLinks(blogs, users, i, liked);
      blogs := blogs[i := liked];
      r := Reply(200, BlogJson(liked));
    }

    /**
     * DELETE `/:id`: without token or user, 401; a missing post, 404; a post
     * of another user, 401. Otherwise (no owner, or the requester owns it) the
     * post is deleted and its id filtered out of the requester's list, and 204
     * answers; when the requester is not a stored user, the handler throws
     * after the post is already gone.
     */
    method Delete(credentials: Credentials, id: Id) returns (r: Outcome)
      requires Valid()
      modifies this
      ensures Valid()
      ensures nextId == old(nextId)
      ensures !Authenticated(credentials) ==>
                r == Reply(401, ErrorJson(TokenMissingError)) && unchanged(this)
      ensures Authenticated(credentials) && FindFirst(old(blogs), BlogWithId(id)).None? ==>
                r == Reply(404, ErrorJson(AlreadyDeletedError)) && unchanged(this)
      ensures Authenticated(credentials) && FindFirst(old(blogs), BlogWithId(id)).Some? ==>
                var k := FindFirst(old(blogs), BlogWithId(id)).value;
                var owner := old(blogs)[k].user;
                var requester := credentials.user.value;
                && (owner.Some? && owner.value != requester ==>
                      r == Reply(401, ErrorJson(InvalidUserTokenError)) && unchanged(this))
                && ((owner.None? || owner.value == requester) ==>
                      && blogs == old(blogs)[..k] + old(blogs)[k + 1..]
                      && (FindFirst(old(users), AccountWithId(requester)).None? ==>
                            r == Thrown && users == old(users))
                      && (FindFirst(old(users), AccountWithId(requester)).Some? ==>
                            var j := FindFirst(old(users), AccountWithId(requester)).value;
                            && r == Reply(204, NoBody)
                            && users == old(users)[j := old(users)[j].(blogPosts := WithoutPost(old(users)[j].blogPosts, id))]))
    {
      if !Authenticated(credentials) {
        return Reply(401, ErrorJson(TokenMissingError));
      }
      var requester := credentials.user.value;
      var found := FindFirst(blogs, BlogWithId(id));
      var user := FindFirst(users, AccountWithId(requester));
      if found.None? {
        return Reply(404, ErrorJson(AlreadyDeletedError));
      }
      var k := found.value;
      var post := blogs[k];
      if post.user.Some? && post.user.value != requester {
        return Reply(401, ErrorJson(InvalidUserTokenError));
      }
      DeleteKeepsLinks(blogs, users, k, requester);
      blogs := blogs[..k] + blogs[k + 1..];
      if user.None? {
        return Thrown;
      }
      var j := user.value;
      users := users[j := users[j].(blogPosts := WithoutPost(users[j].blogPosts, id))];
      r := Reply(204, NoBody);
    }
  }

  // ---------------------------------------------------------------------------
  // How each handler keeps the link between posts and users

  lemma OwnedByAfterInsert(blogs: seq<Blog>, b: Blog, uid: Id)
    ensures OwnedBy(blogs + [b], uid) == OwnedBy(blogs, uid) + (if b.user == Some(uid) then {b.id} else {})
  {
  }

  /** Saving a post with a fresh id under a stored user, and listing it there, keeps the link. */
  lemma PostKeepsLinks(blogs: seq<Blog>, users: seq<Account>, i: nat, b: Blog)
    requires DistinctAccountIds(users) && PostsListed(blogs, users)
    requires i < |users| && b.user == Some(users[i].id)
    requires forall x :: x in blogs ==> x.id != b.id
    ensures PostsListed(blogs + [b], users[i := users[i].(blogPosts := users[i].blogPosts + [b.id])])
    ensures DistinctAccountIds(users[i := users[i].(blogPosts := users[i].blogPosts + [b.id])])
    ensures AccountIds(users[i := users[i].(blogPosts := users[i].blogPosts + [b.id])]) == AccountIds(users)
  {
    var saved := users[i := users[i].(blogPosts := users[i].blogPosts + [b.id])];
    assert forall k :: 0 <= k < |saved| ==> saved[k].id == users[k].id;
    assert AccountIds(saved) == AccountIds(users) by {
      forall x ensures x in AccountIds(saved) <==> x in AccountIds(users) {
        if x in AccountIds(saved) {
          var u :| u in saved && u.id == x;
          var k :| 0 <= k < |saved| && saved[k] == u;
          assert users[k] in users;
        }
        if x in AccountIds(users) {
          var u :| u in users && u.id == x;
          var k :| 0 <= k < |users| && users[k] == u;
          assert saved[k] in saved;
        }
      }
    }
    forall u | u in saved ensures Listed(u) == OwnedBy(blogs + [b], u.id) {
      var k :| 0 <= k < |saved| && saved[k] == u;
      OwnedByAfterInsert(blogs, b, u.id);
      if k == i {
        assert Listed(u) == Listed(users[i]) + {b.id};
      } else {
        assert users[k] in users && users[k].id != users[i].id;
      }
    }
  }

  /** Changing a post but not its id or user keeps the link. */
  lemma EditKeepsLinks(blogs: seq<Blog>, users: seq<Account>, i: nat, b: Blog)
    requires i < |blogs| && b.id == blogs[i].id && b.user == blogs[i].user
    requires DistinctBlogIds(blogs) && PostsListed(blogs, users)
    ensures DistinctBlogIds(blogs[i := b]) && PostsListed(blogs[i := b], users)
    ensures forall x :: x in blogs[i := b] ==> x.id == b.id || x in blogs
  {
    var edited := blogs[i := b];
    forall uid: Id ensures OwnedBy(edited, uid) == OwnedBy(blogs, uid) {
      forall x ensures x in OwnedBy(edited, uid) <==> x in OwnedBy(blogs, uid) {
        if x in OwnedBy(edited, uid) {
          var c :| c in edited && c.user == Some(uid) && c.id == x;
          var k :| 0 <= k < |edited| && edited[k] == c;
          assert blogs[k] in blogs;
        }
        if x in OwnedBy(blogs, uid) {
          var c :| c in blogs && c.user == Some(uid) && c.id == x;
          var k :| 0 <= k < |blogs| && blogs[k] == c;
          assert edited[k] in edited;
        }
      }
    }
    forall c | c in edited && c.user.Some? ensures c.user.value in AccountIds(users) {
      var k :| 0 <= k < |edited| && edited[k] == c;
      assert blogs[k] in blogs;
    }
  }

  /** Removing the post at `k` removes exactly its id from every user's owned set. */
  lemma OwnedByAfterRemove(blogs: seq<Blog>, k: nat, uid: Id)
    requires k < |blogs| && DistinctBlogIds(blogs)
    ensures OwnedBy(blogs[..k] + blogs[k + 1..], uid) == OwnedBy(blogs, uid) - {blogs[k].id}
  {
    var rest := blogs[..k] + blogs[k + 1..];
    forall x | x in OwnedBy(rest, uid) ensures x in OwnedBy(blogs, uid) - {blogs[k].id} {
      RemovedStaysOwned(blogs, k, uid, x);
    }
    forall x | x in OwnedBy(blogs, uid) - {blogs[k].id} ensures x in OwnedBy(rest, uid) {
      KeptStaysOwned(blogs, k, uid, x);
    }
  }

  lemma RemovedStaysOwned(blogs: seq<Blog>, k: nat, uid: Id, x: Id)
    requires k < |blogs| && DistinctBlogIds(blogs)
    requires x in OwnedBy(blogs[..k] + blogs[k + 1..], uid)
    ensures x in OwnedBy(blogs, uid) && x != blogs[k].id
  {
    var rest := blogs[..k] + blogs[k + 1..];
    var c :| c in rest && c.user == Some(uid) && c.id == x;
    var m :| 0 <= m < |rest| && rest[m] == c;
    var n := if m < k then m else m + 1;
    assert blogs[n] == c;
    assert n != k;
  }

  lemma KeptStaysOwned(blogs: seq<Blog>, k: nat, uid: Id, x: Id)
    requires k < |blogs|
    requires x in OwnedBy(blogs, uid) && x != blogs[k].id
    ensures x in OwnedBy(blogs[..k] + blogs[k + 1..], uid)
  {
    var rest := blogs[..k] + blogs[k + 1..];
    var c :| c in blogs && c.user == Some(uid) && c.id == x;
    var m :| 0 <= m < |blogs| && blogs[m] == c;
    var n := if m < k then m else m - 1;
    assert rest[n] == c;
  }

  /** With unique ids, a post's id is owned by nobody but the post's own user. */
  lemma OwnedOnlyByItsUser(blogs: seq<Blog>, k: nat, uid: Id)
    requires k < |blogs| && DistinctBlogIds(blogs)
    requires blogs[k].user != Some(uid)
    ensures blogs[k].id !in OwnedBy(blogs, uid)
  {
    forall c | c in blogs && c.user == Some(uid) ensures c.id != blogs[k].id {
      var m :| 0 <= m < |blogs| && blogs[m] == c;
      assert m != k;
    }
  }

  /** Updating one user's list keeps every user id where it was. */
  lemma AccountIdsAfterListChange(users: seq<Account>, j: nat, posts: seq<Id>)
    requires j < |users|
    requires DistinctAccountIds(users)
    ensures DistinctAccountIds(users[j := users[j].(blogPosts := posts)])
    ensures AccountIds(users[j := users[j].(blogPosts := posts)]) == AccountIds(users)
  {
    var changed := users[j := users[j].(blogPosts := posts)];
    assert forall m :: 0 <= m < |changed| ==> changed[m].id == users[m].id;
    forall x ensures x in AccountIds(changed) <==> x in AccountIds(users) {
      if x in AccountIds(changed) {
        var u :| u in changed && u.id == x;
        var m :| 0 <= m < |changed| && changed[m] == u;
        assert users[m] in users;
      }
      if x in AccountIds(users) {
        var u :| u in users && u.id == x;
        var m :| 0 <= m < |users| && users[m] == u;
        assert changed[m] in changed;
      }
    }
  }

  /**
   * Deleting a post that has no owner or is owned by the requester, and
   * filtering its id out of the requester's list, keeps the link; a post with
   * no stored owner is listed nowhere.
   */
  lemma DeleteKeepsLinks(blogs: seq<Blog>, users: seq<Account>, k: nat, requester: Id)
    requires k < |blogs|
    requires blogs[k].user.None? || blogs[k].user == Some(requester)
    requires DistinctBlogIds(blogs) && DistinctAccountIds(users) && PostsListed(blogs, users)
    ensures var rest := blogs[..k] + blogs[k + 1..];
            && DistinctBlogIds(rest)
            && (forall b :: b in rest ==> b in blogs)
            && (FindFirst(users, AccountWithId(requester)).None? ==> PostsListed(rest, users))
            && (FindFirst(users, AccountWithId(requester)).Some? ==>
                  var j := FindFirst(users, AccountWithId(requester)).value;
                  PostsListed(rest, users[j := users[j].(blogPosts := WithoutPost(users[j].blogPosts, blogs[k].id))])
                  && DistinctAccountIds(users[j := users[j].(blogPosts := WithoutPost(users[j].blogPosts, blogs[k].id))]))
  {
    var id := blogs[k].id;
    var rest := blogs[..k] + blogs[k + 1..];
    assert forall m :: 0 <= m < |rest| ==> rest[m] == (if m < k then blogs[m] else blogs[m + 1]);
    assert DistinctBlogIds(rest);
    assert forall b :: b in rest ==> b in blogs;
    match FindFirst(users, AccountWithId(requester))
    case None =>
      forall u | u in users ensures Listed(u) == OwnedBy(rest, u.id) {
        OwnedByAfterRemove(blogs, k, u.id);
        OwnedOnlyByItsUser(blogs, k, u.id);
      }
    case Some(j) =>
      var filtered := users[j := users[j].(blogPosts := WithoutPost(users[j].blogPosts, id))];
      AccountIdsAfterListChange(users, j, WithoutPost(users[j].blogPosts, id));
      forall u | u in filtered ensures Listed(u) == OwnedBy(rest, u.id) {
        var m :| 0 <= m < |filtered| && filtered[m] == u;
        OwnedByAfterRemove(blogs, k, u.id);
        if m == j {
          assert Listed(u) == Listed(users[j]) - {id};
        } else {
          assert users[m] in users && users[m].id != requester;
          OwnedOnlyByItsUser(blogs, k, u.id);
        }
      }
  }

  // ---------------------------------------------------------------------------
  // The handlers against each other

  /** A post saved under a fresh id is then found by GET `/:id`. */
  lemma GetAfterPost(blogs: seq<Blog>, b: Blog)
    requires forall x :: x in blogs ==> x.id != b.id
    ensures GetBlog(blogs + [b], b.id) == Reply(200, BlogJson(b))
  {
    var after := blogs + [b];
    assert BlogWithId(b.id)(after[|blogs|]);
    assert forall j :: 0 <= j < |blogs| ==> after[j] == blogs[j];
    assert FindFirst(after, BlogWithId(b.id)) == Some(|blogs|);
  }

  /** With unique ids, a deleted post is answered 404 by GET `/:id`. */
  lemma GetAfterDelete(blogs: seq<Blog>, k: nat)
    requires k < |blogs| && DistinctBlogIds(blogs)
    ensures GetBlog(blogs[..k] + blogs[k + 1..], blogs[k].id) == Reply(404, NoBody)
  {
    var rest := blogs[..k] + blogs[k + 1..];
    forall x | x in rest ensures x.id != blogs[k].id {
      var m :| 0 <= m < |rest| && rest[m] == x;
      var n := if m < k then m else m + 1;
      assert blogs[n] == x && n != k;
    }
  }

  /**
   * The filter keeps the other ids in their order and with their repeats:
   * it works entry by entry, and a list the id is not in comes back whole.
   */
  lemma WithoutPostKeepsOrder(a: seq<Id>, b: seq<Id>, id: Id)
    ensures WithoutPost(a + b, id) == WithoutPost(a, id) + WithoutPost(b, id)
    ensures forall x :: WithoutPost([x], id) == if x == id then [] else [x]
    ensures id !in a ==> WithoutPost(a, id) == a
  {
    FindConcat(a, b, OtherThan(id));
    forall x ensures WithoutPost([x], id) == if x == id then [] else [x] {
      FindAfterInsert([], x, OtherThan(id));
      assert [] + [x] == [x];
    }
    if id !in a {
      FindEverything(a, OtherThan(id));
    }
  }

  /** Filtering out an id that was just appended to a list that lacked it gives the list back. */
  lemma WithoutPostUndoesAppend(posts: seq<Id>, id: Id)
    requires id !in posts
    ensures WithoutPost(posts + [id], id) == posts
  {
    WithoutPostKeepsOrder(posts, [id], id);
  }
}
