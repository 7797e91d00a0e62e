/**
 * The per-request context of the library server: the `Authorization` header
 * is checked for a `bearer ` scheme, its token verified, and the user it names
 * looked up. Token verification is a parameter: the signing scheme is not
 * modelled.
 */
module LibraryContext {
  import opened Wrappers
  import opened StoreAdapter
  import opened LibraryModel

  /** The claims a token carries once verified. */
  datatype Claims = Claims(username: string, id: Id)

  /** The context handed to every resolver; an absent user means an anonymous request. */
  datatype Context = Context(loggedUser: Option<User>)

  /** The scheme prefix, compared after lower-casing the header. */
  const BearerPrefix: string := "bearer "

  /** Lower-case one character (ASCII letters only; no other character lower-cases to one of "bearer "). */
  function LowerChar(c: char): char
  {
    if 'A' <= c <= 'Z' then (c as int + 32) as char else c
  }

  /** `String.prototype.toLowerCase`, character by character. */
  function ToLower(s: string): (r: string)
    ensures |r| == |s|
    ensures forall i :: 0 <= i < |s| ==> r[i] == LowerChar(s[i])
  {
    if s == [] then [] else [LowerChar(s[0])] + ToLower(s[1..])
  }

  /**
   * `auth.toLowerCase().startsWith('bearer ')`: only the first seven
   * characters decide, whatever their case.
   */
  predicate IsBearer(header: string)
    ensures IsBearer(header) <==>
              |header| >= 7 && forall i :: 0 <= i < 7 ==> LowerChar(header[i]) == BearerPrefix[i]
  {
    var lowered := ToLower(header);
    assert |header| >= 7 && (forall i :: 0 <= i < 7 ==> LowerChar(header[i]) == BearerPrefix[i]) ==>
             lowered[..7] == BearerPrefix;
    BearerPrefix <= lowered
  }

  /** `auth.substring(7)`: the header without its first seven characters. */
  function TokenOf(header: string): (token: string)
    ensures |header| >= 7 ==> header == header[..7] + token
    ensures |header| < 7 ==> token == ""
  {
    if |header| <= 7 then "" else header[7..]
  }

  /** `User.findOne(filter)`: the first stored user the filter matches. */
  function FindUser(users: seq<User>, matches: User -> bool): (r: Option<User>)
    ensures r.Some? ==> r.value in users && matches(r.value)
    ensures r.None? <==> forall u :: u in users ==> !matches(u)
  {
    match FindFirst(users, matches)
    case None => None
    case Some(i) => Some(users[i])
  }

  /** The filter `{ _id: id }`. */
  function UserWithId(id: Id): User -> bool
  {
    (u: User) => u.id == id
  }

  /** The filter `{ username }`. */
  function UserNamed(username: string): User -> bool
  {
    (u: User) => u.username == username
  }

  /** `User.findById(id)`. */
  function FindUserById(users: seq<User>, id: Id): Option<User>
  {
    FindUser(users, UserWithId(id))
  }

  /**
   * The context function: without a bearer header the request is anonymous;
   * with one, a token that fails verification throws, and a verified token
   * yields the user its id names, or none when no user has that id.
   */
  function BuildContext(header: Option<string>, users: seq<User>, verify: string -> Option<Claims>)
    : (r: Result<Context, LibraryError>)
    ensures (header.None? || !IsBearer(header.value)) ==> r == Success(Context(None))
    ensures r.Failure? <==> header.Some? && IsBearer(header.value) && verify(TokenOf(header.value)).None?
    ensures r.Failure? ==> r.error == InvalidToken
    ensures r.Success? && header.Some? && IsBearer(header.value) ==>
              r.value.loggedUser == FindUserById(users, verify(TokenOf(header.value)).value.id)
    ensures r.Success? && r.value.loggedUser.Some? ==>
              && header.Some? && IsBearer(header.value)
              && verify(TokenOf(header.value)).Some?
              && r.value.loggedUser.value in users
              && r.value.loggedUser.value.id == verify(TokenOf(header.value)).value.id
  {
    if header.Some? && header.value != "" && IsBearer(header.value) then
      match verify(TokenOf(header.value))
      case None => Failure(InvalidToken)
      case Some(claims) => Success(Context(FindUserById(users, claims.id)))
    else
      Success(Context(None))
  }

  /** `Query.me`: the context's user, as it is. */
  function Me(context: Context): Option<User>
  {
    context.loggedUser
  }

  /** Any seven-character scheme that lower-cases to `bearer ` is accepted and its token comes back whole. */
  lemma SchemeAccepted(scheme: string, token: string)
    requires |scheme| == 7 && forall i :: 0 <= i < 7 ==> LowerChar(scheme[i]) == BearerPrefix[i]
    ensures IsBearer(scheme + token) && TokenOf(scheme + token) == token
  {
    var header := scheme + token;
    assert forall i :: 0 <= i < 7 ==> header[i] == scheme[i];
    assert header[7..] == token;
  }

  /** A header of the shape `bearer <token>` is accepted, and the token it carries comes back whole. */
  lemma BearerHeaderRoundTrip(token: string)
    ensures IsBearer(BearerPrefix + token)
    ensures TokenOf(BearerPrefix + token) == token
  {
    SchemeAccepted(BearerPrefix, token);
  }

  /** The scheme may be written in any case: `Bearer ` and `BEARER ` are accepted too. */
  lemma CapitalisedBearerAccepted(token: string)
    ensures IsBearer("Bearer " + token) && TokenOf("Bearer " + token) == token
    ensures IsBearer("BEARER " + token) && TokenOf("BEARER " + token) == token
  {
    SchemeAccepted("Bearer ", token);
    SchemeAccepted("BEARER ", token);
  }

  /** Another scheme leaves the request anonymous. */
  lemma BasicSchemeIsAnonymous(credentials: string, users: seq<User>, verify: string -> Option<Claims>)
    ensures BuildContext(Some("Basic " + credentials), users, verify) == Success(Context(None))
  {
    assert LowerChar(("Basic " + credentials)[1]) != BearerPrefix[1];
  }

  /**
   * `me` answers the user whose id a verified bearer token carries, whatever
   * the case of the scheme, and answers nothing when that id names no user.
   */
  lemma MeIsTokenUser(header: string, users: seq<User>, verify: string -> Option<Claims>)
    requires IsBearer(header) && verify(TokenOf(header)).Some?
    ensures BuildContext(Some(header), users, verify).Success?
    ensures Me(BuildContext(Some(header), users, verify).value)
              == FindUserById(users, verify(TokenOf(header)).value.id)
  {
  }

  /** `me` answers nothing for a request without a bearer header. */
  lemma MeIsAnonymousWithoutBearer(header: Option<string>, users: seq<User>, verify: string -> Option<Claims>)
    requires header.None? || !IsBearer(header.value)
    ensures Me(BuildContext(header, users, verify).value).None?
  {
  }
}
