/**
 * The HTTP routes of the back end (backend/app/routes.py): the response
 * records, access-token creation, the lookups with their 404s, and the
 * register, login and create endpoints. Environment variables take their
 * defaults; the clock is a parameter counting seconds.
 */
module Routes {
  import opened Wrappers
  import opened Models
  import Crud

  /** A JSON value in a response body or a token's claims. */
  datatype Value = Int(i: int) | Str(s: string) | Bool(b: bool) | Time(seconds: int)

  /** A JSON object, such as a response dict or a token's claims. */
  type Json = map<string, Value>

  /** An `HTTPException`. */
  datatype HttpError = HttpError(statusCode: int, detail: string)

  /** `SECRET_KEY`, `ALGORITHM` and `ACCESS_TOKEN_EXPIRE_MINUTES` at their defaults. */
  const SecretKey: string := "secret"
  const Algorithm: string := "HS256"
  const AccessTokenExpireMinutes: nat := 15

  /**
   * A token as `jwt.encode` receives it: encoding is left uninterpreted and
   * the token is identified with its claims, key and algorithm.
   */
  datatype AccessToken = Jwt(claims: Json, key: string, algorithm: string)

  /** `{"access_token": ..., "token_type": ...}`. */
  datatype TokenResponse = TokenResponse(accessToken: AccessToken, tokenType: string)

  /** Request bodies. */
  datatype UserCreateRequest = UserCreateRequest(username: string, password: string, isAdmin: bool)
  datatype UserLoginRequest = UserLoginRequest(username: string, password: string)
  datatype BookCreate = BookCreate(title: string, author: string)

  // ---------------------------------------------------------------------------
  // Access tokens
  // ---------------------------------------------------------------------------

  /** Python truthiness of an optional `timedelta`: None and a zero delta are false. */
  predicate Truthy(delta: Option<int>)
  {
    delta.Some? && delta.value != 0
  }

  /**
   * `create_access_token(data, expires_delta)` at time `now`: a copy of
   * `data` with `exp` set, encoded with the key and algorithm. `data` itself
   * is a value and stays as it was.
   */
  function CreateAccessToken(data: Json, expiresDelta: Option<int>, now: int): (token: AccessToken)
    ensures token.key == SecretKey && token.algorithm == Algorithm
    ensures token.claims.Keys == data.Keys + {"exp"}
    ensures forall k :: k in data && k != "exp" ==> token.claims[k] == data[k]
    ensures Truthy(expiresDelta) ==> token.claims["exp"] == Time(now + expiresDelta.value)
    ensures !Truthy(expiresDelta) ==> token.claims["exp"] == Time(now + 15 * 60)
  {
    var toEncode := data;
    var expire := if Truthy(expiresDelta) then now + expiresDelta.value else now + 15 * 60;
    Jwt(toEncode["exp" := Time(expire)], SecretKey, Algorithm)
  }

  /** A zero delta is treated as no delta: the default 15 minutes apply. */
  lemma ZeroDeltaGetsDefault(data: Json, now: int)
    ensures CreateAccessToken(data, Some(0), now) == CreateAccessToken(data, None, now)
    ensures CreateAccessToken(data, None, now).claims["exp"] == Time(now + 900)
  {
  }

  /** The token register and login issue for `username`. */
  function SessionToken(username: string, now: int): (t: TokenResponse)
    ensures t.tokenType == "bearer"
    ensures t.accessToken.claims == map["sub" := Str(username), "exp" := Time(now + AccessTokenExpireMinutes * 60)]
  {
    var accessTokenExpires := AccessTokenExpireMinutes * 60;
    TokenResponse(CreateAccessToken(map["sub" := Str(username)], Some(accessTokenExpires), now), "bearer")
  }

  // ---------------------------------------------------------------------------
  // Response records and read-only routes
  // ---------------------------------------------------------------------------

  /** The dict `get_users` and `get_user` return for a user: no password. */
  function UserRecord(u: User): (r: Json)
    ensures r.Keys == {"id", "username", "is_admin"} && "password" !in r
    ensures r["id"] == Int(u.id) && r["username"] == Str(u.username) && r["is_admin"] == Bool(u.isAdmin)
  {
    map["id" := Int(u.id), "username" := Str(u.username), "is_admin" := Bool(u.isAdmin)]
  }

  /** The dict `get_books` and `get_book` return for a book. */
  function BookRecord(b: Book): (r: Json)
    ensures r.Keys == {"id", "title", "author", "is_borrowed"}
    ensures r["id"] == Int(b.id) && r["title"] == Str(b.title)
    ensures r["author"] == Str(b.author) && r["is_borrowed"] == Bool(b.isBorrowed)
  {
    map["id" := Int(b.id), "title" := Str(b.title), "author" := Str(b.author), "is_borrowed" := Bool(b.isBorrowed)]
  }

  /** `GET /users`: one record per stored user, in store order. */
  function GetUsers(users: seq<User>): (r: seq<Json>)
    ensures |r| == |users|
    ensures forall i :: 0 <= i < |users| ==> r[i] == UserRecord(users[i]) && "password" !in r[i]
  {
    var rows := Crud.GetUsers(users);
    seq(|rows|, i requires 0 <= i < |rows| => UserRecord(rows[i]))
  }

  /** `GET /books`: one record per stored book, in store order. */
  function GetBooks(books: seq<Book>): (r: seq<Json>)
    ensures |r| == |books|
    ensures forall i :: 0 <= i < |books| ==> r[i] == BookRecord(books[i])
  {
    var rows := Crud.GetBooks(books);
    seq(|rows|, i requires 0 <= i < |rows| => BookRecord(rows[i]))
  }

  /** `GET /users/{user_id}`: the user's record, or 404. */
  function GetUser(users: seq<User>, userId: int): (r: Result<Json, HttpError>)
    ensures r.Err? <==> forall u :: u in users ==> u.id != userId
    ensures r.Err? ==> r.error == HttpError(404, "User not found")
    ensures r.Ok? ==> exists u :: u in users && u.id == userId && r.value == UserRecord(u)
  {
    match Crud.GetUserById(users, userId)
    case None => Err(HttpError(404, "User not found"))
    case Some(user) => Ok(UserRecord(user))
  }

  /** `GET /books/{book_id}`: the book's record, or 404. */
  function GetBook(books: seq<Book>, bookId: int): (r: Result<Json, HttpError>)
    ensures r.Err? <==> forall b :: b in books ==> b.id != bookId
    ensures r.Err? ==> r.error == HttpError(404, "Book not found")
    ensures r.Ok? ==> exists b :: b in books && b.id == bookId && r.value == BookRecord(b)
  {
    match Crud.GetBookById(books, bookId)
    case None => Err(HttpError(404, "Book not found"))
    case Some(book) => Ok(BookRecord(book))
  }

  /**
   * `POST /login`: the same 401 whether the name is unknown or the password
   * does not verify against the first user of that name; otherwise a bearer
   * token for that name.
   */
  function Login(users: seq<User>, ctx: CryptContext, user: UserLoginRequest, now: int)
    : (r: Result<TokenResponse, HttpError>)
    ensures r.Err? ==> r.error == HttpError(401, "Invalid credentials")
    ensures r.Ok? <==> Crud.GetUserByName(users, user.username).Some?
                       && Crud.VerifyPassword(ctx, user.password, Crud.GetUserByName(users, user.username).value.password)
    ensures r.Ok? ==> r.value.tokenType == "bearer" && "sub" in r.value.accessToken.claims && r.value.accessToken.claims["sub"] == Str(user.username)
  {
    match Crud.GetUserByName(users, user.username)
    case None => Err(HttpError(401, "Invalid credentials"))
    case Some(dbUser) =>
      if !Crud.VerifyPassword(ctx, user.password, dbUser.password) then Err(HttpError(401, "Invalid credentials"))
      else Ok(SessionToken(dbUser.username, now))
  }

  // ---------------------------------------------------------------------------
  // Routes that write
  // ---------------------------------------------------------------------------

  /** The dict `POST /users` returns: the username under the key "name". */
  function CreatedUserRecord(u: User): (r: Json)
    ensures r.Keys == {"id", "name", "is_admin"} && "username" !in r && "password" !in r
    ensures r["name"] == Str(u.username)
  {
    map["id" := Int(u.id), "name" := Str(u.username), "is_admin" := Bool(u.isAdmin)]
  }

  /** `POST /books`: creates a book that is not borrowed. */
  method CreateBook(db: Crud.Database, book: BookCreate) returns (response: Book)
    requires db.Valid()
    modifies db
    ensures db.Valid()
    ensures response == Book(old(db.nextBookId), book.title, book.author, false)
    ensures db.books == old(db.books) + [response] && db.users == old(db.users)
  {
    response := db.CreateBook(book.title, book.author, false);
  }

  /** `POST /users`: creates a user with no duplicate check. */
  method CreateUser(db: Crud.Database, ctx: CryptContext, user: UserCreateRequest, salt: nat)
    returns (response: Json)
    requires db.Valid()
    modifies db
    ensures db.Valid()
    ensures db.users == old(db.users) + [User(old(db.nextUserId), user.username, ctx.hash(user.password, salt), user.isAdmin)]
    ensures db.books == old(db.books)
    ensures response == CreatedUserRecord(db.users[|db.users| - 1])
  {
    var dbUser := db.CreateUser(ctx, user.username, user.password, user.isAdmin, salt);
    response := CreatedUserRecord(dbUser);
  }

  /**
   * `POST /register`: 400 when the username is taken, creating nothing;
   * otherwise creates the user and returns a bearer token for that name.
   */
  method Register(db: Crud.Database, ctx: CryptContext, user: UserCreateRequest, salt: nat, now: int)
    returns (r: Result<TokenResponse, HttpError>)
    requires db.Valid()
    modifies db
    ensures db.Valid() && db.books == old(db.books)
    ensures (exists u :: u in old(db.users) && u.username == user.username)
            ==> r == Err(HttpError(400, "User already registered")) && db.users == old(db.users)
    ensures (forall u :: u in old(db.users) ==> u.username != user.username)
            ==> && db.users == old(db.users) + [User(old(db.nextUserId), user.username, ctx.hash(user.password, salt), user.isAdmin)]
                && r == Ok(SessionToken(user.username, now))
  {
    var existing := Crud.GetUserByName(db.users, user.username);
    if existing.Some? {
      return Err(HttpError(400, "User already registered"));
    }
    var dbUser := db.CreateUser(ctx, user.username, user.password, user.isAdmin, salt);
    r := Ok(SessionToken(dbUser.username, now));
  }

  // ---------------------------------------------------------------------------
  // Properties across routes
  // ---------------------------------------------------------------------------

  /**
   * Whoever registers can log in: once a fresh username is stored with the
   * digest of its password, login with that password succeeds.
   */
  lemma LoginAfterRegister(users: seq<User>, ctx: CryptContext, user: UserCreateRequest, id: int, salt: nat, now: int)
    requires Sound(ctx)
    requires forall u :: u in users ==> u.username != user.username
    ensures Login(users + [User(id, user.username, ctx.hash(user.password, salt), user.isAdmin)], ctx,
                  UserLoginRequest(user.username, user.password), now)
            == Ok(SessionToken(user.username, now))
  {
    Crud.UserByNameAfterAppend(users, User(id, user.username, ctx.hash(user.password, salt), user.isAdmin));
  }

  /**
   * `POST /users` may store a name that is already taken, and the new row is
   * then unreachable by login: the password checked is always the first
   * user's.
   */
  lemma DuplicateUserCannotLogIn(users: seq<User>, ctx: CryptContext, later: User, password: string, now: int)
    requires Crud.GetUserByName(users, later.username).Some?
    requires !Crud.VerifyPassword(ctx, password, Crud.GetUserByName(users, later.username).value.password)
    ensures Login(users + [later], ctx, UserLoginRequest(later.username, password), now)
            == Err(HttpError(401, "Invalid credentials"))
  {
    Crud.UserByNameShadows(users, [later], later.username);
  }
}
