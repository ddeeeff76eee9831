/**
 * The CRUD layer (backend/app/crud.py) over an in-memory database: each
 * table is a sequence of rows in store order, and the ids the database
 * assigns come from a counter per table.
 */
module Crud {
  import opened Wrappers
  import opened Models

  /** Index of the first row satisfying `p`: `query(...).filter(...).first()`. */
  function FirstWhere<T>(rows: seq<T>, p: T -> bool): (r: Option<nat>)
    ensures r.Some? ==> r.value < |rows| && p(rows[r.value])
    ensures r.Some? ==> forall j :: 0 <= j < r.value ==> !p(rows[j])
    ensures r.None? <==> forall j :: 0 <= j < |rows| ==> !p(rows[j])
  {
    if rows == [] then None
    else if p(rows[0]) then Some(0)
    else match FirstWhere(rows[1..], p)
      case None => None
      case Some(k) => Some(k + 1)
  }

  /** No two rows share an id (the `primary_key` columns). */
  predicate UniqueUserIds(users: seq<User>)
  {
    forall i, j :: 0 <= i < j < |users| ==> users[i].id != users[j].id
  }

  predicate UniqueBookIds(books: seq<Book>)
  {
    forall i, j :: 0 <= i < j < |books| ==> books[i].id != books[j].id
  }

  /** `get_users`: every row, in store order. */
  function GetUsers(users: seq<User>): (r: seq<User>)
    ensures |r| == |users| && forall i :: 0 <= i < |users| ==> r[i] == users[i]
  {
    users
  }

  /** `get_books`: every row, in store order. */
  function GetBooks(books: seq<Book>): (r: seq<Book>)
    ensures |r| == |books| && forall i :: 0 <= i < |books| ==> r[i] == books[i]
  {
    books
  }

  /** `get_user_by_id`: the first user with that id, or None. */
  function GetUserById(users: seq<User>, userId: int): (r: Option<User>)
    ensures r.None? <==> forall u :: u in users ==> u.id != userId
    ensures r.Some? ==> exists i :: 0 <= i < |users| && users[i] == r.value && r.value.id == userId
                                  && forall j :: 0 <= j < i ==> users[j].id != userId
  {
    match FirstWhere(users, (u: User) => u.id == userId)
    case None => None
    case Some(i) => Some(users[i])
  }

  /** `get_book_by_id`: the first book with that id, or None. */
  function GetBookById(books: seq<Book>, bookId: int): (r: Option<Book>)
    ensures r.None? <==> forall b :: b in books ==> b.id != bookId
    ensures r.Some? ==> exists i :: 0 <= i < |books| && books[i] == r.value && r.value.id == bookId
                                  && forall j :: 0 <= j < i ==> books[j].id != bookId
  {
    match FirstWhere(books, (b: Book) => b.id == bookId)
    case None => None
    case Some(i) => Some(books[i])
  }

  /** `get_user_by_name`: the first user with that username, or None. */
  function GetUserByName(users: seq<User>, name: string): (r: Option<User>)
    ensures r.None? <==> forall u :: u in users ==> u.username != name
    ensures r.Some? ==> exists i :: 0 <= i < |users| && users[i] == r.value && r.value.username == name
                                  && forall j :: 0 <= j < i ==> users[j].username != name
  {
    match FirstWhere(users, (u: User) => u.username == name)
    case None => None
    case Some(i) => Some(users[i])
  }

  /** With unique ids, the lookup by id finds the one row holding that id. */
  lemma UserByIdIsUnique(users: seq<User>, i: nat)
    requires UniqueUserIds(users) && i < |users|
    ensures GetUserById(users, users[i].id) == Some(users[i])
  {
  }

  lemma BookByIdIsUnique(books: seq<Book>, i: nat)
    requires UniqueBookIds(books) && i < |books|
    ensures GetBookById(books, books[i].id) == Some(books[i])
  {
  }

  /**
   * A username held by no stored row is found, after one row with it is
   * appended, in that new row.
   */
  lemma UserByNameAfterAppend(users: seq<User>, row: User)
    requires forall u :: u in users ==> u.username != row.username
    ensures GetUserByName(users + [row], row.username) == Some(row)
  {
  }

  /**
   * Usernames are not unique: once a name is stored, rows appended later
   * with the same name are never found by the lookup.
   */
  lemma UserByNameShadows(users: seq<User>, later: seq<User>, name: string)
    requires GetUserByName(users, name).Some?
    ensures GetUserByName(users + later, name) == GetUserByName(users, name)
  {
    var all := users + later;
    var first := GetUserByName(users, name).value;
    var i :| 0 <= i < |users| && users[i] == first && first.username == name
             && forall j :: 0 <= j < i ==> users[j].username != name;
    assert all[i] == first;
  }

  /** `verify_password`: delegated to the hash context. */
  function VerifyPassword(ctx: CryptContext, plainPassword: string, hashedPassword: string): (ok: bool)
    ensures Sound(ctx) && (exists salt: nat :: hashedPassword == ctx.hash(plainPassword, salt)) ==> ok
  {
    ctx.verify(plainPassword, hashedPassword)
  }

  /** The database session: both tables and the next id of each. */
  class Database {
    var users: seq<User>
    var books: seq<Book>
    var nextUserId: int
    var nextBookId: int

    /** Ids are unique and below the next id to assign, which is positive. */
    ghost predicate Valid()
      reads this
    {
      && 1 <= nextUserId && 1 <= nextBookId
      && UniqueUserIds(users) && UniqueBookIds(books)
      && (forall i :: 0 <= i < |users| ==> 1 <= users[i].id < nextUserId)
      && (forall i :: 0 <= i < |books| ==> 1 <= books[i].id < nextBookId)
    }

    /** An empty database. */
    constructor ()
      ensures Valid() && users == [] && books == []
    {
      users, books := [], [];
      nextUserId, nextBookId := 1, 1;
    }

    /** `create_book`: adds one row, with the next id, and returns it. */
    method CreateBook(title: string, author: string, isBorrowed: bool) returns (row: Book)
      requires Valid()
      modifies this
      ensures Valid()
      ensures row == Book(old(nextBookId), title, author, isBorrowed)
      ensures forall b :: b in old(books) ==> b.id != row.id
      ensures books == old(books) + [row]
      ensures users == old(users) && nextUserId == old(nextUserId)
    {
      row := Book(nextBookId, title, author, isBorrowed);
      books := books + [row];
      nextBookId := nextBookId + 1;
    }

    /**
     * `create_user`: adds one row holding the digest of the password, with
     * the next id, and returns it. No check on the username.
     */
    method CreateUser(ctx: CryptContext, username: string, password: string, isAdmin: bool, salt: nat)
      returns (row: User)
      requires Valid()
      modifies this
      ensures Valid()
      ensures row == User(old(nextUserId), username, ctx.hash(password, salt), isAdmin)
      ensures forall u :: u in old(users) ==> u.id != row.id
      ensures users == old(users) + [row]
      ensures books == old(books) && nextBookId == old(nextBookId)
    {
      var hashedPassword := ctx.hash(password, salt);
      row := User(nextUserId, username, hashedPassword, isAdmin);
      users := users + [row];
      nextUserId := nextUserId + 1;
    }
  }
}
