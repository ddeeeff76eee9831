/**
 * The two tables of the back end (backend/app/models.py) and the password
 * hashing context passlib provides.
 */
module Models {

  /** A row of `users`; `password` holds the bcrypt digest, never the secret. */
  datatype User = User(id: int, username: string, password: string, isAdmin: bool)

  /** A row of `books`. */
  datatype Book = Book(id: int, title: string, author: string, isBorrowed: bool)

  /**
   * passlib's `CryptContext(schemes=["bcrypt"])`, uninterpreted: `hash`
   * digests a secret with a salt bcrypt draws at random, and `verify` checks a
   * secret against a digest.
   */
  datatype CryptContext = CryptContext(hash: (string, nat) -> string, verify: (string, string) -> bool)

  /** The one fact the model relies on: a secret verifies against its own digest. */
  ghost predicate Sound(ctx: CryptContext)
  {
    forall secret, salt :: ctx.verify(secret, ctx.hash(secret, salt))
  }
}
