/** The `users` table's row: `id` is the integer primary key, `email` and
    `hashed_password` are required, `session_id` and `reset_token` may be
    null. */
module UserModel {
  import opened Wrappers

  /** A bcrypt hash: salted bytes, opaque to the model. */
  type Hash = seq<bv8>

  datatype User = User(
    id: int,
    email: string,
    hashedPassword: Hash,
    sessionId: Option<string>,
    resetToken: Option<string>)
}
