/**
 * The stored user account. The user schema itself lives in models/User.js,
 * which is not part of this model; the fields are the ones the user routes
 * read and write.
 */
module UserModel {

  /** Document ids are opaque; naturals stand in for MongoDB ObjectIds. */
  type UserId = nat

  /** An account. `password` holds the bcrypt hash of the password, never the plaintext. */
  datatype User = User(name: string, email: string, password: string)
}
