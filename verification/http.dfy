/** Request body fields and the responses the handlers send. */
module Http {
  import opened Optional
  import opened UserModel
  import opened RecipeModel

  /** A string field of a JSON request body: `None` when the client left it out. */
  type Field = Option<string>

  /** JavaScript truthiness of a string field: present and not the empty string. */
  predicate Truthy(f: Field) {
    f.Some? && f.value != ""
  }

  /** The value a validator sees: an absent field reads as the empty string. */
  function Value(f: Field): string {
    f.GetOr("")
  }

  /** A stored string after a partial update: replaced only by a truthy field. */
  function Overwrite(f: Field, current: string): string {
    if Truthy(f) then f.value else current
  }

  /** The JSON (or text) payload of a response. */
  datatype Json =
    | Token(holder: UserId)                       // `{token}`: a signed token naming the user
    | UserDoc(id: UserId, user: User)             // a user document, password hash included
    | Null                                        // `null`: a lookup that found nothing
    | RecipeDoc(id: RecipeId, recipe: Recipe)
    | RecipeDocs(recipes: map<RecipeId, Recipe>)  // the documents a query matched
    | Msg(msg: string)                            // `{msg}`
    | Errors(msgs: seq<string>)                   // `{errors: [{msg}, ...]}`
    | PlainText(text: string)                     // a bare string body

  /**
   * A response, or none at all: a handler that throws outside its
   * `try`/`catch` leaves the request unanswered.
   */
  datatype Response = Reply(status: int, body: Json) | NoReply

  const ServerError := Reply(500, PlainText("Server Error"))
}
