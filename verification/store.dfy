/**
 * The document store, passed explicitly to every handler: the `users` and
 * `recipes` collections as maps from document id to document.
 */
module Store {
  import opened UserModel
  import opened RecipeModel
  import opened Http

  datatype Store = Store(users: map<UserId, User>, recipes: map<RecipeId, Recipe>)

  /** What a handler produces: the response it sends and the store it leaves behind. */
  datatype Step = Step(response: Response, store: Store)

  /** The recipes whose owner is `u` (the query `Recipe.find({ user: u })`). */
  function OwnedBy(recipes: map<RecipeId, Recipe>, u: UserId): (owned: map<RecipeId, Recipe>)
    ensures owned.Keys <= recipes.Keys
    ensures forall id :: id in recipes ==> (id in owned <==> recipes[id].owner == u)
    ensures forall id :: id in owned ==> owned[id] == recipes[id] && owned[id].owner == u
  {
    map id | id in recipes && recipes[id].owner == u :: recipes[id]
  }

  /** Some user already has this email (the query `User.findOne({ email })` finds a document). */
  predicate EmailTaken(users: map<UserId, User>, email: string)
    ensures EmailTaken(users, email) <==> email in (set id | id in users :: users[id].email)
  {
    exists id :: id in users && users[id].email == email
  }

  /** No two accounts share an email. */
  predicate EmailsUnique(s: Store) {
    forall a, b :: a in s.users && b in s.users && s.users[a].email == s.users[b].email ==> a == b
  }

  /** Every recipe belongs to an existing account. */
  predicate OwnersRegistered(s: Store) {
    forall id :: id in s.recipes ==> s.recipes[id].owner in s.users
  }

  /** Every stored recipe satisfies the schema's required fields. */
  predicate RecipesWellFormed(s: Store) {
    forall id :: id in s.recipes ==> WellFormed(s.recipes[id])
  }

  /** The store invariant every handler preserves. */
  predicate Valid(s: Store) {
    OwnersRegistered(s) && RecipesWellFormed(s)
  }
}
