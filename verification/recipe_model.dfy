/** The recipe document of models/Recipe.js. */
module RecipeModel {
  import opened Optional
  import opened UserModel

  type RecipeId = nat

  /**
   * A stored recipe. `name`, `ingredients` and `instructions` are required by
   * the schema; `prepTime` and `cookTime` are optional and are `None` when the
   * document does not carry them. `owner` is the schema's `user` reference.
   */
  datatype Recipe = Recipe(
    owner: UserId,
    name: string,
    ingredients: seq<string>,
    instructions: seq<string>,
    prepTime: Option<string>,
    cookTime: Option<string>
  )

  /**
   * The required fields hold values the schema's `required` validator
   * accepts: a non-empty name and non-empty ingredient and instruction lists.
   */
  predicate WellFormed(r: Recipe) {
    r.name != "" && |r.ingredients| > 0 && |r.instructions| > 0
  }
}
