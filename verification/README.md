# CookBook backend: a verified model of the request handlers

CookBook is a small REST backend that stores user accounts and, for each
user, a collection of recipes. This project models its request handlers
(`routes/api/recipes.js`, `routes/api/users.js`) and its recipe document
(`models/Recipe.js`) as a pure state machine. The document store is a value
of two maps, user id to `User` and recipe id to `Recipe`. Each handler is a
function from the store, the authenticated caller and the request body to a
`Step`: the response it sends and the store it leaves behind.

Modules, leaf first:

- `Optional` (`optional.dfy`): `Option`, used for optional document fields and absent body fields.
- `Text` (`text.dfy`): JavaScript's `split` with a one-character separator, `join` and `trim`, as recursive string functions, with their round trips and a characterisation of `trim`.
- `UserModel`, `RecipeModel` (`user_model.dfy`, `recipe_model.dfy`): the account and recipe documents. `prepTime` and `cookTime` are `Option<string>`.
- `Http` (`http.dfy`): body fields (`Option<string>`), JavaScript truthiness of a field, and responses. `NoReply` stands for a handler that throws outside its `try` and never answers.
- `Store` (`store.dfy`): the store, the `Step` result, the owner query, and the store invariants: every recipe's owner has an account, every recipe has its required fields, and email uniqueness (stated, but not kept by the profile update).
- `RecipeRoutes`, `UserRoutes` (`recipe_routes.dfy`, `user_routes.dfy`): one function per route, and the lemmas that relate routes to each other and to the invariants.

Library calls become parameters. The bcrypt hash of a password is a function
`hash: string -> string`; the salt drawn for a call is folded into the function
passed to that call. The validator's `isEmail` is a predicate
`isEmail: string -> bool`. The fresh document id that MongoDB assigns on
insert is a parameter `newId`, required to be unused in its collection.

Behaviour of the handlers that is easy to misread, which the model follows:

- A recipe update overwrites a field when the body's value is truthy, not merely present. An empty string leaves the stored value alone.
- At update time `ingredients` and `instructions` are not split. A string is stored as a one-element list, which is what Mongoose's cast of a scalar to a `[String]` path produces.
- Listing recipes when the caller has none answers 404 naming the caller only if the caller's account still exists. Otherwise it reads `name` of `null` inside the `try` and answers 500.
- Creating a recipe for a caller whose account is gone answers 500 (`user.id` of `null`).
- Updating a recipe with an unknown id, or the profile of a caller without an account, throws outside any `try`: no response is sent and nothing changes.
- The profile fetch answers `null` with status 200 when the caller's account is gone.
- Email uniqueness holds after registration but not after a profile update, which does not check it (`UserRoutes.UpdateMayDuplicateEmail`).

## Model

| member | source | states |
|---|---|---|
| `Text.Trim` | routes/api/recipes.js:38 | the trimmed string has no whitespace at either end and is no longer than the input |
| `Text.TrimRemovesOnlyWhitespace` | routes/api/recipes.js:38 | every string is its trimmed form with all-whitespace padding on each side |
| `Text.TrimUnique` | routes/api/recipes.js:38 | whenever a string is whitespace + a trimmed middle + whitespace, trimming yields exactly that middle |
| `Text.TrimIdempotent` | routes/api/recipes.js:43 | trimming an already trimmed string changes nothing |
| `Text.Split` | routes/api/recipes.js:37 | splitting on a separator gives at least one piece, and no piece contains the separator |
| `Text.SplitCount` | routes/api/recipes.js:42 | a split has exactly one more piece than the string has separators |
| `Text.JoinSplit` | routes/api/recipes.js:37 | joining the pieces of a split with the separator restores the input |
| `Text.SplitJoin` | routes/api/recipes.js:42 | splitting the join of one or more separator-free pieces restores the pieces |
| `RecipeRoutes.CommaList` | routes/api/recipes.js:35-44 | the list stored for a comma-separated string has one item per comma plus one, in order, each the trimmed piece, none with outer whitespace or a comma |
| `RecipeRoutes.CommaListRecovers` | routes/api/recipes.js:36-38 | trimmed comma-free items written with any whitespace around them and joined by commas are recovered exactly |
| `RecipeRoutes.CommaListExample` | routes/api/recipes.js:36-38 | `"a, b, c"` is stored as `["a", "b", "c"]` |
| `RecipeRoutes.CommaListKeepsEmptyItems` | routes/api/recipes.js:41-43 | empty and blank items are kept as empty strings, not filtered out |
| `RecipeRoutes.CreateErrors` | routes/api/recipes.js:14-22 | the create validation passes iff name, ingredients and instructions are all present and non-empty; there is exactly one message per failing field, in the order name, ingredients, instructions |
| `RecipeRoutes.Provided` | routes/api/recipes.js:45-46 | an optional time is stored iff the body's value is truthy, and then it is that value |
| `RecipeRoutes.TimesObject` | routes/api/recipes.js:45-46 | `timesObj` has a key only for `prepTime` and `cookTime`, each present iff its body field is truthy and then holding that value |
| `RecipeRoutes.BranchedRecipe` | routes/api/recipes.js:48-111 | whichever of the four branches runs, the document has the caller as owner and the given name and lists, and each time is read from `timesObj` exactly when its key is there |
| `RecipeRoutes.TimeBranchesAgree` | routes/api/recipes.js:45-111 | the four branches on `timesObj` build the same document as one builder that sets exactly the provided optional times |
| `RecipeRoutes.CreateRecipe` | routes/api/recipes.js:23-117 | invalid bodies get 400 with the messages and the store unchanged; a caller without an account gets 500; otherwise exactly one recipe is added, owned by the caller, with split and trimmed lists, times set iff supplied, and all other documents unchanged |
| `RecipeRoutes.UpdateRecipe` | routes/api/recipes.js:123-136 | each truthy body field, and only those, replaces the stored one; lists are stored as given without splitting; owner, other recipes and users are unchanged; an unknown id gets no reply and no change |
| `RecipeRoutes.ListRecipes` | routes/api/recipes.js:141-157 | the list is exactly the caller's recipes; 200 iff there is at least one; otherwise 404 naming the caller, or 500 when the caller has no account; the store is unchanged |
| `RecipeRoutes.DeleteRecipe` | routes/api/recipes.js:162-178 | only the recipe with the given id is removed, whoever calls; the reply is the same whether it existed or not |
| `RecipeRoutes.NoOwnershipCheck` | routes/api/recipes.js:123-170 | update and delete by id give the same result for every caller |
| `RecipeRoutes.ListAfterCreate` | routes/api/recipes.js:144-149 | a caller with no recipes gets 404; after one successful create the list is exactly that recipe |
| `RecipeRoutes.RecipeRoutesPreserveValid` | models/Recipe.js:9-20 | every recipe route keeps each recipe's required fields filled and each owner registered |
| `Store.OwnedBy` | routes/api/recipes.js:144 | the query for a user's recipes matches exactly the stored recipes whose owner is that user, with their stored contents; the account deletion at routes/api/users.js:138 uses the same query |
| `Store.EmailTaken` | routes/api/users.js:37 | the lookup by email finds an account iff the email is among the stored accounts' emails |
| `UserRoutes.RegisterErrors` | routes/api/users.js:17-31 | registration validation passes iff the name is non-empty, the email passes `isEmail` and the password has at least 6 characters; there is exactly one message per failing check, in the order name, email, password |
| `UserRoutes.Register` | routes/api/users.js:25-74 | an invalid body or a taken email gets 400 and no change; otherwise exactly one account is added with the given name and email and the hash of the password, and the reply is a token for it |
| `UserRoutes.RegisterTwiceFails` | routes/api/users.js:37-42 | after a successful registration, registering the same email again gets 400 and changes nothing, with "User already exists" when the second body is valid |
| `UserRoutes.RegisterKeepsEmailsUnique` | routes/api/users.js:37-53 | registration preserves email uniqueness |
| `UserRoutes.Profile` | routes/api/users.js:80-91 | the profile is the caller's stored account including the password hash, or `null` when it is gone; the store is unchanged |
| `UserRoutes.ProfileAfterRegister` | routes/api/users.js:84-85 | right after registering, the profile of the new account is the submitted name and email with the password hash |
| `UserRoutes.UpdateUser` | routes/api/users.js:96-129 | the caller's own account is updated: name, email and password change only when truthy, the password to its hash; other accounts and recipes are unchanged; a caller without an account gets no reply |
| `UserRoutes.UpdateIgnoresPathId` | routes/api/users.js:103-113 | the `:id` path parameter does not affect the outcome |
| `UserRoutes.UpdateMayDuplicateEmail` | routes/api/users.js:117-118 | a profile update can give two accounts the same email |
| `UserRoutes.DeleteAccount` | routes/api/users.js:134-151 | the caller's account and exactly the caller's recipes are removed, everything else is unchanged, and the message is the same whether or not there were recipes |
| `UserRoutes.DeleteAccountCascades` | routes/api/users.js:136-144 | after deletion no recipe is owned by the deleted caller, and listing for that caller answers 500 |
| `UserRoutes.UserRoutesPreserveValid` | routes/api/users.js:134-151 | every user route, the cascading delete included, keeps each recipe's owner registered and its required fields filled |

## Left out

- The token middleware and token signing: the caller id of a private route is taken as already authenticated. The 401 answers, the secret and the expiry are not modelled, and a successful registration answers `Token(id)` for the token that names `id`.
- A failure of the token-signing callback, and the token's fixed lifetime, are not modelled.
- bcrypt is a function parameter. Salting makes the real hash non-deterministic; each call receives its own function.
- `isEmail` is a predicate parameter. The validator's checks also read query, params, cookies and headers; only the body is modelled.
- Request bodies whose fields are not strings (numbers, arrays, objects) are excluded by typing: every body field is an optional string. This drops the create path where `ingredients` is not a string and the save is rejected.
- Store failures and the 500 "Server Error" catch paths they lead to, and ObjectId cast errors answering 404 "Recipe(s) not found": ids are abstract and the store never fails.
- Asynchrony and concurrent requests: each handler is one atomic step.
- Response documents are modelled by their fields. The `_id` and `__v` keys and the `param`/`location`/`value` parts of a validation error are omitted, and only the messages are kept.
- The list answer is a map from id to recipe; the order in which the store returns documents is not modelled.
- models/User.js is not part of this model. Any unique index or required-field validation it declares is absent.
- `RecipeModel.Recipe`: the schema leaves the `user` reference optional, but every write path sets it, so the model makes the owner mandatory.
- `RecipeModel.WellFormed`: requires non-empty ingredient and instruction lists. Whether Mongoose's `required` rejects an empty array depends on its version; the handlers never produce one.
- `UserRoutes.Register`: an absent email is looked up and stored as the empty string. The real `isEmail` never accepts the empty string, so this path is unreachable in practice.
- `UserRoutes.RegisterErrors`: password length is counted in Unicode scalar values. Recent validator versions also discount variation selectors.
- `Text.IsWhitespace`: follows the current ECMAScript whitespace and line-terminator set. Older engines also trimmed U+180E.
- `Http.PlainText`: stands for both a JSON string body (`res.json("Recipe Deleted")`) and a plain-text body (`res.send("Server Error")`). The content type is not modelled.
- `NoReply`: assumes the process survives the unhandled rejection. Under Express 4 the rejected promise of an async handler is unhandled, and on Node 15 or later that ends the process, so later requests would get no answer either.
- `server.js` bootstrap, the `GET /` liveness route and request logging.
