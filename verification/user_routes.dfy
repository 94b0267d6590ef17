/**
 * The user routes of routes/api/users.js. The caller of a private route is
 * the id the token middleware has already authenticated; it need not name
 * an account that still exists. Password hashing and email-format checking
 * are library calls and are passed in as functions.
 */
module UserRoutes {
  import opened Optional
  import opened UserModel
  import opened RecipeModel
  import opened Http
  import opened Store
  import RecipeRoutes

  /** The request body of `POST /api/users` and `PUT /api/users/update/:id`. */
  datatype UserBody = UserBody(name: Field, email: Field, password: Field)

  const NameRequired := "Name is required"
  const EmailInvalid := "Please include a valid email"
  const PasswordTooShort := "Please enter a password with 6 or more characters"
  const UserExists := "User already exists"
  const MinPasswordLength := 6
  const AccountDeleted := "User and Recipes Deleted"

  /**
   * The validation chain of `POST /api/users`: a non-empty name, an email the
   * `isEmail` check accepts, and a password of at least six characters, one
   * message per failed check in the order the checks are listed.
   */
  function RegisterErrors(b: UserBody, isEmail: string -> bool): (errs: seq<string>)
    ensures errs == [] <==>
      Truthy(b.name) && isEmail(Value(b.email)) && |Value(b.password)| >= MinPasswordLength
    ensures NameRequired in errs <==> !Truthy(b.name)
    ensures EmailInvalid in errs <==> !isEmail(Value(b.email))
    ensures PasswordTooShort in errs <==> |Value(b.password)| < MinPasswordLength
    ensures UserExists !in errs
    ensures |errs| == (if Truthy(b.name) then 0 else 1) + (if isEmail(Value(b.email)) then 0 else 1)
                      + (if |Value(b.password)| >= MinPasswordLength then 0 else 1)
    ensures !Truthy(b.name) ==> errs[0] == NameRequired
    ensures |Value(b.password)| < MinPasswordLength ==> errs[|errs| - 1] == PasswordTooShort
  {
    (if Truthy(b.name) then [] else [NameRequired])
    + (if isEmail(Value(b.email)) then [] else [EmailInvalid])
    + (if |Value(b.password)| >= MinPasswordLength then [] else [PasswordTooShort])
  }

  /**
   * `POST /api/users`. An invalid body, or an email some account already
   * has, is rejected with 400 and leaves the store alone. Otherwise exactly
   * one account is added under the fresh id the store allocates, holding the
   * hash of the password, and the reply is a token naming that account.
   */
  function Register(
    s: Store, b: UserBody, isEmail: string -> bool, hash: string -> string, newId: UserId
  ): (step: Step)
    requires newId !in s.users
    ensures RegisterErrors(b, isEmail) != [] ==>
      step == Step(Reply(400, Errors(RegisterErrors(b, isEmail))), s)
    ensures RegisterErrors(b, isEmail) == [] && EmailTaken(s.users, Value(b.email)) ==>
      step == Step(Reply(400, Errors([UserExists])), s)
    ensures step.response.Reply? && step.response.status == 200 <==>
      RegisterErrors(b, isEmail) == [] && !EmailTaken(s.users, Value(b.email))
    ensures step.response.Reply? && step.response.status == 200 ==>
      && step.response.body == Token(newId)
      && step.store.recipes == s.recipes
      && step.store.users.Keys == s.users.Keys + {newId}
      && |step.store.users| == |s.users| + 1
      && (forall id :: id in s.users ==> step.store.users[id] == s.users[id])
      && step.store.users[newId] == User(b.name.value, Value(b.email), hash(Value(b.password)))
  {
    var errs := RegisterErrors(b, isEmail);
    if errs != [] then
      Step(Reply(400, Errors(errs)), s)
    else if EmailTaken(s.users, Value(b.email)) then
      Step(Reply(400, Errors([UserExists])), s)
    else
      var user := User(b.name.value, Value(b.email), hash(Value(b.password)));
      Step(Reply(200, Token(newId)), s.(users := s.users[newId := user]))
  }

  /**
   * `GET /api/users`: the caller's stored account, password hash included,
   * or `null` when it no longer exists. The store is never changed.
   */
  function Profile(s: Store, caller: UserId): (step: Step)
    ensures step.store == s
    ensures caller in s.users ==> step.response == Reply(200, UserDoc(caller, s.users[caller]))
    ensures caller !in s.users ==> step.response == Reply(200, Null)
  {
    if caller in s.users then Step(Reply(200, UserDoc(caller, s.users[caller])), s)
    else Step(Reply(200, Null), s)
  }

  /**
   * `PUT /api/users/update/:id`. The account updated is the caller's, from
   * the token; the path id is only compared with it for a log line. Each of
   * name, email and password present and non-empty replaces the stored
   * value, the password as its hash. The new email is not checked against
   * other accounts. A caller without an account makes the handler throw
   * outside any `try`, so nothing is sent and nothing changes.
   */
  function UpdateUser(s: Store, caller: UserId, pathId: string, b: UserBody, hash: string -> string): (step: Step)
    ensures caller !in s.users ==> step == Step(NoReply, s)
    ensures caller in s.users ==>
      && step.store.recipes == s.recipes
      && step.store.users.Keys == s.users.Keys
      && (forall id :: id in s.users && id != caller ==> step.store.users[id] == s.users[id])
      && step.response == Reply(200, UserDoc(caller, step.store.users[caller]))
    ensures caller in s.users ==>
      var before, after := s.users[caller], step.store.users[caller];
      && (Truthy(b.name) ==> after.name == b.name.value)
      && (!Truthy(b.name) ==> after.name == before.name)
      && (Truthy(b.email) ==> after.email == Value(b.email))
      && (!Truthy(b.email) ==> after.email == before.email)
      && (Truthy(b.password) ==> after.password == hash(Value(b.password)))
      && (!Truthy(b.password) ==> after.password == before.password)
  {
    if caller !in s.users then
      Step(NoReply, s)
    else
      var u := s.users[caller];
      var u' := u.(
        name := Overwrite(b.name, u.name),
        email := Overwrite(b.email, u.email),
        password := if Truthy(b.password) then hash(Value(b.password)) else u.password
      );
      Step(Reply(200, UserDoc(caller, u')), s.(users := s.users[caller := u']))
  }

  /**
   * `DELETE /api/users`: removes the caller's account and then every recipe
   * the caller owns (the handler skips the second delete when there are
   * none). Other accounts and other owners' recipes are untouched, and the
   * reply is the same either way.
   */
  function DeleteAccount(s: Store, caller: UserId): (step: Step)
    ensures step.response == Reply(200, Msg(AccountDeleted))
    ensures step.store.users.Keys == s.users.Keys - {caller}
    ensures forall id :: id in step.store.users ==> step.store.users[id] == s.users[id]
    ensures forall id :: id in step.store.recipes <==> id in s.recipes && s.recipes[id].owner != caller
    ensures forall id :: id in step.store.recipes ==> step.store.recipes[id] == s.recipes[id]
  {
    var users := s.users - {caller};
    var owned := OwnedBy(s.recipes, caller);
    var recipes :=
      if |owned| == 0 then
        assert forall id :: id in s.recipes && s.recipes[id].owner == caller ==> id in owned;
        s.recipes
      else
        s.recipes - owned.Keys;
    Step(Reply(200, Msg(AccountDeleted)), Store(users, recipes))
  }

  /**
   * Registering an email that a successful registration has just stored
   * fails: with the duplicate-user error whenever the second body is itself
   * valid, and with 400 in any case.
   */
  lemma RegisterTwiceFails(
    s: Store, b1: UserBody, b2: UserBody, isEmail: string -> bool, hash: string -> string,
    id1: UserId, id2: UserId
  )
    requires id1 !in s.users
    requires Register(s, b1, isEmail, hash, id1).response.status == 200
    requires b2.email == b1.email
    requires id2 !in Register(s, b1, isEmail, hash, id1).store.users
    ensures var second := Register(Register(s, b1, isEmail, hash, id1).store, b2, isEmail, hash, id2);
      && second.response.status == 400
      && second.store == Register(s, b1, isEmail, hash, id1).store
      && (RegisterErrors(b2, isEmail) == [] ==> second.response.body == Errors([UserExists]))
  {
    var first := Register(s, b1, isEmail, hash, id1).store;
    assert first.users[id1].email == Value(b1.email);
    assert EmailTaken(first.users, Value(b1.email));
  }

  /**
   * Right after a successful registration the new account's profile is the
   * submitted name and email with the hash of the password, and that hash is
   * part of the reply.
   */
  lemma ProfileAfterRegister(
    s: Store, b: UserBody, isEmail: string -> bool, hash: string -> string, newId: UserId
  )
    requires newId !in s.users
    requires Register(s, b, isEmail, hash, newId).response.status == 200
    ensures Profile(Register(s, b, isEmail, hash, newId).store, newId).response
         == Reply(200, UserDoc(newId, User(b.name.value, Value(b.email), hash(Value(b.password)))))
  {
  }

  /** Registration keeps emails unique. */
  lemma RegisterKeepsEmailsUnique(
    s: Store, b: UserBody, isEmail: string -> bool, hash: string -> string, newId: UserId
  )
    requires newId !in s.users
    requires EmailsUnique(s)
    ensures EmailsUnique(Register(s, b, isEmail, hash, newId).store)
  {
  }

  /**
   * Updating a profile does not keep emails unique: one account may take
   * another's email.
   */
  lemma UpdateMayDuplicateEmail()
    ensures var s := Store(map[0 := User("ann", "a@x.io", "h1"), 1 := User("bob", "b@x.io", "h2")], map[]);
      && EmailsUnique(s)
      && !EmailsUnique(UpdateUser(s, 1, "1", UserBody(None, Some("a@x.io"), None), p => p).store)
  {
    var s := Store(map[0 := User("ann", "a@x.io", "h1"), 1 := User("bob", "b@x.io", "h2")], map[]);
    var after := UpdateUser(s, 1, "1", UserBody(None, Some("a@x.io"), None), p => p).store;
    assert after.users[0].email == after.users[1].email;
  }

  /** The path id of the profile update has no effect. */
  lemma UpdateIgnoresPathId(s: Store, caller: UserId, p1: string, p2: string, b: UserBody, hash: string -> string)
    ensures UpdateUser(s, caller, p1, b, hash) == UpdateUser(s, caller, p2, b, hash)
  {
  }

  /**
   * After an account is deleted no recipe is owned by it, so listing its
   * recipes finds none; with the account gone the list handler answers 500.
   */
  lemma DeleteAccountCascades(s: Store, caller: UserId)
    ensures var after := DeleteAccount(s, caller).store;
      && caller !in after.users
      && !RecipeRoutes.HasRecipes(after, caller)
      && OwnedBy(after.recipes, caller) == map[]
      && RecipeRoutes.ListRecipes(after, caller).response == ServerError
  {
    var after := DeleteAccount(s, caller).store;
    assert forall id :: id in after.recipes ==> after.recipes[id].owner != caller;
    assert !RecipeRoutes.HasRecipes(after, caller);
    assert OwnedBy(after.recipes, caller).Keys == {};
  }

  /** Every user handler preserves the store invariant, the cascade included. */
  lemma UserRoutesPreserveValid(
    s: Store, caller: UserId, pathId: string, b: UserBody,
    isEmail: string -> bool, hash: string -> string, newId: UserId
  )
    requires Valid(s)
    requires newId !in s.users
    ensures Valid(Register(s, b, isEmail, hash, newId).store)
    ensures Valid(Profile(s, caller).store)
    ensures Valid(UpdateUser(s, caller, pathId, b, hash).store)
    ensures Valid(DeleteAccount(s, caller).store)
  {
  }
}
