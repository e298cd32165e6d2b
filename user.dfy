/** The user collection: username, email and password are required;
    username and email each carry a unique index; bio and profile picture are
    optional. Passwords are stored as given. */
module UserModel {
  import opened Common

  datatype User = User(
    username: string,
    email: string,
    password: string,
    bio: Option<string>,
    profilePicture: Option<string>)

  /** What `new User({...})` receives: any path may be left out. */
  datatype UserDoc = UserDoc(
    username: Option<string>,
    email: Option<string>,
    password: Option<string>,
    bio: Option<string>,
    profilePicture: Option<string>)

  function UserViolations(d: UserDoc): set<Violation>
  {
    (if PresentString(d.username) then {} else {Missing(Username)}) +
    (if PresentString(d.email) then {} else {Missing(Email)}) +
    (if PresentString(d.password) then {} else {Missing(Password)})
  }

  /** The validation `save()` runs: a user is accepted exactly when the three
      required strings are present and non-empty, and is then stored with the
      given fields; the optional fields never cause a rejection. */
  function ValidateUser(d: UserDoc): (r: Result<User>)
    ensures r.Ok? <==> PresentString(d.username) && PresentString(d.email) && PresentString(d.password)
    ensures r.Ok? ==> r.value == User(d.username.value, d.email.value, d.password.value, d.bio, d.profilePicture)
    ensures r.Err? ==> r.error.ValidationError?
    ensures r.Err? ==> (Missing(Username) in r.error.violations <==> !PresentString(d.username))
    ensures r.Err? ==> (Missing(Email) in r.error.violations <==> !PresentString(d.email))
    ensures r.Err? ==> (Missing(Password) in r.error.violations <==> !PresentString(d.password))
  {
    var v := UserViolations(d);
    if v == {} then
      Ok(User(d.username.value, d.email.value, d.password.value, d.bio, d.profilePicture))
    else Err(ValidationError(v))
  }

  /** bio and profilePicture are optional: leaving both out changes nothing
      about acceptance. */
  lemma OptionalFieldsNotRequired(username: string, email: string, password: string,
                                  bio: Option<string>, profilePicture: Option<string>)
    ensures ValidateUser(UserDoc(Some(username), Some(email), Some(password), None, None)).Ok?
            == ValidateUser(UserDoc(Some(username), Some(email), Some(password), bio, profilePicture)).Ok?
  {
  }

  /** The unique indexes: no two users share a username, and no two share an
      email. */
  ghost predicate UniqueKeys(users: map<Id, User>) {
    && (forall a, b :: a in users && b in users && users[a].username == users[b].username ==> a == b)
    && (forall a, b :: a in users && b in users && users[a].email == users[b].email ==> a == b)
  }

  /** Some user other than `self` already has this username. */
  predicate UsernameTaken(users: map<Id, User>, username: string, self: Id) {
    exists k :: k in users && k != self && users[k].username == username
  }

  /** Some user other than `self` already has this email. */
  predicate EmailTaken(users: map<Id, User>, email: string, self: Id) {
    exists k :: k in users && k != self && users[k].email == email
  }

  /** Writing `u` under `id` (an insert or an update of that user) keeps the
      indexes unique exactly when no other user holds its username or email. */
  lemma WriteKeepsUnique(users: map<Id, User>, id: Id, u: User)
    requires UniqueKeys(users)
    ensures UniqueKeys(users[id := u]) <==> !UsernameTaken(users, u.username, id) && !EmailTaken(users, u.email, id)
  {
    var m := users[id := u];
    if UsernameTaken(users, u.username, id) {
      var k :| k in users && k != id && users[k].username == u.username;
      assert m[k].username == m[id].username;
    } else if EmailTaken(users, u.email, id) {
      var k :| k in users && k != id && users[k].email == u.email;
      assert m[k].email == m[id].email;
    }
  }

  /** Removing users never breaks uniqueness. */
  lemma RemoveKeepsUnique(users: map<Id, User>, gone: set<Id>)
    requires UniqueKeys(users)
    ensures UniqueKeys(users - gone)
  {
  }
}
