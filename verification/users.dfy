/** Registration and maintenance of user accounts: uniqueness of email and
    username on creation, re-hashing of a new password on update, deletion
    by id. The password hash is a parameter of the model: a function from
    plain text to stored text, with salting left out. */
module Users {
  import opened Common

  const EmailTaken := "User with this email already exists"
  const UsernameTaken := "User with this username already exists"

  datatype User = User(
    id: Id,
    email: string,
    username: string,
    password: string,
    firstName: string,
    lastName: string,
    profileImage: Option<string>)

  /** The fields a registration supplies. */
  datatype Registration = Registration(email: string, username: string, password: string,
                                       firstName: string, lastName: string)

  /** The unique indexes on email and username (and the primary key). */
  predicate UniqueAccounts(users: seq<User>) {
    forall i, j :: 0 <= i < j < |users| ==>
      users[i].id != users[j].id && users[i].email != users[j].email && users[i].username != users[j].username
  }

  predicate HasId(users: seq<User>, id: Id) {
    exists i :: 0 <= i < |users| && users[i].id == id
  }

  /** The position of the account with the given id (the primary-key lookup). */
  function IndexOfId(users: seq<User>, id: Id): (r: Option<nat>)
    ensures r.Some? ==> r.value < |users| && users[r.value].id == id
    ensures r.Some? ==> forall k :: 0 <= k < r.value ==> users[k].id != id
    ensures r.None? <==> !HasId(users, id)
  {
    FirstIndex(users, (u: User) => u.id == id)
  }

  predicate Clashes(u: User, email: string, username: string) {
    u.email == email || u.username == username
  }

  // ---------------------------------------------------------------------------
  // Creation
  // ---------------------------------------------------------------------------

  /** Looks up the first account sharing the email or the username. If it
      shares the email, that conflict is the one reported, otherwise the
      username conflict; with no such account, the new user is stored with
      the hash of the password. */
  function Create(users: seq<User>, data: Registration, newId: Id, hash: string -> string): (r: Result<seq<User>>)
    ensures r.Ok? <==> forall i :: 0 <= i < |users| ==> !Clashes(users[i], data.email, data.username)
    ensures r.Err? ==> r.error in {Conflict(EmailTaken), Conflict(UsernameTaken)}
    ensures (forall i :: 0 <= i < |users| ==> users[i].username != data.username) && r.Err? ==> r == Err(Conflict(EmailTaken))
    ensures (forall i :: 0 <= i < |users| ==> users[i].email != data.email) && r.Err? ==> r == Err(Conflict(UsernameTaken))
    ensures r.Ok? ==> r.value == users + [User(newId, data.email, data.username, hash(data.password),
                                               data.firstName, data.lastName, None)]
    ensures r.Ok? && UniqueAccounts(users) && !HasId(users, newId) ==> UniqueAccounts(r.value)
  {
    match FirstIndex(users, (u: User) => Clashes(u, data.email, data.username))
    case Some(i) =>
      if users[i].email == data.email then Err(Conflict(EmailTaken))
      else Err(Conflict(UsernameTaken))
    case None =>
      Ok(users + [User(newId, data.email, data.username, hash(data.password), data.firstName, data.lastName, None)])
  }

  /** When exactly one account clashes with the registration, the outcome
      does not depend on which clashing row the lookup returns: sharing the
      email is an email conflict, sharing only the username a username
      conflict. */
  lemma CreateSingleClash(users: seq<User>, data: Registration, newId: Id, hash: string -> string, i: int)
    requires 0 <= i < |users| && Clashes(users[i], data.email, data.username)
    requires forall j :: 0 <= j < |users| && j != i ==> !Clashes(users[j], data.email, data.username)
    ensures users[i].email == data.email ==> Create(users, data, newId, hash) == Err(Conflict(EmailTaken))
    ensures users[i].email != data.email ==> Create(users, data, newId, hash) == Err(Conflict(UsernameTaken))
  {
    var f := FirstIndex(users, (u: User) => Clashes(u, data.email, data.username));
    assert f.Some? && f.value == i;
  }

  /** A reported conflict is real: some account holds the email, or the
      username, that the message names. */
  lemma CreateConflictIsReal(users: seq<User>, data: Registration, newId: Id, hash: string -> string)
    ensures Create(users, data, newId, hash) == Err(Conflict(EmailTaken)) ==>
              exists i :: 0 <= i < |users| && users[i].email == data.email
    ensures Create(users, data, newId, hash) == Err(Conflict(UsernameTaken)) ==>
              exists i :: 0 <= i < |users| && users[i].username == data.username
  {
    match FirstIndex(users, (u: User) => Clashes(u, data.email, data.username))
    case Some(f) =>
      assert users[f].email == data.email || users[f].username == data.username;
    case None =>
  }

  /** The stored password checks out against the password registered, and
      against no other when the hash is injective. */
  lemma CreatedPasswordValidates(users: seq<User>, data: Registration, newId: Id, hash: string -> string, attempt: string)
    requires Create(users, data, newId, hash).Ok?
    requires forall a, b :: hash(a) == hash(b) ==> a == b
    ensures var stored := Create(users, data, newId, hash).value[|users|].password;
      ValidatePassword(attempt, stored, hash) <==> attempt == data.password
  {
  }

  /** bcrypt's comparison: does the plain text hash to the stored text? */
  function ValidatePassword(plain: string, hashed: string, hash: string -> string): (ok: bool)
    ensures ok ==> hashed == hash(plain)
  {
    hash(plain) == hashed
  }

  /** Under an injective hash, a stored hash validates at most one password,
      and always validates the password it was made from. */
  lemma ValidatePasswordOnlyOwn(hashed: string, a: string, b: string, hash: string -> string)
    requires forall x, y :: hash(x) == hash(y) ==> x == y
    ensures ValidatePassword(a, hashed, hash) && ValidatePassword(b, hashed, hash) ==> a == b
    ensures ValidatePassword(a, hash(a), hash)
  {
  }

  // ---------------------------------------------------------------------------
  // Update
  // ---------------------------------------------------------------------------

  /** The password as an update may supply it: absent, as plain text, or as
      an explicit "set" operation on the field. */
  datatype PasswordInput = Unchanged | Text(text: string) | SetTo(value: string)

  datatype Changes = Changes(
    email: Option<string>,
    username: Option<string>,
    password: PasswordInput,
    firstName: Option<string>,
    lastName: Option<string>,
    profileImage: Option<Option<string>>)

  function Pick<T>(given: Option<T>, current: T): T {
    match given
    case Some(v) => v
    case None => current
  }

  /** The password stored by an update: only a non-empty plain-text
      password is hashed. An empty text is falsy and a "set" operation is
      not a string, so both are written as given. */
  function StoredPassword(input: PasswordInput, current: string, hash: string -> string): (p: string)
    ensures input.Unchanged? ==> p == current
    ensures input.Text? && input.text != "" ==> p == hash(input.text)
    ensures input.Text? && input.text == "" ==> p == ""
    ensures input.SetTo? ==> p == input.value
  {
    match input
    case Unchanged => current
    case Text(s) => if s != "" then hash(s) else s
    case SetTo(s) => s
  }

  function Apply(u: User, changes: Changes, hash: string -> string): User {
    User(
      id := u.id,
      email := Pick(changes.email, u.email),
      username := Pick(changes.username, u.username),
      password := StoredPassword(changes.password, u.password, hash),
      firstName := Pick(changes.firstName, u.firstName),
      lastName := Pick(changes.lastName, u.lastName),
      profileImage := Pick(changes.profileImage, u.profileImage))
  }

  /** The fields an update does not supply keep their stored values. */
  predicate Kept(before: User, after: User, changes: Changes) {
    && (changes.email.None? ==> after.email == before.email)
    && (changes.username.None? ==> after.username == before.username)
    && (changes.firstName.None? ==> after.firstName == before.firstName)
    && (changes.lastName.None? ==> after.lastName == before.lastName)
    && (changes.profileImage.None? ==> after.profileImage == before.profileImage)
  }

  /** Another account already holds the email or username `u` would get. */
  predicate Collides(users: seq<User>, i: nat, u: User) {
    exists k :: 0 <= k < |users| && k != i && (users[k].email == u.email || users[k].username == u.username)
  }

  /** Updates the user with the given id and returns the user as stored.
      The store refuses a missing id, and a change that would give two
      accounts the same email or username. */
  function Update(users: seq<User>, id: Id, changes: Changes, hash: string -> string): (r: Result<(seq<User>, User)>)
    ensures !HasId(users, id) ==> r == Err(RecordMissing)
    ensures r.Err? ==> r.error in {RecordMissing, UniqueViolation}
    ensures r.Ok? ==> exists i :: 0 <= i < |users| && users[i].id == id && r.value.0 == users[i := r.value.1]
                                 && r.value.1.password == StoredPassword(changes.password, users[i].password, hash)
                                 && Kept(users[i], r.value.1, changes)
    ensures forall i :: 0 <= i < |users| && users[i].id == id && UniqueAccounts(users) ==>
              (r.Ok? <==> !Collides(users, i, Apply(users[i], changes, hash)))
    ensures r.Ok? ==> r.value.1.id == id
    ensures r.Ok? && changes.email.Some? ==> r.value.1.email == changes.email.value
    ensures r.Ok? && changes.username.Some? ==> r.value.1.username == changes.username.value
    ensures r.Ok? && changes.firstName.Some? ==> r.value.1.firstName == changes.firstName.value
    ensures r.Ok? && changes.lastName.Some? ==> r.value.1.lastName == changes.lastName.value
    ensures r.Ok? && changes.profileImage.Some? ==> r.value.1.profileImage == changes.profileImage.value
    ensures UniqueAccounts(users) && r.Ok? ==> UniqueAccounts(r.value.0)
  {
    match IndexOfId(users, id)
    case None => Err(RecordMissing)
    case Some(i) =>
      var updated := Apply(users[i], changes, hash);
      if Collides(users, i, updated) then Err(UniqueViolation)
      else Ok((users[i := updated], updated))
  }

  /** An update that changes neither email nor username cannot clash with
      another account of a consistent store. */
  lemma UpdateKeepingKeysSucceeds(users: seq<User>, id: Id, changes: Changes, hash: string -> string)
    requires UniqueAccounts(users) && HasId(users, id)
    requires changes.email.None? && changes.username.None?
    ensures Update(users, id, changes, hash).Ok?
  {
    var i :| 0 <= i < |users| && users[i].id == id;
    var f := IndexOfId(users, id).value;
    assert f == i;
  }

  // ---------------------------------------------------------------------------
  // Removal
  // ---------------------------------------------------------------------------

  /** Deletes the user with the given id; the store refuses a missing id. */
  function Remove(users: seq<User>, id: Id): (r: Result<seq<User>>)
    ensures r.Err? <==> !HasId(users, id)
    ensures r.Err? ==> r.error == RecordMissing
    ensures r.Ok? ==> |r.value| == |users| - 1
    ensures r.Ok? ==> forall u :: u in r.value ==> u in users
    ensures r.Ok? ==> forall u :: u in users && u.id != id ==> u in r.value
    ensures r.Ok? && UniqueAccounts(users) ==> !HasId(r.value, id)
  {
    match IndexOfId(users, id)
    case None => Err(RecordMissing)
    case Some(i) =>
      var rest := RemoveAt(users, i);
      RemoveKeepsOthers(users, i, rest);
      Ok(rest)
  }

  lemma RemoveKeepsOthers(users: seq<User>, i: nat, rest: seq<User>)
    requires i < |users| && rest == RemoveAt(users, i)
    requires forall k :: 0 <= k < i ==> users[k].id != users[i].id
    ensures forall u :: u in rest ==> u in users
    ensures forall u :: u in users && u.id != users[i].id ==> u in rest
    ensures UniqueAccounts(users) ==> !HasId(rest, users[i].id)
  {
    forall u | u in rest ensures u in users {
      var k :| 0 <= k < |rest| && rest[k] == u;
      if k >= i { assert users[k + 1] == u; }
    }
    forall u | u in users && u.id != users[i].id ensures u in rest {
      var k :| 0 <= k < |users| && users[k] == u;
      if k < i { assert rest[k] == u; } else { assert rest[k - 1] == u; }
    }
    if UniqueAccounts(users) {
      forall k | 0 <= k < |rest| ensures rest[k].id != users[i].id {
        if k >= i { assert rest[k] == users[k + 1]; }
      }
    }
  }

  /** Registering and then removing the new account gives back the store. */
  lemma CreateThenRemove(users: seq<User>, data: Registration, newId: Id, hash: string -> string)
    requires !HasId(users, newId)
    requires Create(users, data, newId, hash).Ok?
    ensures Remove(Create(users, data, newId, hash).value, newId) == Ok(users)
  {
    var after := Create(users, data, newId, hash).value;
    assert forall k :: 0 <= k < |users| ==> after[k] == users[k];
    assert forall k :: 0 <= k < |users| ==> after[k].id != newId;
    assert after[|users|].id == newId;
    assert IndexOfId(after, newId) == Some(|users|);
    assert after[..|users|] == users;
    assert after[|users| + 1..] == [];
    assert RemoveAt(after, |users|) == users;
  }
}
