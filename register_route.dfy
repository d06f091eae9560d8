/** POST in app/api/auth/register/route.ts: creating an account. The password hash
    (lib/utils/hashPasswordUtil.ts, a random salt and a key derivation) is the input function
    `hash`. */
module RegisterRoute {
  import opened Common
  import opened UserModel

  /** `User.findOne({ userEmail })`. */
  function FindByEmail(users: seq<User>, email: string): Option<nat> {
    FirstIndex(users, (u: User) => u.userEmail == email)
  }

  datatype Registered = Registered(status: int, users: seq<User>)

  /** The response status of the registration and the collection it leaves behind: 400 when the
      email is taken, 500 when the schema rejects the new record, otherwise 201 with the account
      appended. */
  function Register(users: seq<User>, userFirstName: string, userLastName: string, userEmail: string,
                    userPassword: string, hash: string -> string): (r: Registered)
    ensures r.status in {201, 400, 500}
    ensures r.status != 201 ==> r.users == users
    ensures r.status == 400 <==> exists k :: 0 <= k < |users| && users[k].userEmail == userEmail
    ensures r.status == 500 <==>
      (forall k :: 0 <= k < |users| ==> users[k].userEmail != userEmail)
      && !Conforms(User(userFirstName, userLastName, userEmail, hash(userPassword)))
    // exactly one account is added, holding the hash of the password and not the password
    ensures r.status == 201 ==> r.users == users + [User(userFirstName, userLastName, userEmail, hash(userPassword))]
  {
    if FindByEmail(users, userEmail).Some? then Registered(400, users)
    else
      var user := User(userFirstName, userLastName, userEmail, hash(userPassword));
      if !Conforms(user) then Registered(500, users)
      else Registered(201, users + [user])
  }

  /** Registration keeps every account complete and every email unique. */
  lemma RegisterPreservesInvariant(users: seq<User>, userFirstName: string, userLastName: string, userEmail: string,
                                   userPassword: string, hash: string -> string)
    requires UserStoreInvariant(users)
    ensures UserStoreInvariant(Register(users, userFirstName, userLastName, userEmail, userPassword, hash).users)
  {
    var r := Register(users, userFirstName, userLastName, userEmail, userPassword, hash);
    if r.status == 201 {
      assert forall k :: 0 <= k < |users| ==> r.users[k] == users[k];
    }
  }

  /** Once an email has an account, registering it again is refused with 400, whatever the other
      fields, and adds nothing. */
  lemma RegisterTwiceRefused(users: seq<User>, userFirstName: string, userLastName: string, userEmail: string,
                             userPassword: string, hash: string -> string,
                             otherFirstName: string, otherLastName: string, otherPassword: string)
    requires Register(users, userFirstName, userLastName, userEmail, userPassword, hash).status == 201
    ensures var first := Register(users, userFirstName, userLastName, userEmail, userPassword, hash);
      Register(first.users, otherFirstName, otherLastName, userEmail, otherPassword, hash) == Registered(400, first.users)
  {
    var first := Register(users, userFirstName, userLastName, userEmail, userPassword, hash);
    assert first.users[|users|].userEmail == userEmail;
  }

  /** POST /api/auth/register. */
  method Post(db: UserCollection, userFirstName: string, userLastName: string, userEmail: string,
              userPassword: string, hash: string -> string) returns (status: int)
    modifies db
    ensures var r := Register(old(db.users), userFirstName, userLastName, userEmail, userPassword, hash);
      status == r.status && db.users == r.users
    ensures old(db.Valid()) ==> db.Valid()
  {
    if db.Valid() {
      RegisterPreservesInvariant(db.users, userFirstName, userLastName, userEmail, userPassword, hash);
    }
    var existing := FindByEmail(db.users, userEmail);
    if existing.Some? {
      return 400;
    }
    var hashedPassword := hash(userPassword);
    var newUser := User(userFirstName, userLastName, userEmail, hashedPassword);
    if !Conforms(newUser) {
      return 500;
    }
    db.users := db.users + [newUser];
    return 201;
  }
}
