/** lib/models/userModel.ts: the account record and the "user" collection. */
module UserModel {

  /** `userPassword` holds the hashed form of the password, never the password itself. */
  datatype User = User(userFirstName: string, userLastName: string, userEmail: string, userPassword: string)

  /** The schema's four paths are required: none may be missing or empty. */
  predicate Conforms(u: User) {
    u.userFirstName != "" && u.userLastName != "" && u.userEmail != "" && u.userPassword != ""
  }

  /** The unique index on userEmail: no two accounts share an email. */
  predicate UniqueEmails(users: seq<User>) {
    forall j, k :: 0 <= j < k < |users| ==> users[j].userEmail != users[k].userEmail
  }

  predicate UserStoreInvariant(users: seq<User>) {
    (forall k :: 0 <= k < |users| ==> Conforms(users[k])) && UniqueEmails(users)
  }

  /** The "user" collection, in insertion order. */
  class UserCollection {
    var users: seq<User>

    ghost predicate Valid()
      reads this
    {
      UserStoreInvariant(users)
    }

    constructor ()
      ensures Valid() && users == []
    {
      users := [];
    }
  }
}
