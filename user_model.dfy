/**
 * The user record of src/models/user.js: its fields, their defaults and the
 * uniqueness of `email` across the collection.
 */
module UserModel {
  import opened Wrappers

  /** A document `_id`. Ids are opaque; the model allocates them in increasing order. */
  type UserId = nat

  /**
   * One document of the `User` collection. `password` holds the hash, never the
   * secret; `referral_code` is `None` for the schema default `null`.
   */
  datatype User = User(
    email: string,
    password: string,
    referral_code: Option<string>,
    referral_count: nat,
    credit: nat,
    referred_users: seq<UserId>)

  /**
   * `new User({ email, password, credit })`: the given fields, and the schema
   * defaults (no code, count 0, no referred users) for the others.
   */
  function NewRecord(email: string, password: string, credit: nat): (u: User)
    ensures u.email == email && u.password == password && u.credit == credit
    ensures u.referral_code == None
    ensures u.referral_count == 0 && u.referred_users == []
  {
    User(email, password, None, 0, credit, [])
  }

  /** The collection holds some document with this email. */
  ghost predicate EmailTaken(users: map<UserId, User>, email: string) {
    exists k :: k in users && users[k].email == email
  }

  /** `email: { unique: true }`: no two documents share an email. */
  ghost predicate EmailsUnique(users: map<UserId, User>) {
    forall a, b :: a in users && b in users && a != b ==> users[a].email != users[b].email
  }

  /** Adding a document with an untaken email keeps emails unique. */
  lemma {:induction false} InsertKeepsEmailsUnique(users: map<UserId, User>, id: UserId, u: User)
    requires EmailsUnique(users) && id !in users && !EmailTaken(users, u.email)
    ensures EmailsUnique(users[id := u])
  {
    var m := users[id := u];
    forall a, b | a in m && b in m && a != b
      ensures m[a].email != m[b].email
    {
      if a == id {
        assert b in users;
      } else if b == id {
        assert a in users;
      }
    }
  }
}
