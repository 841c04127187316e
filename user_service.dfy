/**
 * The user service of src/services/user.js: registration with an optional
 * referral code, authentication, and referral-code issuance, acting on the
 * `User` collection. Each operation is one sequential step on the store.
 */
module UserService {
  import opened Wrappers
  import opened Email
  import opened UserModel
  import opened Referral

  /** The errors the service throws, with their messages. */
  datatype Error =
    | EmailExists
    | UnknownReferralCode
    | UnknownUser
    | WrongPassword
    | TokenNotCreated
    | AlreadyIssued
  {
    function Message(): string {
      match this
      case EmailExists => "Email already exists."
      case UnknownReferralCode => "Referral code doesn't exist."
      case UnknownUser => "User does not exist."
      case WrongPassword => "Wrong password."
      case TokenNotCreated => "Error occured, could not create token."
      case AlreadyIssued => "User has created a referal code already."
    }
  }

  /** User `k` holds referral code `code`. */
  predicate HoldsCode(users: map<UserId, User>, k: UserId, code: string) {
    k in users && users[k].referral_code == Some(code)
  }

  /** `User.findOne({ referral_code: code })` finds a document. */
  ghost predicate CodeKnown(users: map<UserId, User>, code: string) {
    exists k :: HoldsCode(users, k, code)
  }

  /**
   * `owner` is a referrer `createUser` may credit for `code`: some holder of the
   * code when one is supplied (codes are not unique, and `findOne` picks one),
   * nobody otherwise.
   */
  ghost predicate ReferrerFor(users: map<UserId, User>, code: Option<string>, owner: Option<UserId>) {
    if Supplied(code) then owner.Some? && HoldsCode(users, owner.value, code.value) else owner.None?
  }

  /** Every id in the store was handed out by the allocator. */
  ghost predicate IdsBelow(users: map<UserId, User>, nextId: UserId) {
    forall k :: k in users ==> k < nextId
  }

  /** Every stored email is in normalised form. */
  ghost predicate EmailsNormalized(users: map<UserId, User>) {
    forall k :: k in users ==> IsNormalized(users[k].email)
  }

  /** Every record's ledger is consistent. */
  ghost predicate LedgersBalanced(users: map<UserId, User>) {
    forall k :: k in users ==> Balanced(users[k])
  }

  /** Every referred id of `k` names a later user, in increasing order. */
  ghost predicate ReferralsLater(users: map<UserId, User>, k: UserId)
    requires k in users
  {
    var refs := users[k].referred_users;
    && (forall i :: 0 <= i < |refs| ==> refs[i] in users && k < refs[i])
    && (forall i, j :: 0 <= i < j < |refs| ==> refs[i] < refs[j])
  }

  ghost predicate ReferralsOrdered(users: map<UserId, User>) {
    forall k :: k in users ==> ReferralsLater(users, k)
  }

  /** No user appears in the referred list of two different users. */
  ghost predicate ReferredOnce(users: map<UserId, User>) {
    forall a, b, x :: a in users && b in users && x in users[a].referred_users && x in users[b].referred_users ==> a == b
  }

  /**
   * The store invariant: ids come from the allocator, emails are unique and
   * normalised, every ledger is balanced, and referred ids are distinct, later
   * users, each credited to one referrer only.
   */
  ghost predicate StoreValid(users: map<UserId, User>, nextId: UserId) {
    && IdsBelow(users, nextId)
    && EmailsUnique(users)
    && EmailsNormalized(users)
    && LedgersBalanced(users)
    && ReferralsOrdered(users)
    && ReferredOnce(users)
  }

  /** The store after the referrer (if any) has been credited for `newId`. */
  function Credit(users: map<UserId, User>, newId: UserId, owner: Option<UserId>): (r: map<UserId, User>)
    requires owner.Some? ==> owner.value in users
    ensures r.Keys == users.Keys
    ensures forall k :: k in users && Some(k) != owner ==> r[k] == users[k]
  {
    if owner.Some? then users[owner.value := Redeem(users[owner.value], newId)] else users
  }

  /**
   * The store after a successful `createUser`: the referrer (if any) is
   * updated first, then the new record is inserted.
   */
  function Admit(users: map<UserId, User>, newId: UserId, rec: User, owner: Option<UserId>): (r: map<UserId, User>)
    requires newId !in users
    requires owner.Some? ==> owner.value in users
    ensures r.Keys == users.Keys + {newId}
    ensures r[newId] == rec
    ensures owner.Some? ==> r[owner.value] == Redeem(users[owner.value], newId)
    ensures forall k :: k in users && Some(k) != owner ==> r[k] == users[k]
    ensures forall k :: k in users ==> r[k].credit >= users[k].credit
    ensures forall k :: k in users ==> r[k].email == users[k].email && r[k].referral_code == users[k].referral_code
  {
    Credit(users, newId, owner)[newId := rec]
  }

  /** The referrer `createUser` credits is never the user being created, and nobody refers themself. */
  lemma NoSelfReferral(users: map<UserId, User>, nextId: UserId, code: Option<string>, owner: Option<UserId>)
    requires StoreValid(users, nextId) && ReferrerFor(users, code, owner)
    ensures owner != Some(nextId)
    ensures forall k, i :: k in users && 0 <= i < |users[k].referred_users| ==> users[k].referred_users[i] != k
  {
    forall k, i | k in users && 0 <= i < |users[k].referred_users|
      ensures users[k].referred_users[i] != k
    {
      assert ReferralsLater(users, k);
    }
  }

  lemma {:induction false} AdmitKeepsEmails(
    users: map<UserId, User>, nextId: UserId, rec: User, owner: Option<UserId>)
    requires nextId !in users && (owner.Some? ==> owner.value in users)
    requires EmailsUnique(users) && EmailsNormalized(users)
    requires IsNormalized(rec.email) && !EmailTaken(users, rec.email)
    ensures EmailsUnique(Admit(users, nextId, rec, owner)) && EmailsNormalized(Admit(users, nextId, rec, owner))
  {
    var credited := Credit(users, nextId, owner);
    assert forall k :: k in credited ==> credited[k].email == users[k].email;
    assert EmailsUnique(credited) by {
      forall a, b | a in credited && b in credited && a != b
        ensures credited[a].email != credited[b].email
      {
        assert credited[a].email == users[a].email && credited[b].email == users[b].email;
      }
    }
    assert !EmailTaken(credited, rec.email) by {
      forall k | k in credited ensures credited[k].email != rec.email {
        assert credited[k].email == users[k].email;
      }
    }
    InsertKeepsEmailsUnique(credited, nextId, rec);
  }

  lemma {:induction false} AdmitKeepsLedgers(
    users: map<UserId, User>, nextId: UserId, rec: User, owner: Option<UserId>)
    requires nextId !in users && (owner.Some? ==> owner.value in users)
    requires LedgersBalanced(users) && Balanced(rec)
    ensures LedgersBalanced(Admit(users, nextId, rec, owner))
  {
    var r := Admit(users, nextId, rec, owner);
    forall k | k in r ensures Balanced(r[k]) {
      if k == nextId {
      } else if Some(k) == owner {
        RedeemKeepsBalanced(users[k], nextId);
      } else {
        assert Balanced(users[k]);
      }
    }
  }

  lemma {:induction false} AdmitKeepsOrder(
    users: map<UserId, User>, nextId: UserId, rec: User, owner: Option<UserId>)
    requires IdsBelow(users, nextId) && (owner.Some? ==> owner.value in users)
    requires ReferralsOrdered(users) && rec.referred_users == []
    ensures ReferralsOrdered(Admit(users, nextId, rec, owner))
  {
    var r := Admit(users, nextId, rec, owner);
    forall k | k in r ensures ReferralsLater(r, k) {
      if k != nextId {
        assert ReferralsLater(users, k);
        var refs := users[k].referred_users;
        forall i | 0 <= i < |refs| ensures refs[i] < nextId {
          assert refs[i] in users;
        }
      }
    }
  }

  lemma {:induction false} AdmitKeepsReferredOnce(
    users: map<UserId, User>, nextId: UserId, rec: User, owner: Option<UserId>)
    requires IdsBelow(users, nextId) && (owner.Some? ==> owner.value in users)
    requires ReferralsOrdered(users) && ReferredOnce(users) && rec.referred_users == []
    ensures ReferredOnce(Admit(users, nextId, rec, owner))
  {
    var r := Admit(users, nextId, rec, owner);
    forall a, b, x | a in r && b in r && x in r[a].referred_users && x in r[b].referred_users
      ensures a == b
    {
      ReferredIdsStored(users, a, x, nextId);
      ReferredIdsStored(users, b, x, nextId);
      if x != nextId {
        assert x in users[a].referred_users && x in users[b].referred_users;
      } else {
        assert Some(a) == owner && Some(b) == owner;
      }
    }
  }

  /** An id in `r[k]`'s referred list other than the new one was already in `users[k]`'s. */
  lemma ReferredIdsStored(users: map<UserId, User>, k: UserId, x: UserId, nextId: UserId)
    requires IdsBelow(users, nextId) && ReferralsOrdered(users)
    ensures k in users && x in users[k].referred_users ==> x in users && x != nextId
  {
    if k in users && x in users[k].referred_users {
      assert ReferralsLater(users, k);
    }
  }

  /** A successful registration keeps the store invariant. */
  lemma {:induction false} AdmitKeepsValid(
    users: map<UserId, User>, nextId: UserId, email: string, password: string,
    code: Option<string>, owner: Option<UserId>)
    requires StoreValid(users, nextId)
    requires IsNormalized(email) && !EmailTaken(users, email)
    requires ReferrerFor(users, code, owner)
    ensures StoreValid(Admit(users, nextId, NewRecord(email, password, SignupCredit(code)), owner), nextId + 1)
  {
    var rec := NewRecord(email, password, SignupCredit(code));
    AdmitKeepsEmails(users, nextId, rec, owner);
    AdmitKeepsLedgers(users, nextId, rec, owner);
    AdmitKeepsOrder(users, nextId, rec, owner);
    AdmitKeepsReferredOnce(users, nextId, rec, owner);
  }

  /** Storing a code on a user without one keeps the store invariant. */
  lemma {:induction false} IssueKeepsValid(users: map<UserId, User>, nextId: UserId, id: UserId, code: string)
    requires StoreValid(users, nextId) && id in users
    ensures StoreValid(users[id := users[id].(referral_code := Some(code))], nextId)
  {
    var r := users[id := users[id].(referral_code := Some(code))];
    assert forall k :: k in r ==> r[k].email == users[k].email && r[k].referred_users == users[k].referred_users;
    assert forall k :: k in r ==> Balanced(r[k]) by {
      forall k | k in r ensures Balanced(r[k]) { assert Balanced(users[k]); }
    }
    forall k | k in r ensures ReferralsLater(r, k) {
      assert ReferralsLater(users, k);
    }
  }

  /**
   * The outcome of `createUser` on a normalised email and a password hash:
   * a taken email is refused first, then an unknown supplied code; otherwise
   * the store is `Admit`ted with `referrer`, a holder of the code, and the
   * message reports the signup credit. A refused call changes nothing.
   */
  ghost predicate Registered(
    before: map<UserId, User>, beforeId: UserId, email: string, passwordHash: string, code: Option<string>,
    referrer: Option<UserId>, r: Result<string, Error>, after: map<UserId, User>, afterId: UserId)
  {
    if EmailTaken(before, email) then
      r == Failure(EmailExists) && after == before && afterId == beforeId
    else if Supplied(code) && !CodeKnown(before, code.value) then
      r == Failure(UnknownReferralCode) && after == before && afterId == beforeId
    else
      && beforeId !in before
      && ReferrerFor(before, code, referrer)
      && r == Success(CreatedMessage(code))
      && after == Admit(before, beforeId, NewRecord(email, passwordHash, SignupCredit(code)), referrer)
      && afterId == beforeId + 1
  }

  /**
   * `authenticateUser`'s outcome on a normalised email: unknown email, wrong
   * password, or the token signed for the matching user (an empty token is
   * refused).
   */
  ghost function Login(
    users: map<UserId, User>, email: string, password: string,
    verify: (string, string) -> bool, sign: UserId -> string): Result<string, Error>
  {
    if !EmailTaken(users, email) then Failure(UnknownUser)
    else
      var k :| k in users && users[k].email == email;
      if !verify(password, users[k].password) then Failure(WrongPassword)
      else if sign(k) == "" then Failure(TokenNotCreated)
      else Success(sign(k))
  }

  /**
   * Registering and then logging in with the same password, under any spelling
   * of the email that normalises alike, yields the new user's token, provided
   * the hash verifies its own password and signing works.
   */
  lemma LoginAfterRegister(
    users: map<UserId, User>, nextId: UserId, email: string, login: string, password: string,
    code: Option<string>, owner: Option<UserId>,
    hash: string -> string, verify: (string, string) -> bool, sign: UserId -> string)
    requires StoreValid(users, nextId)
    requires !EmailTaken(users, Normalize(email)) && ReferrerFor(users, code, owner)
    requires Normalize(login) == Normalize(email)
    requires verify(password, hash(password)) && sign(nextId) != ""
    ensures Login(Admit(users, nextId, NewRecord(Normalize(email), hash(password), SignupCredit(code)), owner),
                  Normalize(login), password, verify, sign) == Success(sign(nextId))
  {
    var e := Normalize(email);
    var r := Admit(users, nextId, NewRecord(e, hash(password), SignupCredit(code)), owner);
    AdmitKeepsValid(users, nextId, e, hash(password), code, owner);
    assert EmailTaken(r, e) by { assert r[nextId].email == e; }
    var k :| k in r && r[k].email == e;
    assert k == nextId;
  }

  /**
   * Once an email is registered, registering it again under any spelling that
   * normalises alike is refused with "Email already exists." and changes nothing.
   */
  lemma SecondRegistrationRefused(
    users: map<UserId, User>, nextId: UserId, email: string, again: string, passwordHash: string,
    code: Option<string>, owner: Option<UserId>,
    hash2: string, code2: Option<string>, referrer2: Option<UserId>,
    r: Result<string, Error>, after: map<UserId, User>, afterId: UserId)
    requires nextId !in users && ReferrerFor(users, code, owner)
    requires Normalize(again) == Normalize(email)
    ensures var s := Admit(users, nextId, NewRecord(Normalize(email), passwordHash, SignupCredit(code)), owner);
      Registered(s, nextId + 1, Normalize(again), hash2, code2, referrer2, r, after, afterId)
      <==> (r == Failure(EmailExists) && after == s && afterId == nextId + 1)
  {
    var s := Admit(users, nextId, NewRecord(Normalize(email), passwordHash, SignupCredit(code)), owner);
    assert s[nextId].email == Normalize(again);
  }

  /**
   * The user collection together with the credential and token services it
   * relies on (bcrypt's hash and compare, jwt's sign), which are opaque here.
   */
  class UserStore {
    var users: map<UserId, User>
    /** The next unused document id. */
    var nextId: UserId
    const hash: string -> string
    const verify: (string, string) -> bool
    const sign: UserId -> string

    ghost predicate Valid()
      reads this
    {
      StoreValid(users, nextId)
    }

    constructor (hash: string -> string, verify: (string, string) -> bool, sign: UserId -> string)
      ensures Valid() && users == map[] && nextId == 0
      ensures this.hash == hash && this.verify == verify && this.sign == sign
    {
      this.users := map[];
      this.nextId := 0;
      this.hash := hash;
      this.verify := verify;
      this.sign := sign;
    }

    /**
     * `_updateAndCreditReferrer`: find a holder of `code` and write back its
     * redeemed record, or fail if nobody holds the code. `owner` names the
     * holder that was picked.
     */
    method UpdateAndCreditReferrer(code: string, newId: UserId) returns (o: Outcome<Error>, ghost owner: UserId)
      modifies this`users
      ensures !CodeKnown(old(users), code) ==> o == Fail(UnknownReferralCode) && users == old(users)
      ensures CodeKnown(old(users), code) ==>
        && o == Pass
        && HoldsCode(old(users), owner, code)
        && users == old(users)[owner := Redeem(old(users)[owner], newId)]
    {
      if !exists k :: k in users && HoldsCode(users, k, code) {
        return Fail(UnknownReferralCode), 0;
      }
      var found :| found in users && HoldsCode(users, found, code);
      owner := found;
      var referrer := users[found];
      users := users[found := Redeem(referrer, newId)];
      o := Pass;
    }

    /**
     * `createUser`: refuse a taken (normalised) email, then an unknown supplied
     * code; otherwise credit the referrer, insert the new record with the
     * signup credit, and report that credit. `referrer` names the credited user.
     */
    method CreateUser(email: string, password: string, code: Option<string>)
      returns (r: Result<string, Error>, ghost referrer: Option<UserId>)
      requires Valid()
      modifies this
      ensures Valid()
      ensures Registered(old(users), old(nextId), Normalize(email), hash(password), code, referrer, r, users, nextId)
    {
      referrer := None;
      var formattedEmail := Normalize(email);
      if exists k :: k in users && users[k].email == formattedEmail {
        return Failure(EmailExists), referrer;
      }
      var newId := nextId;
      var newUser := NewRecord(formattedEmail, hash(password), SignupCredit(code));
      ghost var before := users;
      if Supplied(code) {
        var outcome, owner := UpdateAndCreditReferrer(code.value, newId);
        if outcome.Fail? {
          return Failure(outcome.error), referrer;
        }
        referrer := Some(owner);
      }
      users := users[newId := newUser];
      nextId := nextId + 1;
      r := Success(CreatedMessage(code));
      AdmitKeepsValid(before, newId, formattedEmail, hash(password), code, referrer);
    }

    /** `authenticateUser`: look up the normalised email, check the password, sign a token. */
    method AuthenticateUser(email: string, password: string) returns (r: Result<string, Error>)
      requires Valid()
      ensures r == Login(users, Normalize(email), password, verify, sign)
      ensures r == Failure(UnknownUser) <==> !EmailTaken(users, Normalize(email))
      ensures r == Failure(WrongPassword) <==>
        exists k :: k in users && users[k].email == Normalize(email) && !verify(password, users[k].password)
      ensures r.Success? ==> exists k :: k in users && users[k].email == Normalize(email) &&
                                        verify(password, users[k].password) && r.value == sign(k)
    {
      var formattedEmail := Normalize(email);
      if !exists k :: k in users && users[k].email == formattedEmail {
        return Failure(UnknownUser);
      }
      var k :| k in users && users[k].email == formattedEmail;
      ghost var chosen :| chosen in users && users[chosen].email == formattedEmail;
      assert chosen == k;
      if !verify(password, users[k].password) {
        return Failure(WrongPassword);
      }
      var token := sign(k);
      if token == "" {
        return Failure(TokenNotCreated);
      }
      r := Success(token);
    }

    /**
     * `getReferralCode`: refuse an unknown id or a user who already has a code;
     * otherwise store `generated` and return the referral link under `baseUrl`.
     */
    method GetReferralCode(id: UserId, generated: string, baseUrl: string) returns (r: Result<string, Error>)
      requires Valid() && |generated| == CODE_LENGTH
      modifies this`users
      ensures Valid()
      ensures id !in old(users) ==> r == Failure(UnknownUser) && users == old(users)
      ensures id in old(users) && HasIssuedCode(old(users)[id].referral_code, UNSET) ==>
        r == Failure(AlreadyIssued) && users == old(users)
      ensures id in old(users) && !HasIssuedCode(old(users)[id].referral_code, UNSET) ==>
        r == Success(ReferralUrl(baseUrl, generated)) &&
        users == old(users)[id := old(users)[id].(referral_code := Some(generated))]
    {
      if id !in users {
        return Failure(UnknownUser);
      }
      var user := users[id];
      if HasIssuedCode(user.referral_code, UNSET) {
        return Failure(AlreadyIssued);
      }
      users := users[id := user.(referral_code := Some(generated))];
      IssueKeepsValid(old(users), nextId, id, generated);
      r := Success(ReferralUrl(baseUrl, generated));
    }
  }
}
