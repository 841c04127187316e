/**
 * The pure rules of the referral ledger in src/services/user.js: when a code
 * counts as supplied, what a redemption does to the referrer's record, the
 * signup credit and its message, the referral URL, and the issuance guard.
 */
module Referral {
  import opened Wrappers
  import opened UserModel

  /** Every CADENCE-th redemption earns the referrer an award. */
  const CADENCE: nat := 5
  /** The referrer's award, in dollars. */
  const AWARD: nat := 10
  /** The credit a user registering with a code starts with, in dollars. */
  const SIGNUP_BONUS: nat := 10
  /** The length of a generated referral code. */
  const CODE_LENGTH: nat := 8

  /**
   * `query?.code` is truthy: a code was passed and it is not the empty string.
   * A missing query, a missing or null code and "" all read as "no code".
   */
  predicate Supplied(code: Option<string>): (b: bool)
    ensures code == None || code == Some("") ==> !b
    ensures b <==> code.Some? && |code.value| > 0
  {
    code.Some? && code.value != ""
  }

  /** The credit a new user starts with: `query?.code ? 10 : 0`. */
  function SignupCredit(code: Option<string>): (c: nat)
    ensures c == SIGNUP_BONUS <==> Supplied(code)
    ensures c == 0 <==> !Supplied(code)
  {
    if Supplied(code) then SIGNUP_BONUS else 0
  }

  /** Total award credit earned once a referrer has `count` redemptions. */
  function AwardsFor(count: nat): nat {
    AWARD * (count / CADENCE)
  }

  /**
   * The ledger of one record is consistent: one count per referred user, and
   * the credit is the earned awards plus, possibly, the signup bonus.
   */
  predicate Balanced(u: User) {
    && u.referral_count == |u.referred_users|
    && (u.credit == AwardsFor(u.referral_count) || u.credit == SIGNUP_BONUS + AwardsFor(u.referral_count))
  }

  /**
   * The referrer's record after `_updateAndCreditReferrer` redeems its code for
   * `newId`: the count goes up by one, `newId` is appended, and the award is
   * added exactly when the new count is a multiple of CADENCE.
   */
  function Redeem(referrer: User, newId: UserId): (r: User)
    ensures r.referral_count == referrer.referral_count + 1
    ensures r.referred_users == referrer.referred_users + [newId]
    ensures r.credit == referrer.credit + AWARD <==> r.referral_count % CADENCE == 0
    ensures r.credit == referrer.credit <==> r.referral_count % CADENCE != 0
    ensures r.email == referrer.email && r.password == referrer.password
    ensures r.referral_code == referrer.referral_code
  {
    var updatedCount := referrer.referral_count + 1;
    var updatedReferred := referrer.referred_users + [newId];
    if updatedCount % CADENCE == 0 then
      referrer.(referral_count := updatedCount, credit := referrer.credit + AWARD, referred_users := updatedReferred)
    else
      referrer.(referral_count := updatedCount, referred_users := updatedReferred)
  }

  /** Crossing from `count` to `count + 1` earns one award exactly at a multiple of CADENCE. */
  lemma AwardStep(count: nat)
    ensures AwardsFor(count + 1) == AwardsFor(count) + (if (count + 1) % CADENCE == 0 then AWARD else 0)
  {
  }

  /** A redemption keeps the record's ledger consistent. */
  lemma {:induction false} RedeemKeepsBalanced(u: User, newId: UserId)
    requires Balanced(u)
    ensures Balanced(Redeem(u, newId))
  {
    AwardStep(u.referral_count);
  }

  /** The referrer's record after redemptions by `ids`, in that order. */
  function RedeemAll(u: User, ids: seq<UserId>): User
    decreases |ids|
  {
    if ids == [] then u else RedeemAll(Redeem(u, ids[0]), ids[1..])
  }

  /**
   * After a run of redemptions the count has grown by their number, the ids are
   * appended in order, and the credit has grown by the awards earned in between.
   */
  lemma {:induction false} RedeemAllEffect(u: User, ids: seq<UserId>)
    ensures RedeemAll(u, ids).referral_count == u.referral_count + |ids|
    ensures RedeemAll(u, ids).referred_users == u.referred_users + ids
    ensures RedeemAll(u, ids).credit + AwardsFor(u.referral_count)
         == u.credit + AwardsFor(u.referral_count + |ids|)
    ensures RedeemAll(u, ids).referral_code == u.referral_code
    decreases |ids|
  {
    if ids != [] {
      var v := Redeem(u, ids[0]);
      AwardStep(u.referral_count);
      RedeemAllEffect(v, ids[1..]);
      assert u.referred_users + [ids[0]] + ids[1..] == u.referred_users + ids;
    }
  }

  /**
   * A referrer who signed up without a code earns AWARD for every CADENCE
   * redemptions: nothing after 4, 10 after 5, still 10 after 7.
   */
  lemma {:induction false} FreshReferrerSchedule(email: string, password: string, ids: seq<UserId>)
    ensures RedeemAll(NewRecord(email, password, 0), ids).credit == AWARD * (|ids| / CADENCE)
    ensures |ids| == 4 ==> RedeemAll(NewRecord(email, password, 0), ids).credit == 0
    ensures |ids| == 5 ==> RedeemAll(NewRecord(email, password, 0), ids).credit == 10
    ensures |ids| == 7 ==> RedeemAll(NewRecord(email, password, 0), ids).credit == 10
  {
    RedeemAllEffect(NewRecord(email, password, 0), ids);
  }

  /** Credit is never taken away by redemptions. */
  lemma {:induction false} RedeemAllNeverLowersCredit(u: User, ids: seq<UserId>)
    ensures RedeemAll(u, ids).credit >= u.credit
    decreases |ids|
  {
    if ids != [] {
      RedeemAllNeverLowersCredit(Redeem(u, ids[0]), ids[1..]);
    }
  }

  /** The decimal digits of `n`. */
  function DecimalString(n: nat): (s: string)
    ensures |s| >= 1
    decreases n
  {
    if n < 10 then [('0' as int + n) as char]
    else DecimalString(n / 10) + [('0' as int + n % 10) as char]
  }

  /** The success message of `createUser`: it reports in dollars the credit the new user was given. */
  function CreatedMessage(code: Option<string>): (m: string)
    ensures m == "User created successfully with credit balance of $" + DecimalString(SignupCredit(code)) + "."
  {
    assert DecimalString(10) == "10" && DecimalString(0) == "0";
    "User created successfully with credit balance of " + (if Supplied(code) then "$10" else "$0") + "."
  }

  /** Two registrations get the same message exactly when they get the same signup credit. */
  lemma {:induction false} MessageDeterminesCredit(a: Option<string>, b: Option<string>)
    ensures CreatedMessage(a) == CreatedMessage(b) <==> SignupCredit(a) == SignupCredit(b)
  {
    if SignupCredit(a) != SignupCredit(b) {
      assert |CreatedMessage(a)| != |CreatedMessage(b)|;
    }
  }

  /** The path and query key between the base URL and the code. */
  const REGISTER_QUERY: string := "/register?code="

  /** The link `getReferralCode` returns: `<base>/register?code=<code>`. */
  function ReferralUrl(base: string, code: string): (u: string)
    ensures |u| == |base| + |REGISTER_QUERY| + |code|
    ensures u[..|base|] == base
    ensures u[|base|..|base| + |REGISTER_QUERY|] == REGISTER_QUERY
    ensures u[|base| + |REGISTER_QUERY|..] == code
  {
    base + REGISTER_QUERY + code
  }

  /** The text up to the first '=' (the whole text if there is none). */
  function UpToEquals(s: string): (r: string)
    ensures |r| <= |s| && '=' !in r
  {
    if s == [] || s[0] == '=' then [] else [s[0]] + UpToEquals(s[1..])
  }

  /** `s.split("=")[1]`: the field after the first '=', or `None` (undefined) if there is no '='. */
  function SecondField(s: string): Option<string> {
    if s == [] then None
    else if s[0] == '=' then Some(UpToEquals(s[1..]))
    else SecondField(s[1..])
  }

  lemma {:induction false} SecondFieldSkipsPrefix(p: string, rest: string)
    requires '=' !in p
    ensures SecondField(p + rest) == SecondField(rest)
    decreases |p|
  {
    if p != [] {
      assert (p + rest)[0] == p[0];
      assert (p + rest)[1..] == p[1..] + rest;
      SecondFieldSkipsPrefix(p[1..], rest);
    } else {
      assert p + rest == rest;
    }
  }

  lemma {:induction false} UpToEqualsWhole(code: string)
    requires '=' !in code
    ensures UpToEquals(code) == code
    decreases |code|
  {
    if code != [] {
      UpToEqualsWhole(code[1..]);
    }
  }

  /**
   * The code can be read back from the link with `split("=")[1]`, provided
   * neither the base URL nor the code contains '='.
   */
  lemma {:induction false} ReferralUrlRoundTrip(base: string, code: string)
    requires '=' !in base && '=' !in code
    ensures SecondField(ReferralUrl(base, code)) == Some(code)
  {
    var p := base + "/register?code";
    assert REGISTER_QUERY == "/register?code" + "=";
    assert ReferralUrl(base, code) == p + ("=" + code);
    SecondFieldSkipsPrefix(p, "=" + code);
    assert ("=" + code)[1..] == code;
    UpToEqualsWhole(code);
  }

  /** The "no code yet" value the issuance guard compares against, as written: the string "none". */
  const UNSET_AS_WRITTEN: Option<string> := Some("none")
  /** The "no code yet" value of the schema: `null`. */
  const UNSET: Option<string> := None

  /** The issuance guard `referral_code !== unset`: true means "already issued, refuse". */
  predicate HasIssuedCode(code: Option<string>, unset: Option<string>): (refuse: bool)
    ensures code == unset ==> !refuse
    ensures unset == UNSET ==> (refuse <==> code.Some?)
    ensures unset == UNSET_AS_WRITTEN ==> (refuse <==> code != Some("none"))
  {
    code != unset
  }

  /**
   * As written, the guard refuses every record created with the schema default,
   * so no user created by `createUser` could ever obtain a code.
   */
  lemma AsWrittenRefusesNewRecord(email: string, password: string, credit: nat)
    ensures HasIssuedCode(NewRecord(email, password, credit).referral_code, UNSET_AS_WRITTEN)
  {
  }

  /**
   * With the schema's `null` as the unset value, a new record passes the guard,
   * and once a code is stored the guard refuses every later request.
   */
  lemma IssuanceOnce(email: string, password: string, credit: nat, code: string)
    ensures !HasIssuedCode(NewRecord(email, password, credit).referral_code, UNSET)
    ensures HasIssuedCode(NewRecord(email, password, credit).(referral_code := Some(code)).referral_code, UNSET)
  {
  }
}
