# Referral ledger of referral-api, in Dafny

This project models the user service of referral-api (`src/services/user.js`)
acting on the `User` collection declared in `src/models/user.js`. There are
three operations:

- **Registration** (`createUser`). The email is normalised (`toLowerCase().trim()`)
  and a taken email is refused. The new user gets a signup credit of $10 when a
  referral code is supplied and $0 otherwise. A supplied code is redeemed against
  one of its holders (`_updateAndCreditReferrer`): the holder's `referral_count`
  goes up by one, the new id is appended to `referred_users`, and $10 is added
  exactly when the new count is a multiple of 5. After that the new record is
  inserted.
- **Authentication** (`authenticateUser`). The email is normalised and looked
  up, the password is checked against the stored hash, and a token is signed.
- **Referral-code issuance** (`getReferralCode`). As written, the guard refuses
  every user whose code is not the string "none", which includes every new user,
  whose code is `null` (see "## Findings"). The model uses the corrected guard: a
  user without a code gets an 8-character code and the link
  `<base>/register?code=<code>`, and later requests are refused.

Modules:

- `Wrappers` (`wrappers.dfy`): `Option`, `Result` and `Outcome`.
- `Email` (`email.dfy`): `toLowerCase` and `trim` as functions. `Normalize` is
  their composition. Lemmas show that it is idempotent, that its fixed points
  are exactly the strings with no upper-case letter and no white space at either
  end, and that case and surrounding white space do not matter.
- `UserModel` (`user_model.dfy`): the `User` record and its schema defaults
  (`NewRecord`), plus email uniqueness.
- `Referral` (`referral.dfy`): the pure rules.
  - When a code counts as supplied, and the signup credit.
  - `Redeem`, the referrer's record after one redemption, and `RedeemAll` for a
    run of redemptions. Their closed form: count, appended ids, and credit equal
    to the earned awards plus the possible signup bonus.
  - The success message, the referral URL (with a round trip through the
    tests' `split("=")[1]`), and the issuance guard.
- `UserService` (`user_service.dfy`):
  - the class `UserStore`, holding the collection as a `map<UserId, User>` that
    its methods update in place;
  - the store invariant `StoreValid`;
  - `Admit`, the store after a successful registration, and lemmas that every
    operation keeps the invariant.

The store invariant says:

- every id was handed out by the id allocator;
- emails are unique and normalised;
- in every record, `referral_count == |referred_users|`, and `credit` is
  `10 * (referral_count / 5)` plus 0 or the $10 signup bonus;
- every referred id names a user created later than its referrer, the lists
  are strictly increasing, and no id is credited to two referrers.

From this invariant the model proves that self-referral cannot happen. The
source has no self-referral check, and the model adds none.

Decisions:

- **Issuance guard.** `src/services/user.js:170` refuses issuance when
  `referral_code !== "none"`. The schema default is `null`
  (`src/models/user.js:20`), and the tests expect a fresh user's first request
  to succeed. The guard is modelled as `HasIssuedCode(code, unset)`, with the
  "unset" sentinel as a parameter. The as-written sentinel `Some("none")` is
  kept, with lemmas showing what it does (see "## Findings"). The service uses
  the schema's `null` (`None`).
- **Referral codes are not unique.** The schema has no unique constraint on
  `referral_code`, and `findOne` returns one match. `UpdateAndCreditReferrer`
  may pick any holder of the code; a ghost out-parameter names the one it picked.
- **Order of writes.** The referrer is updated before the new record is
  inserted, as in the source. The insert always succeeds.
- **Ids.** Document ids are opaque. The store hands them out from a counter
  `nextId`, which is what makes a new id fresh.
- **Credentials.** bcrypt's hash and compare and jwt's sign are
  constant function-valued fields `hash`, `verify` and `sign` of the store. An
  empty token is refused with "Error occured, could not create token.", as the
  source does.
- **The model follows the code everywhere except the issuance guard** (see
  "## Findings"). The model has no self-referral error, no conditional or atomic store updates,
  and no unique codes. The unit tests expect "User already exists." for a
  duplicate; the code throws "Email already exists.", and the model uses the
  code's message.

## Model

| member | source | states |
|---|---|---|
| `Email.ToLower` | src/services/user.js:72 | Lower-cases character by character and keeps the length; white space stays white space. |
| `Email.Trim` | src/services/user.js:72 | The result is the slice of the input that starts right after the leading white space, with only white space after it in the input, and it starts and ends with a character `trim` keeps. |
| `Email.Normalize` | src/services/user.js:72 | The normalised email has no upper-case letter and no white space at either end. Its characters are the lower-cased characters of the input after the leading white space, and only white space follows them in the input. |
| `Email.NormalizedIffFixed` | src/services/user.js:116 | A string is in normalised form exactly when normalising it changes nothing. |
| `Email.NormalizeIdempotent` | src/services/user.js:116-117 | Normalising an address that is already normalised (as stored at registration) gives the same address back, so login looks up the stored form. |
| `Email.NormalizeIgnoresCaseAndPadding` | src/services/user.js:72-73 | Addresses that differ only in white space before or after them, or only in letter case, normalise alike. |
| `UserModel.NewRecord` | src/models/user.js:8-34 | A new record has the given email, hash and credit, no referral code (`null`), count 0 and an empty referred list. |
| `UserModel.InsertKeepsEmailsUnique` | src/models/user.js:9-13 | Inserting a record whose email is not taken keeps emails unique across the collection. |
| `Referral.Supplied` | src/services/user.js:86-89 | A code counts as supplied exactly when `query.code` is present and non-empty; a missing code and "" both count as none, as JavaScript truthiness reads them. |
| `Referral.SignupCredit` | src/services/user.js:86 | The new user's credit is 10 exactly when a code is supplied, and 0 exactly when none is. |
| `Referral.Redeem` | src/services/user.js:31-58 | Count +1, the new id appended at the end, and credit +10 if and only if the new count is a multiple of 5 (otherwise credit unchanged); email, hash and code untouched. |
| `Referral.AwardStep` | src/services/user.js:37 | Going from count n to n+1 adds one award to `10 * (n / 5)` exactly when n+1 is a multiple of 5. |
| `Referral.RedeemKeepsBalanced` | src/services/user.js:31-47 | A redemption keeps the count equal to the length of the referred list, and the credit equal to `bonus + 10 * (count / 5)` with bonus 0 or 10. |
| `Referral.RedeemAllEffect` | src/services/user.js:21-60 | After a run of redemptions: the count has grown by their number, the ids are appended in order, and the credit has grown by the awards earned between the old and the new count. The code is unchanged. |
| `Referral.FreshReferrerSchedule` | __tests__/unit/user.test.js:72-187 | A referrer who started with credit 0 has `10 * (n / 5)` after n redemptions: 0 after 4, 10 after 5, 10 after 7. |
| `Referral.RedeemAllNeverLowersCredit` | src/services/user.js:37-58 | Redemptions never lower a referrer's credit. |
| `Referral.CreatedMessage` | src/services/user.js:86-101 | The success message states in dollars, in decimal, exactly the signup credit given to the new user. |
| `Referral.MessageDeterminesCredit` | src/services/user.js:86-101 | Two registrations get the same success message exactly when they get the same signup credit. |
| `Referral.ReferralUrl` | src/services/user.js:190-196 | The link is the base URL, then `/register?code=`, then the code, and nothing else. |
| `Referral.ReferralUrlRoundTrip` | __tests__/unit/user.test.js:75 | The link is `<base>/register?code=<code>` (src/services/user.js:190-196), and the tests' `split("=")[1]` gives the code back when neither part contains '='. |
| `Referral.HasIssuedCode` | src/services/user.js:170 | The guard never refuses a record whose code is the sentinel. With the schema's `null` as the sentinel it refuses exactly the records that have a code. With the as-written "none" it refuses every record whose code is not literally "none". |
| `Referral.AsWrittenRefusesNewRecord` | src/services/user.js:170-174 | With the as-written sentinel "none", the guard refuses every record created with the schema default. |
| `Referral.IssuanceOnce` | src/services/user.js:170-174 | With the schema's `null` as sentinel, a new record passes the guard, and a record that has been given a code is refused afterwards. |
| `UserService.Admit` | src/services/user.js:83-91 | After registration the store holds the old ids plus the new one. The new record is inserted, and the referrer holds its redeemed record. Every other record is unchanged, no credit goes down, and no email or code changes. |
| `UserService.NoSelfReferral` | src/services/user.js:21-60 | In a valid store, the referrer credited by a registration is never the user being created, and no user appears in their own referred list. |
| `UserService.AdmitKeepsEmails` | src/services/user.js:72-91 | Registering a normalised, untaken email keeps emails unique and normalised. |
| `UserService.AdmitKeepsLedgers` | src/services/user.js:31-58 | Registration keeps every record's count and credit in balance. |
| `UserService.AdmitKeepsOrder` | src/services/user.js:32-35 | Registration keeps every referred list a strictly increasing list of later users. |
| `UserService.AdmitKeepsReferredOnce` | src/services/user.js:32-35 | Registration keeps every user credited to at most one referrer. |
| `UserService.AdmitKeepsValid` | src/services/user.js:69-106 | A successful registration keeps the whole store invariant. |
| `UserService.IssueKeepsValid` | src/services/user.js:177-185 | Storing a code on a user keeps the store invariant. |
| `UserService.LoginAfterRegister` | src/services/user.js:114-148 | After registering, logging in with the same password under any spelling of the email that normalises alike returns the new user's token. This assumes the hash verifies its own password and signing works. |
| `UserService.SecondRegistrationRefused` | src/services/user.js:72-79 | After a registration, registering again under any spelling of the email that normalises alike has exactly one outcome: it fails with "Email already exists." and leaves the store and the id counter as they were. |
| `UserService.UserStore.UpdateAndCreditReferrer` | src/services/user.js:21-60 | With no holder of the code: "Referral code doesn't exist." and no change. Otherwise one holder's record, and no other, becomes its redeemed record. |
| `UserService.UserStore.CreateUser` | src/services/user.js:69-106 | A taken normalised email is refused first, then an unknown supplied code, each with no change. Otherwise the store becomes `Admit` of the old store, the signup credit is 10 or 0, the success message matches, and the invariant is kept. |
| `UserService.UserStore.AuthenticateUser` | src/services/user.js:114-153 | Fails with "User does not exist." exactly when no record has the normalised email. Fails with "Wrong password." exactly when a record has that email and the password does not verify against its hash. Fails with "Error occured, could not create token." when the signed token is empty. Otherwise it returns that user's token. The store is not modified. |
| `UserService.UserStore.GetReferralCode` | src/services/user.js:160-203 | An unknown id fails with "User does not exist.", a user with a code fails with "User has created a referal code already." (code unchanged); otherwise the code is stored on that user only and the link is returned. The invariant is kept. |

## Findings

| source | as written | input that shows it | evidently intended | confidence | as-written member | corrected member |
|---|---|---|---|---|---|---|
| src/services/user.js:170 | issuance is refused unless `referral_code` is the string "none", but the schema default is `null` (src/models/user.js:20) | any user created by `createUser` (its `referral_code` is `null`) asking for a code for the first time | refuse only when a code is already set (`referral_code` not `null`), so the first request succeeds, as test/user.test.js:92-98 expects | not executed | `Referral.AsWrittenRefusesNewRecord` | `Referral.IssuanceOnce`, `UserService.UserStore.GetReferralCode` |

## Left out

- bcrypt hashing and comparison and jwt signing are opaque function-valued fields. Salts, cost factor, token format and the 3-hour expiry are not modelled.
- `ShortUniqueId` is not modelled: the generated code is a parameter of length 8. Randomness and collision resistance are not modelled.
- Concurrency is not modelled. The source reads the referrer and then writes it without atomicity, and each operation here is one sequential step.
- Two error branches that depend on the database driver's results cannot occur in the model: "User not created." (`save` returning nothing) and "Referral code not created." (`nModified !== 1`). The insert and the code update always succeed.
- The choice between `prod_url` and `dev_url` is not modelled: the base URL is a parameter. Those settings are not defined in `src/config/config.js`.
- The Mongoose connection, the text index on `email`, Express routes and controllers, Joi validation, logging and HTTP status codes are not modelled. They are transport and driver plumbing.
- The profile fetch (`getUserById`) is not modelled: `src/services/user.js` defines no `getUserById`. The routes import it from the controller (src/routes/user.js:11) and the unit tests import it from the service (__tests__/unit/user.test.js:5), but neither module exports it.
- `Email.ToLower` lower-cases only ASCII letters, whereas JavaScript's `toLowerCase` applies full Unicode case mapping.
- `UserService.UserStore.UpdateAndCreditReferrer` may credit any holder of the code, whereas the source credits the document `findOne` returns first. With unique codes the two agree.
- A non-string `code` query value (an array from a repeated parameter, say) is not modelled: `query.code` is an optional string, supplied when it is present and non-empty.
