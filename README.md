# Referral signup and fee check, modelled in Dafny

This project models two pieces of decision logic from a referral-reward backend. The backend is built on Express, Firebase Auth, Firestore and the Algorand indexer.

**Signup** (`POST /signup`, `src/api/auth.ts`). A new user supplies an email, a password, a wallet address and an optional referral code. The handler does the following, in order:

1. It refuses missing credentials or a missing wallet.
2. It refuses a wallet address that some record already holds.
3. It resolves `referredBy`: the sentinel `"GENESIS"` for an absent or blank code. Otherwise the trimmed code, provided some record holds it; if none does, the request is refused.
4. It asks the identity provider for an account id.
5. It writes the new record under that id: `referralCode` is the id, the balance is 5, and `referrals` is empty.
6. It credits the genesis document at `DOCUMENT_PATH` with +5 and adds the new id to that document's referrals.
7. It walks the `referredBy` chain for at most 5 levels. The walk stops at `"GENESIS"` or at a code no record holds. Each referrer it finds gets +5 and the new id, added as a set-union.

**Fee check** (`verifyFeeTX`, `src/algorand/transactionHelpers/verifyFeeTX.ts`). A transaction looked up on the indexer passes exactly when all of these hold:
- it was sent by the user's wallet;
- it paid the fixed platform address;
- the amount is exactly 500000 microAlgos.

A failed lookup counts as `false`.

## How the model is built

- `wrappers.dfy`: `Option` and `Result`.
- `js_string.dfy` (`JsString`): ECMAScript `String.prototype.trim`, over the ECMAScript white-space and line-terminator code points.
- `users.dfy` (`Users`) contains:
  - the `User` record and the collection as `map<string, User>`;
  - `arrayUnion`;
  - one reward (`Credited`, applied to one document by `CreditOne`), and the rewards of a whole walk (`CreditAll`);
  - the step from a visited document to the next code (`Link`).
  
  It also specifies the referral walk as a relation, `IsWalk(users, start, trace)`: `trace` follows the chain from `start` and ends after 5 visits, at the sentinel, or at a code no record holds.
- `signup.dfy` (`Signup`) contains:
  - the validation function `Admit`;
  - the relation `SignupOutcome`, which states everything one signup does to the collection;
  - `GenesisPath`, the genesis document's id from `DOCUMENT_PATH` or its default;
  - the class `UserStore`, which holds the collection in a field.

  `UserStore.WalletInUse` and `UserStore.FindByCode` are the store's two query primitives: the where-query on `walletAddress` and the where-query on `referralCode` followed by `docs[0]`. `UserStore.Validate` makes the handler's checks with them, and is proved to return `Admit`'s verdict. `UserStore.Signup` is the handler, written step by step. `UserStore.PropagateReward` is its `for` loop, with the loop invariants. Both are proved to satisfy their specifications.
- `signup_properties.dfy` (`SignupProperties`): what follows from `SignupOutcome`. This covers rejections, the new record, the genesis credit, the frame and monotonicity, unique wallets and unique codes kept, the double credit of the genesis document, and determinism.
- `scenarios.dfy` (`Scenarios`): a three-level chain, a chain deeper than the bound, and a referral cycle.
- `fee_tx.dfy` (`FeeTx`): `verifyFeeTX` as a boolean function of the wallet address and the lookup's answer.

A Firestore where-query followed by `docs[0]` is modelled as "some document holding the code" (`UserStore.FindByCode`). So `Signup` reports the documents its walk visited in a ghost out-parameter. `SignupOutcome` accepts any choice among documents that share a code. `SignupDeterministic` shows that the outcome is unique when referral codes are unique.

Two behaviours of the code are reproduced as written:
- **The genesis document is found by path, not by code.** When `referredBy` is `"GENESIS"`, the loop stops before any update (auth.ts:105). The genesis document is then credited exactly once (`GenesisReferralRewardsOnlyGenesis`). It is credited a second time only when the walk reaches it through its own `referralCode` (`GenesisAsReferrerCreditedTwice`).
- **There is no visited set.** A cycle is walked until the depth bound. Each visit adds +5, while `arrayUnion` adds the id only once (`CycleRevisits`).

The `referredBy` the handler stores is the trimmed code (auth.ts:64), not the code as sent.

## Model

| member | source | states |
|---|---|---|
| `JsString.TrimStart` | src/api/auth.ts:57 | the result is the suffix of the input after its leading white space: everything dropped is white space, and the result is empty or starts with a non-white-space character |
| `JsString.TrimEnd` | src/api/auth.ts:57 | the result is the prefix of the input before its trailing white space: everything dropped is white space, and the result is empty or ends with a non-white-space character |
| `JsString.Trim` | src/api/auth.ts:57 | `trim()` is empty exactly when the input is all white space, so an absent or blank code means "no code"; a non-empty result starts and ends with a non-white-space character and is no longer than the input |
| `JsString.TrimRemovesPadding` | src/api/auth.ts:60 | a code with any white space around it trims back to the code itself, so the lookup uses the code without its padding |
| `JsString.TrimIdempotent` | src/api/auth.ts:57 | a property of `trim()` itself: trimming a trimmed string changes nothing |
| `Users.ArrayUnion` | src/api/auth.ts:99 | `arrayUnion(id)` leaves a list holding the id. Its elements are exactly the old ones plus the id, the old list is a prefix, it grows by at most one, and a list without duplicates stays without duplicates |
| `Users.ArrayUnionIdempotent` | src/api/auth.ts:123 | adding an id that is already present leaves the list unchanged |
| `Users.Credited` | src/api/auth.ts:97-100 | one `update` with `increment(5)` and `arrayUnion(id)`: the balance rises by exactly 5; the referrals become `ArrayUnion` of the old ones and the id, so the id is in them and the old referrals are a prefix; every other field is unchanged |
| `Users.CreditOne` | src/api/auth.ts:118-124 | the update of one document: the key set stays the same, that document becomes `Credited` of its old value (5 more and the new id), and every other document is unchanged |
| `Users.Link` | src/api/auth.ts:127 | the next code of the walk is the visited document's `referredBy`, or `"GENESIS"` when that field is missing or empty; it is never the empty string |
| `Users.CreditAllOnce` | src/api/auth.ts:118-124 | a walk that visits no document twice credits each visited document exactly once |
| `Users.CreditAll` | src/api/auth.ts:118-124 | the rewards of a walk neither add nor remove documents |
| `Users.CreditAllAt` | src/api/auth.ts:118-124 | after a walk's rewards, each document's balance has risen by 5 per visit. The new id is in its referrals once if it was visited at all. Every other field is unchanged |
| `Users.CreditAllUntouched` | src/api/auth.ts:118-124 | a document the walk did not visit is left exactly as it was |
| `Users.SameLinksSameWalks` | src/api/auth.ts:107-127 | stores that agree on keys, codes and `referredBy` answer every code lookup alike and admit the same walks, so increments made during the loop do not change where it goes |
| `Users.WalkEmptyIffStops` | src/api/auth.ts:104-112 | the walk visits nothing exactly when its starting code is `"GENESIS"` or a code no record holds |
| `Users.WalkVisitsHolders` | src/api/auth.ts:107-115 | every visited document exists and holds the code looked up at its level, and that code is neither the sentinel nor missing |
| `Users.WalkDeterministic` | src/api/auth.ts:107-114 | when no two records share a referral code, there is only one walk from a code, so the choice of `docs[0]` never matters |
| `Signup.ResolveReferredBy` | src/api/auth.ts:55-64 | an absent or blank code resolves to `"GENESIS"`; any other code resolves to its non-empty trimmed form |
| `Signup.Admit` | src/api/auth.ts:32-76 | a request is accepted exactly when all of these hold: email, password and wallet are present, the wallet is unused, the code is blank or held by some record, and the identity provider gave an id. `DuplicateWallet` is reported exactly when the credentials are present and the wallet is taken. An accepted `referredBy` is `"GENESIS"` or a code some record holds |
| `Signup.GenesisPath` | src/api/auth.ts:15 | the genesis document's id is `DOCUMENT_PATH` when it is set and non-empty, otherwise `default_document_path`; it is never empty |
| `Signup.UserStore.Validate` | src/api/auth.ts:32-76 | the handler's checks, made with the store's queries, return exactly `Admit`'s verdict on the collection as it stands, and write nothing |
| `Signup.UserStore.FindByCode` | src/api/auth.ts:107-115 | the code query returns a document that holds the code; it returns none exactly when no document does |
| `Signup.UserStore.Credit` | src/api/auth.ts:118-124 | the update with `increment(5)` and `arrayUnion(id)` changes only that document, as `Credited` says |
| `Signup.UserStore.PropagateReward` | src/api/auth.ts:102-128 | the loop performs a walk (`IsWalk`) from the starting code, and the collection afterwards is the old one with that walk's rewards applied |
| `Signup.UserStore.Signup` | src/api/auth.ts:32-128 | the handler satisfies `SignupOutcome`. A rejection writes nothing. Otherwise it writes the new record; if the genesis document is missing it stops with an error, else it credits genesis, then runs the walk and applies its rewards |
| `SignupProperties.RejectionWritesNothing` | src/api/auth.ts:32-76 | a request refused during validation, or by the identity provider, leaves the collection unchanged and visits nothing |
| `SignupProperties.DuplicateWalletRejected` | src/api/auth.ts:42-52 | a wallet address some record holds is refused with `DuplicateWallet`, and the collection is unchanged |
| `SignupProperties.UnknownCodeRejected` | src/api/auth.ts:57-68 | a non-blank code that no record holds is refused with `InvalidReferralCode` before anything is written |
| `SignupProperties.SignupAddsNewRecord` | src/api/auth.ts:76-93 | a successful signup adds exactly one key, the new id. The record stored there has `referralCode` = id, balance 5, no referrals, and `referredBy` as resolved. The walk visits at most 5 existing records |
| `SignupProperties.SignupRewards` | src/api/auth.ts:95-128 | for every existing record: balance = old + 5 × (1 if it is the genesis document + the number of walk visits); its referrals gain the new id once if it was credited at all; nothing else changes |
| `SignupProperties.GenesisCredited` | src/api/auth.ts:95-100 | whatever the code, the genesis document gains 5 plus 5 per walk visit, and the new id is in its referrals |
| `SignupProperties.GenesisReferralRewardsOnlyGenesis` | src/api/auth.ts:103-105 | when `referredBy` resolves to `"GENESIS"`, there is no walk: genesis gains exactly 5, and every other existing record is unchanged |
| `SignupProperties.NoWalkFromGenesis` | src/api/auth.ts:105 | a successful signup referred by `"GENESIS"` visits nothing |
| `SignupProperties.SignupOnlyGrows` | src/api/auth.ts:93-124 | no balance decreases and no referral is removed. Only the genesis document and the visited records change among the existing ones |
| `SignupProperties.SignupKeepsWalletsUnique` | src/api/auth.ts:42-93 | when no two records share a wallet before a successful signup, none do afterwards: the new wallet was checked to be unused, and no existing wallet changes |
| `SignupProperties.SignupKeepsCodesUnique` | src/api/auth.ts:76-93 | when no two records share a referral code before a successful signup, none do afterwards: the new code is the fresh id, and no existing code changes |
| `SignupProperties.GenesisAsReferrerCreditedTwice` | src/api/auth.ts:96-127 | a signup that names the genesis document's own code visits that document once (when codes are unique and genesis refers to nobody), and genesis gains 10 |
| `SignupProperties.SignupDeterministic` | src/api/auth.ts:107-114 | with unique referral codes and a fresh id, two runs on the same input give the same result, the same collection and the same walk |
| `Scenarios.ChainOfThreeRewardsEachOnce` | src/api/auth.ts:102-128 | on the chain A→B→C→GENESIS, the walk from A visits exactly A, B and C and then stops; its rewards leave each of them with balance 5 and referrals `["d"]` |
| `Scenarios.DepthBoundStopsAfterFive` | src/api/auth.ts:104 | on a chain of seven referrers, the walk is records 1 to 5. Each of them ends with balance 5 and referrals `["n"]`, and the sixth and seventh are left exactly as they were |
| `Scenarios.CycleRevisits` | src/api/auth.ts:104-127 | on a two-record cycle the walk is A, B, A, B, A: A gains 15 and B gains 10, but each lists the new id once |
| `FeeTx.VerifyFeeTx` | src/algorand/transactionHelpers/verifyFeeTX.ts:3-30 | the check passes exactly for a found payment from the wallet, to the fixed recipient, of 500000 microAlgos |
| `FeeTx.WrongSenderRejected` | src/algorand/transactionHelpers/verifyFeeTX.ts:13-25 | a transaction from any other sender fails the check |
| `FeeTx.WrongRecipientRejected` | src/algorand/transactionHelpers/verifyFeeTX.ts:14-25 | a payment to any other receiver, or with no receiver, fails the check |
| `FeeTx.WrongAmountRejected` | src/algorand/transactionHelpers/verifyFeeTX.ts:15-25 | any other amount, or no amount, fails the check |
| `FeeTx.NonPaymentRejected` | src/algorand/transactionHelpers/verifyFeeTX.ts:14-21 | a transaction without a payment part (receiver and amount undefined) fails the check |
| `FeeTx.LookupFailureRejected` | src/algorand/transactionHelpers/verifyFeeTX.ts:26-29 | a failed lookup gives `false` rather than an error |

## Left out

- The origin check, HTTP status codes and JSON response bodies of `/signup`, and the session token from `generateToken` (JWT signing). These are transport concerns; the model returns the new id or a `SignupError`.
- The `/login` handler and `src/api/totalMembers.ts`. Login is a call to the identity provider's REST endpoint plus one lookup, and the member count is the size of a query. Neither has logic of its own.
- `lastWithdrawalDate`. It is always written as `null` and never read by this code.
- The password. Only whether it is present is modelled; it goes only to the identity provider.
- `auth.createUser`, Firestore and the Algorand indexer are inputs: the created id as an `Option`, the collection as a map, and the lookup result as a `Lookup`. Logging is left out.
- Concurrency. Two signups running at once can interleave their queries and updates. The model treats each store operation as a sequential map operation, run by one signup at a time.
- Store failures other than a missing genesis document. That failure is modelled: the new record stays written and the result is `GenesisNotFound`. Any other failed update would leave the earlier writes committed and return a 500; the model assumes every other store step succeeds.
- The order of Firestore query results. `docs[0]` is modelled as any document holding the code, not as the one with the smallest document id.
- A referral code sent as a non-string JSON value would make `trim()` throw. The model takes the code as a string.
- `SignupProperties.SignupAddsNewRecord`: assumes the id from the identity provider is fresh and that the genesis document exists. Fresh means no record has the id as its key, its `referralCode` or its `referredBy`. The handler itself does not check either.
- `SignupProperties.SignupRewards`: under the same fresh-id and genesis-exists assumptions.
- `SignupProperties.GenesisCredited`: under the same fresh-id and genesis-exists assumptions.
- `SignupProperties.GenesisReferralRewardsOnlyGenesis`: under the same fresh-id and genesis-exists assumptions.
- `SignupProperties.SignupOnlyGrows`: under the same fresh-id and genesis-exists assumptions.
- `SignupProperties.SignupKeepsWalletsUnique`: under the same fresh-id and genesis-exists assumptions.
- `SignupProperties.SignupKeepsCodesUnique`: under the same fresh-id and genesis-exists assumptions.
- `SignupProperties.GenesisAsReferrerCreditedTwice`: also assumes unique referral codes, and that the genesis document refers to nobody.
- `Users.Credited`: assumes the stored balance is a number, `referrals` is an array, and the balance never reaches 2^63−1. Firestore's `increment(5)` saturates at 2^63−1 and sets a non-numeric field to 5, and `arrayUnion(id)` replaces a non-array field with `[id]`. The model's unbounded `int` and `seq` do not capture those edges. A missing field comes out right, because it is encoded as 0 or `[]`. The records this handler writes always have the expected types; only the genesis document (auth.ts:96-100) is written elsewhere.
- `FeeTx.VerifyFeeTx`: amounts are whole numbers, compared as the JavaScript numbers of the indexer's answer. A `bigint` amount from another SDK version would never equal `500000` under `===`; that is not modelled.
