/**
 * The `/signup` handler of the referral backend, over the `users`
 * collection: request validation, wallet uniqueness, referral-code
 * resolution, creation of the new record, the credit of the genesis
 * document and the 5-level referral walk.
 */
module Signup {
  import opened Wrappers
  import opened JsString
  import opened Users

  /** The genesis document's id when DOCUMENT_PATH is not set. */
  const DefaultDocumentPath: string := "default_document_path"

  /** The id of the genesis document: the DOCUMENT_PATH environment
      variable, or the default when it is unset or empty. Never empty. */
  function GenesisPath(documentPath: Option<string>): (path: string)
    ensures path != ""
    ensures documentPath.Some? && documentPath.value != "" ==> path == documentPath.value
    ensures documentPath.None? || documentPath.value == "" ==> path == DefaultDocumentPath
  {
    if documentPath.Some? && documentPath.value != "" then documentPath.value else DefaultDocumentPath
  }

  /** The fields of the request body the handler reads; an absent field is
      the empty string. */
  datatype Request = Request(email: string, password: string, walletAddress: string, referralCode: string)

  datatype SignupError =
    | MissingCredentials   // email or password absent (400)
    | MissingWallet        // wallet address absent (400)
    | DuplicateWallet      // some record already holds the wallet address (400)
    | InvalidReferralCode  // a non-blank code that no record holds (400)
    | IdentityRejected     // the identity provider refused to create the account (500)
    | GenesisNotFound      // the update of the genesis document failed: it does not exist (500)

  /** A request that passed validation: the id the identity provider gave
      the account, and the code it is referred by. */
  datatype Admission = Admission(uid: string, referredBy: string)

  /** The `referredBy` of an accepted request: the sentinel for an absent or
      blank code, the trimmed code otherwise. */
  function ResolveReferredBy(code: string): (r: string)
    ensures AllWhitespace(code) ==> r == GenesisCode
    ensures !AllWhitespace(code) ==> r == Trim(code) && r != []
  {
    var t := Trim(code);
    if t == "" then GenesisCode else t
  }

  /** Everything the handler decides before it writes anything, in the order
      it checks: credentials, wallet presence, wallet uniqueness, the
      referral code, and the identity provider's answer. */
  function Admit(users: Store, req: Request, createdUid: Option<string>): (r: Result<Admission, SignupError>)
    ensures r.Success? <==>
      && req.email != "" && req.password != "" && req.walletAddress != ""
      && !WalletTaken(users, req.walletAddress)
      && (AllWhitespace(req.referralCode) || HasCode(users, Trim(req.referralCode)))
      && createdUid.Some?
    ensures r.Success? ==> r.value == Admission(createdUid.value, ResolveReferredBy(req.referralCode))
    ensures r.Success? ==> r.value.referredBy == GenesisCode || HasCode(users, r.value.referredBy)
    ensures r == Failure(DuplicateWallet) <==>
      req.email != "" && req.password != "" && req.walletAddress != "" && WalletTaken(users, req.walletAddress)
    ensures r == Failure(InvalidReferralCode) ==> !AllWhitespace(req.referralCode) && !HasCode(users, Trim(req.referralCode))
  {
    if req.email == "" || req.password == "" then Failure(MissingCredentials)
    else if req.walletAddress == "" then Failure(MissingWallet)
    else if WalletTaken(users, req.walletAddress) then Failure(DuplicateWallet)
    else if Trim(req.referralCode) != "" && !HasCode(users, Trim(req.referralCode)) then Failure(InvalidReferralCode)
    else if createdUid.None? then Failure(IdentityRejected)
    else Success(Admission(createdUid.value, ResolveReferredBy(req.referralCode)))
  }

  /** The record written for an accepted request: its own id as referral
      code, a balance of 5 and no referrals. */
  function NewUser(req: Request, a: Admission): User
  {
    User(req.email, req.walletAddress, a.uid, a.referredBy, Reward, [])
  }

  /** What one signup does to the collection: `after` is the collection
      afterwards, `r` the outcome, `visited` the documents the referral walk
      rewarded, in order. */
  ghost predicate SignupOutcome(before: Store, genesisPath: string, req: Request, createdUid: Option<string>,
                                after: Store, r: Result<string, SignupError>, visited: seq<string>)
  {
    match Admit(before, req, createdUid)
    case Failure(e) => r == Failure(e) && after == before && visited == []
    case Success(a) =>
      var stored := before[a.uid := NewUser(req, a)];
      if genesisPath !in stored then
        r == Failure(GenesisNotFound) && after == stored && visited == []
      else
        var boosted := CreditOne(stored, genesisPath, a.uid);
        && r == Success(a.uid)
        && IsWalk(boosted, a.referredBy, visited)
        && after == CreditAll(boosted, visited, a.uid)
  }

  /** The id the identity provider returned is new to the collection: no
      document has it as id, as referral code, or as `referredBy`. */
  ghost predicate Fresh(users: Store, uid: string)
  {
    && uid !in users
    && forall id | id in users :: users[id].referralCode != uid && users[id].referredBy != uid
  }

  /** The `users` collection, with the genesis document at `genesisPath`. */
  class UserStore {
    var users: Store
    const genesisPath: string

    /** The store as the module sets it up: the genesis document's id comes
        from DOCUMENT_PATH, read once at load time. */
    constructor (documentPath: Option<string>, users: Store)
      ensures genesisPath == GenesisPath(documentPath) && this.users == users
    {
      genesisPath := GenesisPath(documentPath);
      this.users := users;
    }

    /** The where-query on `walletAddress`: is it non-empty? */
    method WalletInUse(wallet: string) returns (inUse: bool)
      ensures inUse <==> WalletTaken(users, wallet)
    {
      inUse := exists id | id in users :: users[id].walletAddress == wallet;
    }

    /** The where-query on `referralCode`, then `docs[0]`: some document that
      holds the code, or none when no document does. */
    method FindByCode(code: string) returns (found: Option<string>)
      ensures found.Some? ==> found.value in users && users[found.value].referralCode == code
      ensures found.None? <==> !HasCode(users, code)
    {
      if exists id | id in users :: users[id].referralCode == code {
        var id :| id in users && users[id].referralCode == code;
        found := Some(id);
      } else {
        found := None;
      }
    }

    /** `update` with `increment(5)` and `arrayUnion(newId)` on the document `id`. */
    method Credit(id: string, newId: string)
      requires id in users
      modifies this
      ensures users == CreditOne(old(users), id, newId)
    {
      users := users[id := Credited(users[id], newId)];
    }

    /** The multi-level referral loop: from `start`, at most `MaxLevels`
        times, stop at the sentinel or at a code no document holds, else
        reward the document found and move to its `referredBy`. */
    method PropagateReward(start: string, newId: string) returns (ghost visited: seq<string>)
      modifies this
      ensures IsWalk(old(users), start, visited)
      ensures users == CreditAll(old(users), visited, newId)
    {
      visited := [];
      ghost var initial := users;
      var current := start;
      var level := 0;
      while level < MaxLevels
        invariant 0 <= level <= MaxLevels && |visited| == level
        invariant Follows(initial, start, visited)
        invariant current == CodeAt(initial, start, visited, level)
        invariant users == CreditAll(initial, visited, newId)
        invariant SameLinks(initial, users)
      {
        if current == GenesisCode {
          break;
        }
        var referrer := FindByCode(current);
        if referrer.None? {
          SameLinksSameWalks(initial, users, start, visited);
          break;
        }
        var id := referrer.value;
        var next := if users[id].referredBy != "" then users[id].referredBy else GenesisCode;
        assert next == Link(initial, id);
        FollowsExtend(initial, start, visited, id);
        CreditAllExtend(initial, visited, id, newId);
        Credit(id, newId);
        visited := visited + [id];
        CreditAllSameLinks(initial, visited, newId);
        current := next;
        level := level + 1;
      }
    }

    /** The checks the handler makes before it writes anything, against the
        collection as it stands: credentials, wallet presence, the wallet
        query, the referral-code query, and the identity provider's answer. */
    method Validate(req: Request, createdUid: Option<string>) returns (r: Result<Admission, SignupError>)
      ensures r == Admit(users, req, createdUid)
    {
      if req.email == "" || req.password == "" {
        return Failure(MissingCredentials);
      }
      if req.walletAddress == "" {
        return Failure(MissingWallet);
      }
      var inUse := WalletInUse(req.walletAddress);
      if inUse {
        return Failure(DuplicateWallet);
      }
      var referredBy := GenesisCode;
      var code := Trim(req.referralCode);
      if code != "" {
        var referrer := FindByCode(code);
        if referrer.None? {
          return Failure(InvalidReferralCode);
        }
        referredBy := code;
      }
      if createdUid.None? {
        return Failure(IdentityRejected);
      }
      return Success(Admission(createdUid.value, referredBy));
    }

    /** The signup handler. `createdUid` is the identity provider's answer to
        `createUser`: the new account's id, or None when it refused. */
    method Signup(req: Request, createdUid: Option<string>) returns (r: Result<string, SignupError>, ghost visited: seq<string>)
      modifies this
      ensures SignupOutcome(old(users), genesisPath, req, createdUid, users, r, visited)
    {
      visited := [];
      var admission := Validate(req, createdUid);
      if admission.Failure? {
        return Failure(admission.error), [];
      }
      var uid := admission.value.uid;
      var referredBy := admission.value.referredBy;
      ghost var a := admission.value;
      ghost var stored := old(users)[uid := NewUser(req, a)];

      users := users[uid := User(req.email, req.walletAddress, uid, referredBy, Reward, [])];
      assert users == stored;
      if genesisPath !in users {
        return Failure(GenesisNotFound), [];
      }
      Credit(genesisPath, uid);
      ghost var boosted := users;
      assert boosted == CreditOne(stored, genesisPath, uid);
      visited := PropagateReward(referredBy, uid);
      r := Success(uid);
    }
  }
}
