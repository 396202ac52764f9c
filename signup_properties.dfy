/** What a signup guarantees about the collection, stated over the outcome
    relation the handler is proved to satisfy. */
module SignupProperties {
  import opened Wrappers
  import opened JsString
  import opened Users
  import opened Signup

  /** A rejected request (bad input, a duplicate wallet, an unknown code, or
      a refusal of the identity provider) writes nothing and visits nothing. */
  lemma RejectionWritesNothing(before: Store, g: string, req: Request, uid: Option<string>,
                               after: Store, r: Result<string, SignupError>, visited: seq<string>)
    requires SignupOutcome(before, g, req, uid, after, r, visited)
    requires Admit(before, req, uid).Failure?
    ensures r == Failure(Admit(before, req, uid).error) && r.error != GenesisNotFound
    ensures after == before && visited == []
  {
  }

  /** A wallet address already held by some record is refused, and nothing
      is written. */
  lemma DuplicateWalletRejected(before: Store, g: string, req: Request, uid: Option<string>,
                                after: Store, r: Result<string, SignupError>, visited: seq<string>)
    requires SignupOutcome(before, g, req, uid, after, r, visited)
    requires req.email != "" && req.password != "" && req.walletAddress != ""
    requires exists id | id in before :: before[id].walletAddress == req.walletAddress
    ensures r == Failure(DuplicateWallet) && after == before
  {
  }

  /** A non-blank referral code that no record holds is refused, and nothing
      is written. */
  lemma UnknownCodeRejected(before: Store, g: string, req: Request, uid: Option<string>,
                            after: Store, r: Result<string, SignupError>, visited: seq<string>)
    requires SignupOutcome(before, g, req, uid, after, r, visited)
    requires req.email != "" && req.password != "" && req.walletAddress != ""
    requires !WalletTaken(before, req.walletAddress)
    requires !AllWhitespace(req.referralCode) && !HasCode(before, Trim(req.referralCode))
    ensures r == Failure(InvalidReferralCode) && after == before
  {
  }

  /** On success the walk starts from the resolved code in the collection as
      it stands after the new record and the genesis credit. */
  lemma SuccessShape(before: Store, g: string, req: Request, uid: Option<string>,
                     after: Store, r: Result<string, SignupError>, visited: seq<string>)
    requires SignupOutcome(before, g, req, uid, after, r, visited)
    requires r.Success?
    ensures uid == Some(r.value)
    ensures Admit(before, req, uid) == Success(Admission(r.value, ResolveReferredBy(req.referralCode)))
    ensures g in before[r.value := NewUser(req, Admission(r.value, ResolveReferredBy(req.referralCode)))]
    ensures var boosted := CreditOne(before[r.value := NewUser(req, Admission(r.value, ResolveReferredBy(req.referralCode)))], g, r.value);
      && IsWalk(boosted, ResolveReferredBy(req.referralCode), visited)
      && after == CreditAll(boosted, visited, r.value)
  {
  }

  /** Under a fresh id, the walk never reaches the new record: every code it
      looks up is the sentinel or a code other than the new id. */
  lemma {:induction false} WalkAvoidsNewId(before: Store, boosted: Store, start: string, visited: seq<string>, uid: string, i: nat)
    requires Fresh(before, uid)
    requires boosted.Keys == before.Keys + {uid} && boosted[uid].referralCode == uid
    requires forall id | id in before :: boosted[id].referredBy == before[id].referredBy
    requires start == GenesisCode || HasCode(before, start)
    requires Follows(boosted, start, visited)
    requires i <= |visited|
    ensures CodeAt(boosted, start, visited, i) == GenesisCode || CodeAt(boosted, start, visited, i) != uid
    ensures forall j | 0 <= j < i :: visited[j] in before
  {
    if i > 0 {
      WalkAvoidsNewId(before, boosted, start, visited, uid, i - 1);
      var v := visited[i - 1];
      assert boosted[v].referralCode == CodeAt(boosted, start, visited, i - 1) != GenesisCode;
      assert v in before;
    }
  }

  /** The rewards of one signup seen from one record that existed before it:
      the genesis credit, then one credit per visit. */
  lemma RewardsAt(before: Store, g: string, u: string, rec: User, visited: seq<string>, id: string)
    requires u !in before && g in before && id in before
    requires forall j | 0 <= j < |visited| :: visited[j] in before
    ensures var after := CreditAll(CreditOne(before[u := rec], g, u), visited, u);
      && after[id].aaaBalance == before[id].aaaBalance + Reward * ((if id == g then 1 else 0) + multiset(visited)[id])
      && after[id].referrals == (if id == g || id in visited then ArrayUnion(before[id].referrals, u) else before[id].referrals)
      && after[id].(aaaBalance := 0, referrals := []) == before[id].(aaaBalance := 0, referrals := [])
  {
    var boosted := CreditOne(before[u := rec], g, u);
    CreditAllAt(boosted, visited, u, id);
    if id == g && id in visited {
      ArrayUnionIdempotent(ArrayUnion(before[id].referrals, u), u);
    }
  }

  /** The collection after the new record and the genesis credit, seen by
      the walk: one more key, the new record's code is its id, and every
      existing record keeps its `referredBy`. */
  lemma BoostedLinks(before: Store, g: string, u: string, rec: User)
    requires u !in before && g in before && rec.referralCode == u
    ensures var boosted := CreditOne(before[u := rec], g, u);
      && boosted.Keys == before.Keys + {u}
      && boosted[u] == rec
      && forall id | id in before :: boosted[id].referredBy == before[id].referredBy
  {
  }

  /** A walk from an existing code, over the collection after the new
      record and the genesis credit, stays among the existing records and so
      leaves the new record as written. */
  lemma WalkLeavesNewRecord(before: Store, g: string, u: string, rec: User, start: string, visited: seq<string>)
    requires Fresh(before, u) && g in before && rec.referralCode == u
    requires start == GenesisCode || HasCode(before, start)
    requires IsWalk(CreditOne(before[u := rec], g, u), start, visited)
    ensures forall j | 0 <= j < |visited| :: visited[j] in before
    ensures var after := CreditAll(CreditOne(before[u := rec], g, u), visited, u);
      after.Keys == before.Keys + {u} && after[u] == rec
  {
    var boosted := CreditOne(before[u := rec], g, u);
    BoostedLinks(before, g, u, rec);
    assert Follows(boosted, start, visited);
    WalkAvoidsNewId(before, boosted, start, visited, u, |visited|);
    assert u !in visited;
    CreditAllUntouched(boosted, visited, u, u);
  }

  /** A successful signup adds exactly the new record, written as created,
      and its walk visits at most five records, all of which existed before. */
  lemma SignupAddsNewRecord(before: Store, g: string, req: Request, uid: Option<string>,
                            after: Store, r: Result<string, SignupError>, visited: seq<string>)
    requires SignupOutcome(before, g, req, uid, after, r, visited)
    requires r.Success? && Fresh(before, r.value) && g in before
    ensures after.Keys == before.Keys + {r.value}
    ensures after[r.value] == User(req.email, req.walletAddress, r.value, ResolveReferredBy(req.referralCode), Reward, [])
    ensures |visited| <= MaxLevels
    ensures forall j | 0 <= j < |visited| :: visited[j] in before
  {
    SuccessShape(before, g, req, uid, after, r, visited);
    var u := r.value;
    var start := ResolveReferredBy(req.referralCode);
    WalkLeavesNewRecord(before, g, u, NewUser(req, Admission(u, start)), start, visited);
  }

  /** The effect of a successful signup on every record that existed before:
      the genesis document gets +5, every visit of the walk another +5, the
      new id joins the referrals of each of them once, and nothing else of
      any record changes. */
  lemma SignupRewards(before: Store, g: string, req: Request, uid: Option<string>,
                      after: Store, r: Result<string, SignupError>, visited: seq<string>)
    requires SignupOutcome(before, g, req, uid, after, r, visited)
    requires r.Success? && Fresh(before, r.value) && g in before
    ensures before.Keys <= after.Keys
    ensures forall id | id in before ::
      && after[id].aaaBalance == before[id].aaaBalance + Reward * ((if id == g then 1 else 0) + multiset(visited)[id])
      && after[id].referrals == (if id == g || id in visited then ArrayUnion(before[id].referrals, r.value) else before[id].referrals)
      && after[id].(aaaBalance := 0, referrals := []) == before[id].(aaaBalance := 0, referrals := [])
  {
    SuccessShape(before, g, req, uid, after, r, visited);
    SignupAddsNewRecord(before, g, req, uid, after, r, visited);
    var u := r.value;
    var rec := NewUser(req, Admission(u, ResolveReferredBy(req.referralCode)));
    forall id | id in before
      ensures after[id].aaaBalance == before[id].aaaBalance + Reward * ((if id == g then 1 else 0) + multiset(visited)[id])
      ensures after[id].referrals == (if id == g || id in visited then ArrayUnion(before[id].referrals, u) else before[id].referrals)
      ensures after[id].(aaaBalance := 0, referrals := []) == before[id].(aaaBalance := 0, referrals := [])
    {
      RewardsAt(before, g, u, rec, visited, id);
    }
  }

  /** The genesis document's balance rises by 5 plus 5 for each time the
      walk reached it through its own referral code, and the new id is in
      its referrals afterwards, whatever the code the account was referred by. */
  lemma GenesisCredited(before: Store, g: string, req: Request, uid: Option<string>,
                        after: Store, r: Result<string, SignupError>, visited: seq<string>)
    requires SignupOutcome(before, g, req, uid, after, r, visited)
    requires r.Success? && Fresh(before, r.value) && g in before
    ensures g in after
    ensures after[g].aaaBalance == before[g].aaaBalance + Reward + Reward * multiset(visited)[g]
    ensures r.value in after[g].referrals
  {
    SignupRewards(before, g, req, uid, after, r, visited);
  }

  /** A signup referred by the sentinel (no code, a blank code, or the code
      "GENESIS" typed and held by some record) runs no walk: the genesis
      document is credited exactly once and every other existing record is
      left as it was. */
  lemma GenesisReferralRewardsOnlyGenesis(before: Store, g: string, req: Request, uid: Option<string>,
                                          after: Store, r: Result<string, SignupError>, visited: seq<string>)
    requires SignupOutcome(before, g, req, uid, after, r, visited)
    requires r.Success? && Fresh(before, r.value) && g in before
    requires ResolveReferredBy(req.referralCode) == GenesisCode
    ensures visited == []
    ensures before.Keys <= after.Keys
    ensures after[g].aaaBalance == before[g].aaaBalance + Reward
    ensures forall id | id in before && id != g :: after[id] == before[id]
  {
    NoWalkFromGenesis(before, g, req, uid, after, r, visited);
    GenesisCredited(before, g, req, uid, after, r, visited);
    SignupOnlyGrows(before, g, req, uid, after, r, visited);
  }

  lemma NoWalkFromGenesis(before: Store, g: string, req: Request, uid: Option<string>,
                          after: Store, r: Result<string, SignupError>, visited: seq<string>)
    requires SignupOutcome(before, g, req, uid, after, r, visited)
    requires r.Success? && ResolveReferredBy(req.referralCode) == GenesisCode
    ensures visited == []
  {
    SuccessShape(before, g, req, uid, after, r, visited);
    var u := r.value;
    var boosted := CreditOne(before[u := NewUser(req, Admission(u, ResolveReferredBy(req.referralCode)))], g, u);
    WalkEmptyIffStops(boosted, GenesisCode, visited);
  }

  /** Frame and monotonicity: only the new record, the genesis document and
      the records the walk visited change; no balance decreases and no
      referral is removed. */
  lemma SignupOnlyGrows(before: Store, g: string, req: Request, uid: Option<string>,
                        after: Store, r: Result<string, SignupError>, visited: seq<string>)
    requires SignupOutcome(before, g, req, uid, after, r, visited)
    requires r.Success? && Fresh(before, r.value) && g in before
    ensures before.Keys <= after.Keys
    ensures forall id | id in before ::
      && after[id].aaaBalance >= before[id].aaaBalance
      && before[id].referrals <= after[id].referrals
      && (id != g && id !in visited ==> after[id] == before[id])
  {
    SignupRewards(before, g, req, uid, after, r, visited);
    forall id | id in before
      ensures after[id].aaaBalance >= before[id].aaaBalance
      ensures before[id].referrals <= after[id].referrals
      ensures id != g && id !in visited ==> after[id] == before[id]
    {
      var a, b := after[id], before[id];
      assert a.(aaaBalance := 0, referrals := []) == b.(aaaBalance := 0, referrals := []);
      if id != g && id !in visited {
        assert a.email == b.email && a.walletAddress == b.walletAddress;
        assert a.referralCode == b.referralCode && a.referredBy == b.referredBy;
      }
    }
  }

  /** A successful signup keeps wallet addresses unique: the new record's
      wallet was checked to be unused, and no existing record's wallet
      changes. */
  lemma SignupKeepsWalletsUnique(before: Store, g: string, req: Request, uid: Option<string>,
                                 after: Store, r: Result<string, SignupError>, visited: seq<string>)
    requires SignupOutcome(before, g, req, uid, after, r, visited)
    requires r.Success? && Fresh(before, r.value) && g in before
    requires WalletsUnique(before)
    ensures WalletsUnique(after)
  {
    SuccessShape(before, g, req, uid, after, r, visited);
    SignupAddsNewRecord(before, g, req, uid, after, r, visited);
    SignupRewards(before, g, req, uid, after, r, visited);
    var u := r.value;
    assert !WalletTaken(before, req.walletAddress);
    forall a, b | a in after && b in after && after[a].walletAddress == after[b].walletAddress
      ensures a == b
    {
      if a != u {
        assert after[a].walletAddress == before[a].walletAddress;
      }
      if b != u {
        assert after[b].walletAddress == before[b].walletAddress;
      }
    }
  }

  /** A successful signup keeps referral codes unique: the new record's code
      is its fresh id, and no existing record's code changes. */
  lemma SignupKeepsCodesUnique(before: Store, g: string, req: Request, uid: Option<string>,
                               after: Store, r: Result<string, SignupError>, visited: seq<string>)
    requires SignupOutcome(before, g, req, uid, after, r, visited)
    requires r.Success? && Fresh(before, r.value) && g in before
    requires CodesUnique(before)
    ensures CodesUnique(after)
  {
    SignupAddsNewRecord(before, g, req, uid, after, r, visited);
    SignupRewards(before, g, req, uid, after, r, visited);
    var u := r.value;
    forall a, b | a in after && b in after && after[a].referralCode == after[b].referralCode
      ensures a == b
    {
      if a != u {
        assert after[a].referralCode == before[a].referralCode != u;
      }
      if b != u {
        assert after[b].referralCode == before[b].referralCode != u;
      }
    }
  }

  /** Writing a record whose code is a fresh id, then crediting genesis,
      keeps referral codes unique. */
  lemma BoostedCodesUnique(before: Store, g: string, u: string, rec: User)
    requires CodesUnique(before) && Fresh(before, u) && rec.referralCode == u
    requires g in before[u := rec]
    ensures CodesUnique(CreditOne(before[u := rec], g, u))
  {
    var boosted := CreditOne(before[u := rec], g, u);
    forall a, b | a in boosted && b in boosted && boosted[a].referralCode == boosted[b].referralCode
      ensures a == b
    {
      if a != u && b != u {
        assert before[a].referralCode == boosted[a].referralCode;
        assert before[b].referralCode == boosted[b].referralCode;
      }
    }
  }

  /** From the genesis document's own code, when that document refers to
      nobody and codes are unique, the walk visits the genesis document once. */
  lemma WalkReachesOnlyGenesis(before: Store, g: string, u: string, rec: User, visited: seq<string>)
    requires CodesUnique(before) && Fresh(before, u) && rec.referralCode == u && g in before
    requires before[g].referralCode != GenesisCode && Link(before, g) == GenesisCode
    requires IsWalk(CreditOne(before[u := rec], g, u), before[g].referralCode, visited)
    ensures visited == [g]
  {
    var boosted := CreditOne(before[u := rec], g, u);
    BoostedCodesUnique(before, g, u, rec);
    assert Link(boosted, g) == GenesisCode;
    assert IsWalk(boosted, before[g].referralCode, [g]);
    WalkDeterministic(boosted, before[g].referralCode, visited, [g]);
  }

  /** The genesis document is credited twice when the signup names its own
      referral code: once as the genesis document, once as the referrer the
      walk finds by that code. The walk then ends at the sentinel when the
      genesis document refers to nobody. */
  lemma GenesisAsReferrerCreditedTwice(before: Store, g: string, req: Request, uid: Option<string>,
                                       after: Store, r: Result<string, SignupError>, visited: seq<string>)
    requires SignupOutcome(before, g, req, uid, after, r, visited)
    requires r.Success? && Fresh(before, r.value) && g in before && CodesUnique(before)
    requires ResolveReferredBy(req.referralCode) == before[g].referralCode != GenesisCode
    requires Link(before, g) == GenesisCode
    ensures visited == [g]
    ensures g in after
    ensures after[g].aaaBalance == before[g].aaaBalance + 2 * Reward
  {
    SuccessShape(before, g, req, uid, after, r, visited);
    var u := r.value;
    var start := ResolveReferredBy(req.referralCode);
    WalkReachesOnlyGenesis(before, g, u, NewUser(req, Admission(u, start)), visited);
    GenesisCredited(before, g, req, uid, after, r, visited);
  }

  /** When no two records share a referral code, a signup has exactly one
      outcome: the choice among several matching documents, the only
      freedom of the model, never arises. */
  lemma SignupDeterministic(before: Store, g: string, req: Request, uid: Option<string>,
                            after1: Store, r1: Result<string, SignupError>, visited1: seq<string>,
                            after2: Store, r2: Result<string, SignupError>, visited2: seq<string>)
    requires CodesUnique(before)
    requires uid.Some? ==> Fresh(before, uid.value)
    requires SignupOutcome(before, g, req, uid, after1, r1, visited1)
    requires SignupOutcome(before, g, req, uid, after2, r2, visited2)
    ensures r1 == r2 && after1 == after2 && visited1 == visited2
  {
    if r1.Success? {
      SuccessShape(before, g, req, uid, after1, r1, visited1);
      var u := r1.value;
      var start := ResolveReferredBy(req.referralCode);
      var boosted := CreditOne(before[u := NewUser(req, Admission(u, start))], g, u);
      BoostedCodesUnique(before, g, u, NewUser(req, Admission(u, start)));
      WalkDeterministic(boosted, start, visited1, visited2);
    }
  }
}
