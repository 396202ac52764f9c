/**
 * The Firestore `users` collection of the referral backend: a map from
 * document id to user record, the reward credit that signup applies to a
 * record (`FieldValue.increment(5)` together with `FieldValue.arrayUnion(id)`),
 * and the multi-level referral walk, specified as a relation between the
 * store, the starting code and the sequence of documents it visits.
 */
module Users {

  /** The sentinel code that ends every referral chain. */
  const GenesisCode: string := "GENESIS"
  /** The balance of a new account, and the amount of every credit. */
  const Reward: int := 5
  /** How many referrers a signup rewards at most. */
  const MaxLevels: nat := 5

  /** A document of the `users` collection. An absent `referredBy` field is
      represented by the empty string: the walk treats both alike. */
  datatype User = User(
    email: string,
    walletAddress: string,
    referralCode: string,
    referredBy: string,
    aaaBalance: int,
    referrals: seq<string>)

  /** The collection, keyed by document id. */
  type Store = map<string, User>

  predicate NoDuplicates(xs: seq<string>)
  {
    forall i, j | 0 <= i < j < |xs| :: xs[i] != xs[j]
  }

  /** Firestore's `arrayUnion` with one element: appends `x` unless it is
      already there. */
  function ArrayUnion(xs: seq<string>, x: string): (r: seq<string>)
    ensures x in r
    ensures forall y :: y in r <==> y in xs || y == x
    ensures xs <= r && |r| <= |xs| + 1
    ensures NoDuplicates(xs) ==> NoDuplicates(r)
  {
    if x in xs then xs else xs + [x]
  }

  /** Adding an element that is already present changes nothing. */
  lemma ArrayUnionIdempotent(xs: seq<string>, x: string)
    requires x in xs
    ensures ArrayUnion(xs, x) == xs
  {
  }

  /** One reward: +5 on the balance, the new account id added to the
      referrals as a set-union; every other field is left alone. */
  function Credited(u: User, newId: string): (r: User)
    ensures r.aaaBalance == u.aaaBalance + Reward
    ensures newId in r.referrals && u.referrals <= r.referrals
    ensures r.referrals == ArrayUnion(u.referrals, newId)
    ensures r.(aaaBalance := u.aaaBalance, referrals := u.referrals) == u
  {
    u.(aaaBalance := u.aaaBalance + Reward, referrals := ArrayUnion(u.referrals, newId))
  }

  /** The reward applied to the document `id`. */
  function CreditOne(users: Store, id: string, newId: string): (r: Store)
    requires id in users
    ensures r.Keys == users.Keys
    ensures r[id].aaaBalance == users[id].aaaBalance + Reward && newId in r[id].referrals
    ensures r[id] == Credited(users[id], newId)
    ensures forall k | k in users && k != id :: r[k] == users[k]
  {
    users[id := Credited(users[id], newId)]
  }

  /** The rewards of a walk, applied in the order the walk visits them. */
  function CreditAll(users: Store, trace: seq<string>, newId: string): (r: Store)
    requires forall i | 0 <= i < |trace| :: trace[i] in users
    ensures r.Keys == users.Keys
    decreases |trace|
  {
    if trace == [] then users
    else
      var prev := CreditAll(users, trace[..|trace| - 1], newId);
      CreditOne(prev, trace[|trace| - 1], newId)
  }

  /** Some document holds `code` as its `referralCode`: the where-query on
      `referralCode` is non-empty. */
  predicate HasCode(users: Store, code: string)
  {
    exists id | id in users :: users[id].referralCode == code
  }

  /** Some document holds `wallet` as its `walletAddress`. */
  predicate WalletTaken(users: Store, wallet: string)
  {
    exists id | id in users :: users[id].walletAddress == wallet
  }

  /** No two documents share a wallet address. */
  predicate WalletsUnique(users: Store)
  {
    forall a, b | a in users && b in users :: users[a].walletAddress == users[b].walletAddress ==> a == b
  }

  /** No two documents share a referral code. */
  predicate CodesUnique(users: Store)
  {
    forall a, b | a in users && b in users :: users[a].referralCode == users[b].referralCode ==> a == b
  }

  /** The code the walk moves to after visiting `id`: its `referredBy`, or
      the sentinel when that field is missing or empty. */
  function Link(users: Store, id: string): (r: string)
    ensures r != ""
    ensures r == GenesisCode || (id in users && r == users[id].referredBy)
    ensures id !in users ==> r == GenesisCode
    ensures id in users && users[id].referredBy != "" ==> r == users[id].referredBy
  {
    if id in users && users[id].referredBy != "" then users[id].referredBy else GenesisCode
  }

  /** The code the walk looks up at level `i`, after visiting `trace[..i]`. */
  function CodeAt(users: Store, start: string, trace: seq<string>, i: nat): string
    requires i <= |trace|
  {
    if i == 0 then start else Link(users, trace[i - 1])
  }

  /** The walk ends at `code`: it is the sentinel, or no document holds it. */
  predicate Stops(users: Store, code: string)
  {
    code == GenesisCode || !HasCode(users, code)
  }

  /** Every visited document holds the code looked up at its level, and that
      code was not the sentinel. */
  ghost predicate Follows(users: Store, start: string, trace: seq<string>)
  {
    forall i | 0 <= i < |trace| ::
      && trace[i] in users
      && CodeAt(users, start, trace, i) != GenesisCode
      && users[trace[i]].referralCode == CodeAt(users, start, trace, i)
  }

  /** `trace` is a complete run of the walk from `start`: it follows the
      chain, and it ends either after `MaxLevels` visits or at a code where
      the walk stops. Referral codes are looked up in `users`; when several
      documents hold a code, any of them may be the one visited. */
  ghost predicate IsWalk(users: Store, start: string, trace: seq<string>)
  {
    && |trace| <= MaxLevels
    && Follows(users, start, trace)
    && (|trace| == MaxLevels || Stops(users, CodeAt(users, start, trace, |trace|)))
  }

  /** Appending a visit does not change the codes looked up before it. */
  lemma CodeAtAppend(users: Store, start: string, trace: seq<string>, id: string, i: nat)
    requires i <= |trace|
    ensures CodeAt(users, start, trace + [id], i) == CodeAt(users, start, trace, i)
  {
    if 0 < i {
      assert (trace + [id])[i - 1] == trace[i - 1];
    }
  }

  /** One more step of the walk: the document found for the current code
      extends it, and the next code is that document's link. */
  lemma FollowsExtend(users: Store, start: string, trace: seq<string>, id: string)
    requires Follows(users, start, trace)
    requires CodeAt(users, start, trace, |trace|) != GenesisCode
    requires id in users && users[id].referralCode == CodeAt(users, start, trace, |trace|)
    ensures Follows(users, start, trace + [id])
    ensures CodeAt(users, start, trace + [id], |trace| + 1) == Link(users, id)
  {
    var t := trace + [id];
    forall i | 0 <= i < |t|
      ensures t[i] in users && CodeAt(users, start, t, i) != GenesisCode
      ensures users[t[i]].referralCode == CodeAt(users, start, t, i)
    {
      CodeAtAppend(users, start, trace, id, i);
      assert t[i] == if i < |trace| then trace[i] else id;
    }
    assert t[|trace|] == id;
  }

  /** Rewarding one more document extends the rewards of a walk. */
  lemma CreditAllExtend(users: Store, trace: seq<string>, id: string, newId: string)
    requires forall i | 0 <= i < |trace| :: trace[i] in users
    requires id in users
    ensures CreditAll(users, trace + [id], newId) == CreditOne(CreditAll(users, trace, newId), id, newId)
  {
    assert (trace + [id])[..|trace|] == trace;
  }

  /** Two stores agree on keys and on the fields the walk reads. */
  ghost predicate SameLinks(a: Store, b: Store)
  {
    && a.Keys == b.Keys
    && forall id | id in a :: a[id].referralCode == b[id].referralCode && a[id].referredBy == b[id].referredBy
  }

  /** A walk visits nothing exactly when its starting code is the sentinel
      or a code no document holds. */
  lemma WalkEmptyIffStops(users: Store, start: string, trace: seq<string>)
    requires IsWalk(users, start, trace)
    ensures trace == [] <==> Stops(users, start)
  {
    if trace != [] {
      assert users[trace[0]].referralCode == CodeAt(users, start, trace, 0) == start;
    }
  }

  /** Every visited document exists and was found by the code looked up at
      its level, and that code is neither the sentinel nor a code no
      document holds. */
  lemma WalkVisitsHolders(users: Store, start: string, trace: seq<string>, i: nat)
    requires IsWalk(users, start, trace)
    requires i < |trace|
    ensures trace[i] in users && HasCode(users, CodeAt(users, start, trace, i))
    ensures !Stops(users, CodeAt(users, start, trace, i))
  {
    assert users[trace[i]].referralCode == CodeAt(users, start, trace, i);
  }

  lemma SameCodeSameHolder(users: Store, a: string, b: string)
    requires CodesUnique(users)
    requires a in users && b in users && users[a].referralCode == users[b].referralCode
    ensures a == b
  {
  }

  /** Two walks that agree on their first `k` visits look up the same code at
      level `k`. */
  lemma {:induction false} WalksAgreeUpTo(users: Store, start: string, t1: seq<string>, t2: seq<string>, k: nat)
    requires CodesUnique(users)
    requires Follows(users, start, t1) && Follows(users, start, t2)
    requires k <= |t1| && k <= |t2|
    ensures forall j | 0 <= j < k :: t1[j] == t2[j]
    ensures CodeAt(users, start, t1, k) == CodeAt(users, start, t2, k)
  {
    if k > 0 {
      WalksAgreeUpTo(users, start, t1, t2, k - 1);
      var a, b := t1[k - 1], t2[k - 1];
      assert a in users && users[a].referralCode == CodeAt(users, start, t1, k - 1);
      assert b in users && users[b].referralCode == CodeAt(users, start, t2, k - 1);
      SameCodeSameHolder(users, a, b);
    }
  }

  /** When referral codes are unique, the walk from a code is determined:
      which document a lookup returns no longer matters. */
  lemma WalkDeterministic(users: Store, start: string, t1: seq<string>, t2: seq<string>)
    requires CodesUnique(users)
    requires IsWalk(users, start, t1) && IsWalk(users, start, t2)
    ensures t1 == t2
  {
    if |t1| < |t2| {
      WalksAgreeUpTo(users, start, t1, t2, |t1|);
      WalkVisitsHolders(users, start, t2, |t1|);
      assert false;
    } else if |t2| < |t1| {
      WalksAgreeUpTo(users, start, t1, t2, |t2|);
      WalkVisitsHolders(users, start, t1, |t2|);
      assert false;
    } else {
      WalksAgreeUpTo(users, start, t1, t2, |t1|);
    }
  }

  /** Lookups by code, and the walk, see the same documents in two stores
      that agree on keys, codes and `referredBy`. */
  lemma SameLinksSameWalks(a: Store, b: Store, start: string, trace: seq<string>)
    requires SameLinks(a, b)
    ensures forall c :: HasCode(a, c) <==> HasCode(b, c)
    ensures IsWalk(a, start, trace) <==> IsWalk(b, start, trace)
  {
    forall c ensures HasCode(a, c) <==> HasCode(b, c) {
      if HasCode(a, c) {
        var id :| id in a && a[id].referralCode == c;
        assert b[id].referralCode == c;
      }
      if HasCode(b, c) {
        var id :| id in b && b[id].referralCode == c;
        assert a[id].referralCode == c;
      }
    }
    forall i | 0 <= i <= |trace| ensures CodeAt(a, start, trace, i) == CodeAt(b, start, trace, i) {
    }
  }

  /** The effect of a walk's rewards on one document: +5 for each visit, the
      new id added once if the document was visited at all, every other
      field unchanged. */
  lemma {:induction false} CreditAllAt(users: Store, trace: seq<string>, newId: string, id: string)
    requires forall i | 0 <= i < |trace| :: trace[i] in users
    requires id in users
    ensures var r := CreditAll(users, trace, newId);
      && r[id].aaaBalance == users[id].aaaBalance + Reward * multiset(trace)[id]
      && r[id].referrals == (if id in trace then ArrayUnion(users[id].referrals, newId) else users[id].referrals)
      && r[id].(aaaBalance := 0, referrals := []) == users[id].(aaaBalance := 0, referrals := [])
    decreases |trace|
  {
    if trace != [] {
      var front, last := trace[..|trace| - 1], trace[|trace| - 1];
      assert trace == front + [last];
      assert multiset(trace) == multiset(front) + multiset{last};
      assert forall y :: y in trace <==> y in front || y == last;
      CreditAllAt(users, front, newId, id);
      if id == last && id in front {
        ArrayUnionIdempotent(ArrayUnion(users[id].referrals, newId), newId);
      }
    }
  }

  /** A walk that visits no document twice rewards each visited document
      exactly once. */
  lemma {:induction false} CreditAllOnce(users: Store, trace: seq<string>, newId: string, id: string)
    requires forall i | 0 <= i < |trace| :: trace[i] in users
    requires NoDuplicates(trace) && id in trace
    ensures CreditAll(users, trace, newId)[id] == Credited(users[id], newId)
    decreases |trace|
  {
    var front, last := trace[..|trace| - 1], trace[|trace| - 1];
    assert trace == front + [last];
    if id == last {
      assert id !in front by {
        forall j | 0 <= j < |front| ensures front[j] != id {
          assert front[j] == trace[j];
        }
      }
      CreditAllUntouched(users, front, newId, id);
    } else {
      assert id in front;
      CreditAllOnce(users, front, newId, id);
    }
  }

  /** A document the walk did not visit is left exactly as it was. */
  lemma {:induction false} CreditAllUntouched(users: Store, trace: seq<string>, newId: string, id: string)
    requires forall i | 0 <= i < |trace| :: trace[i] in users
    requires id in users && id !in trace
    ensures CreditAll(users, trace, newId)[id] == users[id]
    decreases |trace|
  {
    if trace != [] {
      var front := trace[..|trace| - 1];
      assert forall y :: y in front ==> y in trace;
      CreditAllUntouched(users, front, newId, id);
    }
  }

  /** A walk's rewards leave keys, codes and `referredBy` as they were. */
  lemma CreditAllSameLinks(users: Store, trace: seq<string>, newId: string)
    requires forall i | 0 <= i < |trace| :: trace[i] in users
    ensures SameLinks(users, CreditAll(users, trace, newId))
  {
    forall id | id in users
      ensures CreditAll(users, trace, newId)[id].referralCode == users[id].referralCode
      ensures CreditAll(users, trace, newId)[id].referredBy == users[id].referredBy
    {
      CreditAllAt(users, trace, newId, id);
    }
  }
}
