/**
 * The referral walk and its rewards on small concrete collections: a
 * three-level chain, a chain deeper than the bound, and a referral cycle.
 */
module Scenarios {
  import opened Users

  function Member(code: string, referredBy: string): User
  {
    User("", "", code, referredBy, 0, [])
  }

  /** A referred by B, B by C, C by the sentinel; each record's id is its code. */
  function ChainOfThree(): Store
  {
    map["a" := Member("a", "b"), "b" := Member("b", "c"), "c" := Member("c", GenesisCode)]
  }

  lemma ChainOfThreeWalk(trace: seq<string>)
    requires IsWalk(ChainOfThree(), "a", trace)
    ensures trace == ["a", "b", "c"]
  {
    var expected := ["a", "b", "c"];
    assert IsWalk(ChainOfThree(), "a", expected) by {
      assert CodeAt(ChainOfThree(), "a", expected, 3) == GenesisCode;
    }
    WalkDeterministic(ChainOfThree(), "a", trace, expected);
  }

  /** The walk from A rewards A, B and C once each, then stops at the
      sentinel. */
  lemma ChainOfThreeRewardsEachOnce(trace: seq<string>)
    requires IsWalk(ChainOfThree(), "a", trace)
    ensures trace == ["a", "b", "c"]
    ensures var after := CreditAll(ChainOfThree(), trace, "d");
      forall id | id in after :: after[id].aaaBalance == Reward && after[id].referrals == ["d"]
  {
    ChainOfThreeWalk(trace);
    forall id | id in ChainOfThree()
      ensures CreditAll(ChainOfThree(), trace, "d")[id].aaaBalance == Reward
      ensures CreditAll(ChainOfThree(), trace, "d")[id].referrals == ["d"]
    {
      CreditAllAt(ChainOfThree(), trace, "d", id);
    }
  }

  /** Seven records chained one after the other before the sentinel; each
      record's id is its code. */
  function ChainOfSeven(): Store
  {
    map["1" := Member("1", "2"), "2" := Member("2", "3"), "3" := Member("3", "4"),
        "4" := Member("4", "5"), "5" := Member("5", "6"), "6" := Member("6", "7"),
        "7" := Member("7", GenesisCode)]
  }

  lemma ChainOfSevenWalk(trace: seq<string>)
    requires IsWalk(ChainOfSeven(), "1", trace)
    ensures trace == ["1", "2", "3", "4", "5"]
  {
    var expected := ["1", "2", "3", "4", "5"];
    assert IsWalk(ChainOfSeven(), "1", expected) by {
      forall i | 0 <= i < 5 ensures expected[i] in ChainOfSeven() && ChainOfSeven()[expected[i]].referralCode == CodeAt(ChainOfSeven(), "1", expected, i) != GenesisCode {
      }
    }
    WalkDeterministic(ChainOfSeven(), "1", trace, expected);
  }

  /** The rewards of the walk over the first five records of the chain:
      each of them once. */
  lemma FirstFiveRewardedOnce(id: string)
    requires id in ["1", "2", "3", "4", "5"]
    ensures var after := CreditAll(ChainOfSeven(), ["1", "2", "3", "4", "5"], "n");
      after[id].aaaBalance == Reward && after[id].referrals == ["n"]
  {
    var trace := ["1", "2", "3", "4", "5"];
    assert NoDuplicates(trace);
    CreditAllOnce(ChainOfSeven(), trace, "n", id);
    ChainOfSevenStartsEmpty(id);
  }

  /** Every record of the chain starts with no balance and no referrals. */
  lemma ChainOfSevenStartsEmpty(id: string)
    requires id in ChainOfSeven()
    ensures ChainOfSeven()[id].aaaBalance == 0 && ChainOfSeven()[id].referrals == []
  {
  }

  /** The rewards of the walk over the first five records of the chain
      leave the sixth and seventh as they were. */
  lemma LastTwoUntouched()
    ensures var after := CreditAll(ChainOfSeven(), ["1", "2", "3", "4", "5"], "n");
      after["6"] == ChainOfSeven()["6"] && after["7"] == ChainOfSeven()["7"]
  {
    var trace := ["1", "2", "3", "4", "5"];
    CreditAllUntouched(ChainOfSeven(), trace, "n", "6");
    CreditAllUntouched(ChainOfSeven(), trace, "n", "7");
  }

  /** Only the first five referrers of a longer chain are rewarded, once
      each; the last two are left as they were. */
  lemma DepthBoundStopsAfterFive(trace: seq<string>)
    requires IsWalk(ChainOfSeven(), "1", trace)
    ensures trace == ["1", "2", "3", "4", "5"]
    ensures var after := CreditAll(ChainOfSeven(), trace, "n");
      forall id | id in trace :: after[id].aaaBalance == Reward && after[id].referrals == ["n"]
    ensures var after := CreditAll(ChainOfSeven(), trace, "n");
      after["6"] == ChainOfSeven()["6"] && after["7"] == ChainOfSeven()["7"]
  {
    ChainOfSevenWalk(trace);
    forall id | id in trace
      ensures CreditAll(ChainOfSeven(), trace, "n")[id].aaaBalance == Reward
      ensures CreditAll(ChainOfSeven(), trace, "n")[id].referrals == ["n"]
    {
      FirstFiveRewardedOnce(id);
    }
    LastTwoUntouched();
  }

  /** A referred by B and B by A; each record's id is its code. */
  function Cycle(): Store
  {
    map["a" := Member("a", "b"), "b" := Member("b", "a")]
  }

  lemma CycleWalk(trace: seq<string>)
    requires IsWalk(Cycle(), "a", trace)
    ensures trace == ["a", "b", "a", "b", "a"]
  {
    var expected := ["a", "b", "a", "b", "a"];
    assert IsWalk(Cycle(), "a", expected) by {
      forall i | 0 <= i < 5 ensures expected[i] in Cycle() && Cycle()[expected[i]].referralCode == CodeAt(Cycle(), "a", expected, i) != GenesisCode {
      }
    }
    WalkDeterministic(Cycle(), "a", trace, expected);
  }

  /** Without a visited set the walk goes round the cycle until the depth
      bound: A is rewarded three times and B twice, but each lists the new
      id only once. */
  lemma CycleRevisits(trace: seq<string>)
    requires IsWalk(Cycle(), "a", trace)
    ensures trace == ["a", "b", "a", "b", "a"]
    ensures var after := CreditAll(Cycle(), trace, "n");
      && after["a"].aaaBalance == 3 * Reward && after["b"].aaaBalance == 2 * Reward
      && after["a"].referrals == ["n"] && after["b"].referrals == ["n"]
  {
    CycleWalk(trace);
    assert multiset(trace)["a"] == 3 && multiset(trace)["b"] == 2;
    CreditAllAt(Cycle(), trace, "n", "a");
    CreditAllAt(Cycle(), trace, "n", "b");
  }
}
