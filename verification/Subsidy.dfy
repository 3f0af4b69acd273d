/** The block subsidy of src/submit/gbt_submitter.cc and the supply it adds up to. */
module Subsidy {
  import opened Arithmetic
  import opened Words

  const COIN := 100000000
  const ERA := 210000

  /** x >> n. */
  function Halved(x: nat, n: nat): nat {
    if n == 0 then x else Halved(x, n - 1) / 2
  }

  /** computeBlockSubsidy: 50 coins, shifted right once for every 210000 blocks, and nothing after 64 halvings. */
  function BlockSubsidy(height: nat): nat {
    var halvings := height / ERA;
    if halvings >= 64 then 0 else Halved(50 * COIN, halvings)
  }

  /** The coins created by the blocks of heights below n. */
  function Supply(n: nat): nat {
    if n == 0 then 0 else Supply(n - 1) + BlockSubsidy(n - 1)
  }

  function Reward(era: nat): nat {
    if era >= 64 then 0 else Halved(50 * COIN, era)
  }

  /** The sum of the rewards of the first q eras, one block each. */
  function RewardSum(q: nat): nat {
    if q == 0 then 0 else RewardSum(q - 1) + Reward(q - 1)
  }

  lemma SubsidyIsReward(height: nat)
    ensures BlockSubsidy(height) == Reward(height / ERA)
  {
  }

  lemma {:induction false} HalvedIs(x: nat, n: nat)
    ensures Halved(x, n) == x / Pow2(n)
  {
    if n == 0 {
      assert x / 1 == x;
    } else {
      HalvedIs(x, n - 1);
      DivDiv(x, Pow2(n - 1), 2);
    }
  }

  lemma {:induction false} Pow2Grows(m: nat, n: nat)
    requires m <= n
    ensures Pow2(m) <= Pow2(n)
  {
    if m < n {
      Pow2Grows(m, n - 1);
    }
  }

  /** At every height the subsidy is 50 coins over a power of two; where the code cuts it off, that is zero already. */
  lemma SubsidyIs(height: nat)
    ensures BlockSubsidy(height) == 5000000000 / Pow2(height / 210000)
  {
    var q := height / ERA;
    HalvedIs(50 * COIN, q);
    if q >= 64 {
      Pow2Word();
      assert Pow2(33) == 2 * Pow2(32);
      Pow2Grows(33, q);
    }
  }

  lemma {:induction false} SupplyClosed(n: nat)
    ensures Supply(n) == ERA * RewardSum(n / ERA) + n % ERA * Reward(n / ERA)
  {
    hide Reward, Halved;
    if n > 0 {
      SupplyClosed(n - 1);
      assert BlockSubsidy(n - 1) == Reward((n - 1) / ERA) by { SubsidyIsReward(n - 1); }
      assert RewardSum((n - 1) / ERA + 1) == RewardSum((n - 1) / ERA) + Reward((n - 1) / ERA);
      hide RewardSum;
      EraStep(n - 1, RewardSum((n - 1) / ERA), Reward((n - 1) / ERA));
    }
  }

  lemma EraStep(m: nat, sum: nat, reward: nat)
    ensures
      var q, r := m / ERA, m % ERA;
      if r + 1 < ERA
      then (m + 1) / ERA == q && (m + 1) % ERA * reward == r * reward + reward
      else (m + 1) / ERA == q + 1 && (m + 1) % ERA == 0 && ERA * (sum + reward) == ERA * sum + (r * reward + reward)
  {
    var q, r := m / ERA, m % ERA;
    assert m == q * ERA + r;
    if r + 1 < ERA {
      assert (m + 1) % ERA == r + 1;
    } else {
      assert m + 1 == (q + 1) * ERA;
    }
  }

  lemma {:induction false} HalvedFalls(x: nat, m: nat, n: nat)
    requires m <= n
    ensures Halved(x, n) <= Halved(x, m)
  {
    if m < n {
      HalvedFalls(x, m, n - 1);
    }
  }

  /** One more era: the reward halves and the sum grows by it. */
  lemma RewardNext(q: nat, reward: nat, sum: nat)
    requires q < 63 && Reward(q) == reward && RewardSum(q) == sum
    ensures Reward(q + 1) == reward / 2 && RewardSum(q + 1) == sum + reward
  {
  }

  lemma RewardTable()
    ensures Reward(32) == 1 && Reward(33) == 0 && RewardSum(33) == 9999999989
  {
    RewardNext(0, 5000000000, 0);
    RewardNext(1, 2500000000, 5000000000);
    RewardNext(2, 1250000000, 7500000000);
    RewardNext(3, 625000000, 8750000000);
    RewardNext(4, 312500000, 9375000000);
    RewardNext(5, 156250000, 9687500000);
    RewardNext(6, 78125000, 9843750000);
    RewardNext(7, 39062500, 9921875000);
    RewardNext(8, 19531250, 9960937500);
    RewardNext(9, 9765625, 9980468750);
    RewardNext(10, 4882812, 9990234375);
    RewardNext(11, 2441406, 9995117187);
    RewardNext(12, 1220703, 9997558593);
    RewardNext(13, 610351, 9998779296);
    RewardNext(14, 305175, 9999389647);
    RewardNext(15, 152587, 9999694822);
    RewardNext(16, 76293, 9999847409);
    RewardNext(17, 38146, 9999923702);
    RewardNext(18, 19073, 9999961848);
    RewardNext(19, 9536, 9999980921);
    RewardNext(20, 4768, 9999990457);
    RewardNext(21, 2384, 9999995225);
    RewardNext(22, 1192, 9999997609);
    RewardNext(23, 596, 9999998801);
    RewardNext(24, 298, 9999999397);
    RewardNext(25, 149, 9999999695);
    RewardNext(26, 74, 9999999844);
    RewardNext(27, 37, 9999999918);
    RewardNext(28, 18, 9999999955);
    RewardNext(29, 9, 9999999973);
    RewardNext(30, 4, 9999999982);
    RewardNext(31, 2, 9999999986);
    RewardNext(32, 1, 9999999988);
  }

  /** The reward is at least one satoshi for 33 eras and nothing after. */
  lemma RewardEnds(era: nat)
    ensures Reward(era) > 0 <==> era < 33
  {
    hide Halved;
    RewardTable();
    if era < 33 {
      HalvedFalls(50 * COIN, era, 32);
    } else {
      HalvedFalls(50 * COIN, 33, era);
    }
  }

  lemma {:induction false} RewardSumFrom33(q: nat)
    requires 33 <= q
    ensures RewardSum(q) == 9999999989
  {
    if q == 33 {
      RewardTable();
    } else {
      RewardSumFrom33(q - 1);
      RewardEnds(q - 1);
    }
  }

  lemma {:induction false} SupplyGrows(m: nat, n: nat)
    requires m <= n
    ensures Supply(m) <= Supply(n)
    ensures (exists h :: m <= h < n && BlockSubsidy(h) > 0) ==> Supply(m) < Supply(n)
  {
    if m < n {
      SupplyGrows(m, n - 1);
    }
  }

  /** The supply never exceeds 20999999.9769 coins, and reaches them exactly at height 6930000. */
  lemma SupplyBound(n: nat)
    ensures Supply(n) <= 2099999997690000
    ensures Supply(n) == 2099999997690000 <==> n >= 33 * ERA
  {
    SupplyFrom(33 * ERA);
    if n >= 33 * ERA {
      SupplyFrom(n);
    } else {
      SupplyGrows(n, 33 * ERA);
      RewardEnds(n / ERA);
      assert BlockSubsidy(n) > 0;
    }
  }

  lemma SupplyFrom(n: nat)
    requires n >= 33 * ERA
    ensures Supply(n) == 2099999997690000
  {
    hide Supply, RewardSum, Reward;
    SupplyClosed(n);
    RewardSumFrom33(n / ERA);
    RewardEnds(n / ERA);
    assert Reward(n / ERA) == 0;
  }
}
