/** Episodes: `reset` followed by one `step` per action, as an external controller drives
    `TradingEnv`. The lemmas here hold along every run, not just for one call. */
module Episode {
  import opened Trading

  /** Every step of the run is allowed (the source raises otherwise). */
  ghost predicate Runnable(data: seq<Row>, s: EnvState, actions: seq<real>)
    decreases |actions|
  {
    actions == [] || (CanStep(data, s, actions[0]) && Runnable(data, Step(data, s, actions[0]), actions[1..]))
  }

  /** The state after calling `step` once per action, starting from `s`. */
  function Run(data: seq<Row>, s: EnvState, actions: seq<real>): EnvState
    requires Runnable(data, s, actions)
    decreases |actions|
  {
    if actions == [] then s else Run(data, Step(data, s, actions[0]), actions[1..])
  }

  /** The state after `reset` and one `step` per action. */
  function AfterReset(data: seq<Row>, initialBalance: real, actions: seq<real>): EnvState
    requires Runnable(data, Reset(initialBalance), actions)
  {
    Run(data, Reset(initialBalance), actions)
  }

  /** Along a run the invariant holds, the cursor moves on by one per step, the history
      grows by one mark per step and keeps its earlier marks, and each step logs at most
      one trade. */
  lemma {:induction false} RunConsistent(data: seq<Row>, s: EnvState, actions: seq<real>)
    decreases |actions|
    requires Consistent(data, s) && Runnable(data, s, actions)
    ensures var r := Run(data, s, actions);
      && Consistent(data, r)
      && r.step == s.step + |actions|
      && |r.history| == |s.history| + |actions|
      && r.history[..|s.history|] == s.history
      && |r.log| <= |s.log| + |actions|
  {
    if actions != [] {
      var a := actions[0];
      var next := Step(data, s, a);
      StepConsistent(data, s, a);
      RunConsistent(data, next, actions[1..]);
      var r := Run(data, next, actions[1..]);
      assert r.history[..|s.history|] == r.history[..|next.history|][..|s.history|];
    }
  }

  /** Starting from `reset`: after k steps the cursor is at k, the history holds the
      initial balance and k marks, there is one return per step, at most k trades, and
      `done` holds exactly on the step that reaches the last row. */
  lemma EpisodeShape(data: seq<Row>, initialBalance: real, actions: seq<real>)
    requires |data| > 0 && Runnable(data, Reset(initialBalance), actions)
    ensures var r := AfterReset(data, initialBalance, actions);
      && Consistent(data, r)
      && r.step == |actions|
      && |r.history| == |actions| + 1
      && r.history[0] == initialBalance
      && |r.returnSeries| == |actions|
      && |r.log| <= |actions|
      && (Done(data, r) <==> |actions| == |data| - 1)
  {
    ResetConsistent(data, initialBalance);
    RunConsistent(data, Reset(initialBalance), actions);
    var r := AfterReset(data, initialBalance, actions);
    assert r.history[..1] == [initialBalance];
  }

  predicate PositivePrices(data: seq<Row>)
  {
    forall i :: 0 <= i < |data| ==> data[i].close > 0.0
  }

  predicate InNominalRange(actions: seq<real>)
  {
    forall i :: 0 <= i < |actions| ==> -1.0 <= actions[i] <= 1.0
  }

  /** Cash and shares are non-negative and the account is worth something. */
  ghost predicate Solvent(data: seq<Row>, s: EnvState)
  {
    Consistent(data, s) && s.balance >= 0.0 && s.netWorth > 0.0
  }

  /** An order from an action in [-1, 1] at a positive price keeps cash and shares
      non-negative and keeps a positive value positive. */
  lemma FillSolvent(balance: real, shares: real, action: real, price: real)
    requires price > 0.0 && balance >= 0.0 && shares >= 0.0 && -1.0 <= action <= 1.0
    requires balance + shares * price > 0.0
    ensures var h := Fill(Holdings(balance, shares), OrderFor(action, balance, shares, price), price);
      h.balance >= 0.0 && h.shares >= 0.0 && h.balance + h.shares * price > 0.0
  {
    if action > 0.0 {
      BuyWithinCash(balance, shares, action, price);
    } else if action < 0.0 {
      SellWithinHoldings(balance, shares, action, price);
    } else {
      NoTradeCases(action, balance, shares, price);
    }
  }

  /** On positive prices, one step with an action in [-1, 1] from a solvent state is
      allowed and leaves a solvent state. */
  lemma StepSolvent(data: seq<Row>, s: EnvState, action: real)
    requires PositivePrices(data) && Solvent(data, s)
    requires -1.0 <= action <= 1.0 && s.step + 1 < |data|
    ensures CanStep(data, s, action)
    ensures Solvent(data, Step(data, s, action))
  {
    var price := data[s.step].close;
    assert s.balance + s.shares * price > 0.0 by {
      if s.shares > 0.0 {
        Stats.ProductPositive(s.shares, price);
      } else {
        assert s.netWorth == 0.0 * data[MarkRow(s.step)].close + s.balance;
      }
    }
    FillSolvent(s.balance, s.shares, action, price);
    StepConsistent(data, s, action);
    var r := Step(data, s, action);
    assert MarkRow(r.step) == s.step;
  }

  lemma {:induction false} RunSolvent(data: seq<Row>, s: EnvState, actions: seq<real>)
    decreases |actions|
    requires PositivePrices(data) && InNominalRange(actions) && Solvent(data, s)
    requires s.step + |actions| < |data|
    ensures Runnable(data, s, actions)
    ensures Solvent(data, Run(data, s, actions))
  {
    if actions != [] {
      StepSolvent(data, s, actions[0]);
      assert InNominalRange(actions[1..]) by {
        forall i | 0 <= i < |actions[1..]| ensures -1.0 <= actions[1..][i] <= 1.0 {
          assert actions[1..][i] == actions[i + 1];
        }
      }
      RunSolvent(data, Step(data, s, actions[0]), actions[1..]);
    }
  }

  /** With positive prices, positive starting cash and every action inside the declared
      range [-1, 1], an episode of up to `|data| - 1` steps never divides by zero or steps
      past the table, and cash and shares never go negative. */
  lemma InRangeEpisodeSolvent(data: seq<Row>, initialBalance: real, actions: seq<real>)
    requires PositivePrices(data) && initialBalance > 0.0 && InNominalRange(actions)
    requires |actions| < |data|
    ensures Runnable(data, Reset(initialBalance), actions)
    ensures var r := AfterReset(data, initialBalance, actions);
      r.balance >= 0.0 && r.shares >= 0.0 && r.netWorth > 0.0
  {
    ResetConsistent(data, initialBalance);
    RunSolvent(data, Reset(initialBalance), actions);
  }

  /** A worked episode on the three closes 10, 12, 11 with 100000 cash: an all-in buy
      then selling half. The first reward marks the 10000 shares from 10 to 11 (the row
      after the advanced cursor), not to 12. */
  lemma ThreeRowEpisode()
    ensures var data := [Row("d0", 10.0), Row("d1", 12.0), Row("d2", 11.0)];
      && Runnable(data, Reset(100000.0), [1.0, -0.5])
      && var s1 := AfterReset(data, 100000.0, [1.0]);
      && s1.balance == 0.0 && s1.shares == 10000.0 && s1.netWorth == 100000.0 && !Done(data, s1)
      && CalculateReward(data, s1) == RewardTerms(10000.0, NoBonus)
      && var s2 := AfterReset(data, 100000.0, [1.0, -0.5]);
      && s2.balance == 60000.0 && s2.shares == 5000.0 && s2.netWorth == 120000.0 && Done(data, s2)
      && s2.returnSeries == [0.0, 0.2]
      && s2.log == [TradeRecord(0, "d0", Buy, 10000.0, 10.0, 0.0), TradeRecord(1, "d1", Sell, 5000.0, 12.0, 60000.0)]
      && CalculateReward(data, s2) == RewardTerms(-5000.0, Bonus(0.1, 0.01))
  {
    var data := [Row("d0", 10.0), Row("d1", 12.0), Row("d2", 11.0)];
    var s0 := Reset(100000.0);
    assert FloorDiv(100000.0 * 1.0, 10.0) == 10000.0;
    var s1 := Step(data, s0, 1.0);
    assert s1.balance == 0.0 && s1.shares == 10000.0;
    assert s1.returnSeries == [0.0];
    var s2 := Step(data, s1, -0.5);
    assert s2.balance == 60000.0 && s2.shares == 5000.0;
    assert s2.returnSeries == [0.0, 0.2];
    assert Run(data, s1, [-0.5]) == s2;
    assert [1.0, -0.5][1..] == [-0.5];
    assert Stats.Mean([0.0, 0.2]) == 0.1;
    assert Stats.Variance([0.0, 0.2]) == 0.01;
  }
}
