/** The trading state machine of `TradingEnv` (trading_env.py) as values: the account
    state, the order an action resolves to, the ledger update of `_take_action`, the
    cursor advance of `step` and the reward terms of `_calculate_reward`. The class in
    trading_env.dfy is proved against these functions. */
module Trading {
  import Stats

  /** The table's per-row time index: an opaque label copied into trade records. */
  type Label = string

  /** One row of the price table; only the `Close` column is used by the core. */
  datatype Row = Row(date: Label, close: real)

  datatype Side = Buy | Sell

  /** What an action resolves to at a given price: nothing, or a fill of a positive
      number of shares. */
  datatype Order = Hold | Market(side: Side, shares: real)

  /** Cash and shares, the two quantities an order moves. */
  datatype Holdings = Holdings(balance: real, shares: real)

  /** One entry of `trade_log`: step, date, side, shares, price and the balance after the trade. */
  datatype TradeRecord = TradeRecord(step: nat, date: Label, side: Side, shares: real, price: real, balance: real)

  /** The instance fields of `TradingEnv` that the episode changes. */
  datatype EnvState = EnvState(
    step: nat,
    balance: real,
    shares: real,
    netWorth: real,
    history: seq<real>,
    returnSeries: seq<real>,
    log: seq<TradeRecord>)

  /** The reward before squashing: the one-step P&L and the Sharpe-like bonus.
      The raw reward is `pnl + mean / sqrt(variance)` for a `Bonus` and `pnl` otherwise;
      the source returns `tanh(raw / 1000)`. */
  datatype Sharpe = NoBonus | Bonus(mean: real, variance: real)
  datatype RewardTerms = RewardTerms(pnl: real, sharpe: Sharpe)

  function Min(x: real, y: real): (m: real)
    ensures m <= x && m <= y
    ensures m == x || m == y
  {
    if x <= y then x else y
  }

  function Last(s: seq<real>): real
    requires s != []
  {
    s[|s| - 1]
  }

  /** Python's `x // y` on floats: the largest whole number not above `x / y`. */
  function FloorDiv(x: real, y: real): real
    requires y != 0.0
  {
    (x / y).Floor as real
  }

  lemma FloorDivBounds(x: real, y: real)
    requires y != 0.0
    ensures var q := FloorDiv(x, y); q == q.Floor as real && q <= x / y < q + 1.0
  {
  }

  /** One marginal return `(next - prev) / prev`; it scales `prev` to `next`. */
  function Return(prev: real, next: real): real
    requires prev != 0.0
  {
    (next - prev) / prev
  }

  lemma ReturnScales(prev: real, next: real)
    requires prev != 0.0
    ensures prev * (1.0 + Return(prev, next)) == next
  {
  }

  /** The state `__init__` leaves: the history is still empty. */
  function Initial(initialBalance: real): EnvState
  {
    EnvState(0, initialBalance, 0.0, initialBalance, [], [], [])
  }

  /** The state `reset` leaves; it depends on nothing but the initial balance. */
  function Reset(initialBalance: real): EnvState
  {
    EnvState(0, initialBalance, 0.0, initialBalance, [initialBalance], [], [])
  }

  /** The order `_take_action` places for `action` (positive buys a fraction of the cash,
      negative sells a fraction of the holdings; neither fraction is clamped to 1). */
  function OrderFor(action: real, balance: real, shares: real, price: real): (o: Order)
    requires action > 0.0 ==> price != 0.0
    ensures o.Market? ==> o.shares > 0.0
    ensures o.Market? && o.side == Buy ==> action > 0.0 && o.shares == FloorDiv(balance * action, price)
    ensures o.Market? && o.side == Sell ==> action < 0.0 && o.shares <= shares
  {
    if action > 0.0 then
      var sharesToBuy := FloorDiv(balance * action, price);
      if sharesToBuy > 0.0 then Market(Buy, sharesToBuy) else Hold
    else if action < 0.0 then
      var sellAmount := shares * -action;
      if sellAmount > 0.0 then
        assert shares > 0.0 by { if shares <= 0.0 { NonPositiveProduct(shares, -action); } }
        Market(Sell, Min(sellAmount, shares))
      else Hold
    else Hold
  }

  lemma NonPositiveProduct(x: real, y: real)
    requires x <= 0.0 && y > 0.0
    ensures x * y <= 0.0
  {
  }

  /** Settling an order at `price` moves cash and shares against each other and keeps
      their value at that price. */
  function Fill(h: Holdings, o: Order, price: real): Holdings
  {
    match o
    case Hold => h
    case Market(Buy, n) => Holdings(h.balance - n * price, h.shares + n)
    case Market(Sell, n) => Holdings(h.balance + n * price, h.shares - n)
  }

  lemma FillConserves(h: Holdings, o: Order, price: real)
    ensures var r := Fill(h, o, price);
      r.balance + r.shares * price == h.balance + h.shares * price
  {
    match o
    case Hold =>
    case Market(Buy, n) =>
      assert (h.shares + n) * price == h.shares * price + n * price;
    case Market(Sell, n) =>
      assert (h.shares - n) * price == h.shares * price - n * price;
  }

  /** What `_take_action` needs: a row to trade at, a nonzero price to divide by when
      buying, and a nonzero previous net worth to divide by for the return. */
  predicate CanTakeAction(data: seq<Row>, s: EnvState, action: real)
  {
    && s.step < |data|
    && (action > 0.0 ==> data[s.step].close != 0.0)
    && (s.history != [] ==> Last(s.history) != 0.0)
  }

  /** `_take_action`: place the order, log it if it fills, re-mark the net worth at the
      trade price, append it to the history and, when there is a previous entry, append
      the marginal return. */
  function TakeAction(data: seq<Row>, s: EnvState, action: real): (r: EnvState)
    requires CanTakeAction(data, s, action)
    ensures r.step == s.step
    ensures r.history == s.history + [r.netWorth]
    ensures |r.log| <= |s.log| + 1
  {
    var row := data[s.step];
    var o := OrderFor(action, s.balance, s.shares, row.close);
    var h := Fill(Holdings(s.balance, s.shares), o, row.close);
    var log := if o.Market? then s.log + [TradeRecord(s.step, row.date, o.side, o.shares, row.close, h.balance)] else s.log;
    var netWorth := h.shares * row.close + h.balance;
    var returnSeries := if s.history == [] then s.returnSeries else s.returnSeries + [Return(Last(s.history), netWorth)];
    EnvState(s.step, h.balance, h.shares, netWorth, s.history + [netWorth], returnSeries, log)
  }

  /** What `step` needs beyond `_take_action`: after the advance, `_calculate_reward`
      reads row `step + 1`, so that row must exist. */
  predicate CanStep(data: seq<Row>, s: EnvState, action: real)
  {
    s.step + 1 < |data| && CanTakeAction(data, s, action)
  }

  /** The state after `step`: `_take_action`, then the cursor moves on by one. */
  function Step(data: seq<Row>, s: EnvState, action: real): EnvState
    requires CanStep(data, s, action)
  {
    TakeAction(data, s, action).(step := s.step + 1)
  }

  /** The `done` flag `step` returns. */
  predicate Done(data: seq<Row>, s: EnvState)
  {
    s.step >= |data| - 1
  }

  /** The price `_calculate_reward` marks the holdings at: the row after the cursor when
      it exists, else the cursor's own row. */
  function Lookahead(data: seq<Row>, k: nat): real
    requires k < |data|
  {
    if k + 1 < |data| then data[k + 1].close else data[k].close
  }

  /** `_calculate_reward` before the final `tanh(raw / 1000)`. */
  function CalculateReward(data: seq<Row>, s: EnvState): RewardTerms
    requires s.step < |data|
  {
    var pnl := s.shares * Lookahead(data, s.step) + s.balance - s.netWorth;
    var sharpe :=
      if |s.returnSeries| > 1 && Stats.Variance(s.returnSeries) > 0.0 then Bonus(Stats.Mean(s.returnSeries), Stats.Variance(s.returnSeries))
      else NoBonus;
    RewardTerms(pnl, sharpe)
  }

  /** The row the last net-worth mark used: the row traded at by the last `step`, which is
      one behind the cursor (at step 0 nothing is held, so any row gives the same mark). */
  function MarkRow(step: nat): nat
  {
    if step == 0 then 0 else step - 1
  }

  /** A trade record that matches the table row it was made at. */
  predicate LoggedAt(data: seq<Row>, t: TradeRecord)
  {
    t.step < |data| && t.date == data[t.step].date && t.price == data[t.step].close && t.shares > 0.0
  }

  /** The invariant every state reached by `__init__`, `reset` and `step` keeps. */
  ghost predicate Consistent(data: seq<Row>, s: EnvState)
  {
    && s.step < |data|
    && s.shares >= 0.0
    && s.netWorth == s.shares * data[MarkRow(s.step)].close + s.balance
    && (s.history != [] ==> Last(s.history) == s.netWorth)
    && s.step <= |s.history| <= s.step + 1
    && ReturnsOf(s.history, s.returnSeries)
    && LogOrdered(data, s.log, s.step)
  }

  /** The return series is the series of marginal returns of the history: one fewer
      entry than marks, entry i the return from mark i to mark i + 1. */
  ghost predicate ReturnsOf(history: seq<real>, returnSeries: seq<real>)
  {
    && |returnSeries| == (if history == [] then 0 else |history| - 1)
    && (forall i :: 0 <= i < |returnSeries| ==>
          history[i] != 0.0 && returnSeries[i] == Return(history[i], history[i + 1]))
  }

  /** Every record matches its row, was made before the cursor, and at most one record
      exists per step, in step order. */
  ghost predicate LogOrdered(data: seq<Row>, log: seq<TradeRecord>, cursor: nat)
  {
    && (forall i :: 0 <= i < |log| ==> LoggedAt(data, log[i]) && log[i].step < cursor)
    && (forall i, j :: 0 <= i < j < |log| ==> log[i].step < log[j].step)
  }

  lemma ReturnsAppend(history: seq<real>, returnSeries: seq<real>, netWorth: real)
    requires ReturnsOf(history, returnSeries)
    requires history != [] ==> Last(history) != 0.0
    ensures ReturnsOf(history + [netWorth],
      if history == [] then returnSeries else returnSeries + [Return(Last(history), netWorth)])
  {
    var h := history + [netWorth];
    var rs := if history == [] then returnSeries else returnSeries + [Return(Last(history), netWorth)];
    forall i | 0 <= i < |rs| ensures h[i] != 0.0 && rs[i] == Return(h[i], h[i + 1]) {
      if i < |returnSeries| {
        assert h[i] == history[i] && h[i + 1] == history[i + 1];
      } else {
        assert h[i] == Last(history) && h[i + 1] == netWorth;
      }
    }
  }

  /** The history compounds: each mark is the previous one grown by the return recorded
      between them. */
  lemma ReturnsCompound(history: seq<real>, returnSeries: seq<real>)
    requires ReturnsOf(history, returnSeries)
    ensures forall i :: 0 <= i < |returnSeries| ==> history[i + 1] == history[i] * (1.0 + returnSeries[i])
  {
    forall i | 0 <= i < |returnSeries| ensures history[i + 1] == history[i] * (1.0 + returnSeries[i]) {
      ReturnScales(history[i], history[i + 1]);
    }
  }

  lemma LogAppend(data: seq<Row>, log: seq<TradeRecord>, cursor: nat, log': seq<TradeRecord>)
    requires LogOrdered(data, log, cursor)
    requires log' == log || (|log'| == |log| + 1 && log'[..|log|] == log &&
                             LoggedAt(data, log'[|log|]) && log'[|log|].step == cursor)
    ensures LogOrdered(data, log', cursor + 1)
  {
    forall i | 0 <= i < |log'| ensures LoggedAt(data, log'[i]) && log'[i].step < cursor + 1 {
      if i < |log| {
        assert log'[i] == log'[..|log|][i];
      }
    }
    forall i, j | 0 <= i < j < |log'| ensures log'[i].step < log'[j].step {
      assert log'[i] == log'[..|log|][i];
      if j < |log| {
        assert log'[j] == log'[..|log|][j];
      }
    }
  }

  // ---------------------------------------------------------------------------------
  // Episode start

  lemma InitialConsistent(data: seq<Row>, initialBalance: real)
    requires |data| > 0
    ensures Consistent(data, Initial(initialBalance))
  {
  }

  /** `reset` discards every earlier field value and starts a consistent episode. */
  lemma ResetConsistent(data: seq<Row>, initialBalance: real)
    requires |data| > 0
    ensures var s := Reset(initialBalance);
      Consistent(data, s) && s.history == [initialBalance] && s.returnSeries == [] && s.log == []
  {
  }

  // ---------------------------------------------------------------------------------
  // Orders

  /** An in-range buy with non-negative cash at a positive price adds exactly
      `floor(balance * action / price)` shares (zero when it floors to nothing) and
      spends no more than the cash there is. */
  lemma BuyWithinCash(balance: real, shares: real, action: real, price: real)
    requires 0.0 < action <= 1.0 && balance >= 0.0 && price > 0.0
    ensures var n := FloorDiv(balance * action, price);
      var h := Fill(Holdings(balance, shares), OrderFor(action, balance, shares, price), price);
      && n >= 0.0
      && h.shares == shares + n
      && h.balance == balance - n * price
      && h.balance >= 0.0
  {
    var x := balance * action;
    var n := FloorDiv(x, price);
    FloorDivBounds(x, price);
    assert 0.0 <= x <= balance by {
      assert balance * action <= balance * 1.0;
    }
    assert x / price >= 0.0;
    assert n >= 0.0;
    assert n * price <= x by {
      assert n <= x / price;
      assert n * price <= (x / price) * price;
    }
  }

  /** Every buy, whatever the action's size and the sign of the cash, takes exactly the
      floored count `balance * action // price` when it is positive and nothing otherwise;
      nothing caps it at the cash available. */
  lemma BuyFloored(balance: real, shares: real, action: real, price: real)
    requires action > 0.0 && price != 0.0
    ensures var n := FloorDiv(balance * action, price);
      var h := Fill(Holdings(balance, shares), OrderFor(action, balance, shares, price), price);
      && (n > 0.0 ==> h.shares == shares + n && h.balance == balance - n * price)
      && (n <= 0.0 ==> h == Holdings(balance, shares))
  {
  }

  /** Out of the nominal range the buy is not clamped: an action of 2 spends twice the cash. */
  lemma BuyOverspends()
    ensures Fill(Holdings(1000.0, 0.0), OrderFor(2.0, 1000.0, 0.0, 10.0), 10.0) == Holdings(-1000.0, 200.0)
  {
    assert FloorDiv(2000.0, 10.0) == 200.0;
  }

  /** Any sell takes `min(shares * -action, shares)` shares (nothing when nothing is held)
      and never leaves negative holdings; at a positive price it never lowers the cash.
      Within the nominal range the cap does not bite: the sold fraction is exactly `-action`. */
  lemma SellWithinHoldings(balance: real, shares: real, action: real, price: real)
    requires action < 0.0 && shares >= 0.0
    ensures var o := OrderFor(action, balance, shares, price);
      var h := Fill(Holdings(balance, shares), o, price);
      && o == (if shares > 0.0 then Market(Sell, Min(shares * -action, shares)) else Hold)
      && h.shares >= 0.0
      && (price > 0.0 ==> h.balance >= balance)
      && (action >= -1.0 ==> h.shares == shares * (1.0 + action))
  {
    var o := OrderFor(action, balance, shares, price);
    if shares > 0.0 {
      Stats.ProductPositive(shares, -action);
      assert o == Market(Sell, Min(shares * -action, shares));
      if price > 0.0 {
        Stats.ProductPositive(o.shares, price);
      }
      if action >= -1.0 {
        assert shares * -action <= shares * 1.0;
      }
    } else {
      assert shares * -action == 0.0;
    }
  }

  /** The ledger side of `_take_action`: the net worth is re-marked at the trade price,
      exactly one return is appended when there was an earlier mark, and the log gains at
      most one record, made at this row with a positive share count. */
  lemma TakeActionLedger(data: seq<Row>, s: EnvState, action: real)
    requires CanTakeAction(data, s, action)
    ensures var r := TakeAction(data, s, action);
      && r.balance + r.shares * data[s.step].close == s.balance + s.shares * data[s.step].close
      && r.netWorth == r.shares * data[s.step].close + r.balance
      && r.returnSeries == (if s.history == [] then s.returnSeries else s.returnSeries + [Return(Last(s.history), r.netWorth)])
      && |r.log| <= |s.log| + 1
      && r.log[..|s.log|] == s.log
      && (|r.log| == |s.log| + 1 ==>
            var t := r.log[|s.log|];
            t.step == s.step && t.date == data[s.step].date && t.price == data[s.step].close &&
            t.shares > 0.0 && t.balance == r.balance)
  {
    var r := TakeAction(data, s, action);
    var o := OrderFor(action, s.balance, s.shares, data[s.step].close);
    FillConserves(Holdings(s.balance, s.shares), o, data[s.step].close);
    if o.Market? {
      assert r.log == s.log + [r.log[|s.log|]];
    } else {
      assert r.log == s.log;
    }
  }

  /** Every fill is logged and only fills are: the log gains a record exactly when an order
      is placed, and that record reports the order's side and share count, which are what
      moved the holdings. */
  lemma TakeActionLogsFill(data: seq<Row>, s: EnvState, action: real)
    requires CanTakeAction(data, s, action)
    ensures var r := TakeAction(data, s, action);
      var o := OrderFor(action, s.balance, s.shares, data[s.step].close);
      && (|r.log| == |s.log| + 1 <==> o.Market?)
      && (r.shares != s.shares ==> |r.log| == |s.log| + 1)
      && (|r.log| == |s.log| + 1 ==>
            var t := r.log[|s.log|];
            t.side == o.side && t.shares == o.shares &&
            r.shares == (if t.side == Buy then s.shares + t.shares else s.shares - t.shares))
  {
  }

  /** The three ways `_take_action` places no order: a zero action, a buy that floors to
      no positive number of shares (a negative count when the cash is negative), and a
      sell with nothing held. */
  lemma NoTradeCases(action: real, balance: real, shares: real, price: real)
    requires action > 0.0 ==> price != 0.0
    requires || action == 0.0
             || (action > 0.0 && FloorDiv(balance * action, price) <= 0.0)
             || (action < 0.0 && shares == 0.0)
    ensures OrderFor(action, balance, shares, price) == Hold
  {
    if action < 0.0 {
      assert shares * -action == 0.0;
    }
  }

  /** When no order is placed, `_take_action` leaves cash, shares and the log alone and
      still appends one mark, the unchanged holdings valued at this row. */
  lemma HoldIsNoOp(data: seq<Row>, s: EnvState, action: real)
    requires CanTakeAction(data, s, action)
    requires OrderFor(action, s.balance, s.shares, data[s.step].close) == Hold
    ensures var r := TakeAction(data, s, action);
      && r.balance == s.balance && r.shares == s.shares && r.log == s.log
      && r.netWorth == s.shares * data[s.step].close + s.balance
      && r.history == s.history + [r.netWorth]
  {
  }

  // ---------------------------------------------------------------------------------
  // Steps

  /** `step` moves the cursor on by exactly one, and `done` holds exactly when the cursor
      has reached the last row. */
  lemma StepAdvances(data: seq<Row>, s: EnvState, action: real)
    requires CanStep(data, s, action)
    ensures var r := Step(data, s, action);
      r.step == s.step + 1 && r.step < |data| && (Done(data, r) <==> r.step == |data| - 1)
  {
  }

  /** Every step keeps the invariant. */
  lemma StepConsistent(data: seq<Row>, s: EnvState, action: real)
    requires Consistent(data, s) && CanStep(data, s, action)
    ensures Consistent(data, Step(data, s, action))
  {
    var r := Step(data, s, action);
    var o := OrderFor(action, s.balance, s.shares, data[s.step].close);
    assert r.shares >= 0.0 by {
      if o.Market? && o.side == Sell {
        assert o.shares <= s.shares;
      }
    }
    assert MarkRow(r.step) == s.step;
    TakeActionLedger(data, s, action);
    ReturnsAppend(s.history, s.returnSeries, r.netWorth);
    LogAppend(data, s.log, s.step, r.log);
  }

  // ---------------------------------------------------------------------------------
  // Reward

  /** The reward is computed after the cursor has moved on: its P&L is the holdings after
      the trade marked from the trade row `t` to row `t + 2`, or to row `t + 1` on the
      step that reaches the last row. */
  lemma StepReward(data: seq<Row>, s: EnvState, action: real)
    requires CanStep(data, s, action)
    ensures var r := Step(data, s, action);
      var next := if s.step + 2 < |data| then data[s.step + 2].close else data[s.step + 1].close;
      CalculateReward(data, r).pnl == r.shares * (next - data[s.step].close)
  {
    var r := Step(data, s, action);
    var price := data[s.step].close;
    var next := if s.step + 2 < |data| then data[s.step + 2].close else data[s.step + 1].close;
    TakeActionLedger(data, s, action);
    assert Lookahead(data, r.step) == next;
    RemarkGain(r.shares, r.balance, price, next);
  }

  /** Re-marking holdings worth `shares * price + balance` at `next` gains `shares * (next - price)`. */
  lemma RemarkGain(shares: real, balance: real, price: real, next: real)
    ensures shares * next + balance - (shares * price + balance) == shares * (next - price)
  {
  }

  /** The Sharpe-like bonus is present exactly when there are at least two returns and
      they are not all equal (numpy's standard deviation is then positive); it carries
      their mean and their (positive) variance, so the bonus is `mean / sqrt(variance)`. */
  lemma SharpeBonus(data: seq<Row>, s: EnvState)
    requires s.step < |data|
    ensures var sharpe := CalculateReward(data, s).sharpe;
      && (sharpe.Bonus? <==> |s.returnSeries| > 1 && !Stats.Constant(s.returnSeries))
      && (sharpe.Bonus? ==>
            sharpe.mean == Stats.Mean(s.returnSeries) && sharpe.variance == Stats.Variance(s.returnSeries) &&
            sharpe.variance > 0.0)
  {
    if |s.returnSeries| > 1 {
      Stats.VarianceZeroIffConstant(s.returnSeries);
    }
  }
}
