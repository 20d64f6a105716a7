# TradingEnv, modelled and verified in Dafny

This project models `TradingEnv` (trading_env.py), a single-asset trading environment for
reinforcement learning. Each episode walks a table of daily rows. At every `step` the
agent's action in [-1, 1] is turned into an order at the current row's `Close`:
- a positive action buys `floor(balance * action / price)` shares;
- a negative action sells `min(shares * -action, shares)` shares.

When an order fills, cash and shares move and the trade is logged at once, inside the
buy or sell branch. Whether or not anything filled, the environment then does the
following:
- re-marks the net worth at the trade price;
- appends it to the portfolio-value history;
- appends the marginal return, except on the first step after `__init__` (the history
  is then still empty, since only `reset` seeds it with the initial balance);
- moves the cursor on by one;
- scores the transition with a P&L term plus a Sharpe-like bonus.

The model has four modules:

- `Stats` (stats.dfy) holds exact stand-ins for `np.mean` and for the square of `np.std`
  (population variance), with the fact behind the `std > 0` guard: the variance is zero
  exactly when all values are equal.
- `Trading` (trading.dfy) holds the environment's fields as one value, `EnvState`, and
  pure functions for each operation:
  - `Reset`;
  - `OrderFor` and `Fill`, which together are the two branches of `_take_action`;
  - `TakeAction`;
  - `Step`;
  - `Done`;
  - `CalculateReward`.

  It also holds the invariant `Consistent` that every reachable state keeps. Lemmas cover
  conservation, the buy and sell bounds, the no-trade cases and the exact P&L.
- `Episode` (episode.dfy) covers whole episodes, `reset` followed by one `step` per action.
  It proves that the invariant holds along every run and that the list lengths have the
  right shape. It proves solvency for in-range actions on positive prices. It also
  works through a three-row example.
- `Environment` (trading_env.dfy) holds the class `TradingEnv` itself. Its fields are
  updated in place by `Reset`, `TakeAction` and `Step`. Each method is proved to leave
  exactly the state that the `Trading` function prescribes. `Step` also keeps `Valid()`.

Money and prices are exact `real`s. Python's float `//` is `FloorDiv`, the floor of the
exact quotient.

The reward is returned as its terms, `RewardTerms(pnl, sharpe)`. The source's reward is
`tanh((pnl + mean / sqrt(variance)) / 1000)` when `sharpe` is `Bonus(mean, variance)`,
and `tanh(pnl / 1000)` when it is `NoBonus`.

Behaviour of the code that its names (`next_price`, `net_worth_before`) do not suggest.
The model follows the code on each point:
- `step` advances the cursor before `_calculate_reward`. The P&L therefore marks the
  holdings from the trade row `t` to row `t + 2`, or to row `t + 1` on the step that
  reaches the last row. It is not the move to the next row. On the final step it is
  generally not zero. In the three-row example the first reward is 10000, not 20000.
- After `step`, `net_worth` is the value at row `step - 1`, the row just traded at.
- Actions outside [-1, 1] are not clamped. An action of 2 spends twice the cash and leaves
  a negative balance (`BuyOverspends`).

## Model

| member | source | states |
|---|---|---|
| Trading.Min | trading_env.py:69 | `min(sell_amount, shares_held)` is at most both arguments and equal to one of them |
| Trading.OrderFor | trading_env.py:50-79 | the order placed: a fill always moves a positive number of shares; a buy only on a positive action, for exactly `balance * action // price` shares; a sell only on a negative action, for no more than is held. That an order is placed whenever the count is positive is stated by `BuyFloored`, `SellWithinHoldings` and `TakeActionLogsFill` |
| Trading.FloorDivBounds | trading_env.py:53 | Python's float `//` yields a whole number `q` with `q <= x / y < q + 1` |
| Trading.FillConserves | trading_env.py:55-56 | a fill moves cash and shares against each other and keeps `balance + shares * price` at the trade price (sell side: lines 70-71) |
| Trading.BuyWithinCash | trading_env.py:51-56 | for `0 < action <= 1`, non-negative cash and a positive price, the buy adds exactly `floor(balance * action / price)` shares, and the cash left is `balance - n * price >= 0` |
| Trading.BuyFloored | trading_env.py:51-56 | for every positive action and nonzero price, including actions above 1 and negative cash: a positive floored count `balance * action // price` is bought in full, debiting `n * price`; otherwise nothing changes |
| Trading.BuyOverspends | trading_env.py:51-56 | the buy is not clamped: an action of 2 with 1000 cash at price 10 buys 200 shares and leaves -1000 cash |
| Trading.SellWithinHoldings | trading_env.py:66-71 | a sell is `min(shares * -action, shares)` when shares are held and nothing otherwise; holdings never go negative at any price; cash never falls at a positive price; for `action >= -1` exactly the fraction `-action` is sold |
| Trading.NoTradeCases | trading_env.py:50-68 | no order is placed for a zero action, for a buy that floors to zero or fewer shares (negative cash), or for a sell with nothing held |
| Trading.HoldIsNoOp | trading_env.py:81-82 | with no order, cash, shares and log are unchanged and one mark of the unchanged holdings at this row is appended |
| Trading.TakeAction | trading_env.py:46-86 | `_take_action` leaves the cursor alone, appends exactly the new net worth to the history, and adds at most one log entry |
| Trading.TakeActionLedger | trading_env.py:81-86 | the new net worth is `shares * price + balance` at the trade price and equals the pre-trade value at that price (conservation); one return `(nw - prev) / prev` is appended exactly when there was an earlier mark; the log keeps its prefix and gains at most one record, made at this step, date and price, with a positive share count and the post-trade balance |
| Trading.TakeActionLogsFill | trading_env.py:57-79 | the log gains a record exactly when an order fills, so holdings never change unlogged; the record carries the order's side (`Buy`/`Sell`) and share count, and the holdings moved by exactly that count in that direction |
| Trading.Initial | trading_env.py:8-27 | the state `__init__` leaves; no contract of its own: `InitialConsistent` and `TradingEnv.constructor` carry its properties |
| Trading.InitialConsistent | trading_env.py:8-27 | on a non-empty table the `__init__` state already satisfies the invariant, with an empty history |
| Trading.Reset | trading_env.py:29-37 | the state `reset` leaves, depending only on the initial balance; no contract of its own: `ResetConsistent` and `TradingEnv.Reset` carry its properties |
| Trading.FloorDiv | trading_env.py:53 | Python's `//`; no contract of its own: `FloorDivBounds` states what it computes |
| Trading.Fill | trading_env.py:55-71 | settling an order (lines 55-56 buy, 70-71 sell); no contract of its own: `FillConserves`, `BuyWithinCash` and `SellWithinHoldings` carry its properties |
| Trading.Return | trading_env.py:85 | one marginal return; no contract of its own: `ReturnsCompound` states that it scales the previous mark to the new one |
| Trading.ReturnsCompound | trading_env.py:84-86 | along any history kept with its returns, every mark is the previous mark times `1 + return` |
| Trading.Step | trading_env.py:88-90 | the state after `step`; no contract of its own: `StepAdvances`, `StepConsistent` and `StepReward` carry its properties |
| Trading.Done | trading_env.py:91 | the `done` flag; no contract of its own: `StepAdvances` and `EpisodeShape` state when it holds |
| Trading.Lookahead | trading_env.py:97-98 | the price the reward marks the holdings at; no contract of its own: `StepReward` states which row it is |
| Trading.CalculateReward | trading_env.py:96-107 | `_calculate_reward` before the `tanh`; no contract of its own: `StepReward` states its P&L term and `SharpeBonus` its Sharpe term |
| Stats.Mean | trading_env.py:104 | `np.mean`; no contract of its own: `SumOfConstant` and `VarianceZeroIffConstant` use it |
| Stats.SumOfConstant | trading_env.py:104 | the sum of `n` copies of `c` is `n * c`, so the mean of a constant series is that constant |
| Trading.ResetConsistent | trading_env.py:29-37 | `reset` starts a consistent state whose history is `[initial_balance]` and whose returns and trade log are empty, whatever came before |
| Trading.StepAdvances | trading_env.py:88-91 | `step` moves the cursor on by exactly one, and `done` holds exactly when the cursor has reached the last row |
| Trading.StepConsistent | trading_env.py:46-91 | every step keeps the invariant. Holdings stay non-negative. The net worth is the holdings marked at the row traded at. The last history entry is the net worth. Returns are the marginal returns of the history. The log is ordered by step and each record matches its row |
| Trading.StepReward | trading_env.py:96-101 | after a step from row `t`, the P&L term is `shares * (P[t+2] - P[t])`, or `shares * (P[t+1] - P[t])` when `t + 1` is the last row |
| Trading.SharpeBonus | trading_env.py:103-107 | the Sharpe-like term is added exactly when there are at least two returns and they are not all equal; it then carries exactly their mean and their population variance (which is positive), so the term is `mean / sqrt(variance)` = `avg_return / return_std` |
| Stats.VarianceZeroIffConstant | trading_env.py:105-106 | the population variance (`np.std` squared) is zero exactly when all returns are equal |
| Stats.SquaredDeviationZero | trading_env.py:105 | the sum of squared deviations from `c` is zero exactly when every element equals `c` |
| Stats.Variance | trading_env.py:105 | the population variance is non-negative |
| Episode.Run | trading_env.py:88-91 | one `step` per action; no contract of its own: `RunConsistent` and `RunSolvent` carry its properties |
| Episode.AfterReset | trading_env.py:29-91 | `reset` then one `step` per action; no contract of its own: `EpisodeShape`, `InRangeEpisodeSolvent` and `ThreeRowEpisode` carry its properties |
| Episode.RunConsistent | trading_env.py:88-91 | along any run of steps the invariant holds; the cursor advances by the number of steps; the history grows by one mark per step and keeps its earlier marks; each step logs at most one trade |
| Episode.EpisodeShape | trading_env.py:29-91 | after `reset` and k steps the cursor is at k; the history holds the initial balance followed by k marks; `len(returns) == len(history) - 1 == k`; there are at most k trades; `done` holds exactly when k reaches the last row |
| Episode.StepSolvent | trading_env.py:46-91 | on positive prices, one in-range step from a solvent state is allowed and leaves non-negative cash and shares and a positive net worth |
| Episode.RunSolvent | trading_env.py:88-91 | on positive prices, in-range actions from a solvent state never fail, and they leave a solvent state |
| Episode.InRangeEpisodeSolvent | trading_env.py:29-91 | with positive prices, positive starting cash and actions in [-1, 1], an episode of up to `len(data) - 1` steps never fails and ends with non-negative cash and shares and a positive net worth |
| Episode.ThreeRowEpisode | trading_env.py:46-110 | worked example on closes 10, 12, 11 with 100000 cash, actions 1 and -0.5. It buys 10000 shares, then sells 5000 for 60000 cash. The rewards are 10000 with no bonus, then -5000 with a bonus of mean 0.1 and variance 0.01. There are two log records and `done` holds on the second step |
| Environment.TradingEnv.constructor | trading_env.py:8-27 | `__init__` (starting cash 100000 unless given) sets the cursor to 0, the cash to the initial balance, no shares, the net worth to the initial balance, and three empty lists |
| Environment.TradingEnv.Reset | trading_env.py:29-37 | `reset` reinitialises every field, leaving history `[initial_balance]`, and establishes the invariant |
| Environment.TradingEnv.TakeAction | trading_env.py:46-86 | the fields after `_take_action` are exactly `Trading.TakeAction` of the fields before |
| Environment.TradingEnv.Step | trading_env.py:88-94 | the fields after `step` are exactly `Trading.Step` of the fields before; the cursor moves on by one; `done` holds iff the cursor reached the last row; the reward terms are `Trading.CalculateReward` of the new state; the invariant is kept |

## Left out

- The gymnasium base class, `action_space`, `observation_space` and the `seed`/`options` arguments of `reset`: none of them affects the state the core updates.
- The pandas table is a sequence of rows holding the time-index label and the `Close` price. The other columns feed only the observation.
- `_next_observation` and `np.nan_to_num`: `Reset` and `Step` do not return the observation row. `Reset` still requires a non-empty table, because the source reads row 0 there.
- The `np.tanh` squash and the `np.sqrt` inside `np.std` have no closed form over exact reals. The reward is returned as `RewardTerms(pnl, sharpe)` with the variance in place of the standard deviation; the `std > 0` guard is the same test as `variance > 0`.
- Environment.TradingEnv.Step: returns the reward terms rather than `tanh((pnl + mean / std) / 1000)`, for the reason above. It also does not return the observation, or the two empty dicts (truncated flag and info).
- `render` (printing) and `get_trade_log` (building a DataFrame) are output only. Trade records are datatype values rather than dicts, and the side is `Buy`/`Sell` rather than a string.
- Floating point: all arithmetic is exact. Rounding in `balance * action`, in `//` and in the returns is not modelled.
- Trading.SharpeBonus: under exact arithmetic equal returns have variance exactly zero, so no bonus is added. In double-precision floats the `std > 0` guard can pass on returns that are all equal: for three returns of 0.1 the float mean is 0.10000000000000002 and the std is about 1.4e-17, so the source adds a Sharpe term of about 7e15 where the model gives `NoBonus`.
- The action is a scalar rather than a one-element array: only `action[0]` is read.
- Environment.TradingEnv.TakeAction: the buy and sell branches are written as calls to `OrderFor` and `Fill` rather than inline. The fields are updated by the same amounts, and the method is proved equal to the same specification.
- Preconditions where the model refuses an input, each modelled as a `requires`:
  - A buy at a zero price is refused. On the numpy float price the source's `//` gives inf or nan and goes on with them; exact reals have no inf or nan.
  - A return after a zero net worth is refused for the same reason: numpy's `/` gives inf or nan there.
  - A `step` from the last row is refused. There the source raises in `_calculate_reward` (`iloc` past the table), but only after `_take_action` has already traded, logged and appended, and after the cursor has moved to `len(data)`. That partly updated state is not modelled.
  - A `reset` on an empty table is refused, because the source raises reading row 0.
