/** `TradingEnv` itself: one object owning the cursor, the cash, the holdings, the net
    worth and the three append-only lists, changed in place by `reset` and `step`. Each
    method is proved to leave exactly the state the value-level model in trading.dfy
    prescribes. */
module Environment {
  import opened Trading

  class TradingEnv {
    const data: seq<Row>
    const initialBalance: real

    var currentStep: nat
    var balance: real
    var sharesHeld: real
    var netWorth: real
    var portfolioValueHistory: seq<real>
    var returnSeries: seq<real>
    var tradeLog: seq<TradeRecord>

    /** The fields as one value. */
    function State(): EnvState
      reads this
    {
      EnvState(currentStep, balance, sharesHeld, netWorth, portfolioValueHistory, returnSeries, tradeLog)
    }

    ghost predicate Valid()
      reads this
    {
      Consistent(data, State())
    }

    /** `__init__`: the history starts empty, so the first step records no return. The
        starting cash defaults to 100000. */
    constructor (data: seq<Row>, initialBalance: real := 100000.0)
      ensures this.data == data && this.initialBalance == initialBalance
      ensures State() == Initial(initialBalance)
      ensures |data| > 0 ==> Valid()
    {
      this.data := data;
      this.initialBalance := initialBalance;
      currentStep := 0;
      balance := initialBalance;
      sharesHeld := 0.0;
      netWorth := initialBalance;
      portfolioValueHistory := [];
      returnSeries := [];
      tradeLog := [];
      new;
      if |data| > 0 {
        InitialConsistent(data, initialBalance);
      }
    }

    /** `reset`: every field is reinitialised, whatever the episode did before. The row-0
        observation it returns needs a row, hence the requirement. */
    method Reset()
      requires |data| > 0
      modifies this
      ensures State() == Trading.Reset(initialBalance)
      ensures currentStep == 0 && balance == initialBalance && sharesHeld == 0.0 && netWorth == initialBalance
      ensures portfolioValueHistory == [initialBalance] && returnSeries == [] && tradeLog == []
      ensures Valid()
    {
      currentStep := 0;
      balance := initialBalance;
      sharesHeld := 0.0;
      netWorth := balance;
      portfolioValueHistory := [netWorth];
      returnSeries := [];
      tradeLog := [];
      ResetConsistent(data, initialBalance);
    }

    /** `_take_action`: trade at the cursor's row, re-mark, and extend the history and
        the return series. */
    method TakeAction(action: real)
      requires CanTakeAction(data, State(), action)
      modifies this
      ensures State() == Trading.TakeAction(data, old(State()), action)
    {
      ghost var after := Trading.TakeAction(data, State(), action);
      var currentPrice := data[currentStep].close;
      var currentDate := data[currentStep].date;
      var order := OrderFor(action, balance, sharesHeld, currentPrice);
      if order.Market? {
        var filled := Fill(Holdings(balance, sharesHeld), order, currentPrice);
        balance, sharesHeld := filled.balance, filled.shares;
        tradeLog := tradeLog + [TradeRecord(currentStep, currentDate, order.side, order.shares, currentPrice, balance)];
      }
      assert balance == after.balance && sharesHeld == after.shares && tradeLog == after.log;
      netWorth := sharesHeld * currentPrice + balance;
      assert netWorth == after.netWorth;
      portfolioValueHistory := portfolioValueHistory + [netWorth];
      if |portfolioValueHistory| > 1 {
        var previous := portfolioValueHistory[|portfolioValueHistory| - 2];
        returnSeries := returnSeries + [Return(previous, netWorth)];
      }
      assert returnSeries == after.returnSeries;
    }

    /** `step`: trade, move the cursor on by one, report whether the last row is reached
        and score the transition. Stepping from the last row is refused, as the source
        fails there reading the row after it. */
    method Step(action: real) returns (reward: RewardTerms, done: bool)
      requires Valid() && CanStep(data, State(), action)
      modifies this
      ensures State() == Trading.Step(data, old(State()), action)
      ensures currentStep == old(currentStep) + 1
      ensures done <==> currentStep == |data| - 1
      ensures reward == CalculateReward(data, State())
      ensures Valid()
    {
      ghost var before := State();
      TakeAction(action);
      currentStep := currentStep + 1;
      done := currentStep >= |data| - 1;
      reward := CalculateReward(data, State());
      StepConsistent(data, before, action);
    }
  }
}
