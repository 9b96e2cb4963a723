/** The trading console's session (session.go): the price statistics it
    indexes by symbol, the symbol it has selected, the routing of a console
    line to a handler, symbol selection, the guards that refuse trading while
    nothing is selected, and the orders the trading handlers compose. Every
    exchange call is a parameter: the quotes it returns, and whether it
    refuses an order. */
module Session {
  import opened Outcomes
  import opened Ascii
  import opened Tools

  /** The part of the exchange's 24-hour statistics the session keeps. */
  datatype PriceStats = PriceStats(symbol: string, weightedAvgPrice: string)

  /** The session state the handlers below read and write. */
  datatype Session = Session(
    priceStats: map<string, PriceStats>,
    selected: string,
    btcPrice: F,
    avg24h: F,
    avgRecent: F,
    basePrice: F,
    maxInvestEUR: F,
    buyMaxMult: F,
    sellMaxMult: F,
    sellMinMult: F)

  /** Every statistics entry is filed under its own symbol, and the selection
      is empty or one of those symbols. */
  predicate Consistent(sess: Session) {
    (forall k :: k in sess.priceStats ==> sess.priceStats[k].symbol == k) &&
    (sess.selected == "" || sess.selected in sess.priceStats)
  }

  /** The answers of the handlers modelled here. */
  datatype Reply =
    | NoSymbolSelected               // "NO SYMBOL SELECTED!"
    | SymbolNotFound(symbol: string) // "SYMBOL NOT FOUND: %q"
    | BtcPriceError(price: F)        // "ERROR ON BTC PRICE UPDATE: %v"
    | InfoOf(symbol: string)         // the info block of the selected symbol
    | NotACommand(line: string)      // "not a command: " followed by the line

  // ---------------------------------------------------------------------------
  // Starting a session

  /** The statistics indexed by symbol, a later entry replacing an earlier
      one with the same symbol. */
  method IndexStats(stats: seq<PriceStats>) returns (m: map<string, PriceStats>)
    ensures forall k :: k in m <==> exists i :: 0 <= i < |stats| && stats[i].symbol == k
    ensures forall k :: k in m ==> m[k].symbol == k
    ensures forall k :: k in m ==>
      exists i :: 0 <= i < |stats| && m[k] == stats[i] && (forall j :: i < j < |stats| ==> stats[j].symbol != k)
  {
    m := map[];
    var n := 0;
    while n < |stats|
      invariant 0 <= n <= |stats|
      invariant forall k :: k in m <==> exists i :: 0 <= i < n && stats[i].symbol == k
      invariant forall k :: k in m ==> m[k].symbol == k
      invariant forall k :: k in m ==>
        exists i :: 0 <= i < n && m[k] == stats[i] && (forall j :: i < j < n ==> stats[j].symbol != k)
    {
      m := m[stats[n].symbol := stats[n]];
      n := n + 1;
    }
  }

  /** StartSession on the statistics the exchange listed (none when the
      listing failed): nothing selected, the configured default investment
      and multipliers. */
  method Start(stats: seq<PriceStats>) returns (sess: Session)
    ensures Consistent(sess) && sess.selected == ""
    ensures forall k :: k in sess.priceStats <==> exists i :: 0 <= i < |stats| && stats[i].symbol == k
    ensures sess.maxInvestEUR == FromF(50.0) && sess.buyMaxMult == FromF(1.2)
    ensures sess.sellMaxMult == FromF(4.5) && sess.sellMinMult == FromF(1.0)
  {
    var index := IndexStats(stats);
    var zero := F(0.0, None);
    sess := Session(index, "", zero, zero, zero, zero, FromF(50.0), FromF(1.2), FromF(4.5), FromF(1.0));
  }

  // ---------------------------------------------------------------------------
  // Routing a console line

  /** strings.SplitN(line, " ", 2): the command before the first space and
      the argument after it; the whole line and "" when there is no space. */
  function SplitLine(line: string): (p: (string, string))
    ensures ' ' !in p.0
    ensures ' ' in line ==> line == p.0 + " " + p.1
    ensures ' ' !in line ==> p == (line, "")
  {
    if |line| == 0 then ("", "")
    else if line[0] == ' ' then ("", line[1..])
    else
      var rest := SplitLine(line[1..]);
      assert line == [line[0]] + line[1..];
      ([line[0]] + rest.0, rest.1)
  }

  /** Splitting undoes joining a space-free command to its argument. */
  lemma {:induction false} SplitOfJoined(cmd: string, arg: string)
    requires ' ' !in cmd
    ensures SplitLine(cmd + " " + arg) == (cmd, arg)
    decreases |cmd|
  {
    if |cmd| > 0 {
      assert (cmd + " " + arg)[1..] == cmd[1..] + " " + arg;
      assert ' ' !in cmd[1..] by {
        assert forall c :: c in cmd[1..] ==> c in cmd;
      }
      SplitOfJoined(cmd[1..], arg);
      assert cmd == [cmd[0]] + cmd[1..];
    } else {
      assert cmd + " " + arg == " " + arg;
    }
  }

  /** The handlers of the console's switch. */
  datatype Handler =
    | ShowConfig | CancelAll | ShowPrice | PlaceBuy | SellAll | SellWallOrders
    | Select | History | SymbolInfo | SetInvest | Unknown

  /** The switch on the command word; aliases are case-sensitive. It knows
      exactly the words listed in Commands, and the three selecting words. */
  function Route(cmd: string): (h: Handler)
    ensures h != Unknown <==> cmd in Commands
    ensures h == Select <==> cmd == "" || cmd == "init" || cmd == "i"
  {
    if cmd == "config" then ShowConfig
    else if cmd == "cancel" || cmd == "c" then CancelAll
    else if cmd == "price" || cmd == "p" then ShowPrice
    else if cmd == "buy" || cmd == "b" then PlaceBuy
    else if cmd == "sell" || cmd == "s" then SellAll
    else if cmd == "sell-wall" || cmd == "sw" then SellWallOrders
    else if cmd == "" || cmd == "init" || cmd == "i" then Select
    else if cmd == "history" || cmd == "h" then History
    else if cmd == "symbol-info" then SymbolInfo
    else if cmd == "set invest" then SetInvest
    else Unknown
  }

  /** Every word the switch names. */
  const Commands: set<string> := {
    "config", "cancel", "c", "price", "p", "buy", "b", "sell", "s", "sell-wall", "sw",
    "", "init", "i", "history", "h", "symbol-info", "set invest" }

  /** What one console line asks for. */
  datatype Action =
    | Call(handler: Handler, arg: string)
    | SelectSymbol(symbol: string)
    | Refuse(line: string)

  /** dispatch for one line: a known command calls its handler with the
      argument, and the selecting commands select the argument. Any other
      command word selects itself, its argument dropped, while nothing is
      selected, and is refused with the whole line otherwise. */
  function Dispatch(line: string, selected: string): (a: Action)
    ensures var (cmd, arg) := SplitLine(line);
      (a.Call? ==> Route(cmd) !in {Select, Unknown} && a.handler == Route(cmd) && a.arg == arg) &&
      (a.SelectSymbol? <==> (Route(cmd) == Select || (Route(cmd) == Unknown && selected == ""))) &&
      (a.SelectSymbol? ==> a.symbol == (if Route(cmd) == Unknown then cmd else arg)) &&
      (a.Refuse? <==> Route(cmd) == Unknown && selected != "") &&
      (a.Refuse? ==> a.line == line)
  {
    var (cmd, arg) := SplitLine(line);
    match Route(cmd)
    case Select => SelectSymbol(arg)
    case Unknown => if selected == "" then SelectSymbol(cmd) else Refuse(line)
    case h => Call(h, arg)
  }

  /** The "set invest" case of the switch can never be taken: the command
      word holds no space. */
  lemma SetInvestUnreachable(line: string, selected: string)
    ensures !(Dispatch(line, selected).Call? && Dispatch(line, selected).handler == SetInvest)
  {
    var cmd := SplitLine(line).0;
    assert ' ' in "set invest";
    assert cmd != "set invest";
  }

  /** Aliases are case-sensitive: with nothing selected "BUY" is a symbol to
      select, not the buy command. */
  lemma UpperCaseAliasSelects()
    ensures Dispatch("BUY", "") == SelectSymbol("BUY")
  {
    assert ' ' !in "BUY";
    assert Route("BUY") == Unknown;
  }

  /** With a symbol selected, an upper-case alias is refused with its line. */
  lemma UpperCaseAliasRefused()
    ensures Dispatch("BUY 2", "ETHBTC") == Refuse("BUY 2")
  {
    SplitOfJoined("BUY", "2");
    assert "BUY" + " " + "2" == "BUY 2";
    assert Route("BUY") == Unknown;
  }

  /** The lower-case alias reaches the buy handler with its argument. */
  lemma LowerCaseAliasBuys()
    ensures Dispatch("b 2", "ETHBTC") == Call(PlaceBuy, "2")
  {
    SplitOfJoined("b", "2");
  }

  // ---------------------------------------------------------------------------
  // Selecting a symbol

  /** The replies of Info: a refusal when nothing is selected, else the info
      block of the selected symbol (its quotes and balances come from the
      exchange and are not part of this model). */
  function Info(sess: Session): (r: seq<Reply>)
    ensures r == [NoSymbolSelected] <==> sess.selected == ""
  {
    if sess.selected == "" then [NoSymbolSelected] else [InfoOf(sess.selected)]
  }

  /** The key a typed symbol resolves to: the upper-cased symbol when the
      statistics hold it, else the upper-cased symbol with "BTC" appended. */
  function Resolve(keys: map<string, PriceStats>, symbol: string): (r: Option<string>)
    ensures r.Some? ==> r.value in keys
    ensures r.Some? ==> r.value == ToUpper(symbol) || r.value == ToUpper(symbol) + "BTC"
    ensures ToUpper(symbol) in keys ==> r == Some(ToUpper(symbol))
    ensures r.None? <==> ToUpper(symbol) !in keys && ToUpper(symbol) + "BTC" !in keys
  {
    var s := ToUpper(symbol);
    if s in keys then Some(s)
    else if s + "BTC" in keys then Some(s + "BTC")
    else None
  }

  /** The session after Init and the replies it produced. */
  datatype Outcome = Outcome(sess: Session, replies: seq<Reply>)

  /** Init(symbol). The empty symbol keeps the selection and shows the info.
      Otherwise the upper-cased symbol is looked up, exactly first and with
      "BTC" appended second; a miss answers SYMBOL NOT FOUND and changes
      nothing, a hit selects the statistics' symbol, takes the recent average
      price (from the exchange) as base price, the 24-hour average from the
      statistics and the BTC price (from the exchange), reports a BTC price
      error, and shows the info. */
  function Init(sess: Session, symbol: string, avgPrice: string -> F, btcEur: F, parse: string -> F): (r: Outcome)
    requires Consistent(sess)
    ensures Consistent(r.sess)
    ensures r.sess.priceStats == sess.priceStats
    ensures symbol == "" ==> r == Outcome(sess, Info(sess))
    ensures symbol != "" && ToUpper(symbol) in sess.priceStats ==> r.sess.selected == ToUpper(symbol)
    ensures symbol != "" && ToUpper(symbol) !in sess.priceStats && ToUpper(symbol) + "BTC" in sess.priceStats ==>
      r.sess.selected == ToUpper(symbol) + "BTC"
    ensures symbol != "" && ToUpper(symbol) !in sess.priceStats && ToUpper(symbol) + "BTC" !in sess.priceStats ==>
      r == Outcome(sess, [SymbolNotFound(ToUpper(symbol))])
    ensures r.sess.selected != sess.selected ==> r.sess.selected in sess.priceStats && r.sess.selected != ""
    ensures r.replies == [SymbolNotFound(ToUpper(symbol))] ||
      (|r.replies| > 0 && r.replies[|r.replies| - 1] == Info(r.sess)[0])
    ensures symbol != "" && Resolve(sess.priceStats, symbol).Some? ==>
      var k := Resolve(sess.priceStats, symbol).value;
      r.sess.selected == k &&
      r.sess.avgRecent == avgPrice(k) && r.sess.basePrice == avgPrice(k) &&
      r.sess.avg24h == parse(sess.priceStats[k].weightedAvgPrice) && r.sess.btcPrice == btcEur &&
      r.replies == (if Valid(btcEur) then [] else [BtcPriceError(btcEur)]) + Info(r.sess)
    ensures r.sess.maxInvestEUR == sess.maxInvestEUR && r.sess.buyMaxMult == sess.buyMaxMult &&
      r.sess.sellMaxMult == sess.sellMaxMult && r.sess.sellMinMult == sess.sellMinMult
  {
    if symbol == "" then Outcome(sess, Info(sess))
    else
      match Resolve(sess.priceStats, symbol)
      case None => Outcome(sess, [SymbolNotFound(ToUpper(symbol))])
      case Some(key) =>
        var stats := sess.priceStats[key];
        var avg := avgPrice(stats.symbol);
        var next := sess.(selected := stats.symbol, avgRecent := avg, basePrice := avg,
                          avg24h := parse(stats.weightedAvgPrice), btcPrice := btcEur);
        var warning := if Valid(btcEur) then [] else [BtcPriceError(btcEur)];
        Outcome(next, warning + Info(next))
  }

  /** Selecting is idempotent: typing the same symbol again keeps the
      selection it made. */
  lemma InitIdempotent(sess: Session, symbol: string, avgPrice: string -> F, btcEur: F, parse: string -> F)
    requires Consistent(sess)
    ensures var once := Init(sess, symbol, avgPrice, btcEur, parse).sess;
      Init(once, symbol, avgPrice, btcEur, parse).sess.selected == once.selected
  {
  }

  /** Typing the selected symbol in lower case selects it again. */
  lemma ReselectInAnyCase(sess: Session, symbol: string, avgPrice: string -> F, btcEur: F, parse: string -> F)
    requires Consistent(sess) && sess.selected != ""
    requires ToUpper(symbol) == sess.selected
    ensures Init(sess, symbol, avgPrice, btcEur, parse).sess.selected == sess.selected
  {
  }

  // ---------------------------------------------------------------------------
  // Trading

  datatype Side = Buy | Sell

  /** An order as the handlers compose it: symbol, side, quantity and limit,
      each number still carrying its error, if any. */
  datatype Order = Order(symbol: string, side: Side, quantity: F, limit: F)

  /** The multiplier a trading command uses: its argument, read as a number
      by `parse` (FromS), when one is given, else the session's default. */
  function Multiplier(default: F, arg: string, parse: string -> F): (m: F)
    ensures arg == "" ==> m == default
    ensures arg != "" ==> m == parse(arg)
  {
    if arg != "" then parse(arg) else default
  }

  /** The quantity Buy orders: the investment in BTC divided by the limit,
      rounded down. It is valid exactly when every input is valid and neither
      divisor is zero; otherwise it carries the first error met. */
  function BuyQuantity(invest: F, btcPrice: F, limit: F): (q: F)
    ensures Valid(q) <==> Valid(invest) && Valid(btcPrice) && Valid(limit) && btcPrice.v != 0.0 && limit.v != 0.0
    ensures (Valid(btcPrice) ==> btcPrice.v != 0.0) && (Valid(limit) ==> limit.v != 0.0) ==>
      q.err == FirstError([invest, btcPrice, limit])
  {
    QuantityChain(invest, btcPrice, limit);
    Floor(Div(Div(invest, btcPrice), limit))
  }

  /** The two divisions of BuyQuantity as a chain of the monad. */
  lemma QuantityChain(invest: F, btcPrice: F, limit: F)
    ensures Valid(Div(Div(invest, btcPrice), limit)) <==>
      Valid(invest) && Valid(btcPrice) && Valid(limit) && btcPrice.v != 0.0 && limit.v != 0.0
    ensures (Valid(btcPrice) ==> btcPrice.v != 0.0) && (Valid(limit) ==> limit.v != 0.0) ==>
      Div(Div(invest, btcPrice), limit).err == FirstError([invest, btcPrice, limit])
  {
    var steps := [Step(DivOp, btcPrice), Step(DivOp, limit)];
    ChainOfTwo(invest, steps[0], steps[1]);
    ChainValidIff(invest, steps);
    if (Valid(btcPrice) ==> btcPrice.v != 0.0) && (Valid(limit) ==> limit.v != 0.0) {
      ChainCarriesLeftmostError(invest, steps);
      assert Operands(invest, steps) == [invest, btcPrice, limit];
    }
  }

  /** Buy: refused while nothing is selected; otherwise a buy order at the
      base price times the multiplier, for the investment's quantity. */
  function BuyOrder(sess: Session, multS: string, parse: string -> F): (r: Result<Order, Reply>)
    ensures r.Err? <==> sess.selected == ""
    ensures r.Err? ==> r.error == NoSymbolSelected
    ensures r.Ok? ==> r.value.symbol == sess.selected && r.value.side == Buy
    ensures r.Ok? ==> r.value.limit == Mult(sess.basePrice, Multiplier(sess.buyMaxMult, multS, parse))
    ensures r.Ok? ==> r.value.quantity == BuyQuantity(sess.maxInvestEUR, sess.btcPrice, r.value.limit)
    ensures r.Ok? ==> (Valid(r.value.quantity) ==> Valid(r.value.limit) && Valid(sess.btcPrice) && Valid(sess.maxInvestEUR))
  {
    if sess.selected == "" then Err(NoSymbolSelected)
    else
      var limit := Mult(sess.basePrice, Multiplier(sess.buyMaxMult, multS, parse));
      Ok(Order(sess.selected, Buy, BuyQuantity(sess.maxInvestEUR, sess.btcPrice, limit), limit))
  }

  /** SellAllNow: refused while nothing is selected; otherwise a sell order
      of the whole free balance (from the exchange), rounded down, at the
      base price times the multiplier. */
  function SellAllOrder(sess: Session, multS: string, parse: string -> F, free: F): (r: Result<Order, Reply>)
    ensures r.Err? <==> sess.selected == ""
    ensures r.Err? ==> r.error == NoSymbolSelected
    ensures r.Ok? ==> r.value.symbol == sess.selected && r.value.side == Sell
    ensures r.Ok? ==> r.value.limit == Mult(sess.basePrice, Multiplier(sess.sellMinMult, multS, parse))
    ensures r.Ok? ==> r.value.quantity == Floor(free)
    ensures r.Ok? ==> (Valid(r.value.quantity) <==> Valid(free))
  {
    if sess.selected == "" then Err(NoSymbolSelected)
    else Ok(Order(sess.selected, Sell, Floor(free), Mult(sess.basePrice, Multiplier(sess.sellMinMult, multS, parse))))
  }

  /** The number of orders in a sell wall. */
  const WallSteps: nat := 4

  /** The order of one step of a sell wall: a quarter of the free balance at
      the base price plus `step` increments. */
  function WallOrder(sess: Session, qty: F, delta: F, step: nat): Order {
    Order(sess.selected, Sell, qty, Add(sess.basePrice, Mult(delta, FromI(step))))
  }

  /** SellWall: refused while nothing is selected; otherwise four sell orders
      from the highest limit (step 4) down to the lowest (step 1), each of a
      quarter of the free balance, the limits spread evenly between the base
      price and the base price times the multiplier. The exchange may refuse
      the n-th order sent (`refused(n)`); the wall stops right after the
      first refusal. The result lists the orders sent. */
  method SellWall(sess: Session, arg: string, parse: string -> F, free: F, refused: nat -> bool)
    returns (r: Result<seq<Order>, Reply>)
    ensures r.Err? <==> sess.selected == ""
    ensures r.Err? ==> r.error == NoSymbolSelected
    ensures r.Ok? ==> 1 <= |r.value| <= WallSteps
    ensures r.Ok? ==> forall n :: 0 <= n < |r.value| ==>
      r.value[n] == WallOrder(sess, Floor(Div(free, FromI(WallSteps))),
        Div(Sub(Mult(sess.basePrice, Multiplier(sess.sellMaxMult, arg, parse)), sess.basePrice), FromI(WallSteps)),
        WallSteps - n)
    ensures r.Ok? ==> forall n :: 0 <= n < |r.value| - 1 ==> !refused(n)
    ensures r.Ok? && |r.value| < WallSteps ==> refused(|r.value| - 1)
  {
    if sess.selected == "" {
      return Err(NoSymbolSelected);
    }
    var maxMult := Multiplier(sess.sellMaxMult, arg, parse);
    var qty := Floor(Div(free, FromI(WallSteps)));
    var maxLimit := Mult(sess.basePrice, maxMult);
    var delta := Div(Sub(maxLimit, sess.basePrice), FromI(WallSteps));
    var sent: seq<Order> := [];
    var step := WallSteps;
    while step > 0
      invariant 0 <= step <= WallSteps
      invariant |sent| == WallSteps - step
      invariant forall n :: 0 <= n < |sent| ==> sent[n] == WallOrder(sess, qty, delta, WallSteps - n)
      invariant forall n :: 0 <= n < |sent| ==> !refused(n)
    {
      sent := sent + [WallOrder(sess, qty, delta, step)];
      if refused(|sent| - 1) {
        return Ok(sent);
      }
      step := step - 1;
    }
    return Ok(sent);
  }

  /** Without an argument the handlers take the session's own multipliers and
      never consult the number parser; with one, the parsed argument replaces
      the default. */
  lemma ParserOnlyForArguments(sess: Session, arg: string, p: string -> F, q: string -> F, free: F)
    requires sess.selected != ""
    ensures BuyOrder(sess, "", p) == BuyOrder(sess, "", q)
    ensures SellAllOrder(sess, "", p, free) == SellAllOrder(sess, "", q, free)
    ensures BuyOrder(sess, "", p).value.limit == Mult(sess.basePrice, sess.buyMaxMult)
    ensures SellAllOrder(sess, "", p, free).value.limit == Mult(sess.basePrice, sess.sellMinMult)
    ensures arg != "" ==> BuyOrder(sess, arg, p).value.limit == Mult(sess.basePrice, p(arg))
    ensures arg != "" ==> SellAllOrder(sess, arg, p, free).value.limit == Mult(sess.basePrice, p(arg))
  {
  }

  /** Buy, SellAllNow and Info do nothing but refuse while no symbol is
      selected. */
  lemma GuardsRefuseWithoutSymbol(sess: Session, arg: string, parse: string -> F, free: F)
    requires sess.selected == ""
    ensures BuyOrder(sess, arg, parse) == Err(NoSymbolSelected)
    ensures SellAllOrder(sess, arg, parse, free) == Err(NoSymbolSelected)
    ensures Info(sess) == [NoSymbolSelected]
  {
  }
}
