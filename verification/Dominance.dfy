/** Market-cap dominance from live prices and cached supplies. Amounts are exact reals. */
module Dominance {
  import opened Wrappers

  datatype Coin = Coin(symbol: string, supply: real, mcap: real)

  datatype Figures = Figures(
    total: real, total2: real, total3: real,
    btcD: real, ethD: real, usdtD: real,
    coveragePct: real)

  const PEGGED_USD: set<string> := {"USDT", "USDC", "DAI", "FDUSD", "USDE", "PYUSD", "USDD", "TUSD", "USD1"}

  type Prices = map<string, real>

  /** The price a coin is taken at: 1 for a dollar peg, else its Binance USDT price, 0 if there is none. */
  function Price(symbol: string, prices: Prices): real {
    if symbol in PEGGED_USD then 1.0
    else if symbol + "USDT" in prices then prices[symbol + "USDT"] else 0.0
  }

  /** The coin can be priced live: it has a price that is not zero and a positive supply. */
  predicate IsLive(c: Coin, prices: Prices) {
    Price(c.symbol, prices) != 0.0 && c.supply > 0.0
  }

  function Cap(c: Coin, prices: Prices): real {
    if IsLive(c, prices) then Price(c.symbol, prices) * c.supply else c.mcap
  }

  /** Which coins a sum runs over. */
  datatype Pick = All | LiveOnes | Only(symbol: string) | Except(symbols: set<string>)

  predicate Picks(pick: Pick, c: Coin, prices: Prices) {
    match pick
    case All => true
    case LiveOnes => IsLive(c, prices)
    case Only(symbol) => c.symbol == symbol
    case Except(symbols) => c.symbol !in symbols
  }

  function Counted(pick: Pick, c: Coin, prices: Prices): real {
    if Picks(pick, c, prices) then Cap(c, prices) else 0.0
  }

  function Weights(pick: Pick, prices: Prices): Coin -> real {
    (c: Coin) => Counted(pick, c, prices)
  }

  function Sum(coins: seq<Coin>, w: Coin -> real): real {
    if coins == [] then 0.0 else Sum(coins[..|coins| - 1], w) + w(coins[|coins| - 1])
  }

  /** The caps of the picked coins, added up. */
  function CapSum(coins: seq<Coin>, prices: Prices, pick: Pick): real {
    Sum(coins, Weights(pick, prices))
  }

  function Total(coins: seq<Coin>, prices: Prices): real {
    CapSum(coins, prices, All)
  }

  /** A symbol's cap: all its coins merged. */
  function CapOf(symbol: string, coins: seq<Coin>, prices: Prices): real {
    CapSum(coins, prices, Only(symbol))
  }

  /** `d` is `cap` as a percentage of `total`. */
  ghost predicate IsShare(d: real, cap: real, total: real) {
    d * total == 100.0 * cap
  }

  /** What the figures mean, in caps. */
  ghost predicate Means(f: Figures, coins: seq<Coin>, prices: Prices) {
    && f.total == Total(coins, prices) > 0.0
    && f.total2 == CapSum(coins, prices, Except({"BTC"}))
    && f.total3 == CapSum(coins, prices, Except({"BTC", "ETH"}))
    && IsShare(f.btcD, CapOf("BTC", coins, prices), f.total)
    && IsShare(f.ethD, CapOf("ETH", coins, prices), f.total)
    && IsShare(f.usdtD, CapOf("USDT", coins, prices), f.total)
    && IsShare(f.coveragePct, CapSum(coins, prices, LiveOnes), f.total)
  }

  // ---------------------------------------------------------------- sums

  lemma CapSumSnoc(coins: seq<Coin>, c: Coin, prices: Prices, pick: Pick)
    ensures CapSum(coins + [c], prices, pick) == CapSum(coins, prices, pick) + Counted(pick, c, prices)
  {
    assert (coins + [c])[..|coins|] == coins;
  }

  /** What one more coin adds. Nothing is worth nothing. A dollar peg with a supply adds the supply; any other coin
      with a supply and a USDT price that is not zero adds price times supply; both count as covered. Every other
      coin adds its last known market cap and is not covered. The whole amount goes to the coin's own symbol. */
  lemma CoinAdds(coins: seq<Coin>, c: Coin, prices: Prices)
    ensures Total([], prices) == CapSum([], prices, LiveOnes) == CapOf(c.symbol, [], prices) == 0.0
    ensures var added := Total(coins + [c], prices) - Total(coins, prices);
            var covered := CapSum(coins + [c], prices, LiveOnes) - CapSum(coins, prices, LiveOnes);
            var pegged := c.symbol in ["USDT", "USDC", "DAI", "FDUSD", "USDE", "PYUSD", "USDD", "TUSD", "USD1"];
            var listed := c.symbol + "USDT" in prices && prices[c.symbol + "USDT"] != 0.0;
            && (c.supply > 0.0 && pegged ==> added == covered == c.supply)
            && (c.supply > 0.0 && !pegged && listed ==> added == covered == prices[c.symbol + "USDT"] * c.supply)
            && (c.supply <= 0.0 || (!pegged && !listed) ==> added == c.mcap && covered == 0.0)
            && CapOf(c.symbol, coins + [c], prices) == CapOf(c.symbol, coins, prices) + added
            && forall other :: other != c.symbol ==> CapOf(other, coins + [c], prices) == CapOf(other, coins, prices)
  {
    CapSumSnoc(coins, c, prices, All);
    CapSumSnoc(coins, c, prices, LiveOnes);
    forall s ensures CapOf(s, coins + [c], prices) == CapOf(s, coins, prices) + Counted(Only(s), c, prices) {
      CapSumSnoc(coins, c, prices, Only(s));
    }
    assert Counted(LiveOnes, c, prices) == if IsLive(c, prices) then Cap(c, prices) else 0.0;
  }

  /** A symbol not yet left out can be: the sum splits into its cap and the rest. */
  lemma {:induction false} LeaveOut(coins: seq<Coin>, prices: Prices, out: set<string>, symbol: string)
    requires symbol !in out
    ensures CapSum(coins, prices, Except(out)) == CapOf(symbol, coins, prices) +
              CapSum(coins, prices, Except(out + {symbol}))
  {
    if coins != [] { LeaveOut(coins[..|coins| - 1], prices, out, symbol); }
  }

  lemma {:induction false} ExceptNone(coins: seq<Coin>, prices: Prices)
    ensures CapSum(coins, prices, Except({})) == Total(coins, prices)
  {
    if coins != [] { ExceptNone(coins[..|coins| - 1], prices); }
  }

  /** The total is made of the three named caps and the rest. */
  lemma Partition(coins: seq<Coin>, prices: Prices)
    ensures Total(coins, prices) == CapOf("BTC", coins, prices) + CapSum(coins, prices, Except({"BTC"}))
    ensures CapSum(coins, prices, Except({"BTC"})) == CapOf("ETH", coins, prices) +
              CapSum(coins, prices, Except({"BTC", "ETH"}))
    ensures CapSum(coins, prices, Except({"BTC", "ETH"})) == CapOf("USDT", coins, prices) +
              CapSum(coins, prices, Except({"BTC", "ETH", "USDT"}))
  {
    ExceptNone(coins, prices);
    LeaveOut(coins, prices, {}, "BTC");
    assert {} + {"BTC"} == {"BTC"};
    LeaveOut(coins, prices, {"BTC"}, "ETH");
    assert {"BTC"} + {"ETH"} == {"BTC", "ETH"};
    LeaveOut(coins, prices, {"BTC", "ETH"}, "USDT");
    assert {"BTC", "ETH"} + {"USDT"} == {"BTC", "ETH", "USDT"};
  }

  // ---------------------------------------------------------------- conservation

  /** The caps of some symbols, added up. */
  function CapsOf(symbols: seq<string>, coins: seq<Coin>, prices: Prices): real {
    if symbols == [] then 0.0 else CapOf(symbols[0], coins, prices) + CapsOf(symbols[1..], coins, prices)
  }

  ghost predicate Distinct(symbols: seq<string>) {
    forall i, j :: 0 <= i < j < |symbols| ==> symbols[i] != symbols[j]
  }

  function SymbolsOf(coins: seq<Coin>): set<string> {
    set c | c in coins :: c.symbol
  }

  function SetOf(symbols: seq<string>): set<string> {
    set s | s in symbols
  }

  /** Leaving out some symbols, one after the other, takes out their caps and nothing else. */
  lemma {:induction false} LeaveOutAll(coins: seq<Coin>, prices: Prices, out: set<string>, symbols: seq<string>)
    requires Distinct(symbols) && SetOf(symbols) !! out
    ensures CapSum(coins, prices, Except(out)) == CapsOf(symbols, coins, prices) +
              CapSum(coins, prices, Except(out + SetOf(symbols)))
    decreases |symbols|
  {
    if symbols == [] {
      assert out + SetOf(symbols) == out;
    } else {
      assert symbols[0] in SetOf(symbols);
      LeaveOut(coins, prices, out, symbols[0]);
      LeaveOutAll(coins, prices, out + {symbols[0]}, symbols[1..]);
      assert out + {symbols[0]} + SetOf(symbols[1..]) == out + SetOf(symbols);
    }
  }

  lemma {:induction false} NothingLeft(coins: seq<Coin>, prices: Prices, out: set<string>)
    requires SymbolsOf(coins) <= out
    ensures CapSum(coins, prices, Except(out)) == 0.0
  {
    if coins != [] {
      var n := |coins| - 1;
      assert coins[n].symbol in SymbolsOf(coins);
      assert SymbolsOf(coins[..n]) <= SymbolsOf(coins);
      NothingLeft(coins[..n], prices, out);
    }
  }

  /** Nothing is lost or counted twice: the total is the sum, over any list of the coins' symbols without
      repetition, of the caps with duplicate symbols merged. */
  lemma {:induction false} Conservation(coins: seq<Coin>, prices: Prices, symbols: seq<string>)
    requires Distinct(symbols) && SymbolsOf(coins) <= SetOf(symbols)
    ensures CapsOf(symbols, coins, prices) == Total(coins, prices)
  {
    LeaveOutAll(coins, prices, {}, symbols);
    assert {} + SetOf(symbols) == SetOf(symbols);
    NothingLeft(coins, prices, SetOf(symbols));
    ExceptNone(coins, prices);
  }

  ghost predicate NonNegative(coins: seq<Coin>, prices: Prices) {
    && (forall i :: 0 <= i < |coins| ==> coins[i].supply >= 0.0 && coins[i].mcap >= 0.0)
    && (forall k :: k in prices ==> prices[k] >= 0.0)
  }

  lemma {:induction false} CapSumNonNegative(coins: seq<Coin>, prices: Prices, pick: Pick)
    requires NonNegative(coins, prices)
    ensures CapSum(coins, prices, pick) >= 0.0
    ensures pick == LiveOnes ==> CapSum(coins, prices, pick) <= Total(coins, prices)
  {
    if coins != [] {
      var c := coins[|coins| - 1];
      CapSumNonNegative(coins[..|coins| - 1], prices, pick);
      assert Price(c.symbol, prices) >= 0.0;
      assert Cap(c, prices) >= 0.0;
    }
  }

  // ---------------------------------------------------------------- the computation

  function Get(per: map<string, real>, symbol: string): real {
    if symbol in per then per[symbol] else 0.0
  }

  /** What the loop of `compute` has accumulated over some coins. */
  ghost predicate Accumulated(liveCap: real, staticCap: real, per: map<string, real>, coins: seq<Coin>, prices: Prices)
  {
    && liveCap == CapSum(coins, prices, LiveOnes)
    && liveCap + staticCap == Total(coins, prices)
    && per.Keys == SymbolsOf(coins)
    && forall s :: Get(per, s) == CapOf(s, coins, prices)
  }

  lemma NothingAccumulated(coins: seq<Coin>, prices: Prices)
    ensures Accumulated(0.0, 0.0, map[], coins[..0], prices)
  {
    assert coins[..0] == [];
  }

  lemma Accumulate(liveCap: real, staticCap: real, per: map<string, real>, coins: seq<Coin>, prices: Prices, c: Coin)
    requires Accumulated(liveCap, staticCap, per, coins, prices)
    ensures var cap := Cap(c, prices); var per' := per[c.symbol := Get(per, c.symbol) + cap];
            if IsLive(c, prices) then Accumulated(liveCap + cap, staticCap, per', coins + [c], prices)
            else Accumulated(liveCap, staticCap + cap, per', coins + [c], prices)
  {
    CapSumSnoc(coins, c, prices, LiveOnes);
    CapSumSnoc(coins, c, prices, All);
    forall s ensures CapOf(s, coins + [c], prices) == CapOf(s, coins, prices) + Counted(Only(s), c, prices) {
      CapSumSnoc(coins, c, prices, Only(s));
    }
    assert SymbolsOf(coins + [c]) == SymbolsOf(coins) + {c.symbol};
  }

  /** The values of a dictionary, read in the order of `keys`, added up. */
  function ValuesSum(per: map<string, real>, keys: seq<string>): real {
    if keys == [] then 0.0 else Get(per, keys[0]) + ValuesSum(per, keys[1..])
  }

  /** `keys` are the dictionary's keys, each once. */
  ghost predicate KeysOf(keys: seq<string>, per: map<string, real>) {
    Distinct(keys) && SetOf(keys) == per.Keys
  }

  lemma {:induction false} ValuesAreCaps(liveCap: real, staticCap: real, per: map<string, real>, coins: seq<Coin>,
          prices: Prices, keys: seq<string>)
    requires Accumulated(liveCap, staticCap, per, coins, prices)
    ensures ValuesSum(per, keys) == CapsOf(keys, coins, prices)
  {
    if keys != [] { ValuesAreCaps(liveCap, staticCap, per, coins, prices, keys[1..]); }
  }

  /** The values of `per` add up to the total, in whatever order they are taken. */
  ghost predicate AddsUp(per: map<string, real>, total: real) {
    forall keys :: KeysOf(keys, per) ==> ValuesSum(per, keys) == total
  }

  lemma AccumulatedAddsUp(liveCap: real, staticCap: real, per: map<string, real>, coins: seq<Coin>, prices: Prices)
    requires Accumulated(liveCap, staticCap, per, coins, prices)
    ensures liveCap + staticCap == Total(coins, prices) && per.Keys == SymbolsOf(coins) &&
            AddsUp(per, liveCap + staticCap)
  {
    forall keys | KeysOf(keys, per) ensures ValuesSum(per, keys) == liveCap + staticCap {
      ValuesAreCaps(liveCap, staticCap, per, coins, prices, keys);
      Conservation(coins, prices, keys);
    }
  }

  /** `compute`: None for no coins, no prices, or a total that is not positive. `merged` is what it has
      accumulated per symbol. */
  method Compute(coins: seq<Coin>, prices: Prices) returns (r: Option<Figures>, ghost merged: map<string, real>)
    ensures r.None? <==> coins == [] || prices == map[] || Total(coins, prices) <= 0.0
    ensures r.Some? ==> Means(r.value, coins, prices)
    ensures r.Some? ==> merged.Keys == SymbolsOf(coins) && AddsUp(merged, r.value.total)
    ensures r.Some? ==> forall s :: s in merged ==> merged[s] == CapOf(s, coins, prices)
  {
    hide AddsUp, Means, Accumulated, ToFigures, CapSum, SymbolsOf;
    merged := map[];
    if coins == [] || prices == map[] {
      r := None;
      return;
    }
    var liveCap, staticCap := 0.0, 0.0;
    var per: map<string, real> := map[];
    NothingAccumulated(coins, prices);
    for i := 0 to |coins|
      invariant Accumulated(liveCap, staticCap, per, coins[..i], prices)
    {
      var c := coins[i];
      assert coins[..i + 1] == coins[..i] + [c];
      Accumulate(liveCap, staticCap, per, coins[..i], prices, c);
      var px := Price(c.symbol, prices);
      var cap: real;
      if px != 0.0 && c.supply > 0.0 {
        cap := px * c.supply;
        liveCap := liveCap + cap;
      } else {
        cap := c.mcap;
        staticCap := staticCap + cap;
      }
      per := per[c.symbol := Get(per, c.symbol) + cap];
    }
    assert coins[..|coins|] == coins;
    var total := liveCap + staticCap;
    merged := per;
    AccumulatedAddsUp(liveCap, staticCap, per, coins, prices);
    if total <= 0.0 {
      r := None;
      return;
    }
    AccumulatedMeans(liveCap, staticCap, per, coins, prices);
    r := Some(ToFigures(total, liveCap, Get(per, "BTC"), Get(per, "ETH"), Get(per, "USDT")));
  }

  lemma AccumulatedMeans(liveCap: real, staticCap: real, per: map<string, real>, coins: seq<Coin>, prices: Prices)
    requires Accumulated(liveCap, staticCap, per, coins, prices) && liveCap + staticCap > 0.0
    ensures var f := ToFigures(liveCap + staticCap, liveCap, Get(per, "BTC"), Get(per, "ETH"), Get(per, "USDT"));
            Means(f, coins, prices) && f.total == liveCap + staticCap
    ensures forall s :: s in per ==> per[s] == CapOf(s, coins, prices)
  {
    Partition(coins, prices);
    FiguresMean(liveCap + staticCap, liveCap, Get(per, "BTC"), Get(per, "ETH"), Get(per, "USDT"));
    assert forall s :: s in per ==> per[s] == Get(per, s);
  }

  /** The percentages, and the two reduced totals taken back out of them. */
  function ToFigures(total: real, live: real, btcCap: real, ethCap: real, usdtCap: real): Figures
    requires total > 0.0
  {
    var btc := 100.0 * btcCap / total;
    var eth := 100.0 * ethCap / total;
    var usdt := 100.0 * usdtCap / total;
    Figures(total, total * (1.0 - btc / 100.0), total * (1.0 - (btc + eth) / 100.0), btc, eth, usdt,
          100.0 * live / total)
  }

  lemma ShareIs(cap: real, total: real)
    requires total > 0.0
    ensures IsShare(100.0 * cap / total, cap, total)
  {
  }

  /** Taking a share of the total back out of it leaves the total without the cap. */
  lemma TakeOut(d: real, cap: real, total: real)
    requires IsShare(d, cap, total)
    ensures total * (1.0 - d / 100.0) == total - cap
  {
    assert total * (1.0 - d / 100.0) == total - (d * total) / 100.0;
  }

  lemma FiguresMean(total: real, live: real, btcCap: real, ethCap: real, usdtCap: real)
    requires total > 0.0
    ensures var f := ToFigures(total, live, btcCap, ethCap, usdtCap);
            && f.total == total && f.total2 == total - btcCap && f.total3 == total - btcCap - ethCap
            && IsShare(f.btcD, btcCap, total) && IsShare(f.ethD, ethCap, total) && IsShare(f.usdtD, usdtCap, total)
            && IsShare(f.coveragePct, live, total)
  {
    ShareIs(btcCap, total);
    ShareIs(ethCap, total);
    ShareIs(usdtCap, total);
    ShareIs(live, total);
    var btc, eth := 100.0 * btcCap / total, 100.0 * ethCap / total;
    TakeOut(btc, btcCap, total);
    ShareAdd(btc, eth, btcCap, ethCap, total);
    TakeOut(btc + eth, btcCap + ethCap, total);
  }

  lemma ShareAdd(d: real, e: real, a: real, b: real, total: real)
    requires IsShare(d, a, total) && IsShare(e, b, total)
    ensures IsShare(d + e, a + b, total)
  {
  }

  // ---------------------------------------------------------------- what follows for any figures with that meaning

  lemma ShareBounds(d: real, cap: real, total: real)
    requires total > 0.0 && IsShare(d, cap, total) && 0.0 <= cap <= total
    ensures 0.0 <= d <= 100.0
  {
  }

  /** For non-negative inputs the shares are non-negative and sum to at most 100, the coverage lies between 0
      and 100, and each reduced total is no larger than the one before. */
  lemma SharesBounded(f: Figures, coins: seq<Coin>, prices: Prices)
    requires NonNegative(coins, prices) && Means(f, coins, prices)
    ensures 0.0 <= f.btcD && 0.0 <= f.ethD && 0.0 <= f.usdtD && f.btcD + f.ethD + f.usdtD <= 100.0
    ensures 0.0 <= f.coveragePct <= 100.0
    ensures 0.0 <= f.total3 <= f.total2 <= f.total
  {
    Partition(coins, prices);
    CapSumNonNegative(coins, prices, Only("BTC"));
    CapSumNonNegative(coins, prices, Only("ETH"));
    CapSumNonNegative(coins, prices, Only("USDT"));
    CapSumNonNegative(coins, prices, Except({"BTC", "ETH", "USDT"}));
    CapSumNonNegative(coins, prices, LiveOnes);
    var b, e, u := CapOf("BTC", coins, prices), CapOf("ETH", coins, prices), CapOf("USDT", coins, prices);
    ShareAdd(f.btcD, f.ethD, b, e, f.total);
    ShareAdd(f.btcD + f.ethD, f.usdtD, b + e, u, f.total);
    ShareBounds(f.btcD, b, f.total);
    ShareBounds(f.ethD, e, f.total);
    ShareBounds(f.usdtD, u, f.total);
    ShareBounds(f.btcD + f.ethD + f.usdtD, b + e + u, f.total);
    ShareBounds(f.coveragePct, CapSum(coins, prices, LiveOnes), f.total);
  }

  /** The figures do not depend on the order of the coins. */
  lemma OrderIrrelevant(f: Figures, coins: seq<Coin>, other: seq<Coin>, prices: Prices)
    requires multiset(coins) == multiset(other) && Means(f, coins, prices)
    ensures Means(f, other, prices)
  {
    forall pick ensures CapSum(coins, prices, pick) == CapSum(other, prices, pick) {
      SumOrderIrrelevant(coins, other, Weights(pick, prices));
    }
  }

  /** The meaning determines the figures. */
  lemma MeansDetermines(f: Figures, g: Figures, coins: seq<Coin>, prices: Prices)
    requires Means(f, coins, prices) && Means(g, coins, prices)
    ensures f == g
  {
    SameShareOnce(f.btcD, g.btcD, CapOf("BTC", coins, prices), f.total);
    SameShareOnce(f.ethD, g.ethD, CapOf("ETH", coins, prices), f.total);
    SameShareOnce(f.usdtD, g.usdtD, CapOf("USDT", coins, prices), f.total);
    SameShareOnce(f.coveragePct, g.coveragePct, CapSum(coins, prices, LiveOnes), f.total);
  }

  lemma SameShareOnce(d: real, e: real, cap: real, total: real)
    requires total > 0.0 && IsShare(d, cap, total) && IsShare(e, cap, total)
    ensures d == e
  {
    assert (d - e) * total == 0.0;
  }

  /** So two computations over the same coins in different orders come to the same figures. */
  lemma SameFigures(f: Figures, g: Figures, coins: seq<Coin>, other: seq<Coin>, prices: Prices)
    requires multiset(coins) == multiset(other) && Means(f, coins, prices) && Means(g, other, prices)
    ensures f == g
  {
    OrderIrrelevant(f, coins, other, prices);
    MeansDetermines(f, g, other, prices);
  }

  lemma {:induction false} SumOrderIrrelevant(coins: seq<Coin>, other: seq<Coin>, w: Coin -> real)
    requires multiset(coins) == multiset(other)
    ensures Sum(coins, w) == Sum(other, w)
    decreases |coins|
  {
    if coins == [] {
      assert |multiset(other)| == 0;
    } else {
      var n := |coins| - 1;
      var c := coins[n];
      assert coins == coins[..n] + [c];
      assert c in multiset(other);
      var k :| 0 <= k < |other| && other[k] == c;
      RemoveOne(coins[..n], other, k);
      SumOrderIrrelevant(coins[..n], other[..k] + other[k + 1..], w);
      assert other == other[..k] + [c] + other[k + 1..];
      SumInsert(other[..k], c, other[k + 1..], w);
    }
  }

  lemma RemoveOne(init: seq<Coin>, other: seq<Coin>, k: nat)
    requires k < |other| && multiset(init) + multiset{other[k]} == multiset(other)
    ensures multiset(init) == multiset(other[..k] + other[k + 1..])
  {
    assert other == other[..k] + [other[k]] + other[k + 1..];
    assert multiset(other[..k] + other[k + 1..]) == multiset(other) - multiset{other[k]};
    assert multiset(init) == multiset(other) - multiset{other[k]};
  }

  lemma {:induction false} SumInsert(a: seq<Coin>, c: Coin, b: seq<Coin>, w: Coin -> real)
    ensures Sum(a + [c] + b, w) == Sum(a + b, w) + w(c)
    decreases |b|
  {
    if b == [] {
      assert a + [c] + b == a + [c] && a + b == a && (a + [c])[..|a|] == a;
    } else {
      var n := |b| - 1;
      SumInsert(a, c, b[..n], w);
      assert (a + [c] + b)[..|a + [c] + b| - 1] == a + [c] + b[..n] && (a + b)[..|a + b| - 1] == a + b[..n];
    }
  }

  function ScaleCoin(c: Coin, factor: real): Coin {
    Coin(c.symbol, c.supply * factor, c.mcap * factor)
  }

  function Scale(coins: seq<Coin>, factor: real): seq<Coin> {
    if coins == [] then [] else Scale(coins[..|coins| - 1], factor) + [ScaleCoin(coins[|coins| - 1], factor)]
  }

  ghost predicate IsScaled(y: real, x: real, factor: real) {
    y == x * factor
  }

  /** Scaling every supply and market cap together scales the totals and leaves every share as it was. */
  lemma {:induction false} ScalesLinearly(f: Figures, g: Figures, coins: seq<Coin>, prices: Prices, factor: real)
    requires factor > 0.0 && Means(f, coins, prices) && Means(g, Scale(coins, factor), prices)
    ensures IsScaled(g.total, f.total, factor) && IsScaled(g.total2, f.total2, factor) &&
            IsScaled(g.total3, f.total3, factor)
    ensures g.btcD == f.btcD && g.ethD == f.ethD && g.usdtD == f.usdtD && g.coveragePct == f.coveragePct
  {
    CapSumScales(coins, prices, All, factor);
    CapSumScales(coins, prices, Except({"BTC"}), factor);
    CapSumScales(coins, prices, Except({"BTC", "ETH"}), factor);
    CapSumScales(coins, prices, Only("BTC"), factor);
    CapSumScales(coins, prices, Only("ETH"), factor);
    CapSumScales(coins, prices, Only("USDT"), factor);
    CapSumScales(coins, prices, LiveOnes, factor);
    var scaled := Scale(coins, factor);
    SameShare(f.btcD, CapOf("BTC", coins, prices), f.total, g.btcD, CapOf("BTC", scaled, prices), g.total, factor);
    SameShare(f.ethD, CapOf("ETH", coins, prices), f.total, g.ethD, CapOf("ETH", scaled, prices), g.total, factor);
    SameShare(f.usdtD, CapOf("USDT", coins, prices), f.total, g.usdtD, CapOf("USDT", scaled, prices), g.total, factor);
    SameShare(f.coveragePct, CapSum(coins, prices, LiveOnes), f.total, g.coveragePct, CapSum(scaled, prices, LiveOnes),
          g.total, factor);
  }

  lemma SameShare(d: real, cap: real, total: real, e: real, cap': real, total': real, factor: real)
    requires factor > 0.0 && total > 0.0 && total' > 0.0 && IsShare(d, cap, total) && IsShare(e, cap', total')
    requires IsScaled(cap', cap, factor) && IsScaled(total', total, factor)
    ensures d == e
  {
    assert d * total' == (d * total) * factor == (100.0 * cap) * factor == e * total';
    assert (d - e) * total' == 0.0;
  }

  lemma {:induction false} CapSumScales(coins: seq<Coin>, prices: Prices, pick: Pick, factor: real)
    requires factor > 0.0
    ensures IsScaled(CapSum(Scale(coins, factor), prices, pick), CapSum(coins, prices, pick), factor)
  {
    forall c ensures IsScaled(Weights(pick, prices)(ScaleCoin(c, factor)), Weights(pick, prices)(c), factor) {
      CountedScales(c, prices, pick, factor);
    }
    SumScales(coins, Weights(pick, prices), factor);
  }

  lemma {:induction false} SumScales(coins: seq<Coin>, w: Coin -> real, factor: real)
    requires forall c :: IsScaled(w(ScaleCoin(c, factor)), w(c), factor)
    ensures IsScaled(Sum(Scale(coins, factor), w), Sum(coins, w), factor)
  {
    if coins != [] {
      var n := |coins| - 1;
      SumScales(coins[..n], w, factor);
      var init := Scale(coins[..n], factor);
      assert (init + [ScaleCoin(coins[n], factor)])[..|init|] == init;
      AddScaled(Sum(init, w), Sum(coins[..n], w), w(ScaleCoin(coins[n], factor)), w(coins[n]), factor);
    }
  }

  lemma AddScaled(y: real, x: real, v: real, u: real, factor: real)
    requires IsScaled(y, x, factor) && IsScaled(v, u, factor)
    ensures IsScaled(y + v, x + u, factor)
  {
  }

  lemma CountedScales(c: Coin, prices: Prices, pick: Pick, factor: real)
    requires factor > 0.0
    ensures IsScaled(Counted(pick, ScaleCoin(c, factor), prices), Counted(pick, c, prices), factor)
  {
    assert c.supply * factor > 0.0 <==> c.supply > 0.0;
    assert Price(c.symbol, prices) * (c.supply * factor) == Price(c.symbol, prices) * c.supply * factor;
  }
}
