/** The grid search of `fill_missing_values_with_sarima`: every SARIMA
    order `(p, d, q)` and seasonal order `(P, D, Q, 12)` with entries 0 or 1
    is fitted, and the pair with the smallest AIC is kept. Fitting is not
    modelled: `fit` gives, for each pair, the AIC of the fitted model, or
    `None` when the fit raises or its AIC is not below infinity. */
module GridSearch {
  import opened Wrappers

  datatype Order = Order(p: nat, d: nat, q: nat)
  datatype Seasonal = Seasonal(p: nat, d: nat, q: nat, s: nat)
  /** The `order` and `seasonal_order` of one model. */
  datatype Candidate = Candidate(order: Order, seasonal: Seasonal)

  /** The seasonal period of `seasonal_pdq`. */
  const Period: nat := 12

  /** `pdq = list(itertools.product(p, d, q))` with `p = d = q = range(0, 2)`:
      the last factor varies fastest. */
  const Orders: seq<Order> := [
    Order(0, 0, 0), Order(0, 0, 1), Order(0, 1, 0), Order(0, 1, 1),
    Order(1, 0, 0), Order(1, 0, 1), Order(1, 1, 0), Order(1, 1, 1)]

  /** `seasonal_pdq`: the same triples, each with the period 12. */
  function SeasonalOrders(): (r: seq<Seasonal>)
    ensures |r| == |Orders|
  {
    seq(|Orders|, i requires 0 <= i < |Orders| => Seasonal(Orders[i].p, Orders[i].d, Orders[i].q, Period))
  }

  /** The pairs of the first `n` passes of the outer loop, in the order of
      the two nested loops: all seasonal orders for the first order, then
      for the second, and so on. */
  function Passes(n: nat): (g: seq<Candidate>)
    requires n <= |Orders|
    ensures |g| == n * 8
  {
    if n == 0 then []
    else Passes(n - 1) + seq(8, j requires 0 <= j < 8 => Candidate(Orders[n - 1], SeasonalOrders()[j]))
  }

  /** All 64 pairs, in the order they are tried. */
  function Grid(): (g: seq<Candidate>)
    ensures |g| == 64
  {
    Passes(|Orders|)
  }

  /** Pass `j` of the inner loop within pass `i` of the outer one tries the
      pair at position `8 * i + j`. */
  lemma {:induction false} PassesAt(n: nat, i: nat, j: nat)
    requires i < n <= |Orders| && j < 8
    ensures Passes(n)[i * 8 + j] == Candidate(Orders[i], SeasonalOrders()[j])
  {
    if i < n - 1 {
      PassesAt(n - 1, i, j);
      assert Passes(n)[i * 8 + j] == Passes(n - 1)[i * 8 + j];
    }
  }

  lemma GridAt(i: nat, j: nat)
    requires i < 8 && j < 8
    ensures i * 8 + j < |Grid()| && Grid()[i * 8 + j] == Candidate(Orders[i], SeasonalOrders()[j])
  {
    PassesAt(|Orders|, i, j);
  }

  /** What the fits give, pair by pair. */
  function Outcomes(fit: Candidate -> Option<real>): (r: seq<Option<real>>)
    ensures |r| == |Grid()|
  {
    seq(|Grid()|, c requires 0 <= c < |Grid()| => fit(Grid()[c]))
  }

  /** Position `c` holds the first of the smallest values among the first
      `n` outcomes. */
  predicate FirstMinimum(outcomes: seq<Option<real>>, n: nat, c: nat)
    requires n <= |outcomes|
  {
    c < n && outcomes[c].Some?
    && (forall j :: 0 <= j < n && outcomes[j].Some? ==> outcomes[c].value <= outcomes[j].value)
    && (forall j :: 0 <= j < c && outcomes[j].Some? ==> outcomes[c].value < outcomes[j].value)
  }

  /** The position the search has settled on after the first `n` pairs: a
      pair replaces the best so far only when its AIC is strictly smaller. */
  function BestUpTo(outcomes: seq<Option<real>>, n: nat): (r: Option<nat>)
    requires n <= |outcomes|
    ensures r.Some? ==> FirstMinimum(outcomes, n, r.value)
    ensures r.None? <==> forall j :: 0 <= j < n ==> outcomes[j].None?
  {
    if n == 0 then None
    else
      var prev := BestUpTo(outcomes, n - 1);
      var here := outcomes[n - 1];
      if here.Some? && (prev.None? || here.value < outcomes[prev.value].value) then Some(n - 1)
      else prev
  }

  /** The pair `fill_missing_values_with_sarima` goes on to fit again, or
      `None` when every fit failed. */
  function Best(fit: Candidate -> Option<real>): Option<Candidate> {
    match BestUpTo(Outcomes(fit), |Grid()|)
    case None => None
    case Some(c) => Some(Grid()[c])
  }

  /** The two nested loops with their running best AIC (`None` standing for
      the initial infinity) and best pair. */
  method SearchOrders(fit: Candidate -> Option<real>) returns (best: Option<Candidate>)
    ensures best == Best(fit)
  {
    ghost var outcomes := Outcomes(fit);
    ghost var bestIndex: Option<nat> := None;
    var pdq := Orders;
    var seasonalPdq := SeasonalOrders();
    var bestAic: Option<real> := None;
    best := None;
    for i := 0 to |pdq|
      invariant bestIndex == BestUpTo(outcomes, i * 8)
      invariant bestIndex.None? ==> bestAic.None? && best.None?
      invariant bestIndex.Some? ==> bestAic == outcomes[bestIndex.value] && best == Some(Grid()[bestIndex.value])
    {
      for j := 0 to |seasonalPdq|
        invariant bestIndex == BestUpTo(outcomes, i * 8 + j)
        invariant bestIndex.None? ==> bestAic.None? && best.None?
        invariant bestIndex.Some? ==> bestAic == outcomes[bestIndex.value] && best == Some(Grid()[bestIndex.value])
      {
        GridAt(i, j);
        var aic := fit(Candidate(pdq[i], seasonalPdq[j]));
        assert aic == outcomes[i * 8 + j];
        SearchStep(outcomes, i * 8 + j, bestAic);
        if aic.Some? && (bestAic.None? || aic.value < bestAic.value) {
          bestAic := aic;
          best := Some(Candidate(pdq[i], seasonalPdq[j]));
          bestIndex := Some(i * 8 + j);
        }
      }
    }
  }

  /** One pass of the inner loop: the running best moves to the new pair
      exactly when its AIC is below the best so far. */
  lemma SearchStep(outcomes: seq<Option<real>>, n: nat, bestAic: Option<real>)
    requires n < |outcomes|
    requires BestUpTo(outcomes, n).None? ==> bestAic.None?
    requires BestUpTo(outcomes, n).Some? ==> bestAic == outcomes[BestUpTo(outcomes, n).value]
    ensures BestUpTo(outcomes, n + 1)
      == if outcomes[n].Some? && (bestAic.None? || outcomes[n].value < bestAic.value) then Some(n)
         else BestUpTo(outcomes, n)
  {
  }

  // Properties

  /** Only the first smallest AIC qualifies, so the search result is the
      unique position with that property. */
  lemma FirstMinimumUnique(outcomes: seq<Option<real>>, n: nat, c: nat, e: nat)
    requires n <= |outcomes|
    requires FirstMinimum(outcomes, n, c) && FirstMinimum(outcomes, n, e)
    ensures c == e
  {
  }

  /** The search picks a position exactly when it is the first smallest AIC. */
  lemma BestIsFirstMinimum(outcomes: seq<Option<real>>, n: nat, c: nat)
    requires n <= |outcomes|
    ensures BestUpTo(outcomes, n) == Some(c) <==> FirstMinimum(outcomes, n, c)
  {
    if FirstMinimum(outcomes, n, c) {
      var r := BestUpTo(outcomes, n);
      assert r.Some?;
      FirstMinimumUnique(outcomes, n, r.value, c);
    }
  }

  /** The best pair fits at least as well as every pair that could be
      fitted, and strictly better than every such pair tried before it. */
  lemma BestFitsBest(fit: Candidate -> Option<real>, c: nat)
    requires BestUpTo(Outcomes(fit), |Grid()|) == Some(c)
    ensures Best(fit) == Some(Grid()[c]) && fit(Grid()[c]).Some?
    ensures forall e :: 0 <= e < |Grid()| && fit(Grid()[e]).Some? ==> fit(Grid()[c]).value <= fit(Grid()[e]).value
    ensures forall e :: 0 <= e < c && fit(Grid()[e]).Some? ==> fit(Grid()[c]).value < fit(Grid()[e]).value
  {
    var o := Outcomes(fit);
    assert FirstMinimum(o, |Grid()|, c);
    forall e | 0 <= e < |Grid()| && fit(Grid()[e]).Some? ensures fit(Grid()[c]).value <= fit(Grid()[e]).value {
      assert o[e] == fit(Grid()[e]);
    }
    forall e | 0 <= e < c && fit(Grid()[e]).Some? ensures fit(Grid()[c]).value < fit(Grid()[e]).value {
      assert o[e] == fit(Grid()[e]);
    }
  }

  /** No pair is chosen exactly when every fit fails. */
  lemma NoBestWhenAllFail(fit: Candidate -> Option<real>)
    ensures Best(fit).None? <==> forall e :: 0 <= e < |Grid()| ==> fit(Grid()[e]).None?
  {
    var o := Outcomes(fit);
    assert forall e :: 0 <= e < |Grid()| ==> o[e] == fit(Grid()[e]);
  }

  /** The position of a triple of zeros and ones in the product. */
  function Code(o: Order): nat {
    o.p * 4 + o.d * 2 + o.q
  }

  /** The product lists the triples in lexicographic order: position `i`
      holds the binary digits of `i`. */
  lemma OrdersInProductOrder(i: nat)
    requires i < |Orders|
    ensures Orders[i] == Order(i / 4, (i / 2) % 2, i % 2) && Code(Orders[i]) == i
  {
    if i < 4 {
      assert i / 4 == 0 && (i / 2) % 2 == i / 2;
    } else {
      assert i / 4 == 1 && (i / 2) % 2 == i / 2 - 2;
    }
  }

  /** Every triple of zeros and ones is in the product, at its code. */
  lemma OrderAtCode(o: Order)
    requires o.p < 2 && o.d < 2 && o.q < 2
    ensures Code(o) < |Orders| && Orders[Code(o)] == o
  {
    if o.p == 0 && o.d == 0 {
      if o.q == 0 { assert o == Orders[0]; } else { assert o == Orders[1]; }
    } else if o.p == 0 {
      if o.q == 0 { assert o == Orders[2]; } else { assert o == Orders[3]; }
    } else if o.d == 0 {
      if o.q == 0 { assert o == Orders[4]; } else { assert o == Orders[5]; }
    } else {
      if o.q == 0 { assert o == Orders[6]; } else { assert o == Orders[7]; }
    }
  }

  /** The grid holds every order and seasonal order with entries 0 or 1 and,
      with period 12, at position `8 * Code(order) + Code(seasonal)`. */
  lemma GridComplete(o: Order, t: Seasonal)
    requires o.p < 2 && o.d < 2 && o.q < 2
    requires t.p < 2 && t.d < 2 && t.q < 2 && t.s == Period
    ensures 8 * Code(o) + Code(Order(t.p, t.d, t.q)) < |Grid()|
    ensures Grid()[8 * Code(o) + Code(Order(t.p, t.d, t.q))] == Candidate(o, t)
  {
    OrderAtCode(o);
    OrderAtCode(Order(t.p, t.d, t.q));
    GridAt(Code(o), Code(Order(t.p, t.d, t.q)));
  }

  /** No pair is tried twice. */
  lemma GridDistinct(c: nat, e: nat)
    requires c < e < |Grid()|
    ensures Grid()[c] != Grid()[e]
  {
    var i, j, k, l := c / 8, c % 8, e / 8, e % 8;
    assert c == i * 8 + j && e == k * 8 + l;
    GridAt(i, j);
    GridAt(k, l);
    OrdersInProductOrder(i);
    OrdersInProductOrder(k);
    OrdersInProductOrder(j);
    OrdersInProductOrder(l);
  }
}
