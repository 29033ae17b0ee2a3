/** How many rounds of at most `batch` items a workload of `items` takes. */
module Rounds {

  function RoundsFor(items: nat, batch: nat): nat
    requires batch > 0
  {
    if items == 0 then 0
    else if items <= batch then 1
    else 1 + RoundsFor(items - batch, batch)
  }

  lemma OneRound(items: nat, batch: nat, taken: nat)
    requires batch > 0 && items > 0
    requires taken == if items <= batch then items else batch
    ensures RoundsFor(items, batch) == 1 + RoundsFor(items - taken, batch)
  {
  }

  /** It is the quotient rounded up. */
  lemma {:induction false} RoundsForIsCeiling(items: nat, batch: nat)
    requires batch > 0
    ensures RoundsFor(items, batch) == (items + batch - 1) / batch
  {
    if items > batch {
      RoundsForIsCeiling(items - batch, batch);
      var a, q := items - 1, (items - 1) / batch;
      QuotientUnique(items + batch - 1, batch, q + 1);
    } else if items > 0 {
      QuotientUnique(items + batch - 1, batch, 1);
    } else {
      QuotientUnique(batch - 1, batch, 0);
    }
  }

  lemma AtLeastOnce(b: nat, x: nat)
    requires x >= 1
    ensures b * x >= b
  {
  }

  lemma QuotientUnique(a: nat, b: nat, q: nat)
    requires b > 0 && b * q <= a < b * q + b
    ensures a / b == q
  {
    var d := a / b;
    assert b * d <= a < b * d + b;
    if d < q {
      AtLeastOnce(b, q - d);
    } else if q < d {
      AtLeastOnce(b, d - q);
    }
  }
}
