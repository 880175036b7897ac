/** Sums over the values of a map, such as file sizes, in whatever order its keys are visited. */
module Sums {

  ghost function Total(values: map<nat, nat>): nat
    decreases |values|
  {
    if values == map[] then 0
    else
      var k :| k in values;
      values[k] + Total(values - {k})
  }

  /** The order in which the keys are visited does not matter. */
  lemma {:induction false} TotalWithout(values: map<nat, nat>, k: nat)
    requires k in values
    ensures Total(values) == values[k] + Total(values - {k})
    decreases |values|
  {
    var e :| e in values && Total(values) == values[e] + Total(values - {e});
    if k != e {
      TotalWithout(values - {e}, k);
      TotalWithout(values - {k}, e);
      assert values - {e} - {k} == values - {k} - {e};
    }
  }

  lemma TotalWith(values: map<nat, nat>, k: nat, value: nat)
    requires k !in values
    ensures Total(values[k := value]) == Total(values) + value
  {
    TotalWithout(values[k := value], k);
    assert values[k := value] - {k} == values;
  }

  method SumOf(values: map<nat, nat>) returns (total: nat)
    ensures total == Total(values)
  {
    total := 0;
    var rest := values;
    while rest != map[]
      invariant total + Total(rest) == Total(values)
      decreases |rest|
    {
      var k :| k in rest;
      TotalWithout(rest, k);
      total := total + rest[k];
      rest := rest - {k};
    }
  }
}
