/** Sums of weights over a list. */
module Sums {
  function SumBy<T>(weigh: T -> nat, items: seq<T>): nat {
    if items == [] then 0 else weigh(items[0]) + SumBy(weigh, items[1..])
  }

  lemma {:induction false} SumConcat<T>(weigh: T -> nat, a: seq<T>, b: seq<T>)
    ensures SumBy(weigh, a + b) == SumBy(weigh, a) + SumBy(weigh, b)
  {
    if a == [] {
      assert a + b == b;
    } else {
      assert (a + b)[1..] == a[1..] + b;
      SumConcat(weigh, a[1..], b);
    }
  }

  lemma SumOne<T>(weigh: T -> nat, item: T)
    ensures SumBy(weigh, [item]) == weigh(item)
  {
    assert [item][1..] == [];
  }

  lemma SumInsert<T>(weigh: T -> nat, items: seq<T>, pos: nat, item: T)
    requires pos <= |items|
    ensures SumBy(weigh, items[..pos] + [item] + items[pos..]) == SumBy(weigh, items) + weigh(item)
  {
    hide SumBy;
    SumConcat(weigh, items[..pos] + [item], items[pos..]);
    SumConcat(weigh, items[..pos], [item]);
    SumOne(weigh, item);
    SumConcat(weigh, items[..pos], items[pos..]);
    assert items[..pos] + items[pos..] == items;
  }

  lemma {:induction false} SumUpdate<T>(weigh: T -> nat, items: seq<T>, i: nat, item: T)
    requires i < |items| && weigh(item) <= weigh(items[i])
    ensures SumBy(weigh, items[i := item]) <= SumBy(weigh, items)
  {
    if 0 < i {
      assert items[i := item][1..] == items[1..][i - 1 := item];
      SumUpdate(weigh, items[1..], i - 1, item);
    }
  }
}
