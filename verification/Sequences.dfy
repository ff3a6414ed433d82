/** Notions about numbers and sequences that several modules share. */
module Sequences {
  function Min(a: int, b: int): int {
    if a < b then a else b
  }

  function One(yes: bool): nat {
    if yes then 1 else 0
  }

  function Members<T>(items: seq<T>): set<T> {
    set item | item in items
  }

  ghost predicate Distinct<T>(items: seq<T>) {
    forall i, j :: 0 <= i < j < |items| ==> items[i] != items[j]
  }

  /** The items' weights added up. */
  function Total<T>(items: seq<T>, weight: T -> nat): nat {
    if items == [] then 0 else Total(items[..|items| - 1], weight) + weight(items[|items| - 1])
  }

  lemma {:induction false} TotalChanges<T>(items: seq<T>, i: nat, item: T, weight: T -> nat)
    requires i < |items|
    ensures Total(items[i := item], weight) + weight(items[i]) == Total(items, weight) + weight(item)
  {
    var last := |items| - 1;
    if i == last {
      assert items[i := item][..last] == items[..last];
    } else {
      TotalChanges(items[..last], i, item, weight);
      assert items[i := item][..last] == items[..last][i := item];
      assert items[i := item][last] == items[last];
    }
  }
}
