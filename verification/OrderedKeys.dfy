/** The keys of an ordered map, as its range iterators meet them. */
module OrderedKeys {
  import opened Basics

  /** `k` is the least of the keys at or above `from`, or there is none. */
  predicate IsNext(keys: set<nat>, from: nat, k: Option<nat>) {
    match k
    case None => forall x | x in keys :: x < from
    case Some(y) => y in keys && from <= y && forall x | x in keys && from <= x :: y <= x
  }

  /** `k` is the greatest of the keys below `below`, or there is none. */
  predicate IsLast(keys: set<nat>, below: nat, k: Option<nat>) {
    match k
    case None => forall x | x in keys :: x >= below
    case Some(y) => y in keys && y < below && forall x | x in keys && x < below :: x <= y
  }

  /** The first key an ascending iteration from `from` meets. */
  method Next(keys: set<nat>, from: nat) returns (k: Option<nat>)
    ensures IsNext(keys, from, k)
  {
    k := None;
    var rest := keys;
    ghost var seen := {};
    while rest != {}
      invariant rest <= keys && IsNext(seen, from, k) && seen == keys - rest
      decreases |rest|
    {
      var x: nat :| x in rest;
      if from <= x && (k.None? || x < k.value) {
        k := Some(x);
      }
      rest := rest - {x};
      seen := seen + {x};
    }
    assert seen == keys;
  }

  /** The first key a descending iteration from below `below` meets. */
  method Last(keys: set<nat>, below: nat) returns (k: Option<nat>)
    ensures IsLast(keys, below, k)
  {
    k := None;
    var rest := keys;
    ghost var seen := {};
    while rest != {}
      invariant rest <= keys && IsLast(seen, below, k) && seen == keys - rest
      decreases |rest|
    {
      var x: nat :| x in rest;
      if x < below && (k.None? || x > k.value) {
        k := Some(x);
      }
      rest := rest - {x};
      seen := seen + {x};
    }
    assert seen == keys;
  }
}
