/** `LruCache`: a map into a doubly linked list that is kept in the order of the latest Add. */
module LruCache {
  import opened Basics

  class LinkEntry<T> {
    const key: nat
    const val: Option<T>
    var prev: LinkEntry?<T>
    var next: LinkEntry?<T>

    constructor Sentinel()
      ensures prev == null && next == null && key == 0 && val == None
    {
      key := 0;
      val := None;
      prev := null;
      next := null;
    }

    constructor (key: nat, val: T)
      ensures prev == null && next == null && this.key == key && this.val == Some(val)
    {
      this.key := key;
      this.val := Some(val);
      prev := null;
      next := null;
    }

    /** Takes the entry out of its list; fails if a neighbour is missing, with the link to the one before cleared all
        the same. An entry that is its own neighbour would wait for its own lock. */
    method Remove() returns (ok: bool)
      requires prev != this && next != this
      modifies this, prev, next
      ensures ok <==> old(prev) != null && old(next) != null
      ensures prev == null && next == if ok then null else old(next)
      ensures ok ==> old(prev).next == old(next) && old(next).prev == old(prev)
      ensures !ok && old(prev) != null ==> old(prev).next == old(prev.next)
      ensures !ok && old(next) != null ==> old(next).prev == old(next.prev)
      ensures old(prev) != null && (ok ==> old(prev) != old(next)) ==> old(prev).prev == old(prev.prev)
      ensures old(next) != null && (ok ==> old(prev) != old(next)) ==> old(next).next == old(next.next)
    {
      if prev == null {
        return false;
      }
      var p := prev;
      prev := null;
      if next == null {
        return false;
      }
      var n := next;
      next := null;
      p.next := n;
      n.prev := p;
      ok := true;
    }
  }

  /** The entries are different and linked one to the next in both directions. */
  ghost predicate Linked<T>(all: seq<LinkEntry<T>>)
    reads all
  {
    && (forall i, j | 0 <= i < j < |all| :: all[i] != all[j])
    && (forall i | 0 <= i < |all| - 1 :: all[i].next == all[i + 1] && all[i + 1].prev == all[i])
  }

  function Without<T>(c: seq<T>, i: nat): seq<T> {
    if i < |c| then c[..i] + c[i + 1..] else c
  }

  lemma WithoutAt<T>(c: seq<T>, i: nat)
    requires i < |c|
    ensures |Without(c, i)| == |c| - 1
    ensures forall j | 0 <= j < |c| - 1 :: Without(c, i)[j] == c[if j < i then j else j + 1]
  {
  }

  lemma WithoutBetween<T>(first: T, c: seq<T>, last: T, i: nat)
    requires i < |c|
    ensures [first] + Without(c, i) + [last] == Without([first] + c + [last], i + 1)
  {
    var all := [first] + c + [last];
    assert all[..i + 1] == [first] + c[..i];
    assert all[i + 2..] == c[i + 1..] + [last];
    assert [first] + (c[..i] + c[i + 1..]) + [last] == ([first] + c[..i]) + (c[i + 1..] + [last]);
  }

  ghost function SetOf<E>(s: seq<E>): set<E> {
    set e | e in s
  }

  lemma SetWithout<E>(s: seq<E>, i: nat)
    requires i < |s| && forall a, b | 0 <= a < b < |s| :: s[a] != s[b]
    ensures SetOf(Without(s, i)) == SetOf(s) - {s[i]}
  {
    var w := Without(s, i);
    WithoutAt(s, i);
    forall x ensures x in SetOf(w) <==> x in SetOf(s) && x != s[i] {
      if x in s && x != s[i] {
        var j :| 0 <= j < |s| && s[j] == x;
        assert w[if j < i then j else j - 1] == x;
      }
    }
  }

  class LinkedList<T> {
    const head: LinkEntry<T>
    const tail: LinkEntry<T>
    var count: nat
    /** The entries between the two sentinels. */
    ghost var nodes: seq<LinkEntry<T>>

    ghost function All(): seq<LinkEntry<T>>
      reads this
    {
      [head] + nodes + [tail]
    }

    ghost function Entries(): set<LinkEntry<T>>
      reads this
    {
      SetOf(All())
    }

    lemma NodesDiffer()
      requires Valid()
      ensures forall a, b | 0 <= a < b < |nodes| :: nodes[a] != nodes[b]
      ensures forall a | 0 <= a < |nodes| :: nodes[a] in Entries()
    {
      assert forall a | 0 <= a < |nodes| :: All()[a + 1] == nodes[a];
    }

    /** The entry before the tail. */
    lemma BeforeTail()
      requires Valid() && nodes != []
      ensures tail.prev == nodes[|nodes| - 1]
    {
      assert All()[|nodes|] == nodes[|nodes| - 1] && All()[|nodes| + 1] == tail;
    }

    ghost predicate Valid()
      reads this, Entries()
    {
      Linked(All()) && count == |nodes|
    }

    constructor ()
      ensures Valid() && nodes == [] && fresh(head) && fresh(tail)
    {
      var h := new LinkEntry<T>.Sentinel();
      var t := new LinkEntry<T>.Sentinel();
      h.next := t;
      t.prev := h;
      head := h;
      tail := t;
      count := 0;
      nodes := [];
    }

    /** Puts an entry that is in no list at the front. */
    method PushFront(entry: LinkEntry<T>)
      requires Valid() && entry !in Entries()
      modifies this, Entries(), entry
      ensures Valid() && nodes == [entry] + old(nodes) && Entries() == old(Entries()) + {entry}
    {
      ghost var all := All();
      var next := head.next;
      assert all[0] == head && next == all[1];
      next.prev := entry;
      entry.next := next;
      entry.prev := head;
      head.next := entry;
      count := count + 1;
      nodes := [entry] + nodes;
      assert All() == [head, entry] + all[1..];
    }

    /** Takes the entry at place `i` out of the list. */
    method Detach(entry: LinkEntry<T>, ghost i: nat)
      requires Valid() && i < |nodes| && nodes[i] == entry
      modifies this, Entries()
      ensures Valid() && nodes == Without(old(nodes), i) && Entries() == old(Entries()) - {entry}
    {
      ghost var all := All();
      assert all[i + 1] == entry;
      SetWithout(all, i + 1);
      WithoutBetween(head, nodes, tail, i);
      Unlink(entry, all, i + 1);
      count := count - 1;
      nodes := Without(nodes, i);
      WithoutAt(old(nodes), i);
    }

    /** Links the neighbours of an entry to each other. */
    static method Unlink(entry: LinkEntry<T>, ghost all: seq<LinkEntry<T>>, ghost i: nat)
      requires Linked(all) && 0 < i < |all| - 1 && all[i] == entry
      modifies all
      ensures Linked(Without(all, i))
    {
      ghost var rest := Without(all, i);
      WithoutAt(all, i);
      assert entry.prev == all[i - 1] && entry.next == all[i + 1];
      var ok := entry.Remove();
      forall j | 0 <= j < |rest| - 1 ensures rest[j].next == rest[j + 1] && rest[j + 1].prev == rest[j] {
        if j == i - 1 {
          assert rest[j] == all[i - 1] && rest[j + 1] == all[i + 1];
        } else if j < i {
          assert rest[j] == all[j] && rest[j + 1] == all[j + 1];
        } else {
          assert rest[j] == all[j + 1] && rest[j + 1] == all[j + 2];
        }
      }
    }

    method PopBack() returns (r: LinkEntry?<T>)
      requires Valid()
      modifies this, Entries()
      ensures Valid() && Entries() <= old(Entries())
      ensures if old(nodes) == [] then r == null && nodes == []
              else r == old(nodes[|nodes| - 1]) && nodes == Without(old(nodes), |old(nodes)| - 1)
    {
      if count == 0 {
        return null;
      }
      BeforeTail();
      r := tail.prev;
      Detach(r, |nodes| - 1);
    }

    method PopFront() returns (r: LinkEntry?<T>)
      requires Valid()
      modifies this, Entries()
      ensures Valid() && Entries() <= old(Entries())
      ensures if old(nodes) == [] then r == null && nodes == []
              else r == old(nodes[0]) && nodes == Without(old(nodes), 0)
    {
      if count == 0 {
        return null;
      }
      assert All()[0] == head && All()[1] == nodes[0];
      r := head.next;
      Detach(r, 0);
    }
  }

  // What the cache holds: keys and values, the one added last first.

  type Items<T> = seq<(nat, Option<T>)>

  function KeysOf<T>(c: Items<T>): seq<nat> {
    seq(|c|, i requires 0 <= i < |c| => c[i].0)
  }

  /** The place of `k`, or the length if it does not occur. */
  function Find(ks: seq<nat>, k: nat): (i: nat)
    ensures i <= |ks| && (i < |ks| ==> ks[i] == k) && forall j | 0 <= j < i :: ks[j] != k
  {
    if ks == [] || ks[0] == k then 0
    else
      var i := Find(ks[1..], k);
      assert forall j | 0 < j < i + 1 :: ks[j] == ks[1..][j - 1];
      i + 1
  }

  /** Adding a key that is there moves it to the front and keeps its value; adding a new one to a full cache
      drops the last. */
  function Added<T>(c: Items<T>, max: nat, k: nat, v: T): Items<T> {
    var i := Find(KeysOf(c), k);
    if i < |c| then [c[i]] + Without(c, i)
    else [(k, Some(v))] + if |c| >= max && |c| > 0 then c[..|c| - 1] else c
  }

  datatype Op<T> = Add(key: nat, val: T) | Remove(key: nat) | Clear

  function Changed<T>(c: Items<T>, max: nat, op: Op<T>): Items<T> {
    match op
    case Add(k, v) => Added(c, max, k, v)
    case Remove(k) => Without(c, Find(KeysOf(c), k))
    case Clear => []
  }

  function Replay<T>(ops: seq<Op<T>>, max: nat): Items<T> {
    if ops == [] then [] else Changed(Replay(ops[..|ops| - 1], max), max, ops[|ops| - 1])
  }

  /** What an operation does to the keys of a cache. */
  function KeysChanged<T>(ks: seq<nat>, max: nat, op: Op<T>): seq<nat> {
    match op
    case Add(k, _) =>
      var i := Find(ks, k);
      [k] + if i < |ks| then Without(ks, i) else if |ks| >= max && |ks| > 0 then ks[..|ks| - 1] else ks
    case Remove(k) => Without(ks, Find(ks, k))
    case Clear => []
  }

  lemma KeysWithout<T>(c: Items<T>, i: nat)
    ensures KeysOf(Without(c, i)) == Without(KeysOf(c), i)
  {
    if i < |c| {
      WithoutAt(c, i);
      WithoutAt(KeysOf(c), i);
    }
  }

  lemma KeysFront<T>(x: (nat, Option<T>), c: Items<T>)
    ensures KeysOf([x] + c) == [x.0] + KeysOf(c)
  {
  }

  lemma KeysBut<T>(c: Items<T>)
    requires c != []
    ensures KeysOf(c[..|c| - 1]) == KeysOf(c)[..|c| - 1]
  {
  }

  lemma ChangedKeys<T>(c: Items<T>, max: nat, op: Op<T>)
    ensures KeysOf(Changed(c, max, op)) == KeysChanged(KeysOf(c), max, op)
  {
    if op.Add? {
      AddedKeys(c, max, op.key, op.val);
    } else if op.Remove? {
      KeysWithout(c, Find(KeysOf(c), op.key));
    }
  }

  lemma AddedKeys<T>(c: Items<T>, max: nat, k: nat, v: T)
    ensures KeysOf(Added(c, max, k, v)) == KeysChanged(KeysOf(c), max, Add(k, v))
  {
    var i := Find(KeysOf(c), k);
    if i < |c| {
      KeysWithout(c, i);
      KeysFront(c[i], Without(c, i));
    } else {
      var rest := if |c| >= max && |c| > 0 then c[..|c| - 1] else c;
      if c != [] {
        KeysBut(c);
      }
      KeysFront((k, Some(v)), rest);
    }
  }

  // The same operations on a cache that never drops a key.

  function RecentChanged<T>(r: seq<nat>, op: Op<T>): seq<nat> {
    match op
    case Add(k, _) => [k] + Without(r, Find(r, k))
    case Remove(k) => Without(r, Find(r, k))
    case Clear => []
  }

  /** The keys added and not removed since, the one added last first. */
  function Recent<T>(ops: seq<Op<T>>): seq<nat> {
    if ops == [] then [] else RecentChanged(Recent(ops[..|ops| - 1]), ops[|ops| - 1])
  }

  /** The place of the latest addition of `k`. */
  function Latest<T>(ops: seq<Op<T>>, k: nat): int {
    if ops == [] then -1
    else
      var n := |ops| - 1;
      if ops[n].Add? && ops[n].key == k then n else Latest(ops[..n], k)
  }

  /** `k` was added, and neither removed nor cleared away since. */
  predicate Live<T>(ops: seq<Op<T>>, k: nat) {
    if ops == [] then false
    else
      var front := ops[..|ops| - 1];
      match ops[|ops| - 1]
      case Add(x, _) => x == k || Live(front, k)
      case Remove(x) => x != k && Live(front, k)
      case Clear => false
  }

  ghost predicate ByLatest<T>(ops: seq<Op<T>>, r: seq<nat>) {
    forall i, j | 0 <= i < j < |r| :: Latest(ops, r[i]) > Latest(ops, r[j])
  }

  lemma {:induction false} LatestBound<T>(ops: seq<Op<T>>, k: nat)
    ensures -1 <= Latest(ops, k) < |ops|
    decreases |ops|
  {
    if ops != [] {
      LatestBound(ops[..|ops| - 1], k);
    }
  }

  lemma LatestAppend<T>(ops: seq<Op<T>>, op: Op<T>, x: nat)
    ensures Latest(ops + [op], x) == if op.Add? && op.key == x then |ops| else Latest(ops, x)
  {
    assert (ops + [op])[..|ops|] == ops;
  }

  lemma ByLatestWithout<T>(ops: seq<Op<T>>, r: seq<nat>, i: nat)
    requires ByLatest(ops, r)
    ensures ByLatest(ops, Without(r, i))
  {
    var w := Without(r, i);
    forall a, b | 0 <= a < b < |w| ensures Latest(ops, w[a]) > Latest(ops, w[b]) {
      var a', b' := if a < i then a else a + 1, if b < i then b else b + 1;
      if i < |r| {
        assert w[a] == r[a'] && w[b] == r[b'];
      }
    }
  }

  lemma ByLatestLater<T>(ops: seq<Op<T>>, op: Op<T>, r: seq<nat>)
    requires ByLatest(ops, r) && !op.Add?
    ensures ByLatest(ops + [op], r)
  {
    forall i, j | 0 <= i < j < |r| ensures Latest(ops + [op], r[i]) > Latest(ops + [op], r[j]) {
      LatestAppend(ops, op, r[i]);
      LatestAppend(ops, op, r[j]);
    }
  }

  lemma ByLatestFront<T>(ops: seq<Op<T>>, op: Op<T>, w: seq<nat>)
    requires ByLatest(ops, w) && op.Add? && op.key !in w
    ensures ByLatest(ops + [op], [op.key] + w)
  {
    var r, ops' := [op.key] + w, ops + [op];
    forall a, b | 0 <= a < b < |r| ensures Latest(ops', r[a]) > Latest(ops', r[b]) {
      assert r[b] == w[b - 1] && w[b - 1] in w;
      LatestAppend(ops, op, r[a]);
      LatestAppend(ops, op, r[b]);
      LatestBound(ops, r[b]);
      if a > 0 {
        assert r[a] == w[a - 1] && w[a - 1] in w;
      }
    }
  }

  lemma WithoutIn<T>(ops: seq<Op<T>>, r: seq<nat>, k: nat, x: nat)
    requires ByLatest(ops, r)
    ensures x in Without(r, Find(r, k)) <==> x in r && x != k
  {
    var i := Find(r, k);
    if i < |r| {
      if x in Without(r, i) {
        WithoutOnce(ops, r, i, x);
      }
      if x in r && x != k {
        WithoutKeeps(r, i, x);
      }
    }
  }

  lemma WithoutKeeps(r: seq<nat>, i: nat, x: nat)
    requires i < |r| && x in r && x != r[i]
    ensures x in Without(r, i)
  {
    WithoutAt(r, i);
    var j :| 0 <= j < |r| && r[j] == x;
    assert Without(r, i)[if j < i then j else j - 1] == x;
  }

  lemma WithoutOnce<T>(ops: seq<Op<T>>, r: seq<nat>, i: nat, x: nat)
    requires ByLatest(ops, r) && i < |r| && x in Without(r, i)
    ensures x in r && x != r[i]
  {
    WithoutAt(r, i);
    var j :| 0 <= j < |r| - 1 && Without(r, i)[j] == x;
    var j' := if j < i then j else j + 1;
    assert r[j'] == x;
    assert if j' < i then Latest(ops, r[j']) > Latest(ops, r[i]) else Latest(ops, r[i]) > Latest(ops, r[j']);
  }

  lemma RecentOrdered<T>(ops: seq<Op<T>>, op: Op<T>, r: seq<nat>)
    requires ByLatest(ops, r)
    ensures ByLatest(ops + [op], RecentChanged(r, op))
  {
    if !op.Clear? {
      var w := Without(r, Find(r, op.key));
      ByLatestWithout(ops, r, Find(r, op.key));
      WithoutIn(ops, r, op.key, op.key);
      if op.Add? {
        ByLatestFront(ops, op, w);
      } else {
        ByLatestLater(ops, op, w);
      }
    }
  }

  /** The recent keys are the live ones, and a key stands before another exactly if its latest addition is the later
      one. */
  lemma {:induction false} RecentIs<T>(ops: seq<Op<T>>)
    ensures forall k: nat :: k in Recent(ops) <==> Live(ops, k)
    ensures ByLatest(ops, Recent(ops))
    decreases |ops|
  {
    if ops != [] {
      var front, op := ops[..|ops| - 1], ops[|ops| - 1];
      RecentIs(front);
      assert ops == front + [op];
      RecentOrdered(front, op, Recent(front));
      forall k: nat ensures k in Recent(ops) <==> Live(ops, k) {
        if !op.Clear? {
          WithoutIn(front, Recent(front), op.key, k);
        }
      }
    }
  }

  // A cache holds the first of the recent keys.

  lemma FindPrefix(r: seq<nat>, n: nat, k: nat)
    requires n <= |r|
    ensures Find(r[..n], k) == if Find(r, k) < n then Find(r, k) else n
  {
    var c, i, j := r[..n], Find(r[..n], k), Find(r, k);
    assert forall a | 0 <= a < |c| :: c[a] == r[a];
  }

  lemma WithoutPrefix(r: seq<nat>, n: nat, i: nat)
    requires n <= |r|
    ensures i < n ==> Without(r[..n], i) == Without(r, i)[..n - 1]
    ensures i >= n ==> |Without(r, i)| >= n && Without(r, i)[..n] == r[..n]
  {
    if i < n {
      WithoutAt(r, i);
      WithoutAt(r[..n], i);
    } else if i < |r| {
      WithoutAt(r, i);
    }
  }

  lemma PrefixStep<T>(r: seq<nat>, n: nat, max: nat, op: Op<T>)
    requires 0 < max && n <= |r| && n <= max
    ensures var ks := KeysChanged(r[..n], max, op);
            |ks| <= max && |ks| <= |RecentChanged(r, op)| && ks == RecentChanged(r, op)[..|ks|]
  {
    if !op.Clear? {
      var i := Find(r, op.key);
      FindPrefix(r, n, op.key);
      WithoutPrefix(r, n, i);
      if op.Add? && i >= n {
        PrefixAdd(r, n, max, op.key, Without(r, i));
      }
    }
  }

  lemma PrefixAdd(r: seq<nat>, n: nat, max: nat, k: nat, w: seq<nat>)
    requires 0 < max && n <= |r| && n <= max && n <= |w| && w[..n] == r[..n]
    ensures var ks := [k] + if n >= max then r[..n][..n - 1] else r[..n];
            |ks| <= max && |ks| <= |[k] + w| && ks == ([k] + w)[..|ks|]
  {
    if n >= max {
      assert ([k] + w)[..n] == [k] + w[..n - 1];
      assert w[..n - 1] == w[..n][..n - 1];
    } else {
      assert ([k] + w)[..n + 1] == [k] + w[..n];
    }
  }

  /** After any operations the cache holds no more than `max` keys, and these are the live keys added last, in the order
      of their latest additions: a live key that is not held was added before every key held. */
  lemma {:induction false} ReplayRecent<T>(ops: seq<Op<T>>, max: nat)
    requires max > 0
    ensures var ks := KeysOf(Replay(ops, max));
            |ks| <= max && |ks| <= |Recent(ops)| && ks == Recent(ops)[..|ks|]
    decreases |ops|
  {
    if ops != [] {
      var front, op := ops[..|ops| - 1], ops[|ops| - 1];
      ReplayRecent(front, max);
      ChangedKeys(Replay(front, max), max, op);
      PrefixStep(Recent(front), |KeysOf(Replay(front, max))|, max, op);
    }
  }

  /** Adding a new key to a full cache drops the held key whose latest addition is the oldest, and no other. */
  lemma EvictsOldest<T>(ops: seq<Op<T>>, max: nat, k: nat, v: T) returns (x: nat)
    requires max > 0 && |Replay(ops, max)| == max && k !in KeysOf(Replay(ops, max))
    ensures var ks := KeysOf(Replay(ops, max));
            && x == ks[max - 1] && KeysOf(Replay(ops + [Add(k, v)], max)) == [k] + ks[..max - 1]
            && (forall y | y in ks && y != x :: Latest(ops, x) < Latest(ops, y) && y in ks[..max - 1])
            && x !in ks[..max - 1]
  {
    var ks := KeysOf(Replay(ops, max));
    x := ks[max - 1];
    assert (ops + [Add(k, v)])[..|ops|] == ops;
    ChangedKeys(Replay(ops, max), max, Add(k, v));
    assert Find(ks, k) == |ks|;
    ReplayRecent(ops, max);
    RecentIs(ops);
    forall i | 0 <= i < max - 1 ensures Latest(ops, x) < Latest(ops, ks[i]) && ks[i] in ks[..max - 1] {
      assert ks[i] == Recent(ops)[i] && x == Recent(ops)[max - 1];
      assert ks[..max - 1][i] == ks[i];
    }
  }

  /** What is held after an operation was held before, or is what the operation adds. */
  lemma ChangedFrom<T>(c: Items<T>, max: nat, op: Op<T>, i: nat) returns (j: nat)
    requires i < |Changed(c, max, op)|
    ensures var x := Changed(c, max, op)[i];
            if j < |c| then c[j] == x else op.Add? && x == (op.key, Some(op.val)) && op.key !in KeysOf(c)
  {
    var x := Changed(c, max, op)[i];
    OldOrAdded(c, max, op, i);
    if x in c {
      j :| 0 <= j < |c| && c[j] == x;
    } else {
      j := |c|;
    }
  }

  lemma OldOrAdded<T>(c: Items<T>, max: nat, op: Op<T>, i: nat)
    requires i < |Changed(c, max, op)|
    ensures var x := Changed(c, max, op)[i];
            x in c || (op.Add? && x == (op.key, Some(op.val)) && op.key !in KeysOf(c))
  {
    if op.Remove? {
      WithoutFrom(c, Find(KeysOf(c), op.key), i);
    } else if op.Add? {
      var n := Find(KeysOf(c), op.key);
      if n < |c| && i > 0 {
        WithoutFrom(c, n, i - 1);
      }
      assert n == |c| ==> op.key !in KeysOf(c);
    }
  }

  lemma WithoutFrom<T>(c: seq<T>, n: nat, i: nat)
    requires i < |Without(c, n)|
    ensures Without(c, n)[i] in c
  {
    if n < |c| {
      WithoutAt(c, n);
    }
  }

  /** Operation `n` added `k` with value `v` when it was absent, and it has been there since. */
  ghost predicate BroughtIn<T>(ops: seq<Op<T>>, max: nat, k: nat, v: Option<T>, n: nat) {
    && n < |ops| && ops[n].Add? && ops[n].key == k && v == Some(ops[n].val)
    && k !in KeysOf(Replay(ops[..n], max))
    && forall m | n < m <= |ops| :: k in KeysOf(Replay(ops[..m], max))
  }

  lemma BroughtInStep<T>(ops: seq<Op<T>>, max: nat, op: Op<T>, k: nat, v: Option<T>, n: nat)
    requires BroughtIn(ops, max, k, v, n) && k in KeysOf(Replay(ops + [op], max))
    ensures BroughtIn(ops + [op], max, k, v, n)
  {
    var ops' := ops + [op];
    assert ops'[..n] == ops[..n];
    forall m | n < m <= |ops'| ensures k in KeysOf(Replay(ops'[..m], max)) {
      assert ops'[..m] == if m <= |ops| then ops[..m] else ops';
    }
  }

  lemma BroughtInNow<T>(ops: seq<Op<T>>, max: nat, op: Op<T>)
    requires op.Add? && op.key !in KeysOf(Replay(ops, max)) && op.key in KeysOf(Replay(ops + [op], max))
    ensures BroughtIn(ops + [op], max, op.key, Some(op.val), |ops|)
  {
    var ops' := ops + [op];
    assert ops'[..|ops|] == ops && ops'[..|ops'|] == ops';
  }

  /** After any operations the value held for a key is that of the addition which brought the key in when it was last
      absent: adding a key that is there keeps its value. */
  lemma {:induction false} ValueHeld<T>(ops: seq<Op<T>>, max: nat, i: nat) returns (n: nat)
    requires i < |Replay(ops, max)|
    ensures BroughtIn(ops, max, Replay(ops, max)[i].0, Replay(ops, max)[i].1, n)
    decreases |ops|
  {
    var front, op := ops[..|ops| - 1], ops[|ops| - 1];
    var c, x := Replay(front, max), Replay(ops, max)[i];
    assert ops == front + [op];
    assert KeysOf(Replay(ops, max))[i] == x.0;
    var j := ChangedFrom(c, max, op, i);
    if j < |c| {
      n := ValueHeld(front, max, j);
      BroughtInStep(front, max, op, x.0, x.1, n);
    } else {
      n := |front|;
      BroughtInNow(front, max, op);
    }
  }

  predicate OnlyAdds<T>(ops: seq<Op<T>>) {
    forall i | 0 <= i < |ops| :: ops[i].Add?
  }

  /** As long as keys are only added, as many are held as fit. */
  lemma {:induction false} FullOfAdds<T>(ops: seq<Op<T>>, max: nat)
    requires max > 0 && OnlyAdds(ops)
    ensures |Replay(ops, max)| == if |Recent(ops)| < max then |Recent(ops)| else max
    decreases |ops|
  {
    if ops != [] {
      var front, op := ops[..|ops| - 1], ops[|ops| - 1];
      FullOfAdds(front, max);
      ReplayRecent(front, max);
      ChangedKeys(Replay(front, max), max, op);
      FindPrefix(Recent(front), |Replay(front, max)|, op.key);
    }
  }

  /** What a cache that holds `c` holds after some additions. */
  function Topped<T>(c: Items<T>, max: nat, added: seq<(nat, T)>): Items<T> {
    if added == [] then c
    else
      var (k, v) := added[|added| - 1];
      Added(Topped(c, max, added[..|added| - 1]), max, k, v)
  }

  /** A cache that is full, or over-full because its room was made smaller, keeps its size whatever is added: one
      key is dropped for each that comes. */
  lemma {:induction false} OverfullStays<T>(c: Items<T>, max: nat, added: seq<(nat, T)>)
    requires |c| >= max > 0
    ensures |Topped(c, max, added)| == |c|
    decreases |added|
  {
    if added != [] {
      OverfullStays(c, max, added[..|added| - 1]);
    }
  }

  // The cache.

  /** The keys and values of a list of entries. */
  ghost function ItemsOf<T>(nodes: seq<LinkEntry<T>>): Items<T> {
    seq(|nodes|, i requires 0 <= i < |nodes| => (nodes[i].key, nodes[i].val))
  }

  /** The map finds exactly the entries of the list, each under its key. */
  ghost predicate Indexed<T>(index: map<nat, LinkEntry<T>>, nodes: seq<LinkEntry<T>>) {
    && (forall i | 0 <= i < |nodes| :: nodes[i].key in index && index[nodes[i].key] == nodes[i] && nodes[i].val.Some?)
    && (forall k | k in index :: index[k] in nodes && index[k].key == k)
  }

  /** A key the map has is found in the list at the place of its entry. */
  lemma IndexFind<T>(index: map<nat, LinkEntry<T>>, nodes: seq<LinkEntry<T>>, k: nat)
    requires Indexed(index, nodes)
    ensures var i := Find(KeysOf(ItemsOf(nodes)), k);
            if k in index then i < |nodes| && nodes[i] == index[k] else i == |nodes|
  {
    var ks := KeysOf(ItemsOf(nodes));
    assert forall j | 0 <= j < |nodes| :: ks[j] == nodes[j].key;
    if k in index {
      var j :| 0 <= j < |nodes| && nodes[j] == index[k];
      assert ks[j] == k;
    }
  }

  lemma ItemsWithout<T>(nodes: seq<LinkEntry<T>>, i: nat)
    requires i < |nodes|
    ensures ItemsOf(Without(nodes, i)) == Without(ItemsOf(nodes), i)
  {
    WithoutAt(nodes, i);
    WithoutAt(ItemsOf(nodes), i);
  }

  lemma ItemsFront<T>(e: LinkEntry<T>, nodes: seq<LinkEntry<T>>)
    ensures ItemsOf([e] + nodes) == [(e.key, e.val)] + ItemsOf(nodes)
  {
  }

  lemma IndexWithout<T>(index: map<nat, LinkEntry<T>>, nodes: seq<LinkEntry<T>>, i: nat)
    requires Indexed(index, nodes) && i < |nodes| && (forall a, b | 0 <= a < b < |nodes| :: nodes[a] != nodes[b])
    ensures Indexed(index - {nodes[i].key}, Without(nodes, i))
  {
    var rest := Without(nodes, i);
    WithoutAt(nodes, i);
    forall k | k in index && k != nodes[i].key ensures index[k] in rest {
      var j :| 0 <= j < |nodes| && nodes[j] == index[k];
      assert rest[if j < i then j else j - 1] == nodes[j];
    }
  }

  lemma IndexFront<T>(index: map<nat, LinkEntry<T>>, nodes: seq<LinkEntry<T>>, e: LinkEntry<T>)
    requires Indexed(index, nodes) && e.key !in index && e.val.Some?
    ensures Indexed(index[e.key := e], [e] + nodes)
  {
    var index', nodes' := index[e.key := e], [e] + nodes;
    assert nodes'[0] == e;
    forall k | k in index' ensures index'[k] in nodes' && index'[k].key == k {
      if k != e.key {
        assert index[k] in nodes;
      }
    }
  }

  /** Moving an entry to the front leaves the map as it is. */
  lemma IndexMoved<T>(index: map<nat, LinkEntry<T>>, nodes: seq<LinkEntry<T>>, i: nat)
    requires Indexed(index, nodes) && i < |nodes| && (forall a, b | 0 <= a < b < |nodes| :: nodes[a] != nodes[b])
    ensures Indexed(index, [nodes[i]] + Without(nodes, i))
    ensures ItemsOf([nodes[i]] + Without(nodes, i)) == [ItemsOf(nodes)[i]] + Without(ItemsOf(nodes), i)
  {
    var entry, rest := nodes[i], Without(nodes, i);
    IndexWithout(index, nodes, i);
    IndexFront(index - {entry.key}, rest, entry);
    assert (index - {entry.key})[entry.key := entry] == index;
    ItemsWithout(nodes, i);
    ItemsFront(entry, rest);
  }

  class LruCache<T> {
    var maxSize: nat
    var currentSize: nat
    const list: LinkedList<T>
    var index: map<nat, LinkEntry<T>>

    ghost predicate Valid()
      reads this, list, list.Entries()
    {
      list.Valid() && currentSize == |list.nodes| && Indexed(index, list.nodes)
    }

    ghost function Contents(): Items<T>
      reads this, list
    {
      ItemsOf(list.nodes)
    }

    constructor (maxSize: nat)
      requires maxSize > 0
      ensures Valid() && Contents() == [] && this.maxSize == maxSize && fresh(list) && fresh(list.Entries())
    {
      this.maxSize := maxSize;
      currentSize := 0;
      list := new LinkedList<T>();
      index := map[];
    }

    method ContainsKey(key: nat) returns (r: bool)
      requires Valid()
      ensures r <==> key in KeysOf(Contents())
    {
      IndexFind(index, list.nodes, key);
      r := key in index;
    }

    /** Removes the entry at place `i` of the list. */
    method Drop(entry: LinkEntry<T>, ghost i: nat)
      requires Valid() && i < |list.nodes| && list.nodes[i] == entry
      modifies this`currentSize, this`index, list, list.Entries()
      ensures Valid() && list.nodes == Without(old(list.nodes), i) && Contents() == Without(old(Contents()), i)
      ensures index == old(index) - {entry.key} && list.Entries() == old(list.Entries()) - {entry}
    {
      list.NodesDiffer();
      IndexWithout(index, list.nodes, i);
      ItemsWithout(list.nodes, i);
      list.Detach(entry, i);
      index := index - {entry.key};
      currentSize := currentSize - 1;
    }

    /** Puts a new entry at the front. */
    method Insert(entry: LinkEntry<T>)
      requires Valid() && entry !in list.Entries() && entry.key !in index && entry.val.Some?
      modifies this`currentSize, this`index, list, list.Entries(), entry
      ensures Valid() && list.nodes == [entry] + old(list.nodes)
      ensures Contents() == [(entry.key, entry.val)] + old(Contents())
      ensures list.Entries() == old(list.Entries()) + {entry}
    {
      IndexFront(index, list.nodes, entry);
      ItemsFront(entry, list.nodes);
      index := index[entry.key := entry];
      list.PushFront(entry);
      currentSize := currentSize + 1;
    }

    /** Makes room for one more entry in a full cache. */
    method Evict()
      requires Valid() && currentSize > 0
      modifies this`currentSize, this`index, list, list.Entries()
      ensures Valid() && Contents() == old(Contents())[..|old(Contents())| - 1] && list.Entries() <= old(list.Entries())
      ensures index.Keys <= old(index.Keys)
    {
      list.BeforeTail();
      Drop(list.tail.prev, |list.nodes| - 1);
    }

    /** Adds a key that is not there. */
    method AddNew(key: nat, d: T)
      requires Valid() && (currentSize == 0 ==> maxSize > 0) && key !in index
      modifies this`currentSize, this`index, list, list.Entries()
      ensures Valid() && fresh(list.Entries() - old(list.Entries()))
      ensures var c := old(Contents());
              Contents() == [(key, Some(d))] + if |c| >= maxSize && |c| > 0 then c[..|c| - 1] else c
    {
      if currentSize >= maxSize {
        Evict();
      }
      var entry := new LinkEntry<T>(key, d);
      Insert(entry);
    }

    /** Makes `key` the one added last. A cache that is full and empty has no room for a new key. */
    method Add(key: nat, d: T)
      requires Valid() && (currentSize == 0 ==> maxSize > 0)
      modifies this`currentSize, this`index, list, list.Entries()
      ensures Valid() && Contents() == Added(old(Contents()), maxSize, key, d)
      ensures fresh(list.Entries() - old(list.Entries()))
    {
      IndexFind(index, list.nodes, key);
      if key !in index {
        AddNew(key, d);
      } else {
        MoveToFront(index[key], Find(KeysOf(Contents()), key));
      }
    }

    /** Makes the entry at place `i` the first. */
    method MoveToFront(entry: LinkEntry<T>, ghost i: nat)
      requires Valid() && i < |list.nodes| && list.nodes[i] == entry
      modifies list, list.Entries()
      ensures Valid() && list.Entries() == old(list.Entries())
      ensures Contents() == [old(Contents())[i]] + Without(old(Contents()), i)
    {
      list.NodesDiffer();
      IndexMoved(index, list.nodes, i);
      list.Detach(entry, i);
      list.PushFront(entry);
    }

    method Remove(key: nat) returns (found: bool)
      requires Valid()
      modifies this`currentSize, this`index, list, list.Entries()
      ensures Valid() && (found <==> key in KeysOf(old(Contents())))
      ensures Contents() == Without(old(Contents()), Find(KeysOf(old(Contents())), key))
      ensures list.Entries() <= old(list.Entries())
    {
      IndexFind(index, list.nodes, key);
      found := key in index;
      if found {
        Drop(index[key], Find(KeysOf(Contents()), key));
      }
    }

    method Get(key: nat) returns (r: Option<T>)
      requires Valid()
      ensures var i := Find(KeysOf(Contents()), key); r == if i < |Contents()| then Contents()[i].1 else None
    {
      IndexFind(index, list.nodes, key);
      r := if key in index then index[key].val else None;
    }

    /** Makes room for more keys or fewer. No key is dropped. */
    method SetMaxSize(max: nat)
      requires Valid()
      modifies this`maxSize
      ensures Valid() && maxSize == max && Contents() == old(Contents())
    {
      maxSize := max;
    }

    method Clear()
      requires Valid()
      modifies this`currentSize, this`index, list, list.Entries()
      ensures Valid() && Contents() == [] && list.Entries() <= old(list.Entries())
    {
      while true
        invariant list.Valid() && list.Entries() <= old(list.Entries())
        decreases |list.nodes|
      {
        var r := list.PopFront();
        if r == null {
          break;
        }
      }
      currentSize := 0;
      index := map[];
    }
  }

  method Perform<T>(c: LruCache<T>, op: Op<T>)
    requires c.Valid() && c.maxSize > 0
    modifies c`currentSize, c`index, c.list, c.list.Entries()
    ensures c.Valid() && c.Contents() == Changed(old(c.Contents()), c.maxSize, op)
    ensures fresh(c.list.Entries() - old(c.list.Entries()))
  {
    match op
    case Add(k, v) => c.Add(k, v);
    case Remove(k) => var found := c.Remove(k);
    case Clear => c.Clear();
  }

  /** A new cache after any operations holds what replaying them gives. */
  method Run<T>(ops: seq<Op<T>>, max: nat) returns (c: LruCache<T>)
    requires max > 0
    ensures fresh(c) && c.Valid() && c.Contents() == Replay(ops, max)
  {
    c := new LruCache(max);
    for n := 0 to |ops|
      invariant fresh(c) && fresh(c.list) && fresh(c.list.Entries()) && c.Valid() && c.maxSize == max
      invariant c.Contents() == Replay(ops[..n], max)
    {
      assert ops[..n + 1][..n] == ops[..n];
      Perform(c, ops[n]);
    }
    assert ops[..|ops|] == ops;
  }
}
