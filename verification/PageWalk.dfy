/** The order in which `Traverse` visits the pages of a range, and which mapped pages it misses. */
module PageWalk {
  import opened PageTableShape
  import opened PageSpace
  import opened PageUnmapping

  /** Where the traversal goes from page `c`. At a node without a table it moves on to the next node
      of that level; but from the last slot of a directory it leaves the digits below it standing. */
  ghost function Next(dir: Directory, c: nat): (c': nat)
    ensures c' > c
  {
    if Node(3, Prefix(c, 3)) !in dir then After(c, 3)
    else if Node(2, Prefix(c, 2)) !in dir then
      if Digit(c, 2) == 511 then After(c, 2) + Rest(c, 2) else After(c, 2)
    else if Node(1, Prefix(c, 1)) !in dir then
      if Digit(c, 1) == 511 then After(c, 1) + Rest(c, 1) else After(c, 1)
    else c + 1
  }

  /** The first page after the node at `level` that holds page `c`. */
  ghost function After(c: nat, level: nat): (a: nat)
    requires 1 <= level <= 3
    ensures a > c
  {
    NextBlock(c, level);
    UnmapNext(c, Span(level))
  }

  /** The digits of `c` below `level`, as a number of pages. */
  ghost function Rest(c: nat, level: nat): nat
    requires level <= 3
  {
    PrefixIsQuotient(c, level);
    c % Span(level)
  }

  /** The mapped pages visited from `c` on, in order. */
  ghost function Walk(dir: Directory, pages: map<nat, Entry>, c: nat, end: nat): seq<nat>
    decreases end - c
  {
    if c >= end then [] else (if c in pages then [c] else []) + Walk(dir, pages, Next(dir, c), end)
  }

  /** The page whose digits are those in `p` below `level`, and `pre` above. */
  function Value(pre: nat, p: seq<nat>, level: nat): nat
    requires level <= |p|
    decreases level
  {
    if level == 0 then pre else Value(pre * 512 + p[level - 1], p, level - 1)
  }

  ghost predicate AreDigits(p: seq<nat>) {
    |p| == 3 && forall k | 0 <= k < 3 :: p[k] < 512
  }

  lemma SpanValues()
    ensures Span(1) == 512 && Span(2) == 512 * 512 && Span(3) == 512 * 512 * 512
  {
    assert Span(0) == 1 && Span(1) == 512 && Span(2) == 512 * 512 && Span(3) == 512 * 512 * 512;
  }

  lemma ValueOf(pre: nat, p: seq<nat>, level: nat)
    requires AreDigits(p) && 1 <= level <= 3
    ensures level == 1 ==> Value(pre, p, level) == pre * 512 + p[0]
    ensures level == 2 ==> Value(pre, p, level) == pre * 0x4_0000 + p[1] * 512 + p[0]
    ensures level == 3 ==> Value(pre, p, level) == pre * 0x800_0000 + p[2] * 0x4_0000 + p[1] * 512 + p[0]
  {
    var pre1 := pre * 512 + p[level - 1];
    if level >= 2 {
      var pre2 := pre1 * 512 + p[level - 2];
      assert Value(pre2, p, level - 2) == if level == 2 then pre2 else Value(pre2 * 512 + p[0], p, 0);
    }
  }

  lemma TopIndex(p4: nat, p: seq<nat>, end: nat)
    requires AreDigits(p) && Value(p4, p, 3) < end <= PAGE_LIMIT
    ensures p4 < 512
  {
    ValueOf(p4, p, 3);
  }

  lemma ValueDigits(pre: nat, p: seq<nat>, level: nat)
    requires AreDigits(p) && 1 <= level <= 3
    ensures var c := Value(pre, p, level);
            && Prefix(c, level) == pre && Prefix(c, level - 1) == pre * 512 + p[level - 1]
            && Digit(c, level - 1) == p[level - 1]
  {
    ValuePrefix(pre * 512 + p[level - 1], p, level - 1);
  }

  lemma {:induction false} ValuePrefix(pre: nat, p: seq<nat>, level: nat)
    requires AreDigits(p) && level <= 3
    ensures Prefix(Value(pre, p, level), level) == pre
    decreases level
  {
    if level > 0 {
      ValuePrefix(pre * 512 + p[level - 1], p, level - 1);
    }
  }

  lemma Split(pre: nat, r: nat, k: nat)
    requires r < k
    ensures (pre * k + r) / k == pre && (pre * k + r) % k == r
  {
    QuotientOf(pre * k + r, pre, k);
  }

  lemma AfterAt(pre: nat, r: nat, level: nat)
    requires 1 <= level <= 3 && r < Span(level)
    ensures After(pre * Span(level) + r, level) == pre * Span(level) + Span(level)
    ensures Rest(pre * Span(level) + r, level) == r
  {
    Split(pre, r, Span(level));
  }

  /** Carrying into the digit above `level`, with the digits below left standing or reset. */
  lemma ValueAfter(pre: nat, p: seq<nat>, level: nat)
    requires AreDigits(p) && 1 <= level <= 3
    ensures var c := Value(pre, p, level);
            && After(c, level) + Rest(c, level) == Value(pre + 1, p, level)
            && After(c, level) == Value(pre + 1, [0, 0, 0], level)
  {
    ValueSplits(pre, p, level);
    AfterAt(pre, Value(0, p, level), level);
    assert (pre + 1) * Span(level) == pre * Span(level) + Span(level);
    ValueSplits(pre + 1, p, level);
    ValueSplits(pre + 1, [0, 0, 0], level);
    ValueZero(level);
  }

  lemma ValueZero(level: nat)
    requires 1 <= level <= 3
    ensures Value(0, [0, 0, 0], level) == 0
  {
    ValueOf(0, [0, 0, 0], level);
  }

  lemma ValueSplits(pre: nat, p: seq<nat>, level: nat)
    requires AreDigits(p) && 1 <= level <= 3
    ensures Value(0, p, level) < Span(level) && Value(pre, p, level) == pre * Span(level) + Value(0, p, level)
  {
    SpanValues();
    ValueOf(0, p, level);
    ValueOf(pre, p, level);
  }

  /** No entry visited is made to name another frame or none. */
  ghost predicate KeepsFrames(pages: map<nat, Entry>, visited: seq<nat>, f: (Entry, nat) -> Entry) {
    forall v | v in visited && v in pages :: !f(pages[v], v).Unused() && f(pages[v], v).frame == pages[v].frame
  }

  /** What `f` makes of the entry of page `v` if it is visited. */
  ghost function Outcome(pages: map<nat, Entry>, visited: seq<nat>, f: (Entry, nat) -> Entry, v: int): Entry {
    if v !in pages then UNUSED else if v in visited then f(pages[v], v) else pages[v]
  }

  /** The pages once `f` has been applied to those visited; one whose entry it clears is no longer mapped. */
  ghost function Applied(pages: map<nat, Entry>, visited: seq<nat>, f: (Entry, nat) -> Entry): map<nat, Entry> {
    map v | v in pages && !Outcome(pages, visited, f, v).Unused() :: Outcome(pages, visited, f, v)
  }

  ghost predicate AllMapped(pages: map<nat, Entry>, start: nat, end: nat) {
    forall v | start <= v < end :: v in pages
  }

  /** The traversal of [start, end) stands at page `c`: what it has visited and what the walk from `c`
      on will visit make up the whole walk, and failing fast it has found no page unmapped yet. */
  ghost predicate Standing(dir: Directory, pages: map<nat, Entry>, start: nat, end: nat, failFast: bool,
                           c: nat, visited: seq<nat>) {
    && start <= c && visited + Walk(dir, pages, c, end) == Walk(dir, pages, start, end)
    && (forall u | u in visited :: u < c && u in pages)
    && (failFast ==> AllMapped(pages, start, if c < end then c else end))
  }

  lemma StandingStart(dir: Directory, pages: map<nat, Entry>, start: nat, end: nat, failFast: bool)
    ensures Standing(dir, pages, start, end, failFast, start, [])
  {
    assert [] + Walk(dir, pages, start, end) == Walk(dir, pages, start, end);
  }

  lemma StandingStep(dir: Directory, pages: map<nat, Entry>, start: nat, end: nat, failFast: bool,
                     c: nat, visited: seq<nat>)
    requires c < end && Standing(dir, pages, start, end, failFast, c, visited)
    requires failFast ==> c in pages && Next(dir, c) == c + 1
    ensures Standing(dir, pages, start, end, failFast, Next(dir, c), visited + if c in pages then [c] else [])
  {
    var here := if c in pages then [c] else [];
    var rest := Walk(dir, pages, Next(dir, c), end);
    assert visited + (here + rest) == (visited + here) + rest;
  }

  lemma AppliedStep(s: Space, visited: seq<nat>, f: (Entry, nat) -> Entry, v: nat)
    requires v in View(s) && v !in visited
    ensures var pages, e := View(s), f(View(s)[v], v);
            && v in Applied(pages, visited, f) && Applied(pages, visited, f)[v] == pages[v]
            && Applied(pages, visited + [v], f) ==
               if e.Unused() then Applied(pages, visited, f) - {v} else Applied(pages, visited, f)[v := e]
  {
    forall u | u in View(s) && u != v
      ensures Outcome(View(s), visited + [v], f, u) == Outcome(View(s), visited, f, u)
    {
    }
  }

  lemma StandingPast(dir: Directory, pages: map<nat, Entry>, start: nat, end: nat, failFast: bool,
                     c: nat, visited: seq<nat>, c': nat)
    requires end <= c <= c' && Standing(dir, pages, start, end, failFast, c, visited)
    ensures Standing(dir, pages, start, end, failFast, c', visited)
  {
  }

  datatype Scan = Scan(start: nat, end: nat, failFast: bool)

  /** The parts of `Passing`; see `Unit` in Basics. */
  datatype Part = Tables | Entries | Position

  ghost predicate PassingIn(part: Part, s0: Space, s: Space, scan: Scan,
                            f: (Entry, nat) -> Entry, c: nat, visited: seq<nat>) {
    && (part.Tables? ==>
          && Holds(s, Tree) && (KeepsFrames(View(s0), visited, f) ==> Inv(s))
          && s == Space(s0.root, s.mem, s0.refs, s0.pool, s0.freePages, s0.dir, s0.ext, s0.lent))
    && (part.Entries? ==> View(s) == Applied(View(s0), visited, f))
    && (part.Position? ==> Standing(s0.dir, View(s0), scan.start, scan.end, scan.failFast, c, visited))
  }

  /** The traversal stands at page `c`, having applied `f` to exactly the entries visited. */
  ghost predicate Passing(s0: Space, s: Space, scan: Scan, f: (Entry, nat) -> Entry, c: nat, visited: seq<nat>) {
    forall part: Part :: PassingIn(part, s0, s, scan, f, c, visited)
  }

  lemma PassingStart(s: Space, scan: Scan, f: (Entry, nat) -> Entry)
    requires Inv(s)
    ensures Passing(s, s, scan, f, scan.start, [])
  {
    StandingStart(s.dir, View(s), scan.start, scan.end, scan.failFast);
    AppliedNone(s, f);
  }

  lemma AppliedNone(s: Space, f: (Entry, nat) -> Entry)
    ensures Applied(View(s), [], f) == View(s)
  {
    forall v | v in View(s) ensures !Outcome(View(s), [], f, v).Unused() {
      UsedInView(s, v);
    }
  }

  lemma PassingTree(s0: Space, s: Space, scan: Scan, f: (Entry, nat) -> Entry, c: nat, visited: seq<nat>)
    requires Passing(s0, s, scan, f, c, visited)
    ensures Holds(s, Tree) && s.dir == s0.dir && s.root == s0.root
  {
    assert PassingIn(Tables, s0, s, scan, f, c, visited);
  }

  /** A slot of a directory is used exactly if there is a table below it, which it points at. */
  lemma PassingChild(s0: Space, s: Space, scan: Scan, f: (Entry, nat) -> Entry, c: nat, visited: seq<nat>, t: nat,
                     level: nat, pre: nat, index: nat)
    requires Passing(s0, s, scan, f, c, visited) && 2 <= level <= 4 && index < ENTRY_COUNT
    requires Node(level, pre) in s.dir && s.dir[Node(level, pre)] == t && t in s.mem
    ensures var child := Node(level - 1, pre * 512 + index);
            && s.dir == s0.dir && (child in s.dir <==> !s.mem[t][index].Unused())
            && (child in s.dir ==> s.dir[child] == s.mem[t][index].frame && s.dir[child] in s.mem)
  {
    PassingTree(s0, s, scan, f, c, visited);
    LinkIsTable(s, Node(level - 1, pre * 512 + index));
  }

  lemma PassingKeeps(s0: Space, s: Space, scan: Scan, f: (Entry, nat) -> Entry, c: nat, visited: seq<nat>, n: Node)
    requires Passing(s0, s, scan, f, c, visited) && n in s0.dir
    ensures s.dir == s0.dir && s.dir[n] in s.mem
  {
    PassingTree(s0, s, scan, f, c, visited);
    TableInMemory(s, n);
  }

  lemma PassingEnd(s0: Space, s: Space, scan: Scan, f: (Entry, nat) -> Entry, c: nat, visited: seq<nat>, c': nat)
    requires Passing(s0, s, scan, f, c, visited) && scan.end <= c <= c'
    ensures Passing(s0, s, scan, f, c', visited)
  {
    assert PassingIn(Tables, s0, s, scan, f, c, visited) && PassingIn(Entries, s0, s, scan, f, c, visited);
    assert PassingIn(Position, s0, s, scan, f, c, visited);
    StandingPast(s0.dir, View(s0), scan.start, scan.end, scan.failFast, c, visited, c');
  }

  /** A page not passed yet still has its entry. */
  lemma PassingPages(s0: Space, s: Space, scan: Scan, f: (Entry, nat) -> Entry, c: nat, visited: seq<nat>)
    requires Passing(s0, s, scan, f, c, visited)
    ensures c in View(s) <==> c in View(s0)
    ensures c in View(s0) ==> View(s)[c] == View(s0)[c]
  {
    assert PassingIn(Entries, s0, s, scan, f, c, visited) && PassingIn(Position, s0, s, scan, f, c, visited);
    assert c !in visited;
    if c in View(s0) {
      UsedInView(s0, c);
    }
  }

  /** Stepping over a page, or a node, that is not mapped. */
  lemma PassUnmapped(s0: Space, s: Space, scan: Scan, f: (Entry, nat) -> Entry, c: nat, visited: seq<nat>)
    requires Passing(s0, s, scan, f, c, visited) && c < scan.end && c !in View(s0) && !scan.failFast
    ensures Passing(s0, s, scan, f, Next(s0.dir, c), visited)
  {
    assert PassingIn(Tables, s0, s, scan, f, c, visited) && PassingIn(Entries, s0, s, scan, f, c, visited);
    assert PassingIn(Position, s0, s, scan, f, c, visited);
    StandingStep(s0.dir, View(s0), scan.start, scan.end, scan.failFast, c, visited);
    assert visited + [] == visited;
  }

  /** Visiting a mapped page. */
  lemma PassMapped(s0: Space, s: Space, scan: Scan, f: (Entry, nat) -> Entry, c: nat, visited: seq<nat>)
    requires Passing(s0, s, scan, f, c, visited) && c < scan.end && c in View(s0)
    requires Node(1, Prefix(c, 1)) in s0.dir && Next(s0.dir, c) == c + 1
    ensures Node(0, c).Parent() in s.dir && s.dir[Node(0, c).Parent()] in s.mem
    ensures Passing(s0, Rewritten(s, c, f(View(s0)[c], c)), scan, f, c + 1, visited + [c])
  {
    PassMappedTables(s0, s, scan, f, c, visited);
    PassMappedEntries(s0, s, scan, f, c, visited);
    assert PassingIn(Position, s0, s, scan, f, c, visited);
    StandingStep(s0.dir, View(s0), scan.start, scan.end, scan.failFast, c, visited);
  }

  lemma PassMappedTables(s0: Space, s: Space, scan: Scan, f: (Entry, nat) -> Entry, c: nat, visited: seq<nat>)
    requires Passing(s0, s, scan, f, c, visited) && c in View(s0)
    ensures Node(0, c).Parent() in s.dir && s.dir[Node(0, c).Parent()] in s.mem
    ensures PassingIn(Tables, s0, Rewritten(s, c, f(View(s0)[c], c)), scan, f, c + 1, visited + [c])
  {
    var e := f(View(s0)[c], c);
    assert PassingIn(Tables, s0, s, scan, f, c, visited);
    PassingPages(s0, s, scan, f, c, visited);
    UsedInView(s, c);
    RewrittenTree(s, c, e);
    if KeepsFrames(View(s0), visited + [c], f) {
      KeepsLess(View(s0), visited, c, f);
      RewrittenKeeps(s, c, e);
    }
  }

  lemma KeepsLess(pages: map<nat, Entry>, visited: seq<nat>, c: nat, f: (Entry, nat) -> Entry)
    requires c in pages && KeepsFrames(pages, visited + [c], f)
    ensures KeepsFrames(pages, visited, f) && !f(pages[c], c).Unused() && f(pages[c], c).frame == pages[c].frame
  {
    forall v | v in visited && v in pages
      ensures !f(pages[v], v).Unused() && f(pages[v], v).frame == pages[v].frame
    {
      assert v in visited + [c];
    }
    assert c in visited + [c];
  }

  lemma PassMappedEntries(s0: Space, s: Space, scan: Scan, f: (Entry, nat) -> Entry, c: nat, visited: seq<nat>)
    requires Passing(s0, s, scan, f, c, visited) && c in View(s0)
    requires Node(0, c).Parent() in s.dir && s.dir[Node(0, c).Parent()] in s.mem
    ensures PassingIn(Entries, s0, Rewritten(s, c, f(View(s0)[c], c)), scan, f, c + 1, visited + [c])
  {
    PassingTree(s0, s, scan, f, c, visited);
    PassingPages(s0, s, scan, f, c, visited);
    RewrittenTree(s, c, f(View(s0)[c], c));
    assert PassingIn(Entries, s0, s, scan, f, c, visited);
    assert PassingIn(Position, s0, s, scan, f, c, visited);
    AppliedStep(s0, visited, f, c);
  }

  lemma UsedInView(s: Space, v: nat)
    requires v in View(s)
    ensures !View(s)[v].Unused()
  {
  }

  /** Where the traversal goes when it finds no table under the slot of page `c` at `level`. */
  lemma NextFromSlot(s: Space, c: nat, level: nat)
    requires Holds(s, Tree) && 2 <= level <= 4 && c < PAGE_LIMIT
    requires Node(level, Prefix(c, level)) in s.dir && Node(level - 1, Prefix(c, level - 1)) !in s.dir
    ensures c !in View(s)
    ensures Next(s.dir, c) == if level < 4 && Digit(c, level - 1) == 511
                              then After(c, level - 1) + Rest(c, level - 1) else After(c, level - 1)
  {
    NothingUnder(s, Node(level - 1, Prefix(c, level - 1)));
    AboveInTree(s, c, level);
  }

  lemma AboveInTree(s: Space, c: nat, level: nat)
    requires Holds(s, Tree) && 1 <= level <= 4 && Node(level, Prefix(c, level)) in s.dir
    ensures forall k | level <= k <= 4 :: Node(k, Prefix(c, k)) in s.dir
    decreases 4 - level
  {
    NodeInTree(s.root, s.mem, s.dir, Node(level, Prefix(c, level)));
    if level < 4 {
      AboveInTree(s, c, level + 1);
    }
  }

  lemma NextInLeaf(s: Space, c: nat)
    requires Holds(s, Tree) && Node(1, Prefix(c, 1)) in s.dir
    ensures Next(s.dir, c) == c + 1
  {
    AboveInTree(s, c, 1);
  }

  /** The digits from `level` on do not matter to the digits below. */
  lemma ValueLow(pre: nat, p: seq<nat>, q: seq<nat>, level: nat)
    requires level <= |p| && level <= |q| && p[..level] == q[..level]
    ensures Value(pre, p, level) == Value(pre, q, level)
    decreases level
  {
    if level > 0 {
      assert p[level - 1] == p[..level][level - 1] && q[level - 1] == q[..level][level - 1];
      assert p[..level - 1] == p[..level][..level - 1] && q[..level - 1] == q[..level][..level - 1];
      ValueLow(pre * 512 + p[level - 1], p, q, level - 1);
    }
  }

  /** Bumping the index at `level` by hand, or wrapping it and carrying upwards, is adding one above
      the digits below it. */
  lemma Bump(pre: nat, p: seq<nat>, level: nat, index: nat)
    requires AreDigits(p) && 1 <= level <= 3 && index < 512
    ensures index == 511 ==> Value(pre + 1, p[level - 1 := 0], level) == Value(pre * 512 + index + 1, p, level - 1)
    ensures index < 511 ==> Value(pre, p[level - 1 := index + 1], level) == Value(pre * 512 + index + 1, p, level - 1)
  {
    if index == 511 {
      ValueLow(pre * 512 + index + 1, p[level - 1 := 0], p, level - 1);
    } else {
      ValueLow(pre * 512 + index + 1, p[level - 1 := index + 1], p, level - 1);
    }
  }

  /** `p` with the digits below `level` reset. */
  function Reset(p: seq<nat>, level: nat): seq<nat>
    requires |p| == 3 && level <= 3
  {
    [if level > 0 then 0 else p[0], if level > 1 then 0 else p[1], if level > 2 then 0 else p[2]]
  }

  /** Stepping over the slot of page `c` at `level` when there is no table under it. */
  lemma SlotStep(s: Space, pre: nat, p: seq<nat>, level: nat, index: nat)
    requires Holds(s, Tree) && AreDigits(p) && 2 <= level <= 4 && index < 512
    requires Node(level, pre) in s.dir && Node(level - 1, pre * 512 + index) !in s.dir
    requires Value(pre * 512 + index, p, level - 1) < PAGE_LIMIT
    ensures var c := Value(pre * 512 + index, p, level - 1);
            var p' := if index == 511 && level < 4 then p else Reset(p, level - 1);
            c !in View(s) && Next(s.dir, c) == Value(pre * 512 + index + 1, p', level - 1)
  {
    SlotDigits(pre, p, level, index);
    SlotNext(s, Value(pre * 512 + index, p, level - 1), pre * 512 + index, p, level, index);
  }

  lemma SlotNext(s: Space, c: nat, q: nat, p: seq<nat>, level: nat, index: nat)
    requires Holds(s, Tree) && AreDigits(p) && 2 <= level <= 4 && c < PAGE_LIMIT && c == Value(q, p, level - 1)
    requires Node(level, Prefix(c, level)) in s.dir && Node(level - 1, Prefix(c, level - 1)) !in s.dir
    requires Digit(c, level - 1) == index
    ensures var p' := if index == 511 && level < 4 then p else Reset(p, level - 1);
            c !in View(s) && Next(s.dir, c) == Value(q + 1, p', level - 1)
  {
    NextFromSlot(s, c, level);
    SlotAfter(q, p, level - 1);
  }

  /** A traversal at a slot without a table steps over it, or, failing fast, stops. */
  lemma PassSlot(s0: Space, s: Space, scan: Scan, f: (Entry, nat) -> Entry, pre: nat, p: seq<nat>, level: nat,
                 index: nat, visited: seq<nat>)
    requires AreDigits(p) && 2 <= level <= 4 && index < 512
    requires Node(level, pre) in s.dir && Node(level - 1, pre * 512 + index) !in s.dir
    requires Value(pre * 512 + index, p, level - 1) < scan.end <= PAGE_LIMIT
    requires Passing(s0, s, scan, f, Value(pre * 512 + index, p, level - 1), visited)
    ensures scan.failFast ==> Stopped(s0, s, scan, f, Value(pre * 512 + index, p, level - 1), visited)
    ensures !scan.failFast ==>
              var p' := if index == 511 && level < 4 then p else Reset(p, level - 1);
              Passing(s0, s, scan, f, Value(pre * 512 + index + 1, p', level - 1), visited)
  {
    var c := Value(pre * 512 + index, p, level - 1);
    PassingTree(s0, s, scan, f, c, visited);
    PassingPages(s0, s, scan, f, c, visited);
    SlotStep(s, pre, p, level, index);
    if !scan.failFast {
      PassUnmapped(s0, s, scan, f, c, visited);
    }
  }

  lemma SlotDigits(pre: nat, p: seq<nat>, level: nat, index: nat)
    requires AreDigits(p) && 2 <= level <= 4 && index < 512
    ensures var c := Value(pre * 512 + index, p, level - 1);
            Prefix(c, level - 1) == pre * 512 + index && Prefix(c, level) == pre && Digit(c, level - 1) == index
  {
    ValueDigits(pre * 512 + index, p, level - 1);
  }

  lemma SlotAfter(q: nat, p: seq<nat>, level: nat)
    requires AreDigits(p) && 1 <= level <= 3
    ensures var c := Value(q, p, level);
            && After(c, level) + Rest(c, level) == Value(q + 1, p, level)
            && After(c, level) == Value(q + 1, Reset(p, level), level)
  {
    ValueAfter(q, p, level);
    ValueLow(q + 1, Reset(p, level), [0, 0, 0], level);
  }

  /** Failing fast, the traversal has come to a page that is not mapped. */
  ghost predicate Stopped(s0: Space, s: Space, scan: Scan, f: (Entry, nat) -> Entry, c: nat, visited: seq<nat>) {
    scan.failFast && c < scan.end && c !in View(s0) && Passing(s0, s, scan, f, c, visited)
  }

  /** The pages from `start` up to `end`, in order. */
  ghost function Count(start: nat, end: nat): (r: seq<nat>)
    ensures |r| == if start < end then end - start else 0
    ensures forall i | 0 <= i < |r| :: r[i] == start + i
    decreases end - start
  {
    if start < end then [start] + Count(start + 1, end) else []
  }

  lemma WalkOne(dir: Directory, pages: map<nat, Entry>, start: nat, c: nat, end: nat)
    requires start < c <= end && start in pages && Next(dir, start) == start + 1
    requires Walk(dir, pages, start + 1, end) == Count(start + 1, c) + Walk(dir, pages, c, end)
    ensures Walk(dir, pages, start, end) == Count(start, c) + Walk(dir, pages, c, end)
  {
    var rest := Walk(dir, pages, c, end);
    assert [start] + (Count(start + 1, c) + rest) == ([start] + Count(start + 1, c)) + rest;
  }

  /** As long as every page is mapped the walk visits page after page. */
  lemma WalkMapped(s: Space, start: nat, c: nat, end: nat)
    requires Inv(s) && start <= c <= end && AllMapped(View(s), start, c)
    ensures Walk(s.dir, View(s), start, end) == Count(start, c) + Walk(s.dir, View(s), c, end)
    decreases c - start
  {
    if start < c {
      PathToPage(s, start);
      NextInLeaf(s, start);
      WalkMapped(s, start + 1, c, end);
      WalkOne(s.dir, View(s), start, c, end);
    } else {
      assert Count(start, c) == [];
    }
  }

  /** Failing fast, the pages visited are all those passed. */
  lemma PassedAll(s0: Space, s: Space, scan: Scan, f: (Entry, nat) -> Entry, c: nat, visited: seq<nat>)
    requires Inv(s0) && scan.failFast && scan.start <= scan.end && Passing(s0, s, scan, f, c, visited)
    ensures var e := if c < scan.end then c else scan.end;
            scan.start <= c && AllMapped(View(s0), scan.start, e) && visited == Count(scan.start, e)
  {
    assert PassingIn(Position, s0, s, scan, f, c, visited);
    var e := if c < scan.end then c else scan.end;
    WalkMapped(s0, scan.start, e, scan.end);
    var rest := Walk(s0.dir, View(s0), c, scan.end);
    assert rest == Walk(s0.dir, View(s0), e, scan.end);
    assert |visited| == |Count(scan.start, e)|;
    assert visited == (visited + rest)[..|visited|] == (Count(scan.start, e) + rest)[..|visited|];
  }

  /** Where a traversal that reset every digit would have gone from `c`. */
  ghost function Boundary(dir: Directory, c: nat): (b: nat)
    ensures c < b
  {
    if Node(3, Prefix(c, 3)) !in dir then After(c, 3)
    else if Node(2, Prefix(c, 2)) !in dir then After(c, 2)
    else if Node(1, Prefix(c, 1)) !in dir then After(c, 1)
    else c + 1
  }

  /** The walk from `c` on jumps over page `v` because it left digits standing. */
  ghost predicate Skips(dir: Directory, c: nat, end: nat, v: nat)
    decreases end - c
  {
    c < end && (Boundary(dir, c) <= v < Next(dir, c) || Skips(dir, Next(dir, c), end, v))
  }

  /** The walk visits exactly the mapped pages it does not jump over. */
  lemma {:induction false} WalkVisits(s: Space, c: nat, end: nat, v: nat)
    requires Inv(s) && c <= v < end <= PAGE_LIMIT
    ensures v in Walk(s.dir, View(s), c, end) <==> v in View(s) && !Skips(s.dir, c, end, v)
    decreases end - c
  {
    var next := Next(s.dir, c);
    WalkAhead(s.dir, View(s), next, end);
    if v >= next {
      WalkVisits(s, next, end, v);
    } else {
      SkipsAhead(s.dir, next, end, v);
      if c < v < Boundary(s.dir, c) {
        BeforeBoundary(s, c, v);
      }
    }
  }

  lemma {:induction false} WalkAhead(dir: Directory, pages: map<nat, Entry>, c: nat, end: nat)
    ensures forall u | u in Walk(dir, pages, c, end) :: c <= u < end
    decreases end - c
  {
    if c < end {
      WalkAhead(dir, pages, Next(dir, c), end);
    }
  }

  lemma {:induction false} SkipsAhead(dir: Directory, c: nat, end: nat, v: nat)
    requires v < c
    ensures !Skips(dir, c, end, v)
    decreases end - c
  {
    if c < end {
      SkipsAhead(dir, Next(dir, c), end, v);
    }
  }

  lemma BeforeBoundary(s: Space, c: nat, v: nat)
    requires Inv(s) && c < v < Boundary(s.dir, c)
    ensures v !in View(s)
  {
    if Node(3, Prefix(c, 3)) !in s.dir {
      NextBlock(c, 3);
      NothingUnder(s, Node(3, Prefix(c, 3)));
    } else if Node(2, Prefix(c, 2)) !in s.dir {
      NextBlock(c, 2);
      NothingUnder(s, Node(2, Prefix(c, 2)));
    } else if Node(1, Prefix(c, 1)) !in s.dir {
      NextBlock(c, 1);
      NothingUnder(s, Node(1, Prefix(c, 1)));
    }
  }

  /** The digits of `c` that the walk might leave standing are zero, or it is past where it could. */
  ghost predicate Settled(dir: Directory, c: nat) {
    && (Rest(c, 2) == 0 || Node(2, Prefix(c, 2)) in dir)
    && (Rest(c, 1) == 0 || Node(1, Prefix(c, 1)) in dir)
  }

  lemma AfterIsRound(c: nat, level: nat)
    requires 1 <= level <= 3
    ensures Rest(After(c, level), 1) == 0 && (level >= 2 ==> Rest(After(c, level), 2) == 0)
    ensures level == 1 && Digit(c, 1) == 511 ==> Rest(After(c, level), 2) == 0
    ensures level == 1 && Digit(c, 1) != 511 ==> Prefix(After(c, level), 2) == Prefix(c, 2)
  {
    RoundAfter(c, level);
    if level == 1 {
      NextBlock(c, 1);
      Carry(c, After(c, 1), 1);
      RoundDigits(After(c, 1));
    }
  }

  lemma RoundAfter(c: nat, level: nat)
    requires 1 <= level <= 3
    ensures Rest(After(c, level), 1) == 0 && (level >= 2 ==> Rest(After(c, level), 2) == 0)
  {
    SpanValues();
    var k := Span(level);
    var q := c / k + 1;
    assert c == (q - 1) * k + c % k;
    AfterAt(q - 1, c % k, level);
    if level == 1 {
      assert After(c, level) == 512 * q;
    } else if level == 2 {
      RoundTwo(q, After(c, level));
    } else {
      RoundTwo(512 * q, After(c, level));
    }
  }

  lemma RoundTwo(q: nat, a: nat)
    requires a == 262144 * q
    ensures a % 512 == 0 && a % 262144 == 0
  {
    assert a == 512 * (512 * q);
  }

  lemma TwoDigits(c: nat)
    ensures c % 262144 == 512 * (c / 512 % 512) + c % 512
  {
    var q, r := c / 512, c % 512;
    var p, d := q / 512, q % 512;
    assert c == 262144 * p + (512 * d + r) && 512 * d + r < 262144;
  }

  /** A page is at the start of a node when the digits below are zero. */
  lemma RoundDigits(c: nat)
    ensures Rest(c, 1) == Digit(c, 0)
    ensures Rest(c, 2) == 0 <==> Digit(c, 0) == 0 && Digit(c, 1) == 0
  {
    SpanValues();
    assert Prefix(c, 0) == c && Prefix(c, 1) == c / 512;
    TwoDigits(c);
  }

  /** A walk that went to the boundary is settled there. */
  lemma BoundarySettles(dir: Directory, c: nat)
    requires Next(dir, c) == Boundary(dir, c)
    ensures Settled(dir, Next(dir, c))
  {
    if Node(3, Prefix(c, 3)) !in dir {
      AfterIsRound(c, 3);
    } else if Node(2, Prefix(c, 2)) !in dir {
      AfterIsRound(c, 2);
    } else if Node(1, Prefix(c, 1)) !in dir {
      AfterIsRound(c, 1);
    } else {
      LeafSettles(dir, c);
    }
  }

  lemma LeafSettles(dir: Directory, c: nat)
    requires Node(2, Prefix(c, 2)) in dir && Node(1, Prefix(c, 1)) in dir
    ensures Settled(dir, c + 1)
  {
    assert Prefix(c, 0) == c && Prefix(c + 1, 0) == c + 1;
    Carry(c, c + 1, 0);
    RoundDigits(c + 1);
    if Digit(c, 0) == 511 {
      Carry(c, c + 1, 1);
    } else {
      assert Prefix(c + 1, 2) == Prefix(c + 1, 1) / 512 && Prefix(c, 2) == Prefix(c, 1) / 512;
    }
  }

  /** From a settled page the walk goes to the boundary, and is settled there. */
  lemma SettledNext(dir: Directory, c: nat)
    requires Settled(dir, c)
    ensures Next(dir, c) == Boundary(dir, c) && Settled(dir, Next(dir, c))
  {
    BoundarySettles(dir, c);
  }

  // A walk leaves digits standing at most twice, at its first two steps.

  /** With the digits below `level` left standing, the walk moves on by one node of that level. */
  lemma StandIs(c: nat, level: nat)
    requires 1 <= level <= 2
    ensures After(c, level) + Rest(c, level) == c + Span(level)
  {
    var k := Span(level);
    assert k > 0;
    assert c == c / k * k + c % k;
    AfterAt(c / k, c % k, level);
  }

  lemma StandingOne(c: nat)
    ensures Prefix(c + 512, 1) == Prefix(c, 1) + 1
  {
    assert Prefix(c, 0) == c && Prefix(c + 512, 0) == c + 512;
  }

  lemma StandingTwo(c: nat)
    ensures Prefix(c + 262144, 1) == Prefix(c, 1) + 512
    ensures Prefix(c + 262144, 2) == Prefix(c, 2) + 1 && Digit(c + 262144, 1) == Digit(c, 1)
  {
    assert Prefix(c, 0) == c && Prefix(c + 262144, 0) == c + 262144;
    assert Prefix(c + 262144, 2) == Prefix(c + 262144, 1) / 512 && Prefix(c, 2) == Prefix(c, 1) / 512;
  }

  /** Leaving digits standing means carrying out of the last slot of a middle or of an upper directory. */
  lemma StandsAt(dir: Directory, c: nat)
    requires Next(dir, c) != Boundary(dir, c)
    ensures (Digit(c, 2) == 511 && Next(dir, c) == c + 262144) || (Digit(c, 1) == 511 && Next(dir, c) == c + 512)
  {
    SpanValues();
    StandIs(c, 1);
    StandIs(c, 2);
  }

  lemma NoStand(dir: Directory, c: nat)
    requires Digit(c, 1) != 511 && Digit(c, 2) != 511
    ensures Next(dir, c) == Boundary(dir, c)
  {
  }

  /** Of three steps in a row, one goes to the boundary. */
  lemma StandsTwice(dir: Directory, c: nat)
    ensures var c1 := Next(dir, c);
            var c2 := Next(dir, c1);
            Next(dir, c) == Boundary(dir, c) || c2 == Boundary(dir, c1) || Next(dir, c2) == Boundary(dir, c2)
  {
    var c1 := Next(dir, c);
    var c2 := Next(dir, c1);
    if c1 != Boundary(dir, c) && c2 != Boundary(dir, c1) {
      StandsAt(dir, c);
      StandsAt(dir, c1);
      StandDigits(c, c1);
      StandDigits(c1, c2);
      NoStand(dir, c2);
    }
  }

  /** What carrying out of a last slot does to the digits of the two directories. */
  lemma StandDigits(c: nat, c': nat)
    requires (Digit(c, 2) == 511 && c' == c + 262144) || (Digit(c, 1) == 511 && c' == c + 512)
    ensures c' == c + 262144 ==> Digit(c, 2) == 511 && Digit(c', 2) == 0 && Digit(c', 1) == Digit(c, 1)
    ensures c' == c + 512 ==>
              && Digit(c, 1) == 511 && Digit(c', 1) == 0
              && Digit(c', 2) == (if Digit(c, 2) == 511 then 0 else Digit(c, 2) + 1)
  {
    if c' == c + 262144 {
      StandingTwo(c);
      Carry(c, c', 2);
    } else {
      StandingOne(c);
      Carry(c, c', 1);
      Carry(c, c', 2);
    }
  }

  /** Page `v` lies between where a reset walk would have gone from `c` and where this one goes. */
  ghost predicate Overstepped(dir: Directory, c: nat, end: nat, v: nat) {
    c < end && Boundary(dir, c) <= v < Next(dir, c)
  }

  /** The pages that a walk over [start, end) jumps over lie in two intervals, one for each of its first two steps. */
  ghost predicate Missed(dir: Directory, start: nat, end: nat, v: nat) {
    Overstepped(dir, start, end, v) || Overstepped(dir, Next(dir, start), end, v)
  }

  /** The walk from `c` jumps over a page at its first step or at its second, or not at all. */
  lemma SkipsIff(dir: Directory, c: nat, end: nat, v: nat)
    ensures Skips(dir, c, end, v) <==> Missed(dir, c, end, v)
  {
    var c1 := Next(dir, c);
    var c2 := Next(dir, c1);
    SkipsStep(dir, c, end, v);
    SkipsStep(dir, c1, end, v);
    SkipsStep(dir, c2, end, v);
    StandsTwice(dir, c);
    if c1 == Boundary(dir, c) {
      BoundarySettles(dir, c);
      SettledSkipsNothing(dir, c1, end, v);
    } else if c2 == Boundary(dir, c1) {
      BoundarySettles(dir, c1);
      SettledSkipsNothing(dir, c2, end, v);
    } else {
      BoundarySettles(dir, c2);
      SettledSkipsNothing(dir, Next(dir, c2), end, v);
    }
  }

  lemma SkipsStep(dir: Directory, c: nat, end: nat, v: nat)
    ensures Skips(dir, c, end, v) <==> Overstepped(dir, c, end, v) || Skips(dir, Next(dir, c), end, v)
  {
  }

  /** The walk visits exactly the mapped pages outside the two intervals. */
  lemma VisitsIff(s: Space, start: nat, end: nat, v: nat)
    requires Inv(s) && start <= v < end <= PAGE_LIMIT
    ensures v in Walk(s.dir, View(s), start, end) <==> v in View(s) && !Missed(s.dir, start, end, v)
  {
    WalkVisits(s, start, end, v);
    SkipsIff(s.dir, start, end, v);
  }

  /** From a start that is a multiple of 1 GiB, and from any settled one, the walk jumps over nothing. */
  lemma {:induction false} SettledSkipsNothing(dir: Directory, c: nat, end: nat, v: nat)
    requires Settled(dir, c) || Rest(c, 2) == 0
    ensures !Skips(dir, c, end, v)
    decreases end - c
  {
    if c < end {
      RoundDigits(c);
      SettledNext(dir, c);
      SettledSkipsNothing(dir, Next(dir, c), end, v);
    }
  }

  lemma FromDigits(v: nat)
    requires v < PAGE_LIMIT
    ensures var p := [Digit(v, 0), Digit(v, 1), Digit(v, 2)];
            AreDigits(p) && Value(Digit(v, 3), p, 3) == v
  {
    var p := [Digit(v, 0), Digit(v, 1), Digit(v, 2)];
    TopDigit(v);
    ValueOf(Digit(v, 3), p, 3);
    assert Prefix(v, 0) == v && Prefix(v, 1) == v / 512;
    assert Prefix(v, 2) == Prefix(v, 1) / 512 && Prefix(v, 3) == Prefix(v, 2) / 512;
  }
}
