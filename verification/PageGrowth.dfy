/** How many tables a mapping adds, and what a pool that runs dry leaves behind. */
module PageGrowth {
  import opened Basics
  import opened PageTableShape
  import opened PageSpace
  import opened PageMapping

  /** The tables on the way to the pages mapped, the root aside. */
  ghost function TablesOf(pages: map<nat, Entry>): set<Node> {
    set v: nat, level: nat | v in pages && 1 <= level <= 3 :: Node(level, Prefix(v, level))
  }

  /** What `IsSize` says; see `Unit` in Basics. */
  ghost predicate SizeIn(u: Unit, tables: set<Node>, n: nat) {
    n == |tables|
  }

  ghost predicate IsSize(tables: set<Node>, n: nat) {
    forall u: Unit :: SizeIn(u, tables, n)
  }

  /** The number of tables, as a number only: `SizeIs` ties it to the set. */
  ghost function Size(tables: set<Node>): nat {
    assert IsSize(tables, |tables|);
    var n: nat :| IsSize(tables, n);
    n
  }

  lemma SizeIs(tables: set<Node>)
    ensures Size(tables) == |tables|
  {
    assert SizeIn(Unit, tables, Size(tables));
  }

  /** The tables that a mapping of the pages of [start, end) has to add. */
  ghost function Missing(s: Space, start: nat, end: nat): set<Node> {
    Needed(start, end) - s.dir.Keys
  }

  /** The pool has too few pages for the tables that a mapping of [start, end) has to add. */
  ghost predicate Short(s: Space, start: nat, end: nat) {
    Size(Missing(s, start, end)) > |s.pool|
  }

  /** The pool has exactly as many pages as there are tables that a mapping of [start, end) has to add. */
  ghost predicate JustEnough(s: Space, start: nat, end: nat) {
    Size(Missing(s, start, end)) == |s.pool|
  }

  /** What `Balanced` says; see `Unit` in Basics. */
  ghost predicate BalancedIn(u: Unit, s0: Space, s: Space) {
    |s.dir| + |s.pool| == |s0.dir| + |s0.pool|
  }

  /** Every page that left the pool is a table of the tree, and every new table came from it. */
  ghost predicate Balanced(s0: Space, s: Space) {
    forall u: Unit :: BalancedIn(u, s0, s)
  }

  lemma BalancedStart(s: Space)
    ensures Balanced(s, s)
  {
  }

  lemma BalancedStep(s0: Space, s: Space, s': Space)
    requires Balanced(s0, s) && |s'.dir| + |s'.pool| == |s.dir| + |s.pool|
    ensures Balanced(s0, s')
  {
    assert BalancedIn(Unit, s0, s);
  }

  lemma {:induction false} SubsetSize(a: set<Node>, b: set<Node>)
    requires a <= b
    ensures |a| <= |b| && (|a| == |b| ==> a == b)
    decreases a
  {
    if a != {} {
      var n :| n in a;
      SubsetSize(a - {n}, b - {n});
    }
  }

  lemma UnionSize(a: set<Node>, b: set<Node>, c: set<Node>)
    requires a !! b && a + b <= c
    ensures |a| + |b| <= |c| && (|a| + |b| == |c| <==> c == a + b)
  {
    SubsetSize(a + b, c);
  }

  lemma LackSize(c: set<Node>, n: Node, a: set<Node>, b: set<Node>)
    requires c <= a + b && n in a + b && n !in c
    ensures |c| < |a| + |b - a|
  {
    SubsetSize(c + {n}, a + (b - a));
  }

  /** What a table that is not empty has under it. */
  lemma ChildOf(s: Space, n: Node) returns (c: Node)
    requires Inv(s) && Busy(s, n) && 1 <= n.level <= 3
    ensures c.Parent() == n && c.level == n.level - 1
    ensures if n.level == 1 then c.prefix in View(s) else c in s.dir
  {
    c :| c.Parent() == n && (c in s.dir || (c.level == 0 && c.prefix in View(s)));
    if c in s.dir {
      LevelOf(s, c);
    }
  }

  lemma {:induction false} PageUnder(s: Space, n: Node) returns (v: nat)
    requires Inv(s) && Trimmed(s) && 1 <= n.level <= 3 && n in s.dir
    ensures v in View(s) && Prefix(v, n.level) == n.prefix
    decreases n.level
  {
    TrimmedBusy(s, n);
    var c := ChildOf(s, n);
    if n.level == 1 {
      v := c.prefix;
      assert Prefix(v, 0) == v;
    } else {
      v := PageUnder(s, c);
    }
  }

  /** Every page mapped has its tables. */
  lemma TablesThere(s: Space)
    requires Inv(s)
    ensures {ROOT} + TablesOf(View(s)) <= s.dir.Keys
  {
    RootTable(s);
    forall v, level: nat | v in View(s) && 1 <= level <= 3 ensures Node(level, Prefix(v, level)) in s.dir {
      PathToPage(s, v);
    }
  }

  /** A table on the way to a page has the next one, or the page, under it. */
  lemma OnTheWayBusy(s: Space, v: nat, level: nat)
    requires Inv(s) && v in View(s) && 1 <= level <= 3
    ensures Busy(s, Node(level, Prefix(v, level)))
  {
    PathToPage(s, v);
    var c := Node(level - 1, Prefix(v, level - 1));
    assert Prefix(v, 0) == v;
    assert c.Parent() == Node(level, Prefix(v, level));
  }

  /** No table is empty exactly when the tables are those on the way to the pages mapped. */
  lemma TrimmedTables(s: Space)
    requires Inv(s)
    ensures Trimmed(s) <==> s.dir.Keys == {ROOT} + TablesOf(View(s))
  {
    TablesThere(s);
    if Trimmed(s) {
      forall n | n in s.dir && n != ROOT ensures n in TablesOf(View(s)) {
        LevelOf(s, n);
        var v := PageUnder(s, n);
        assert n == Node(n.level, Prefix(v, n.level));
      }
    }
    if s.dir.Keys == {ROOT} + TablesOf(View(s)) {
      forall n | n in s.dir && n != ROOT ensures Busy(s, n) {
        var v: nat, level: nat :| v in View(s) && 1 <= level <= 3 && n == Node(level, Prefix(v, level));
        OnTheWayBusy(s, v, level);
      }
    }
  }

  lemma TrimmedCount(s: Space)
    requires Inv(s)
    ensures 1 + Size(TablesOf(View(s))) <= |s.dir|
    ensures Trimmed(s) <==> |s.dir| == 1 + Size(TablesOf(View(s)))
  {
    SizeIs(TablesOf(View(s)));
    var tables := TablesOf(View(s));
    TablesThere(s);
    TrimmedTables(s);
    assert |{ROOT} + tables| == 1 + |tables| by {
      assert ROOT !in tables;
    }
    SubsetSize({ROOT} + tables, s.dir.Keys);
  }

  /** Without one table on the way to a page there is none below it. */
  lemma LeafBelow(s: Space, v: nat, level: nat)
    requires Inv(s) && 1 <= level <= 3 && Node(level, Prefix(v, level)) !in s.dir
    ensures Node(1, Prefix(v, 1)) !in s.dir
    decreases level
  {
    if level > 1 {
      var below := Node(level - 1, Prefix(v, level - 1));
      assert below.Parent() == Node(level, Prefix(v, level));
      LinkIsTable(s, below);
      LeafBelow(s, v, level - 1);
    }
  }

  lemma DoneBalances(s0: Space, s: Space, job: Job, cut: nat, res: bool)
    requires Done(s0, s, job, cut, res)
    ensures Balanced(s0, s)
  {
    BalancedStart(s0);
    DoneBalanced(s0, s0, s, job, cut, res);
  }

  lemma DoneBalanced(s0: Space, s: Space, s': Space, job: Job, cut: nat, res: bool)
    requires Balanced(s0, s) && Done(s, s', job, cut, res)
    ensures Balanced(s0, s')
  {
    assert DoneIn(Extent, s, s', job, cut, res);
    BalancedStep(s0, s, s');
  }

  lemma TablesOfRun(pages: map<nat, Entry>, job: Job, cut: nat)
    ensures TablesOf(pages + Run(job, cut)) == TablesOf(pages) + Needed(job.start, cut)
  {
    var all := pages + Run(job, cut);
    forall n | n in TablesOf(all) ensures n in TablesOf(pages) + Needed(job.start, cut) {
      var v: nat, level: nat :| v in all && 1 <= level <= 3 && n == Node(level, Prefix(v, level));
      assert v in pages || job.start <= v < cut;
    }
    forall n | n in Needed(job.start, cut) ensures n in TablesOf(all) {
      var v: nat, level: nat :| job.start <= v < cut && 1 <= level <= 3 && n == Node(level, Prefix(v, level));
      assert v in all;
    }
    forall n | n in TablesOf(pages) ensures n in TablesOf(all) {
      var v: nat, level: nat :| v in pages && 1 <= level <= 3 && n == Node(level, Prefix(v, level));
      assert v in all;
    }
  }

  lemma NeededThere(s: Space, start: nat, cut: nat)
    requires Inv(s) && forall v: nat | start <= v < cut :: v in View(s)
    ensures Needed(start, cut) <= s.dir.Keys
  {
    forall v: nat, level: nat | start <= v < cut && 1 <= level <= 3 ensures Node(level, Prefix(v, level)) in s.dir {
      PathToPage(s, v);
    }
  }

  /** The tables added hold all that the pages mapped need. */
  lemma AddedThere(s0: Space, s: Space, job: Job, cut: nat, res: bool)
    requires Done(s0, s, job, cut, res)
    ensures s0.dir.Keys + Missing(s0, job.start, cut) <= s.dir.Keys
  {
    DoneSoFar(s0, s, job, cut, res);
    NeededThere(s, job.start, cut);
  }

  lemma Enough(s0: Space, s: Space, job: Job, cut: nat, res: bool)
    requires Done(s0, s, job, cut, res)
    ensures |s.dir| == |s0.dir| + |s0.pool| - |s.pool|
    ensures Size(Missing(s0, job.start, cut)) <= |s0.pool| - |s.pool|
    ensures Size(Missing(s0, job.start, cut)) == |s0.pool| - |s.pool| <==>
            s.dir.Keys == s0.dir.Keys + Missing(s0, job.start, cut)
  {
    SizeIs(Missing(s0, job.start, cut));
    assert DoneIn(Extent, s0, s, job, cut, res);
    AddedThere(s0, s, job, cut, res);
    UnionSize(s0.dir.Keys, Missing(s0, job.start, cut), s.dir.Keys);
  }

  /** A pool run dry with a table still missing held too few pages. */
  lemma NotEnough(s0: Space, s: Space, job: Job, cut: nat, res: bool)
    requires job.start <= cut && Done(s0, s, job, cut, res) && s.pool == [] && Node(1, Prefix(cut, 1)) !in s.dir
    ensures Size(Missing(s0, job.start, cut + 1)) > |s0.pool|
  {
    SizeIs(Missing(s0, job.start, cut + 1));
    assert DoneIn(Extent, s0, s, job, cut, res);
    OnTheWay(job.start, cut + 1, cut, 1);
    LackSize(s.dir.Keys, Node(1, Prefix(cut, 1)), s0.dir.Keys, Needed(job.start, cut + 1));
    assert DoneIn(Growth, s0, s, job, cut, res);
  }

  lemma MissingMonotone(s: Space, start: nat, cut: nat, end: nat)
    requires cut <= end
    ensures Size(Missing(s, start, cut)) <= Size(Missing(s, start, end))
  {
    SizeIs(Missing(s, start, cut));
    SizeIs(Missing(s, start, end));
    NeededGrows(start, cut, end);
    SubsetSize(Missing(s, start, cut), Missing(s, start, end));
  }

  /** The job was done up to `cut`: to its end, or until the pool had no page for the tables of `cut`. */
  ghost predicate Ended(s: Space, job: Job, cut: nat, ok: bool) {
    && job.start <= cut <= job.end
    && (ok ==> cut == job.end)
    && (!ok ==> cut < job.end && s.pool == [] && Node(1, Prefix(cut, 1)) !in s.dir)
  }

  /** A job succeeds exactly when the pool has a page for each missing table, and otherwise stops at the first
      page whose tables are too many. */
  lemma SucceedsIff(s0: Space, s: Space, job: Job, cut: nat, res: bool, ok: bool)
    requires Done(s0, s, job, cut, res) && Ended(s, job, cut, ok)
    ensures ok <==> !Short(s0, job.start, job.end)
    ensures !ok ==> !Short(s0, job.start, cut) && Short(s0, job.start, cut + 1)
  {
    Enough(s0, s, job, cut, res);
    if !ok {
      NotEnough(s0, s, job, cut, res);
      MissingMonotone(s0, job.start, cut + 1, job.end);
    }
  }

  /** A job that used up the pool leaves no empty table behind exactly when the pages it mapped need them all. */
  lemma TrimmedIff(s0: Space, s: Space, job: Job, cut: nat, res: bool)
    requires Inv(s0) && Trimmed(s0) && job.start <= cut && Done(s0, s, job, cut, res) && s.pool == []
    ensures Trimmed(s) <==> JustEnough(s0, job.start, cut)
  {
    DoneSoFar(s0, s, job, cut, res);
    Enough(s0, s, job, cut, res);
    TrimmedTables(s0);
    TrimmedTables(s);
    TablesOfRun(View(s0), job, cut);
    assert {ROOT} + TablesOf(View(s)) == s0.dir.Keys + Missing(s0, job.start, cut);
  }

  lemma NothingTrimmed(s0: Space, s: Space, job: Job, res: bool)
    requires Inv(s0) && Trimmed(s0) && Done(s0, s, job, job.start, res) && s.pool == []
    ensures Trimmed(s) <==> s0.pool == []
  {
    TrimmedIff(s0, s, job, job.start, res);
    assert Missing(s0, job.start, job.start) == {};
    SizeIs({});
  }
}
