/** The nested page walk of kernel/mem/walk.c with the walker of
    kernel/mem/remove.c, proved against the page by page reference. */
module Walk {
  import opened PageTables
  import opened Buddy
  import opened Drops
  import opened Dyadic
  import opened FreeSet
  import opened Runs
  import opened Words

  const USER_LIM: nat := 0x8000_0000_0000

  /** The first page that is not visited when a loop at the given level runs
      from base while next < end. */
  function Stop(level: nat, base: nat, end: nat): nat
    requires level <= 3
  {
    if base < end then NextPage(level, (end - 1) / PAGE_SIZE) else base / PAGE_SIZE
  }

  /** The last page that holds a byte of the PAGE_SIZE bytes from va on. */
  function LastTouched(va: nat): nat {
    (va + PAGE_SIZE - 1) / PAGE_SIZE
  }

  /** The page of an address less than a page below a page boundary. */
  lemma LastByte(x: nat, end: nat)
    requires end % PAGE_SIZE == 0 && x < end <= x + PAGE_SIZE
    ensures x / PAGE_SIZE == end / PAGE_SIZE - 1
  {
  }

  lemma RemoveFits(va: nat)
    requires NextPage(3, LastTouched(va)) * PAGE_SIZE < WORD
    ensures va + PAGE_SIZE + PAGE_SIZE <= WORD
  {
    hide NextPage;
    LastByte(va + PAGE_SIZE - 1, (LastTouched(va) + 1) * PAGE_SIZE);
  }

  lemma RemoveEnds(va: nat)
    requires va + PAGE_SIZE + PAGE_SIZE <= WORD
    ensures RoundDown(va) / PAGE_SIZE == va / PAGE_SIZE
    ensures RoundDown(va) < RoundUp(va + PAGE_SIZE) - 1
    ensures (RoundUp(va + PAGE_SIZE) - 2) / PAGE_SIZE == LastTouched(va)
  {
    hide RoundDown, RoundUp;
    Rounds(va);
    Rounds(va + PAGE_SIZE);
    var end := RoundUp(va + PAGE_SIZE);
    LastByte(va + PAGE_SIZE - 1, end);
    LastByte(end - 2, end);
    LastByte(va, RoundDown(va) + PAGE_SIZE);
    LastByte(RoundDown(va), RoundDown(va) + PAGE_SIZE);
  }

  lemma RemoveStop(va: nat)
    requires NextPage(3, LastTouched(va)) * PAGE_SIZE < WORD
    ensures va + PAGE_SIZE + PAGE_SIZE <= WORD && RoundDown(va) / PAGE_SIZE == va / PAGE_SIZE
    ensures Stop(3, RoundDown(va), RoundUp(va + PAGE_SIZE) - 1) == NextPage(3, LastTouched(va))
  {
    hide NextPage, RoundDown, RoundUp, LastTouched;
    RemoveFits(va);
    RemoveEnds(va);
  }

  lemma DirectoryEnds(hi: nat)
    requires hi > 0 && hi % 512 == 0
    ensures NextPage(1, hi - 1) == hi
  {
    PagesAre();
  }

  lemma EndIs(va: nat)
    ensures var hi := NextPage(3, LastTouched(va));
            hi == ((va + 0xfff) / 0x80_0000_0000 + 1) * 0x800_0000 && va / PAGE_SIZE < hi && hi % 512 == 0
  {
    PagesAre();
    assert (va + 0xfff) / 0x1000 / 0x800_0000 == (va + 0xfff) / 0x80_0000_0000;
  }

  /** What a walk starts from, and the pages lo up to hi that it covers. */
  datatype Job = Job(mem: Mem, root: nat, level: map<nat, nat>, st: Start, lo: nat, hi: nat) {
    ghost predicate Ok() {
      lo <= hi && Tree(mem, root, level) && Droppable(st, Total())
    }

    /** Every reference that the walk drops, in order. */
    ghost function Total(): seq<nat> {
      Unmap(mem, root, lo, hi).dropped
    }
  }

  lemma OneStep(job: Job, n: nat)
    requires job.Ok() && job.lo <= n < job.hi
    ensures var o := Unmap(job.mem, job.root, job.lo, n);
            var f := UnmapPage(o.mem, job.root, n);
            && Unmap(job.mem, job.root, job.lo, n + 1) == Outcome(f.mem, o.dropped + f.dropped)
            && o.dropped + f.dropped <= job.Total()
    ensures Visited(job.mem, job.root, job.lo, n + 1) ==
            Visited(job.mem, job.root, job.lo, n) + if TableAt(job.mem, job.root, 0, n).Some? then [n] else []
  {
    hide UnmapPage, TableAt;
    var mem, root := job.mem, job.root;
    UnmapInTwo(mem, root, job.lo, n, n + 1);
    UnmapInTwo(mem, root, job.lo, n + 1, job.hi);
    VisitedInTwo(mem, root, job.lo, n, n + 1);
    var o := Unmap(mem, root, job.lo, n);
    OnePage(o.mem, root, n);
    assert Visited(mem, root, n + 1, n + 1) == [];
  }

  // ----- where the loops stop -----

  lemma PagesDivide(l: nat, n: nat)
    requires l <= 3
    ensures NextPage(l, n) % Pages(l) == 0
  {
    DivUnique(NextPage(l, n), Pages(l), n / Pages(l) + 1, 0);
  }

  /** A page lies in the span of its entry. */
  lemma InOwnSpan(l: nat, n: nat)
    requires l <= 3
    ensures n / Pages(l) * Pages(l) <= n < NextPage(l, n) == n / Pages(l) * Pages(l) + Pages(l)
  {
    QuotientAndRest(n, Pages(l));
    OneMore(n / Pages(l), Pages(l));
  }

  /** The multiple of p after the one that n has passed. */
  lemma NextMultiple(n: nat, p: nat, q: nat, m: nat)
    requires q * p <= n < m * p
    ensures q * p + p <= m * p
  {
    if q < m {
      Less(q, m, p);
    } else if m < q {
      Less(m, q, p);
    }
  }

  lemma NextPageMonotone(l: nat, n: nat, m: nat)
    requires l <= 3 && n <= m
    ensures NextPage(l, n) <= NextPage(l, m)
  {
    InOwnSpan(l, n);
    InOwnSpan(l, m);
    var p := Pages(l);
    OneMore(m / p, p);
    hide Pages, NextPage;
    NextMultiple(n, p, n / p, m / p + 1);
  }

  lemma TightSpan(n: nat, m: nat, p: nat)
    requires p > 0 && n < m && m % p == 0
    ensures n / p * p + p <= m
  {
    QuotientAndRest(n, p);
    QuotientAndRest(m, p);
    NextMultiple(n, p, n / p, m / p);
  }

  lemma NextPageTight(l: nat, n: nat, m: nat)
    requires l <= 3 && n < m && m % Pages(l) == 0
    ensures NextPage(l, n) <= m
  {
    InOwnSpan(l, n);
    hide Pages, NextPage;
    TightSpan(n, m, Pages(l));
  }

  /** While the loop runs, the entry at hand ends no later than Stop; when it
      ends, it has come there. */
  lemma LoopStops(l: nat, base: nat, end: nat, next: nat)
    requires l <= 3 && base <= next && base % PAGE_SIZE == 0 && next % PAGE_SIZE == 0
    requires next == base || next / PAGE_SIZE % Pages(l) == 0
    requires next / PAGE_SIZE <= Stop(l, base, end)
    ensures next < end ==> NextPage(l, next / PAGE_SIZE) <= Stop(l, base, end)
    ensures next >= end ==> next / PAGE_SIZE == Stop(l, base, end)
  {
    if next < end {
      NextPageMonotone(l, next / PAGE_SIZE, (end - 1) / PAGE_SIZE);
    } else if base < end {
      NextPageTight(l, (end - 1) / PAGE_SIZE, next / PAGE_SIZE);
    }
  }

  lemma LoopStarts(l: nat, base: nat, end: nat)
    requires l <= 3
    ensures base / PAGE_SIZE <= Stop(l, base, end)
  {
  }

  lemma Reassociate(q: nat, p: nat)
    ensures q * (ENTRIES * p) == (q * ENTRIES) * p
  {
  }

  lemma PagesNest(l: nat, m: nat)
    requires 0 < l <= 3 && m % Pages(l) == 0
    ensures m % Pages(l - 1) == 0
  {
    var q, p := m / Pages(l), Pages(l - 1);
    assert Pages(l) == ENTRIES * p;
    QuotientAndRest(m, Pages(l));
    Reassociate(q, p);
    DivUnique(m, p, q * ENTRIES, 0);
  }

  /** The children of an entry are walked to the end of that entry. */
  lemma ChildStops(l: nat, next: nat)
    requires 0 < l <= 3 && next % PAGE_SIZE == 0
    ensures Stop(l - 1, next, TableEnd(l, next)) == NextPage(l, next / PAGE_SIZE)
  {
    hide Pages, TableEnd, NextPage;
    var n := next / PAGE_SIZE;
    TableEndIs(l, next);
    var m := NextPage(l, n);
    assert (TableEnd(l, next) - 1) / PAGE_SIZE == m - 1;
    PagesDivide(l, n);
    PagesNest(l, m);
    NextPageTight(l - 1, m - 1, m);
  }

  /** Where the last span asked for reaches the top of the address space, the
      next address is below end whatever it comes after: the loop over the PML4
      has no end. */
  lemma TopNeverEnds(base: nat, end: nat, next: nat)
    requires base < end < WORD && next < WORD && Stop(3, base, end) * PAGE_SIZE >= WORD
    ensures (TableEnd(3, next) + 1) % WORD < end
  {
    TableEndIs(3, next);
    PagesAre();
    var span := 134217728 * PAGE_SIZE;
    assert NextPage(3, next / PAGE_SIZE) * PAGE_SIZE == (next / PAGE_SIZE / 134217728 + 1) * span;
    assert Stop(3, base, end) * PAGE_SIZE == ((end - 1) / PAGE_SIZE / 134217728 + 1) * span;
    hide Stop, NextPage, TableEnd;
  }

  /** Eight pages in use, with one reference each. */
  function EightPages(): Start {
    Start(State({}, set p: nat | p < 8 :: Block(p, 0)), seq(8, _ => Meta(1, 0, false)))
  }

  lemma EightPagesDrop()
    ensures Inv(EightPages().s, 8) && LiveIn(EightPages().s.live, EightPages().m)
    ensures Droppable(EightPages(), [5, 6])
  {
    InitInv(EightPages().s, 8);
    forall x | x in [5, 6] ensures Count([5, 6], x) == 1 {
      CountOne([5], 6, x);
      CountOne([], 5, x);
      assert [] + [5] == [5];
    }
    hide Count, Inv;
    assert Block(5, 0) in EightPages().s.live && Block(6, 0) in EightPages().s.live;
  }

  /** The tree of two pages satisfies all that unmapping the user half asks of
      tables and allocator. */
  lemma TwoPagesMayGo()
    ensures var job := Job(TwoPages(), 1, map[1 := 3, 2 := 2, 3 := 1, 4 := 0], EightPages(), 0, USER_LIM / PAGE_SIZE);
            job.Ok() && job.Total() == [5, 6] && Unshared(job.mem, job.root)
  {
    hide Tree, Unmap, Unshared, TwoPages, EightPages, Droppable;
    PagesAre();
    TwoPagesIsTree();
    TwoPagesUnshared();
    TwoPagesDrops(USER_LIM / PAGE_SIZE);
    EightPagesDrop();
  }

  lemma {:induction false} NoTableBelow(mem: Mem, root: nat, l: nat, p: nat)
    requires l <= 3 && TableAt(mem, root, l, p) == None
    ensures TableAt(mem, root, 0, p) == None && (l > 0 ==> TableAt(mem, root, l - 1, p) == None)
    ensures l >= 1 ==> TableAt(mem, root, 1, p) == None
  {
    if l > 1 {
      NoTableBelow(mem, root, l - 1, p);
    }
  }

  class Walker {
    const alloc: Allocator
    const tables: map<nat, array<nat>>
    ghost const arrays: set<array<nat>>
    const root: nat
    /** The frames whose reference was dropped, in order. */
    ghost var dropped: seq<nat>
    /** The pages for which pte_callback was called, in order. */
    ghost var visited: seq<nat>

    ghost predicate Shape() {
      && (forall f :: f in tables ==> tables[f] in arrays && tables[f].Length == ENTRIES)
      && (forall f, g :: f in tables && g in tables && f != g ==> tables[f] != tables[g])
    }

    constructor (alloc: Allocator, tables: map<nat, array<nat>>, root: nat)
      requires forall f :: f in tables ==> tables[f].Length == ENTRIES
      requires forall f, g :: f in tables && g in tables && f != g ==> tables[f] != tables[g]
      ensures this.alloc == alloc && this.tables == tables && this.root == root
      ensures Shape() && dropped == [] && visited == []
    {
      this.alloc, this.tables, this.root := alloc, tables, root;
      arrays := set f | f in tables :: tables[f];
      dropped, visited := [], [];
    }

    ghost function Mem(): (m: Mem)
      requires Shape()
      reads arrays
      ensures m.Keys == tables.Keys
    {
      map f | f in tables :: tables[f][..]
    }

    /** The walk has done what the reference does for the pages lo up to n. */
    ghost predicate Reached(job: Job, n: nat)
      reads this, arrays, alloc, alloc.pages, alloc.freeList, alloc.nodes
    {
      && Shape() && job.Ok() && job.lo <= n <= job.hi && root == job.root
      && Mem() == Unmap(job.mem, root, job.lo, n).mem
      && dropped == Unmap(job.mem, root, job.lo, n).dropped
      && visited == Visited(job.mem, root, job.lo, n)
      && Dropped(alloc, job.st, dropped)
    }

    /** *entry = 0 */
    method Clear(f: nat, i: nat)
      requires Shape() && f in tables && i < ENTRIES
      modifies tables[f]
      ensures Mem() == Cleared(old(Mem()), Slot(f, i))
    {
      tables[f][i] := 0;
      forall g | g in tables ensures Mem()[g] == Cleared(old(Mem()), Slot(f, i))[g] {
      }
    }

    /** In a walk that has come to page n, the tables on the way to any page are
        still the ones it started with. */
    lemma SameTables(job: Job, n: nat, l: nat, p: nat)
      requires Reached(job, n) && l <= 3
      ensures TableAt(Mem(), root, l, p) == TableAt(job.mem, root, l, p)
      ensures Tree(Mem(), root, job.level)
    {
      UnmapKeeps(job.mem, root, job.level, job.lo, n);
    }

    /** The frame of an entry that is about to be cleared: the struct page_info
        whose reference is dropped. */
    lemma LeafDrops(job: Job, n: nat)
      requires Reached(job, n) && n < job.hi && Leaf(Mem(), root, n).Some?
      ensures Shape() && Dropped(alloc, job.st, dropped)
      ensures var s := Leaf(Mem(), root, n).value;
              && s.frame in tables && s.index < ENTRIES
              && var x := Frame(tables[s.frame][s.index]);
                 x < |alloc.pages| && dropped + [x] <= job.Total() && Droppable(job.st, job.Total())
    {
      hide Allocator.Valid, TableAt, Leaf, Tree;
      SameTables(job, n, 0, n);
      LeafIsEntry(Mem(), root, job.level, n);
      OneStep(job, n);
      var s := Leaf(Mem(), root, n).value;
      assert Mem()[s.frame][s.index] == tables[s.frame][s.index];
      var x := Frame(tables[s.frame][s.index]);
      assert UnmapPage(Mem(), root, n).dropped == [x];
      assert job.Total()[|dropped|] == x;
      assert x in job.Total();
    }

    /** page_decref, and a note that the reference is gone. */
    method DropFrame(x: nat, ghost job: Job) returns (ok: bool)
      requires Dropped(alloc, job.st, dropped) && Droppable(job.st, job.Total())
      requires x < |alloc.pages| && dropped + [x] <= job.Total()
      modifies this`dropped, alloc`lists, alloc`live, alloc.freeList, alloc.nodes, alloc.pages
      ensures !ok ==> HoldsRun(FreeAfter(job.st, job.Total()))
      ensures ok ==> dropped == old(dropped) + [x] && Dropped(alloc, job.st, dropped)
    {
      hide Dropped, Droppable, FreeAfter, HoldsRun, Unmap;
      ok := DropRef(alloc, x, job.st, dropped, job.Total());
      if ok {
        dropped := dropped + [x];
      }
    }

    /** Drops the reference and clears the entry: what remove_pte and remove_pde
        do with the leaf that maps page n. */
    method RemoveLeaf(f: nat, i: nat, ghost n: nat, ghost job: Job) returns (ok: bool)
      requires Reached(job, n) && n < job.hi && Leaf(Mem(), root, n) == Some(Slot(f, i))
      modifies this`dropped, arrays, alloc`lists, alloc`live, alloc.freeList, alloc.nodes, alloc.pages
      ensures !ok ==> HoldsRun(FreeAfter(job.st, job.Total()))
      ensures ok ==>
                && Mem() == UnmapPage(old(Mem()), root, n).mem
                && dropped == old(dropped) + UnmapPage(old(Mem()), root, n).dropped
                && Dropped(alloc, job.st, dropped)
                && f in tables && i < ENTRIES && tables[f][i] == 0
    {
      hide Walker.Reached, Leaf, Dropped, Droppable, FreeAfter, HoldsRun, Frame, Unmap;
      LeafDrops(job, n);
      var x := Frame(tables[f][i]);
      assert Mem()[f][i] == tables[f][i];
      assert UnmapPage(Mem(), root, n) == Outcome(Cleared(Mem(), Slot(f, i)), [x]);
      hide UnmapPage, Cleared;
      ok := DropFrame(x, job);
      if ok {
        Clear(f, i);
      }
    }

    /** From page n, with the reference's step for it taken, on to the next. */
    lemma Arrive(job: Job, n: nat, m: Mem, d: seq<nat>, v: seq<nat>)
      requires job.Ok() && root == job.root && job.lo <= n < job.hi && Shape()
      requires m == Unmap(job.mem, root, job.lo, n).mem && d == Unmap(job.mem, root, job.lo, n).dropped
      requires v == Visited(job.mem, root, job.lo, n)
      requires Mem() == UnmapPage(m, root, n).mem && dropped == d + UnmapPage(m, root, n).dropped
      requires visited == v + if TableAt(job.mem, root, 0, n).Some? then [n] else []
      requires Dropped(alloc, job.st, dropped)
      ensures Reached(job, n + 1)
    {
      OneStep(job, n);
    }

    /** The walk and the reference agree on the page table entry for page n. */
    lemma PteIsLeaf(job: Job, n: nat, f: nat)
      requires Reached(job, n) && TableAt(job.mem, root, 0, n) == Some(f)
      ensures f in tables && tables[f].Length == ENTRIES
      ensures Leaf(Mem(), root, n) == if Present(tables[f][Index(0, n)]) then Some(Slot(f, Index(0, n))) else None
    {
      hide Dropped;
      SameTables(job, n, 0, n);
      TableAtLevel(Mem(), root, job.level, 0, n);
      assert Mem()[f][Index(0, n)] == tables[f][Index(0, n)];
    }

    /** remove_pte, called for the entry of page n. */
    method RemovePte(f: nat, i: nat, ghost n: nat, ghost job: Job) returns (ok: bool)
      requires Reached(job, n) && n < job.hi && TableAt(job.mem, root, 0, n) == Some(f) && i == Index(0, n)
      modifies this`dropped, this`visited, arrays, alloc`lists, alloc`live, alloc.freeList, alloc.nodes, alloc.pages
      ensures if ok then Reached(job, n + 1) else HoldsRun(FreeAfter(job.st, job.Total()))
    {
      hide Leaf, Dropped, HoldsRun, FreeAfter, TableAt, Unmap, Droppable, Tree;
      PteIsLeaf(job, n, f);
      ghost var m, d, v := Mem(), dropped, visited;
      ok := true;
      if Present(tables[f][i]) {
        ok := RemoveLeaf(f, i, n, job);
        if !ok {
          return;
        }
      }
      visited := visited + [n];
      Arrive(job, n, m, d, v);
    }

    /** The walk and the reference agree on the page directory entry for page n. */
    lemma PdeIsLeaf(job: Job, n: nat, d: nat)
      requires Reached(job, n) && TableAt(job.mem, root, 1, n) == Some(d)
      ensures d in tables && tables[d].Length == ENTRIES
      ensures var e := tables[d][Index(1, n)];
              Present(e) && Huge(e) ==>
                Leaf(Mem(), root, n) == Some(Slot(d, Index(1, n))) && TableAt(job.mem, root, 0, n) == None
    {
      hide Dropped;
      SameTables(job, n, 0, n);
      SameTables(job, n, 1, n);
      TableAtLevel(Mem(), root, job.level, 1, n);
      assert Mem()[d][Index(1, n)] == tables[d][Index(1, n)];
    }

    /** remove_pde, called for the entry of page n. */
    method RemovePde(d: nat, i: nat, ghost n: nat, ghost job: Job) returns (ok: bool)
      requires Reached(job, n) && n < job.hi && TableAt(job.mem, root, 1, n) == Some(d) && i == Index(1, n)
      requires d in tables && i < tables[d].Length
      modifies this`dropped, arrays, alloc`lists, alloc`live, alloc.freeList, alloc.nodes, alloc.pages
      ensures !ok ==> HoldsRun(FreeAfter(job.st, job.Total()))
      ensures ok ==> if Present(old(tables[d][i])) && Huge(old(tables[d][i]))
                     then Reached(job, n + 1) && tables[d][i] == 0
                     else Reached(job, n) && tables[d][i] == old(tables[d][i])
    {
      hide Leaf, Dropped, HoldsRun, FreeAfter, TableAt, Unmap, Droppable, Tree;
      PdeIsLeaf(job, n, d);
      ghost var m, ds, v := Mem(), dropped, visited;
      ok := true;
      if Present(tables[d][i]) && Huge(tables[d][i]) {
        ok := RemoveLeaf(d, i, n, job);
        if ok {
          Arrive(job, n, m, ds, v);
        }
      }
    }

    lemma SkipOne(job: Job, l: nat, n: nat, k: nat, f: nat, p: nat)
      requires Reached(job, k) && 0 < l <= 3 && n <= p < NextPage(l, n)
      requires TableAt(job.mem, root, l, n) == Some(f) && f in tables && tables[f].Length == ENTRIES
      requires var e := tables[f][Index(l, n)]; !(Present(e) && !Huge(e)) && (l == 1 ==> !Present(e))
      ensures Leaf(Mem(), root, p) == None && TableAt(job.mem, root, 0, p) == None
    {
      hide Dropped, Unmap, Visited, Index, NextPage, Job.Ok;
      assert Mem()[f][Index(l, n)] == tables[f][Index(l, n)];
      SameEntry(job.mem, root, l, n, p);
      SameTables(job, k, l, p);
      SameTables(job, k, 1, p);
      SameTables(job, k, 0, p);
      NoTableBelow(Mem(), root, l - 1, p);
    }

    /** An entry that leads to no table and maps nothing itself: the reference
        finds nothing to do on the pages that it stands for. */
    lemma Skip(job: Job, l: nat, n: nat, k: nat, f: nat)
      requires Reached(job, k) && 0 < l <= 3 && n <= k <= NextPage(l, n) <= job.hi
      requires TableAt(job.mem, root, l, n) == Some(f) && f in tables && tables[f].Length == ENTRIES
      requires var e := tables[f][Index(l, n)]; !(Present(e) && !Huge(e)) && (l == 1 ==> !Present(e))
      ensures Reached(job, NextPage(l, n))
    {
      hide Dropped, TableAt, Index, Unmap, Visited, Job.Ok;
      var stop := NextPage(l, n);
      forall p: nat | k <= p < stop
        ensures Leaf(Mem(), root, p) == None && TableAt(job.mem, root, 0, p) == None
      {
        SkipOne(job, l, n, k, f, p);
      }
      UnmapNothing(Mem(), root, k, stop);
      VisitNothing(job.mem, root, k, stop);
      UnmapInTwo(job.mem, root, job.lo, k, stop);
      VisitedInTwo(job.mem, root, job.lo, k, stop);
    }

    lemma TableIn(job: Job, n: nat, l: nat, p: nat, f: nat)
      requires Reached(job, n) && l <= 3 && TableAt(job.mem, root, l, p) == Some(f)
      ensures f in tables && tables[f].Length == ENTRIES
    {
      hide Dropped;
      TableAtLevel(job.mem, root, job.level, l, p);
      UnmapKeeps(job.mem, root, job.level, job.lo, n);
    }

    /** The table that an entry refers to is the one below for all the pages that
        the entry stands for. */
    lemma ChildTable(job: Job, l: nat, n: nat, f: nat, p: nat)
      requires Reached(job, n) && 0 < l <= 3 && n <= p < NextPage(l, n)
      requires TableAt(job.mem, root, l, n) == Some(f) && f in tables && tables[f].Length == ENTRIES
      requires var e := tables[f][Index(l, n)]; Present(e) && !Huge(e)
      ensures TableAt(job.mem, root, l - 1, p) == Some(Frame(tables[f][Index(l, n)]))
    {
      hide Dropped, Unmap, Visited, Index, NextPage, Present, Huge, Frame, Job.Ok;
      assert Mem()[f][Index(l, n)] == tables[f][Index(l, n)];
      SameTables(job, n, l, n);
      SameTables(job, n, l - 1, n);
      SameEntry(job.mem, root, l, n, p);
    }

    /** The bounds under which a walk of one table is asked for: the table is the
        one at its level for every page, and no address wraps round. */
    ghost predicate MayWalk(job: Job, l: nat, f: nat, base: nat, end: nat)
      requires l <= 3
    {
      && base % PAGE_SIZE == 0 && Stop(l, base, end) <= job.hi && Stop(l, base, end) * PAGE_SIZE < WORD
      && forall p: nat :: base / PAGE_SIZE <= p < Stop(l, base, end) ==> TableAt(job.mem, root, l, p) == Some(f)
    }

    /** The address that the loop at the given level goes on to. */
    lemma NextAddress(l: nat, base: nat, end: nat, next: nat)
      requires l <= 3 && base <= next < end && base % PAGE_SIZE == 0 && next % PAGE_SIZE == 0
      requires next == base || next / PAGE_SIZE % Pages(l) == 0
      requires next / PAGE_SIZE <= Stop(l, base, end) && Stop(l, base, end) * PAGE_SIZE < WORD
      ensures var next' := (TableEnd(l, next) + 1) % WORD;
              && next' % PAGE_SIZE == 0 && base <= next < next' && next' / PAGE_SIZE % Pages(l) == 0
              && next' / PAGE_SIZE == NextPage(l, next / PAGE_SIZE) <= Stop(l, base, end)
      ensures EntryIndex(l, next) == Index(l, next / PAGE_SIZE)
    {
      hide NextPage, TableEnd, EntryIndex, Index, Stop, Pages;
      EntryIndexIs(l, next);
      TableEndIs(l, next);
      LoopStops(l, base, end, next);
      PagesDivide(l, next / PAGE_SIZE);
      assert (TableEnd(l, next) + 1) % WORD == NextPage(l, next / PAGE_SIZE) * PAGE_SIZE;
    }

    lemma NextIsNext(n: nat)
      ensures NextPage(0, n) == n + 1
    {
    }

    method PtblWalkRange(ptbl: nat, base: nat, end: nat, ghost job: Job) returns (ok: bool)
      requires Reached(job, base / PAGE_SIZE) && MayWalk(job, 0, ptbl, base, end)
      modifies this`dropped, this`visited, arrays, alloc`lists, alloc`live, alloc.freeList, alloc.nodes, alloc.pages
      ensures if ok then Reached(job, Stop(0, base, end)) else HoldsRun(FreeAfter(job.st, job.Total()))
    {
      hide Walker.Reached, HoldsRun, FreeAfter, TableAt, Stop, NextPage, EntryIndex, TableEnd;
      var next := base;
      LoopStarts(0, base, end);
      while next < end
        invariant base <= next && next % PAGE_SIZE == 0 && next / PAGE_SIZE <= Stop(0, base, end)
        invariant next == base || next / PAGE_SIZE % Pages(0) == 0
        invariant Reached(job, next / PAGE_SIZE)
        decreases end - next
      {
        NextAddress(0, base, end, next);
        NextIsNext(next / PAGE_SIZE);
        ok := RemovePte(ptbl, EntryIndex(0, next), next / PAGE_SIZE, job);
        if !ok {
          return;
        }
        next := (TableEnd(0, next) + 1) % WORD;
      }
      LoopStops(0, base, end, next);
      ok := true;
    }

    lemma ChildMayWalk(job: Job, l: nat, n: nat, f: nat, next: nat)
      requires Reached(job, n) && 0 < l <= 3 && next % PAGE_SIZE == 0 && n == next / PAGE_SIZE
      requires NextPage(l, n) <= job.hi && NextPage(l, n) * PAGE_SIZE < WORD
      requires TableAt(job.mem, root, l, n) == Some(f) && f in tables && tables[f].Length == ENTRIES
      requires var e := tables[f][Index(l, n)]; Present(e) && !Huge(e)
      ensures MayWalk(job, l - 1, Frame(tables[f][Index(l, n)]), next, TableEnd(l, next))
      ensures Stop(l - 1, next, TableEnd(l, next)) == NextPage(l, n)
    {
      ChildStops(l, next);
      var k, g := l - 1, Frame(tables[f][Index(l, n)]);
      forall p: nat | n <= p < NextPage(l, n) ensures TableAt(job.mem, root, k, p) == Some(g) {
        ChildTable(job, l, n, f, p);
      }
    }

    lemma ZeroIsAbsent()
      ensures !Present(0)
    {
    }

    method PdirWalkRange(pdir: nat, base: nat, end: nat, ghost job: Job) returns (ok: bool)
      requires Reached(job, base / PAGE_SIZE) && MayWalk(job, 1, pdir, base, end)
      modifies this`dropped, this`visited, arrays, alloc`lists, alloc`live, alloc.freeList, alloc.nodes, alloc.pages
      ensures if ok then Reached(job, Stop(1, base, end)) else HoldsRun(FreeAfter(job.st, job.Total()))
    {
      hide Walker.Reached, HoldsRun, FreeAfter, TableAt, Stop, NextPage, EntryIndex, TableEnd;
      var next := base;
      LoopStarts(1, base, end);
      while next < end
        invariant base <= next && next % PAGE_SIZE == 0 && next / PAGE_SIZE <= Stop(1, base, end)
        invariant next == base || next / PAGE_SIZE % Pages(1) == 0
        invariant Reached(job, next / PAGE_SIZE)
        decreases end - next
      {
        ghost var n := next / PAGE_SIZE;
        NextAddress(1, base, end, next);
        TableIn(job, n, 1, n, pdir);
        var i := EntryIndex(1, next);
        ghost var huge := Present(tables[pdir][i]) && Huge(tables[pdir][i]);
        ok := RemovePde(pdir, i, n, job);
        if !ok {
          return;
        }
        var e := tables[pdir][i];
        if Present(e) && !Huge(e) {
          ChildMayWalk(job, 1, n, pdir, next);
          ok := PtblWalkRange(Frame(e), next, TableEnd(1, next), job);
          if !ok {
            return;
          }
        } else {
          ZeroIsAbsent();
          Skip(job, 1, n, if huge then n + 1 else n, pdir);
        }
        next := (TableEnd(1, next) + 1) % WORD;
      }
      LoopStops(1, base, end, next);
      ok := true;
    }

    method PdptWalkRange(pdpt: nat, base: nat, end: nat, ghost job: Job) returns (ok: bool)
      requires Reached(job, base / PAGE_SIZE) && MayWalk(job, 2, pdpt, base, end)
      modifies this`dropped, this`visited, arrays, alloc`lists, alloc`live, alloc.freeList, alloc.nodes, alloc.pages
      ensures if ok then Reached(job, Stop(2, base, end)) else HoldsRun(FreeAfter(job.st, job.Total()))
    {
      hide Walker.Reached, HoldsRun, FreeAfter, TableAt, Stop, NextPage, EntryIndex, TableEnd;
      var next := base;
      LoopStarts(2, base, end);
      while next < end
        invariant base <= next && next % PAGE_SIZE == 0 && next / PAGE_SIZE <= Stop(2, base, end)
        invariant next == base || next / PAGE_SIZE % Pages(2) == 0
        invariant Reached(job, next / PAGE_SIZE)
        decreases end - next
      {
        ghost var n := next / PAGE_SIZE;
        NextAddress(2, base, end, next);
        TableIn(job, n, 2, n, pdpt);
        var e := tables[pdpt][EntryIndex(2, next)];
        if Present(e) && !Huge(e) {
          ChildMayWalk(job, 2, n, pdpt, next);
          ok := PdirWalkRange(Frame(e), next, TableEnd(2, next), job);
          if !ok {
            return;
          }
        } else {
          Skip(job, 2, n, n, pdpt);
        }
        next := (TableEnd(2, next) + 1) % WORD;
      }
      LoopStops(2, base, end, next);
      ok := true;
    }

    method Pml4WalkRange(pml4: nat, base: nat, end: nat, ghost job: Job) returns (ok: bool)
      requires Reached(job, base / PAGE_SIZE) && MayWalk(job, 3, pml4, base, end)
      modifies this`dropped, this`visited, arrays, alloc`lists, alloc`live, alloc.freeList, alloc.nodes, alloc.pages
      ensures if ok then Reached(job, Stop(3, base, end)) else HoldsRun(FreeAfter(job.st, job.Total()))
    {
      hide Walker.Reached, HoldsRun, FreeAfter, TableAt, Stop, NextPage, EntryIndex, TableEnd;
      var next := base;
      LoopStarts(3, base, end);
      while next < end
        invariant base <= next && next % PAGE_SIZE == 0 && next / PAGE_SIZE <= Stop(3, base, end)
        invariant next == base || next / PAGE_SIZE % Pages(3) == 0
        invariant Reached(job, next / PAGE_SIZE)
        decreases end - next
      {
        ghost var n := next / PAGE_SIZE;
        NextAddress(3, base, end, next);
        TableIn(job, n, 3, n, pml4);
        var e := tables[pml4][EntryIndex(3, next)];
        if Present(e) && !Huge(e) {
          ChildMayWalk(job, 3, n, pml4, next);
          ok := PdptWalkRange(Frame(e), next, TableEnd(3, next), job);
          if !ok {
            return;
          }
        } else {
          Skip(job, 3, n, n, pml4);
        }
        next := (TableEnd(3, next) + 1) % WORD;
      }
      LoopStops(3, base, end, next);
      ok := true;
    }

    // ----- the entry points -----

    /** What unmapping the pages lo up to hi starts from now. */
    ghost function NewJob(level: map<nat, nat>, lo: nat, hi: nat): Job
      requires Shape()
      reads this, arrays, alloc, alloc.pages
    {
      Job(Mem(), root, level, Start(alloc.Now(), alloc.Metas()), lo, hi)
    }

    /** A walker that has not walked yet, over a tree whose leaves account for
        the references that unmapping lo up to hi will drop. */
    ghost predicate Ready(level: map<nat, nat>, lo: nat, hi: nat)
      reads this, arrays, alloc, alloc.pages, alloc.freeList, alloc.nodes
    {
      && Shape() && dropped == [] && visited == [] && alloc.Valid()
      && NewJob(level, lo, hi).Ok()
    }

    lemma ReadyHasShape(level: map<nat, nat>, lo: nat, hi: nat)
      requires Ready(level, lo, hi)
      ensures Shape()
    {
    }

    lemma ReadyIsReached(level: map<nat, nat>, lo: nat, hi: nat)
      requires Ready(level, lo, hi)
      ensures Reached(NewJob(level, lo, hi), lo)
    {
      NothingDropped(alloc, Start(alloc.Now(), alloc.Metas()));
    }

    lemma RoundedEnd(va: nat, size: nat)
      requires 0 < va + size && va + size + PAGE_SIZE <= WORD
      ensures RoundDown(va) % PAGE_SIZE == 0
      ensures 0 < RoundUp(va + size) && (RoundUp(va + size) - 1) % WORD == RoundUp(va + size) - 1
    {
      Rounds(va);
      Rounds(va + size);
    }

    lemma RootMayWalk(job: Job, base: nat, end: nat)
      requires base % PAGE_SIZE == 0 && job.root == root && job.hi == Stop(3, base, end) && job.hi * PAGE_SIZE < WORD
      ensures MayWalk(job, 3, root, base, end)
    {
    }

    /** After a walk that ends at a page directory's end, no page of the range is
        mapped, and in a tree without shared tables every page beyond is kept. */
    lemma RangeGone(job: Job)
      requires Reached(job, job.hi) && job.lo < job.hi && job.hi % 512 == 0
      ensures forall p: nat :: job.lo <= p < job.hi ==> LookUp(Mem(), root, p) == None
      ensures Unshared(job.mem, root) ==> KeptFrom(job.mem, Mem(), root, job.hi)
    {
      hide Dropped, Tree, Leaf, LookUp, Unmap, TableAt, NextPage;
      forall p: nat | job.lo <= p < job.hi ensures LookUp(Mem(), root, p) == None {
        UnmapLeavesNoLeaf(job.mem, root, job.level, job.lo, job.hi, p);
        LeafIsLookUp(Mem(), root, p);
      }
      if Unshared(job.mem, root) {
        DirectoryEnds(job.hi);
        BeyondAreKept(job.mem, root, job.level, job.lo, job.hi, job.hi);
      }
    }

    lemma ReachedHoldsNoRun(job: Job)
      requires Reached(job, job.hi)
      ensures !HoldsRun(FreeAfter(job.st, job.Total()))
    {
      DroppedHoldsNoRun(alloc, job.st, dropped);
    }

    /** unmap_page_range with walk_page_range. The pages unmapped start with the
        one that holds va, and run to the end of the PML4 entry of the last page
        asked for; this fails only if they free too long a run of pages. */
    method UnmapPageRange(va: nat, size: nat, ghost level: map<nat, nat>) returns (ok: bool)
      requires 0 < va + size && va + size + PAGE_SIZE <= WORD
      requires Stop(3, RoundDown(va), RoundUp(va + size) - 1) * PAGE_SIZE < WORD
      requires Ready(level, RoundDown(va) / PAGE_SIZE, Stop(3, RoundDown(va), RoundUp(va + size) - 1))
      modifies this`dropped, this`visited, arrays, alloc`lists, alloc`live, alloc.freeList, alloc.nodes, alloc.pages
      ensures var job := old(NewJob(level, RoundDown(va) / PAGE_SIZE, Stop(3, RoundDown(va), RoundUp(va + size) - 1)));
              && (ok <==> !HoldsRun(FreeAfter(job.st, job.Total())))
              && (ok ==> Reached(job, job.hi))
    {
      hide Walker.Reached, HoldsRun, FreeAfter, Stop, RoundDown, RoundUp, Walker.MayWalk, Job.Ok;
      var base := RoundDown(va);
      var end := (RoundUp(va + size) - 1) % WORD;
      ghost var job := NewJob(level, base / PAGE_SIZE, Stop(3, base, end));
      RoundedEnd(va, size);
      RootMayWalk(job, base, end);
      ReadyIsReached(level, base / PAGE_SIZE, Stop(3, base, end));
      ok := Pml4WalkRange(root, base, end, job);
      if ok {
        ReachedHoldsNoRun(job);
      }
    }

    /** page_remove: of the page that holds va, and of the next one as well if va
        is not aligned, up to the end of the last one's PML4 entry. */
    method PageRemove(va: nat, ghost level: map<nat, nat>) returns (ok: bool)
      requires NextPage(3, LastTouched(va)) * PAGE_SIZE < WORD
      requires Ready(level, va / PAGE_SIZE, NextPage(3, LastTouched(va)))
      modifies this`dropped, this`visited, arrays, alloc`lists, alloc`live, alloc.freeList, alloc.nodes, alloc.pages
      ensures var job := old(NewJob(level, va / PAGE_SIZE, NextPage(3, LastTouched(va))));
              && (ok <==> !HoldsRun(FreeAfter(job.st, job.Total())))
              && (ok ==> Reached(job, job.hi))
      ensures var hi := ((va + 0xfff) / 0x80_0000_0000 + 1) * 0x800_0000;
              && (ok ==> forall p: nat :: va / 0x1000 <= p < hi ==> LookUp(Mem(), root, p) == None)
              && (ok && Unshared(old(Mem()), root) ==> KeptFrom(old(Mem()), Mem(), root, hi))
    {
      hide Walker.Reached, Walker.Ready, HoldsRun, FreeAfter, NextPage;
      ReadyHasShape(level, va / PAGE_SIZE, NextPage(3, LastTouched(va)));
      ghost var job := NewJob(level, va / PAGE_SIZE, NextPage(3, LastTouched(va)));
      RemoveStop(va);
      ok := UnmapPageRange(va, PAGE_SIZE, level);
      if ok {
        EndIs(va);
        RangeGone(job);
      }
    }

    /** Every page has lost one reference for each leaf entry of the range that
        pointed at it, and exactly the blocks that lost their last one so are no
        longer in use. */
    ghost predicate Settled(job: Job)
      reads alloc, alloc.pages
    {
      var ss := Leaves(job.mem, job.root, job.lo, job.hi);
      && |job.st.m| == |alloc.pages|
      && (forall x :: 0 <= x < |alloc.pages| ==>
            alloc.pages[x].pp_ref == job.st.m[x].ref - |PointingAt(job.mem, ss, x)|)
      && forall b :: b in alloc.live <==>
           b in job.st.s.live &&
           !(b.start < |alloc.pages| && 0 < job.st.m[b.start].ref == |PointingAt(job.mem, ss, b.start)|)
    }

    lemma UserStop()
      ensures RoundDown(0) == 0 && RoundUp(USER_LIM) == USER_LIM
      ensures Stop(3, 0, USER_LIM - 1) == USER_LIM / PAGE_SIZE == 0x8_0000_0000
    {
      PagesAre();
    }

    lemma ReachedSettles(job: Job)
      requires Reached(job, job.hi)
      ensures Settled(job)
    {
      var ss := Leaves(job.mem, job.root, job.lo, job.hi);
      forall x: nat ensures Count(dropped, x) == |PointingAt(job.mem, ss, x)| {
        DropsPerEntry(job.mem, root, job.level, job.lo, job.hi, x);
      }
      hide Tree, Leaf, Unmap, TableAt, Visited, Leaves, PointingAt, Allocator.Valid, Count;
    }

    /** unmap_user_pages: no page of the lower half is mapped any more, and, in
        a tree without shared tables, every page of the upper half is mapped by
        the same entry with the same contents. */
    method UnmapUserPages(ghost level: map<nat, nat>) returns (ok: bool)
      requires Ready(level, 0, USER_LIM / PAGE_SIZE)
      modifies this`dropped, this`visited, arrays, alloc`lists, alloc`live, alloc.freeList, alloc.nodes, alloc.pages
      ensures var job := old(NewJob(level, 0, USER_LIM / PAGE_SIZE));
              && (ok <==> !HoldsRun(FreeAfter(job.st, job.Total())))
              && (ok ==> Reached(job, job.hi))
      ensures ok ==> forall p: nat :: p < 0x8_0000_0000 ==> LookUp(Mem(), root, p) == None
      ensures ok && Unshared(old(Mem()), root) ==> KeptFrom(old(Mem()), Mem(), root, 0x8_0000_0000)
      ensures ok ==> Settled(old(NewJob(level, 0, USER_LIM / PAGE_SIZE)))
    {
      hide Walker.Reached, Walker.Ready, HoldsRun, FreeAfter, Walker.Settled, Stop;
      ReadyHasShape(level, 0, USER_LIM / PAGE_SIZE);
      UserStop();
      ghost var job := NewJob(level, 0, USER_LIM / PAGE_SIZE);
      ok := UnmapPageRange(0, USER_LIM, level);
      if ok {
        RangeGone(job);
        ReachedSettles(job);
      }
    }
  }
}
